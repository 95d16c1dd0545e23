/** Printing a number (lib/printfmt.c) and reading it back (lib/string.c). */
module NumberFormat {
  const TWO_31 := 0x8000_0000
  const TWO_32 := 0x1_0000_0000

  // ---- printing ----

  function DigitChar(d: nat): char
    requires d < 16
  {
    "0123456789abcdef"[d]
  }

  function LastDigit(n: nat, base: nat): (d: nat)
    requires 2 <= base <= 16
    ensures d < base && (n < base ==> d == n)
  {
    n % base
  }

  function HigherDigits(n: nat, base: nat): (h: nat)
    requires 2 <= base <= 16
    ensures n == h * base + LastDigit(n, base) && (n > 0 ==> h < n)
  {
    Smaller(n / base, base, n % base);
    n / base
  }

  lemma Smaller(h: nat, base: nat, d: nat)
    requires 2 <= base
    ensures h * base + d > 0 ==> h < h * base + d
  {
    assert h * base == h + h * (base - 1);
    assert h * (base - 1) >= h || h == 0;
  }

  /** The numeral of `n`, most significant digit first. */
  function Digits(n: nat, base: nat): string
    requires 2 <= base <= 16
  {
    if n < base then [DigitChar(n)] else Digits(HigherDigits(n, base), base) + [DigitChar(LastDigit(n, base))]
  }

  function Repeat(c: char, k: nat): string {
    seq(k, _ => c)
  }

  function PadCount(width: int, digits: nat): nat {
    if width > digits then width - digits else 0
  }

  /** A numeral padded on the left to the width; a numeral wider than that is not cut. */
  function Padded(n: nat, base: nat, width: int, padc: char): (s: string)
    requires 2 <= base <= 16
    ensures |s| == if width > |Digits(n, base)| then width else |Digits(n, base)|
  {
    Repeat(padc, PadCount(width, |Digits(n, base)|)) + Digits(n, base)
  }

  lemma PaddedStep(num: nat, base: nat, width: int, padc: char)
    requires 2 <= base <= 16 && num >= base
    ensures Padded(num, base, width, padc)
            == Padded(HigherDigits(num, base), base, width - 1, padc) + [DigitChar(LastDigit(num, base))]
  {
    hide DigitChar, LastDigit, HigherDigits;
    var higher := Digits(HigherDigits(num, base), base);
    assert PadCount(width, |higher| + 1) == PadCount(width - 1, |higher|);
  }

  /** printnum: the higher digits first, with the width reduced by one for each digit, and the padding
      before the highest. `out` is what has been put before. */
  method PrintNum(out: string, num: nat, base: nat, width: int, padc: char) returns (out': string)
    requires 2 <= base <= 16
    ensures out' == out + Padded(num, base, width, padc)
    decreases num
  {
    hide Padded, DigitChar, Repeat, LastDigit, HigherDigits;
    if num >= base {
      PaddedStep(num, base, width, padc);
      out' := PrintNum(out, HigherDigits(num, base), base, width - 1, padc);
    } else {
      out' := PutPadding(out, width, padc);
      PaddedDigit(num, base, width, padc);
    }
    out' := out' + [DigitChar(LastDigit(num, base))];
  }

  lemma PaddedDigit(num: nat, base: nat, width: int, padc: char)
    requires num < base && 2 <= base <= 16
    ensures Padded(num, base, width, padc) == Repeat(padc, PadCount(width, 1)) + [DigitChar(LastDigit(num, base))]
  {
    hide DigitChar, LastDigit, HigherDigits;
  }

  method PutPadding(out: string, width: int, padc: char) returns (out': string)
    ensures out' == out + Repeat(padc, PadCount(width, 1))
  {
    out' := out;
    var w := width - 1;
    ghost var k := 0;
    while w > 0
      invariant out' == out + Repeat(padc, k) && k + (if w > 0 then w else 0) == PadCount(width, 1)
    {
      out' := out' + [padc];
      w := w - 1;
      k := k + 1;
      assert Repeat(padc, k) == Repeat(padc, k - 1) + [padc];
    }
  }

  /** The %d conversion of an int: the sign first, then the padded magnitude. */
  method FormatSigned(value: int, width: int, padc: char) returns (out: string)
    requires -TWO_31 <= value < TWO_31
    ensures out == SignedText(value, width, padc)
  {
    hide Padded;
    out := "";
    var num := value;
    if num < 0 {
      out := out + ['-'];
      num := -num;
    }
    out := PrintNum(out, num, 10, width, padc);
  }

  function SignedText(value: int, width: int, padc: char): string {
    if value < 0 then ['-'] + Padded(-value, 10, width, padc) else Padded(value, 10, width, padc)
  }

  // ---- parsing ----

  /** The character at a position of a C string, which ends with a zero. */
  function CharAt(s: string, i: nat): char {
    if i < |s| then s[i] else '\0'
  }

  predicate Blank(c: char) {
    c == ' ' || c == '\t'
  }

  /** The value of a letter or digit, -1 for any other character. */
  function DigitOf(c: char): int {
    if '0' <= c <= '9' then c as int - '0' as int
    else if 'a' <= c <= 'z' then c as int - 'a' as int + 10
    else if 'A' <= c <= 'Z' then c as int - 'A' as int + 10
    else -1
  }

  predicate IsDigit(c: char, base: int) {
    0 <= DigitOf(c) < base
  }

  function SkipBlanks(s: string, i: nat): (j: nat)
    requires i <= |s|
    ensures i <= j <= |s| && !Blank(CharAt(s, j)) && forall k | i <= k < j :: Blank(s[k])
    decreases |s| - i
  {
    if i < |s| && Blank(s[i]) then SkipBlanks(s, i + 1) else i
  }

  function DigitEnd(s: string, i: nat, base: int): (j: nat)
    requires i <= |s|
    ensures i <= j <= |s| && !IsDigit(CharAt(s, j), base) && forall k | i <= k < j :: IsDigit(s[k], base)
    decreases |s| - i
  {
    if i < |s| && IsDigit(s[i], base) then DigitEnd(s, i + 1, base) else i
  }

  /** The value of a numeral. */
  function Value(t: string, base: int): int {
    if t == "" then 0 else Value(t[..|t| - 1], base) * base + DigitOf(t[|t| - 1])
  }

  /** The 32-bit two's complement number that an integer wraps to. */
  function Wrap(x: int): (r: int)
    ensures -TWO_31 <= r < TWO_31 && (-TWO_31 <= x < TWO_31 ==> r == x)
  {
    (x + TWO_31) % TWO_32 - TWO_31
  }

  lemma WrapStep(x: int, base: int, d: int)
    ensures Wrap(Wrap(x) * base + d) == Wrap(x * base + d)
  {
    var k := (x + TWO_31) / TWO_32;
    assert Wrap(x) == x - k * TWO_32;
    assert Wrap(x) * base + d == x * base + d - (k * base) * TWO_32;
    WrapMultiple(x * base + d, -(k * base));
  }

  lemma WrapNegate(x: int)
    ensures Wrap(-Wrap(x)) == Wrap(-x)
  {
    var k := (x + TWO_31) / TWO_32;
    WrapMultiple(-x, k);
  }

  lemma WrapMultiple(x: int, k: int)
    ensures Wrap(x + k * TWO_32) == Wrap(x)
  {
  }

  /** Where each part of a numeral begins, and what it says. */
  datatype Parsed = Parsed(value: int, end: nat)

  function Sign(s: string, i: nat): nat {
    if CharAt(s, i) == '+' || CharAt(s, i) == '-' then i + 1 else i
  }

  predicate HexPrefix(s: string, i: nat) {
    CharAt(s, i) == '0' && CharAt(s, i + 1) == 'x'
  }

  /** The base that strtol uses and the position after the prefix. */
  function Prefix(s: string, i: nat, base: int): (int, nat) {
    if (base == 0 || base == 16) && HexPrefix(s, i) then (16, i + 2)
    else if base == 0 && CharAt(s, i) == '0' then (8, i + 1)
    else if base == 0 then (10, i)
    else (base, i)
  }

  function Parse(s: string, base: int): Parsed {
    var blanks := SkipBlanks(s, 0);
    var sign := Sign(s, blanks);
    var (b, start) := Prefix(s, sign, base);
    var end := DigitEnd(s, start, b);
    var value := Value(s[start..end], b);
    Parsed(Wrap(if CharAt(s, blanks) == '-' then -value else value), end)
  }

  method GobbleBlanks(s: string) returns (i: nat)
    ensures i == SkipBlanks(s, 0)
  {
    i := 0;
    while Blank(CharAt(s, i))
      invariant i <= |s| && SkipBlanks(s, i) == SkipBlanks(s, 0)
      decreases |s| - i
    {
      i := i + 1;
    }
  }

  /** The digit loop; the accumulated number wraps at 32 bits. */
  method ReadDigits(s: string, start: nat, base: int) returns (val: int, i: nat)
    requires start <= |s|
    ensures i == DigitEnd(s, start, base) && val == Wrap(Value(s[start..i], base))
  {
    hide Wrap;
    i, val := start, 0;
    assert s[start..i] == "" && Wrap(0) == 0;
    while true
      invariant start <= i <= |s| && DigitEnd(s, i, base) == DigitEnd(s, start, base)
      invariant val == Wrap(Value(s[start..i], base))
      decreases |s| - i
    {
      var dig := DigitOf(CharAt(s, i));
      if dig < 0 || dig >= base {
        break;
      }
      ValueStep(s, start, i, base);
      WrapStep(Value(s[start..i], base), base, dig);
      i, val := i + 1, Wrap(val * base + dig);
    }
  }

  lemma ValueStep(s: string, start: nat, i: nat, base: int)
    requires start <= i < |s|
    ensures Value(s[start..i + 1], base) == Value(s[start..i], base) * base + DigitOf(s[i])
  {
    assert s[start..i + 1][..i - start] == s[start..i];
  }

  // ---- what strtol accepts, part by part ----

  /** A string cut into its parts: blanks, sign, prefix, digits of the base that the prefix says, and the rest. */
  datatype Parts = Parts(blanks: string, sign: string, prefix: string, base: int, digits: string, rest: string) {
    function Text(): string {
      blanks + sign + prefix + digits + rest
    }
  }

  /** The character is the digit of that value, in either case. */
  predicate DigitIs(c: char, d: int) {
    || (0 <= d < 10 && c as int == '0' as int + d)
    || (10 <= d < 36 && (c as int == 'a' as int + d - 10 || c as int == 'A' as int + d - 10))
  }

  /** Base 16 may have the prefix 0x; base 0 takes it for base 16, a 0 for base 8 and nothing for base 10. A
      prefix that may be taken is taken. `after` is what follows it. */
  predicate PrefixOk(prefix: string, b: int, after: string, base: int) {
    match base
    case 0 =>
      || (prefix == "0x" && b == 16)
      || (prefix == "0" && b == 8 && CharAt(after, 0) != 'x')
      || (prefix == "" && b == 10 && CharAt(after, 0) != '0')
    case 16 => b == 16 && (prefix == "0x" || (prefix == "" && !(CharAt(after, 0) == '0' && CharAt(after, 1) == 'x')))
    case _ => prefix == "" && b == base
  }

  /** The parts are as long as they can be. */
  ghost predicate WellCut(p: Parts, base: int) {
    && (forall c | c in p.blanks :: c == ' ' || c == '\t')
    && (p.sign in {"+", "-"}
        || (p.sign == "" && CharAt(p.prefix + p.digits + p.rest, 0) !in {' ', '\t', '+', '-'}))
    && PrefixOk(p.prefix, p.base, p.digits + p.rest, base)
    && (forall c | c in p.digits :: exists d :: DigitIs(c, d) && d < p.base)
    && (p.rest == "" || forall d | d < p.base :: !DigitIs(p.rest[0], d))
  }

  lemma DigitOfIs(c: char, d: int)
    ensures DigitIs(c, d) <==> d >= 0 && DigitOf(c) == d
  {
  }

  lemma DigitsOfBase(c: char, base: int)
    ensures IsDigit(c, base) <==> exists d :: DigitIs(c, d) && d < base
  {
    DigitOfIs(c, DigitOf(c));
    forall d | DigitIs(c, d)
      ensures DigitOf(c) == d
    {
      DigitOfIs(c, d);
    }
  }

  lemma Cut(a: string, b: string, c: string)
    ensures (a + b + c)[|a|..|a| + |b|] == b && |a + b + c| == |a| + |b| + |c|
    ensures forall k | 0 <= k < |b| :: (a + b + c)[|a| + k] == b[k]
    ensures c != "" ==> (a + b + c)[|a| + |b|] == c[0]
  {
  }

  /** The scans of the parser stop where the parts end. */
  lemma BlanksEnd(blanks: string, u: string)
    requires (forall c | c in blanks :: Blank(c)) && !Blank(CharAt(u, 0))
    ensures SkipBlanks(blanks + u, 0) == |blanks|
  {
    var s := blanks + u;
    assert forall k | 0 <= k < |blanks| :: s[k] == blanks[k] && blanks[k] in blanks;
    assert u != "" ==> s[|blanks|] == u[0];
  }

  lemma DigitsStop(t: string, digits: string, u: string, base: int)
    requires (forall c | c in digits :: IsDigit(c, base)) && !IsDigit(CharAt(u, 0), base)
    ensures DigitEnd(t + digits + u, |t|, base) == |t| + |digits|
    ensures (t + digits + u)[|t|..|t| + |digits|] == digits
  {
    hide IsDigit;
    var s := t + digits + u;
    Cut(t, digits, u);
    assert forall k | |t| <= k < |t| + |digits| :: s[k] == digits[k - |t|] && digits[k - |t|] in digits;
  }

  lemma SignEnds(t: string, sign: string, u: string)
    requires sign in {"+", "-"} || (sign == "" && CharAt(u, 0) !in {' ', '\t', '+', '-'})
    ensures var s := t + sign + u;
            Sign(s, |t|) == |t| + |sign| && (CharAt(s, |t|) == '-' <==> sign == "-") && !Blank(CharAt(sign + u, 0))
  {
  }

  lemma Assoc(a: string, b: string, c: string)
    ensures (a + b) + c == a + (b + c)
  {
  }

  lemma CharAfter(a: string, b: string, k: nat)
    ensures CharAt(a + b, |a| + k) == CharAt(b, k)
  {
  }

  lemma PrefixEnds(t: string, prefix: string, b: int, after: string, base: int)
    requires PrefixOk(prefix, b, after, base)
    ensures Prefix(t + prefix + after, |t|, base) == (b, |t| + |prefix|)
  {
    Assoc(t, prefix, after);
    CharAfter(t, prefix + after, 0);
    CharAfter(t, prefix + after, 1);
    assert prefix == "" ==> prefix + after == after;
    assert prefix == "0" ==> CharAt(prefix + after, 1) == CharAt(after, 0);
  }

  /** The number that the parts say. */
  function SaidBy(p: Parts): int {
    Wrap(if p.sign == "-" then -Value(p.digits, p.base) else Value(p.digits, p.base))
  }

  /** What strtol reads from a string that is cut well: the signed numeral, and nothing of the rest. */
  lemma ReadsParts(p: Parts, base: int)
    requires WellCut(p, base)
    ensures Parse(p.Text(), base) == Parsed(SaidBy(p), |p.Text()| - |p.rest|)
  {
    hide Wrap, Value, DigitOf, IsDigit, DigitIs, PrefixOk, Prefix, HexPrefix, Sign, SkipBlanks, DigitEnd, WellCut;
    var s, t := p.Text(), p.blanks + p.sign;
    PartsEnd(p, base);
    assert Value(s[|t + p.prefix|..|t + p.prefix| + |p.digits|], p.base) == Value(p.digits, p.base);
  }

  lemma PartsEnd(p: Parts, base: int)
    requires WellCut(p, base)
    ensures var s, t := p.Text(), p.blanks + p.sign;
            && SkipBlanks(s, 0) == |p.blanks| && (CharAt(s, |p.blanks|) == '-' <==> p.sign == "-")
            && Sign(s, |p.blanks|) == |t| && Prefix(s, |t|, base) == (p.base, |t + p.prefix|)
            && DigitEnd(s, |t + p.prefix|, p.base) == |t + p.prefix| + |p.digits|
            && s[|t + p.prefix|..|t + p.prefix| + |p.digits|] == p.digits
  {
    hide DigitOf, IsDigit, DigitIs, PrefixOk, Prefix, HexPrefix, Sign, SkipBlanks, DigitEnd, CharAt;
    var t, after := p.blanks + p.sign, p.digits + p.rest;
    Assoc(p.prefix, p.digits, p.rest);
    Assoc(t + p.prefix, p.digits, p.rest);
    Assoc(t, p.prefix, after);
    Assoc(p.blanks, p.sign, p.prefix + after);
    DigitsAre(p, base);
    SignEnds(p.blanks, p.sign, p.prefix + after);
    BlanksEnd(p.blanks, p.sign + (p.prefix + after));
    PrefixEnds(t, p.prefix, p.base, after, base);
    DigitsStop(t + p.prefix, p.digits, p.rest, p.base);
  }

  lemma DigitsAre(p: Parts, base: int)
    requires WellCut(p, base)
    ensures (forall c | c in p.digits :: IsDigit(c, p.base)) && !IsDigit(CharAt(p.rest, 0), p.base)
  {
    hide PrefixOk;
    forall c | c in p.digits
      ensures IsDigit(c, p.base)
    {
      DigitsOfBase(c, p.base);
    }
    DigitsOfBase(CharAt(p.rest, 0), p.base);
  }

  /** Every string is cut well in some way. */
  lemma CutWell(s: string, base: int) returns (p: Parts)
    ensures WellCut(p, base) && p.Text() == s
  {
    hide DigitOf, DigitIs, IsDigit, PrefixOk, Prefix, DigitEnd, SkipBlanks, CharAt, Sign;
    var i := SkipBlanks(s, 0);
    SignCut(s);
    var j := Sign(s, i);
    PrefixCut(s, j, base);
    var (b, k) := Prefix(s, j, base);
    DigitsCut(s, k, b);
    var e := DigitEnd(s, k, b);
    p := Parts(s[..i], s[i..j], s[j..k], b, s[k..e], s[e..]);
    Slices(s, i, j, k, e);
    assert p.Text() == s;
    assert p.digits + p.rest == s[k..];
    assert p.prefix + p.digits + p.rest == s[j..];
  }

  lemma Slices(s: string, i: nat, j: nat, k: nat, e: nat)
    requires i <= j <= k <= e <= |s|
    ensures s[..i] + s[i..j] + s[j..k] + s[k..e] + s[e..] == s
    ensures s[k..e] + s[e..] == s[k..] && s[j..k] + s[k..e] + s[e..] == s[j..]
  {
  }

  lemma SignCut(s: string)
    ensures var i := SkipBlanks(s, 0);
            var j := Sign(s, i);
            && i <= j <= |s| && (forall c | c in s[..i] :: c == ' ' || c == '\t')
            && (s[i..j] in {"+", "-"} || (s[i..j] == "" && CharAt(s[j..], 0) !in {' ', '\t', '+', '-'}))
  {
    var i := SkipBlanks(s, 0);
    hide SkipBlanks;
    assert forall k | 0 <= k < i :: Blank(s[k]);
    SignHere(s, i);
  }

  lemma SignHere(s: string, i: nat)
    requires i <= |s| && !Blank(CharAt(s, i))
    ensures var j := Sign(s, i);
            && i <= j <= |s|
            && (s[i..j] in {"+", "-"} || (s[i..j] == "" && CharAt(s[j..], 0) !in {' ', '\t', '+', '-'}))
  {
    if i < |s| && s[i] in {'+', '-'} {
      assert s[i..i + 1] == [s[i]];
    } else {
      assert CharAt(s[i..], 0) == CharAt(s, i);
    }
  }

  lemma PrefixCut(s: string, j: nat, base: int)
    requires j <= |s|
    ensures var (b, k) := Prefix(s, j, base); j <= k <= |s| && PrefixOk(s[j..k], b, s[k..], base)
  {
  }

  lemma DigitsCut(s: string, k: nat, b: int)
    requires k <= |s|
    ensures var e := DigitEnd(s, k, b);
            && (forall c | c in s[k..e] :: exists d :: DigitIs(c, d) && d < b)
            && (s[e..] == "" || forall d | d < b :: !DigitIs(s[e..][0], d))
  {
    hide DigitOf, DigitIs, IsDigit;
    var e := DigitEnd(s, k, b);
    forall c | c in s[k..e]
      ensures exists d :: DigitIs(c, d) && d < b
    {
      DigitsOfBase(c, b);
    }
    DigitsOfBase(CharAt(s, e), b);
  }

  lemma ReadsAll(s: string, base: int)
    ensures forall p | WellCut(p, base) && p.Text() == s :: Parse(s, base) == Parsed(SaidBy(p), |s| - |p.rest|)
  {
    hide WellCut, Parse;
    forall p | WellCut(p, base) && p.Text() == s
      ensures Parse(s, base) == Parsed(SaidBy(p), |s| - |p.rest|)
    {
      ReadsParts(p, base);
    }
  }

  /** However the string is cut well, strtol reads its signed numeral and stops at the rest. */
  method StrToL(s: string, base: int) returns (r: Parsed)
    ensures r == Parse(s, base)
    ensures forall p | WellCut(p, base) && p.Text() == s :: r == Parsed(SaidBy(p), |s| - |p.rest|)
  {
    hide Wrap, Value, SkipBlanks, DigitEnd, DigitOf, WellCut, SaidBy, Parts.Text;
    var neg, b := false, base;
    var i := GobbleBlanks(s);
    ghost var blanks := i;
    if CharAt(s, i) == '+' {
      i := i + 1;
    } else if CharAt(s, i) == '-' {
      i, neg := i + 1, true;
    }
    assert i == Sign(s, blanks) && (neg <==> CharAt(s, blanks) == '-');
    hide Sign;
    if (b == 0 || b == 16) && CharAt(s, i) == '0' && CharAt(s, i + 1) == 'x' {
      i, b := i + 2, 16;
    } else if b == 0 && CharAt(s, i) == '0' {
      i, b := i + 1, 8;
    } else if b == 0 {
      b := 10;
    }
    assert (b, i) == Prefix(s, Sign(s, blanks), base);
    hide Prefix, HexPrefix, CharAt;
    var val, end := ReadDigits(s, i, b);
    WrapNegate(Value(s[i..end], b));
    r := Parsed(if neg then Wrap(-val) else val, end);
    ReadsAll(s, base);
  }

  // ---- reading back what was printed ----

  /** A digit of a base is a digit to the parser, and nothing else the parser looks for. */
  lemma DigitRead(d: nat)
    requires d < 16
    ensures DigitOf(DigitChar(d)) == d
    ensures !Blank(DigitChar(d)) && DigitChar(d) !in {'+', '-', 'x'}
    ensures '0' <= DigitChar(d) <= '9' || 'a' <= DigitChar(d) <= 'f'
  {
  }

  predicate Numeral(t: string, base: int) {
    forall k | 0 <= k < |t| :: IsDigit(t[k], base) && !Blank(t[k]) && t[k] !in {'+', '-', 'x'}
  }

  /** A numeral is not empty, consists of digits, and has the value it was made from. */
  lemma {:induction false} DigitsRead(n: nat, base: nat)
    requires 2 <= base <= 16
    ensures |Digits(n, base)| > 0 && Numeral(Digits(n, base), base) && Value(Digits(n, base), base) == n
    ensures forall c | c in Digits(n, base) :: '0' <= c <= '9' || 'a' <= c <= 'f'
    decreases n
  {
    hide DigitChar, DigitOf, LastDigit, HigherDigits;
    DigitRead(LastDigit(n, base));
    if n >= base {
      DigitsRead(HigherDigits(n, base), base);
      assert Digits(n, base)[..|Digits(n, base)| - 1] == Digits(HigherDigits(n, base), base);
    } else {
      assert Digits(n, base)[..0] == "";
    }
  }

  lemma {:induction false} LeadingZeros(k: nat, t: string, base: int)
    ensures Value(Repeat('0', k) + t, base) == Value(t, base)
  {
    if t == "" {
      assert Repeat('0', k) + t == Repeat('0', k);
      ZerosValue(k, base);
    } else {
      LeadingZeros(k, t[..|t| - 1], base);
      var u := Repeat('0', k) + t;
      assert u[..|u| - 1] == Repeat('0', k) + t[..|t| - 1];
    }
  }

  lemma {:induction false} ZerosValue(k: nat, base: int)
    ensures Value(Repeat('0', k), base) == 0
  {
    if k > 0 {
      ZerosValue(k - 1, base);
      assert Repeat('0', k)[..k - 1] == Repeat('0', k - 1);
    }
  }

  lemma BlanksSkipped(s: string, k: nat)
    requires k < |s| && (forall i | 0 <= i < k :: Blank(s[i])) && !Blank(s[k])
    ensures SkipBlanks(s, 0) == k
  {
  }

  lemma DigitsEnd(s: string, start: nat, base: int)
    requires start <= |s| && forall i | start <= i < |s| :: IsDigit(s[i], base)
    ensures DigitEnd(s, start, base) == |s|
  {
  }

  /** Blanks, perhaps a minus sign, and a numeral are read in full. */
  lemma NumeralRead(k: nat, neg: bool, t: string, base: nat)
    requires base == 10 || base == 16
    requires t != "" && Numeral(t, base)
    ensures var s := Repeat(' ', k) + (if neg then "-" else "") + t;
            Parse(s, base) == Parsed(Wrap(if neg then -Value(t, base) else Value(t, base)), |s|)
  {
    hide IsDigit, DigitOf, Value, Wrap, SkipBlanks, DigitEnd;
    var s := Repeat(' ', k) + (if neg then "-" else "") + t;
    var start := if neg then k + 1 else k;
    assert s[start] == t[0] && s[k] == if neg then '-' else t[0];
    assert forall i | start <= i < |s| :: s[i] == t[i - start] && IsDigit(s[i], base);
    assert forall i | 0 <= i < k :: Blank(s[i]);
    BlanksSkipped(s, k);
    assert Sign(s, k) == start;
    assert Prefix(s, start, base) == (base as int, start);
    DigitsEnd(s, start, base);
    assert s[start..|s|] == t;
  }

  /** Two minus signs in a row leave nothing to read but the first. */
  lemma MinusMinusRead(s: string, base: nat)
    requires base == 10 || base == 16
    requires |s| >= 2 && s[0] == '-' && s[1] !in {'0', 'x'} && !IsDigit(s[1], base)
    ensures Parse(s, base).end == 1
  {
    assert SkipBlanks(s, 0) == 0;
    assert Sign(s, 0) == 1 && Prefix(s, 1, base) == (base as int, 1);
  }

  predicate ReadsBack(s: string, base: int, value: int) {
    Parse(s, base) == Parsed(value, |s|)
  }

  /** strtol reads a printed number back, all of it, whatever the width: always with blanks or zeros
      as padding, and with the padding '-' only if there is none, or if it turns 0 into -0. */
  lemma RoundTrip(n: nat, base: nat, width: int, padc: char)
    requires n < TWO_31 && (base == 10 || base == 16) && padc in {' ', '0', '-'}
    ensures ReadsBack(Padded(n, base, width, padc), base, n) <==>
            padc != '-' || width <= |Digits(n, base)| || (n == 0 && width == 2)
  {
    hide Parse, Value, Digits;
    var t := Digits(n, base);
    var k := PadCount(width, |t|);
    var s := Padded(n, base, width, padc);
    DigitsRead(n, base);
    if padc == '0' {
      LeadingZeros(k, t, base);
      ZerosNumeral(k, t, base);
      NumeralRead(0, false, s, base);
      assert Repeat(' ', 0) + "" + s == s;
    } else if padc == ' ' || k == 0 {
      NumeralRead(k, false, t, base);
      assert s == Repeat(' ', k) + "" + t;
    } else if k == 1 {
      NumeralRead(0, true, t, base);
      assert s == Repeat(' ', 0) + "-" + t;
      ZeroDigits(n, base);
    } else {
      assert s[0] == '-' && s[1] == '-';
      MinusMinusRead(s, base);
      ZeroDigits(n, base);
    }
  }

  lemma ZeroDigits(n: nat, base: nat)
    requires 2 <= base <= 16
    ensures n == 0 ==> |Digits(n, base)| == 1
  {
  }

  lemma ZerosNumeral(k: nat, t: string, base: int)
    requires base > 0 && Numeral(t, base)
    ensures Numeral(Repeat('0', k) + t, base)
  {
  }

  /** The same for %d; a padded negative number is read back only when zeros pad it, because the sign is
      printed before the padding. */
  lemma SignedRoundTrip(value: int, width: int, padc: char)
    requires -TWO_31 < value < TWO_31 && padc in {' ', '0', '-'}
    ensures ReadsBack(SignedText(value, width, padc), 10, value) <==>
            if value < 0 then padc == '0' || width <= |Digits(-value, 10)|
            else padc != '-' || width <= |Digits(value, 10)| || (value == 0 && width == 2)
  {
    hide Parse, Value, Digits;
    if value >= 0 {
      RoundTrip(value, 10, width, padc);
      return;
    }
    var n := -value;
    var t := Digits(n, 10);
    var k := PadCount(width, |t|);
    var s := SignedText(value, width, padc);
    DigitsRead(n, 10);
    if padc == '0' || k == 0 {
      LeadingZeros(k, t, 10);
      ZerosNumeral(k, t, 10);
      NumeralRead(0, true, Repeat('0', k) + t, 10);
      assert s == Repeat(' ', 0) + "-" + (Repeat('0', k) + t);
    } else {
      assert s[1] == padc;
      MinusMinusRead(s, 10);
    }
  }

  /** Five padded with a minus sign to width 2 is read as minus five, and minus five padded with blanks to
      width 3 is not read at all. */
  lemma PaddingMisread()
    ensures Padded(5, 10, 2, '-') == "-5" && !ReadsBack("-5", 10, 5)
    ensures SignedText(-5, 3, ' ') == "-  5" && !ReadsBack("-  5", 10, -5)
  {
    assert Digits(5, 10) == "5";
    assert Repeat('-', 1) == "-" && Repeat(' ', 2) == "  ";
    RoundTrip(5, 10, 2, '-');
    SignedRoundTrip(-5, 3, ' ');
  }
}
