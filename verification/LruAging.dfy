/** The aging stamps of update_WS_time_stamps (sched.c): at each tick a stamp is shifted right by two
    bits and bit 31 records whether the page was referenced since the previous tick. */
module LruAging {

  const STAMP_DIGITS := 16

  function Pow4(k: nat): (p: nat)
    ensures p > 0
  {
    if k == 0 then 1 else 4 * Pow4(k - 1)
  }

  /** One tick on a stamp, as a number. */
  function Aged(stamp: nat, used: bool): nat {
    stamp / 4 + (if used then 0x8000_0000 else 0)
  }

  /** The stamp of a page with reference history `history`, most recent tick first, `k` base-4 digits wide. */
  function StampOf(history: seq<bool>, k: nat): nat {
    if k == 0 || history == [] then 0
    else (if history[0] then 2 * Pow4(k - 1) else 0) + StampOf(history[1..], k - 1)
  }

  /** Ticks older than the recorded history count as unreferenced. */
  predicate Referenced(history: seq<bool>, tick: nat) {
    tick < |history| && history[tick]
  }

  /** `h` was referenced less recently than `g` within the last `k` ticks: lexicographic order. */
  predicate Older(h: seq<bool>, g: seq<bool>, k: nat) {
    k > 0 && if Referenced(h, 0) != Referenced(g, 0) then Referenced(g, 0)
             else Older(if h == [] then [] else h[1..], if g == [] then [] else g[1..], k - 1)
  }

  lemma {:induction false} LastDigit(history: seq<bool>, k: nat)
    ensures StampOf(history, k + 1) == 4 * StampOf(history, k) + (if Referenced(history, k) then 2 else 0)
  {
    if k > 0 && history != [] {
      LastDigit(history[1..], k - 1);
    }
  }

  /** The base-4 digit of a number in place `k`, the lowest being place 0. */
  function Digit(n: nat, k: nat): nat {
    if k == 0 then n % 4 else Digit(n / 4, k - 1)
  }

  /** Every digit of a stamp is 0 or 2: the reference bit of one tick, oldest lowest. */
  lemma {:induction false} StampDigits(history: seq<bool>, width: nat, k: nat)
    requires k < width
    ensures Digit(StampOf(history, width), k) == if Referenced(history, width - 1 - k) then 2 else 0
  {
    LastDigit(history, width - 1);
    if k > 0 {
      StampDigits(history, width - 1, k - 1);
    }
  }

  /** A tick pushes the newest reference bit onto the history and drops the oldest. */
  lemma AgedPushes(history: seq<bool>, used: bool)
    ensures Aged(StampOf(history, STAMP_DIGITS), used) == StampOf([used] + history, STAMP_DIGITS)
  {
    LastDigit(history, STAMP_DIGITS - 1);
    assert ([used] + history)[1..] == history;
    assert Pow4(14) == 0x1000_0000 && Pow4(15) == 0x4000_0000;
  }

  lemma {:induction false} StampBound(history: seq<bool>, k: nat)
    ensures 3 * StampOf(history, k) <= 2 * (Pow4(k) - 1)
  {
    if k > 0 && history != [] {
      StampBound(history[1..], k - 1);
    }
  }

  /** Unsigned stamp order is the lexicographic order of the last `k` reference bits. */
  lemma {:induction false} StampOrder(h: seq<bool>, g: seq<bool>, k: nat)
    ensures StampOf(h, k) < StampOf(g, k) <==> Older(h, g, k)
  {
    if k > 0 {
      var h', g' := if h == [] then [] else h[1..], if g == [] then [] else g[1..];
      StampOrder(h', g', k - 1);
      StampBound(h', k - 1);
      StampBound(g', k - 1);
    }
  }

  /** The sentinel 1e9 separates pages referenced at the last tick from the others. */
  lemma Sentinel(history: seq<bool>)
    ensures StampOf(history, STAMP_DIGITS) < 1_000_000_000 <==> !Referenced(history, 0)
    ensures StampOf(history, STAMP_DIGITS) < 0x1_0000_0000
  {
    assert Pow4(14) == 0x1000_0000 && Pow4(15) == 0x4000_0000;
    StampBound(history, STAMP_DIGITS);
    if history != [] {
      StampBound(history[1..], STAMP_DIGITS - 1);
    }
  }

  // ---- the words that the kernel computes with ----

  function Shifted(stamp: bv32): bv32 {
    stamp >> 2
  }

  /** The C expression of update_WS_time_stamps. */
  function AgedBits(stamp: bv32, used: bool): bv32 {
    if used then Shifted(stamp) | 0x8000_0000 else Shifted(stamp)
  }

  /** The lowest base-4 digit of a word. */
  function LowDigit(w: bv32): (d: nat)
    ensures d < 4
  {
    if w & 3 == 0 then 0 else if w & 3 == 1 then 1 else if w & 3 == 2 then 2 else 3
  }

  /** The number that the `k` lowest base-4 digits of a word stand for. */
  function Number(w: bv32, k: nat): nat {
    if k == 0 then 0 else LowDigit(w) + 4 * Number(Shifted(w), k - 1)
  }

  /** A word without its `k` lowest digits. */
  function Drop(w: bv32, k: nat): bv32 {
    if k == 0 then w else Drop(Shifted(w), k - 1)
  }

  function Or(w: bv32, v: bv32): bv32 {
    w | v
  }

  /** The word whose only digit is a 2 in place `k`, the lowest being place 1. */
  function Weight(k: nat): bv32
    decreases 16 - k
  {
    if k >= 16 then 0x8000_0000 else Shifted(Weight(k + 1))
  }

  lemma Weights(k: nat)
    requires 1 <= k <= 16
    ensures if k == 1 then Weight(k) == 2 else LowDigit(Weight(k)) == 0
  {
    assert Weight(15) == 0x2000_0000 && Weight(14) == 0x800_0000 && Weight(13) == 0x200_0000;
    assert Weight(12) == 0x80_0000 && Weight(11) == 0x20_0000 && Weight(10) == 0x8_0000;
    assert Weight(9) == 0x2_0000 && Weight(8) == 0x8000 && Weight(7) == 0x2000 && Weight(6) == 0x800;
    assert Weight(5) == 0x200 && Weight(4) == 0x80 && Weight(3) == 0x20 && Weight(2) == 8 && Weight(1) == 2;
  }

  lemma OrShifts(w: bv32, v: bv32)
    ensures Shifted(Or(w, v)) == Or(Shifted(w), Shifted(v))
  {
  }

  lemma OrLow(w: bv32, v: bv32)
    requires LowDigit(v) == 0
    ensures LowDigit(Or(w, v)) == LowDigit(w)
  {
    assert v & 3 == 0;
    assert (w | v) & 3 == w & 3;
  }

  lemma Small()
    ensures LowDigit(0) == 0 && LowDigit(2) == 2 && Or(0, 2) == 2 && Shifted(0) == 0
  {
  }

  lemma DropStep(w: bv32, k: nat)
    ensures Drop(w, k + 1) == Drop(Shifted(w), k)
  {
  }

  lemma DropFour(w: bv32, k: nat)
    ensures Drop(w, k + 4) == Drop(Shifted(Shifted(Shifted(Shifted(w)))), k)
  {
    hide Shifted, Drop;
    DropStep(w, k + 3);
    DropStep(Shifted(w), k + 2);
    DropStep(Shifted(Shifted(w)), k + 1);
    DropStep(Shifted(Shifted(Shifted(w))), k);
  }

  /** Sixteen digits are all there are. */
  lemma AllDropped(w: bv32)
    ensures Drop(w, STAMP_DIGITS) == 0
  {
    hide Shifted;
    var w1 := Shifted(Shifted(Shifted(Shifted(w))));
    var w2 := Shifted(Shifted(Shifted(Shifted(w1))));
    var w3 := Shifted(Shifted(Shifted(Shifted(w2))));
    DropFour(w, 12);
    DropFour(w1, 8);
    DropFour(w2, 4);
    DropFour(w3, 0);
    AllShifted(w);
  }

  lemma AllShifted(w: bv32)
    ensures Shifted(Shifted(Shifted(Shifted(Shifted(Shifted(Shifted(Shifted(
              Shifted(Shifted(Shifted(Shifted(Shifted(Shifted(Shifted(Shifted(w)))))))))))))))) == 0
  {
  }

  lemma {:induction false} NumberZero(k: nat)
    ensures Number(0, k) == 0
  {
    hide LowDigit, Shifted;
    Small();
    if k > 0 {
      NumberZero(k - 1);
    }
  }

  /** Digits that a word does not have count nothing. */
  lemma {:induction false} NumberFits(w: bv32, k: nat)
    requires Drop(w, k) == 0
    ensures Number(w, k + 1) == Number(w, k)
    decreases k
  {
    hide LowDigit, Shifted;
    Small();
    if k > 0 {
      NumberFits(Shifted(w), k - 1);
    }
  }

  lemma NumberStep(w: bv32, k: nat)
    ensures Number(w, k + 1) == LowDigit(w) + 4 * Number(Shifted(w), k) && Number(Shifted(w), 0) == 0
  {
    hide LowDigit, Shifted;
  }

  /** Setting a digit above all others adds it. */
  lemma {:induction false} NumberTop(w: bv32, k: nat)
    requires 1 <= k <= 16 && Drop(w, k - 1) == 0
    ensures Number(Or(w, Weight(k)), k) == Number(w, k) + 2 * Pow4(k - 1)
    decreases k
  {
    hide LowDigit, Shifted, Or, Number;
    Weights(k);
    Small();
    NumberStep(w, k - 1);
    NumberStep(Or(w, Weight(k)), k - 1);
    if k > 1 {
      OrShifts(w, Weight(k));
      OrLow(w, Weight(k));
      NumberTop(Shifted(w), k - 1);
    }
  }

  lemma AgedIsOr(stamp: bv32, used: bool)
    ensures AgedBits(stamp, used) == if used then Or(Shifted(stamp), Weight(16)) else Shifted(stamp)
  {
  }

  lemma NumberShifted(w: bv32)
    ensures Number(Shifted(w), STAMP_DIGITS) == Number(w, STAMP_DIGITS) / 4
  {
    hide LowDigit, Shifted, Number;
    AllDropped(w);
    assert Drop(w, 16) == Drop(Shifted(w), 15);
    NumberFits(Shifted(w), 15);
    NumberStep(w, 15);
  }

  /** The shift and the bit-or of the C expression are the division and the addition, without overflow. */
  lemma AgedBitsArithmetic(stamp: bv32, used: bool)
    ensures Number(AgedBits(stamp, used), STAMP_DIGITS) == Aged(Number(stamp, STAMP_DIGITS), used)
  {
    hide LowDigit, Shifted, Or, AgedBits, Weight, Number, Drop;
    AgedIsOr(stamp, used);
    NumberShifted(stamp);
    AllDropped(stamp);
    DropStep(stamp, 15);
    NumberTop(Shifted(stamp), 16);
    assert Pow4(14) == 0x1000_0000 && Pow4(15) == 0x4000_0000;
  }

  /** The word in a slot whose page has that reference history. */
  function Word(history: seq<bool>): bv32 {
    if history == [] then 0 else AgedBits(Word(history[1..]), history[0])
  }

  lemma BitsStay(stamp: bv32, used: bool)
    requires stamp & 0x5555_5555 == 0
    ensures AgedBits(stamp, used) & 0x5555_5555 == 0
  {
  }

  /** Over every history the word stands for the stamp, and only has bits of 0xAAAAAAAA. */
  lemma {:induction false} StampBits(history: seq<bool>)
    ensures Number(Word(history), STAMP_DIGITS) == StampOf(history, STAMP_DIGITS)
    ensures Word(history) & 0x5555_5555 == 0
  {
    if history == [] {
      NumberZero(STAMP_DIGITS);
    } else {
      StampBits(history[1..]);
      BitsStay(Word(history[1..]), history[0]);
      AgedBitsArithmetic(Word(history[1..]), history[0]);
      AgedPushes(history[1..], history[0]);
      assert [history[0]] + history[1..] == history;
    }
  }
}
