/** The user heap: kern/uheap.c with a flag per page, and lib/uheap.c, which keeps a block's length at
    its head and skips whole blocks. Positions and lengths are in pages; only the addresses that
    malloc returns and free receives are in bytes. */
module UserHeap {
  import opened Common

  const HEAP_START := 0x8000_0000

  datatype Strategy = FIRSTFIT | BESTFIT | NEXTFIT | WORSTFIT

  // ---- what a heap holds ----

  /** `live[p]` is the length of the block that starts at page `p`, 0 if none does. */
  predicate Covered(live: seq<nat>, p: nat) {
    exists h :: 0 <= h < |live| && h <= p < h + live[h]
  }

  /** No block starts before `p` and ends after it. */
  predicate Boundary(live: seq<nat>, p: nat) {
    p <= |live| && forall h | 0 <= h < p :: h + live[h] <= p
  }

  ghost predicate BlocksOk(live: seq<nat>) {
    forall h | 0 <= h < |live| && live[h] > 0 :: Boundary(live, h) && h + live[h] <= |live|
  }

  predicate FreeRun(live: seq<nat>, a: nat, n: nat) {
    a + n <= |live| && forall p | a <= p < a + n :: !Covered(live, p)
  }

  // ---- what each strategy promises ----

  /** A free run of `n` pages at `a` inside [lo, hi). */
  predicate Fits(live: seq<nat>, lo: nat, hi: nat, n: nat, a: nat) {
    lo <= a && a + n <= hi && FreeRun(live, a, n)
  }

  /** The lowest place in [lo, hi), or none exactly when there is no place. */
  ghost predicate Lowest(live: seq<nat>, lo: nat, hi: nat, n: nat, r: Option<nat>) {
    match r
    case None => forall a: nat :: !Fits(live, lo, hi, n, a)
    case Some(a) => Fits(live, lo, hi, n, a) && forall b: nat | b < a :: !Fits(live, lo, hi, n, b)
  }

  /** The lowest place from the roving pointer to the end of the heap, else the lowest before it. */
  ghost predicate NextFitting(live: seq<nat>, g: nat, n: nat, r: Option<nat>) {
    if exists a: nat :: Fits(live, g, |live|, n, a) then Lowest(live, g, |live|, n, r) else Lowest(live, 0, g, n, r)
  }

  /** A maximal free run. */
  predicate Hole(live: seq<nat>, a: nat, b: nat) {
    && a < b <= |live| && FreeRun(live, a, b - a)
    && (a == 0 || Covered(live, a - 1)) && (b == |live| || Covered(live, b))
  }

  /** A sufficient hole that a block ends. */
  predicate Closed(live: seq<nat>, n: nat, a: nat, b: nat) {
    Hole(live, a, b) && b < |live| && b - a >= n
  }

  /** The hole at the end of the heap, used only when no closed hole is large enough. */
  ghost predicate Trailing(live: seq<nat>, n: nat, r: Option<nat>) {
    match r
    case None => forall a: nat | Hole(live, a, |live|) :: |live| - a < n
    case Some(a) => Hole(live, a, |live|) && |live| - a >= n
  }

  /** The lowest of the smallest (largest) sufficient closed holes, else the trailing hole. */
  ghost predicate Extreme(live: seq<nat>, n: nat, smallest: bool, r: Option<nat>) {
    if exists a: nat, b: nat :: Closed(live, n, a, b) then
      && r.Some?
      && exists e: nat :: Closed(live, n, r.value, e) && Preferred(live, n, smallest, r.value, e, |live|)
    else
      Trailing(live, n, r)
  }

  /** Hole [a, e) beats every sufficient closed hole that ends before `hi`. */
  ghost predicate Preferred(live: seq<nat>, n: nat, smallest: bool, a: nat, e: nat, hi: nat)
    requires a <= e
  {
    forall a': nat, b': nat | Closed(live, n, a', b') && b' < hi ::
      && (if smallest then e - a <= b' - a' else e - a >= b' - a')
      && (e - a == b' - a' ==> a <= a')
  }

  ghost predicate Chosen(strategy: Strategy, live: seq<nat>, g: nat, n: nat, r: Option<nat>) {
    match strategy
    case FIRSTFIT => Lowest(live, 0, |live|, n, r)
    case NEXTFIT => NextFitting(live, g, n, r)
    case BESTFIT => Extreme(live, n, true, r)
    case WORSTFIT => Extreme(live, n, false, r)
  }

  /** A strategy leaves no choice: two placements that satisfy it are equal. */
  lemma ChosenUnique(strategy: Strategy, live: seq<nat>, g: nat, n: nat, r: Option<nat>, r': Option<nat>)
    requires n > 0
    requires Chosen(strategy, live, g, n, r) && Chosen(strategy, live, g, n, r')
    ensures r == r'
  {
    match strategy
    case FIRSTFIT => LowestUnique(live, 0, |live|, n, r, r');
    case NEXTFIT =>
      if exists a: nat :: Fits(live, g, |live|, n, a) {
        LowestUnique(live, g, |live|, n, r, r');
      } else {
        LowestUnique(live, 0, g, n, r, r');
      }
    case BESTFIT => ExtremeUnique(live, n, true, r, r');
    case WORSTFIT => ExtremeUnique(live, n, false, r, r');
  }

  lemma LowestUnique(live: seq<nat>, lo: nat, hi: nat, n: nat, r: Option<nat>, r': Option<nat>)
    requires Lowest(live, lo, hi, n, r) && Lowest(live, lo, hi, n, r')
    ensures r == r'
  {
  }

  /** Two holes that end at the same page are the same hole. */
  lemma HoleUnique(live: seq<nat>, a: nat, a': nat, b: nat)
    requires Hole(live, a, b) && Hole(live, a', b)
    ensures a == a'
  {
    assert a < a' ==> a <= a' - 1 < b;
    assert a' < a ==> a' <= a - 1 < b;
  }

  lemma ExtremeUnique(live: seq<nat>, n: nat, smallest: bool, r: Option<nat>, r': Option<nat>)
    requires n > 0
    requires Extreme(live, n, smallest, r) && Extreme(live, n, smallest, r')
    ensures r == r'
  {
    if exists a: nat, b: nat :: Closed(live, n, a, b) {
      var e :| Closed(live, n, r.value, e) && Preferred(live, n, smallest, r.value, e, |live|);
      var e' :| Closed(live, n, r'.value, e') && Preferred(live, n, smallest, r'.value, e', |live|);
    } else if r.Some? && r'.Some? {
      HoleUnique(live, r.value, r'.value, |live|);
    }
  }

  /** Every free run lies in a maximal one. */
  lemma HoleAround(live: seq<nat>, a: nat, n: nat) returns (lo: nat, hi: nat)
    requires n > 0 && FreeRun(live, a, n)
    ensures lo <= a && a + n <= hi && Hole(live, lo, hi)
  {
    lo, hi := a, a + n;
    while lo > 0 && !Covered(live, lo - 1)
      invariant lo <= a && FreeRun(live, lo, hi - lo)
    {
      lo := lo - 1;
    }
    while hi < |live| && !Covered(live, hi)
      invariant a + n <= hi <= |live| && FreeRun(live, lo, hi - lo)
    {
      hi := hi + 1;
    }
  }

  /** A strategy finds a place exactly when some free run of the heap is long enough, except that
      next fit does not see runs that lie across the roving pointer. */
  lemma FoundIffFits(strategy: Strategy, live: seq<nat>, g: nat, n: nat, r: Option<nat>)
    requires n > 0 && g <= |live| && Chosen(strategy, live, g, n, r)
    ensures r.Some? ==> FreeRun(live, r.value, n)
    ensures strategy != NEXTFIT ==> (r.Some? <==> exists a: nat :: FreeRun(live, a, n))
    ensures strategy == NEXTFIT ==>
              (r.Some? <==> exists a: nat :: FreeRun(live, a, n) && (g <= a || a + n <= g))
  {
    if strategy == FIRSTFIT || strategy == NEXTFIT {
      assert forall a: nat | FreeRun(live, a, n) ::
          && Fits(live, 0, |live|, n, a)
          && (g <= a ==> Fits(live, g, |live|, n, a)) && (a + n <= g ==> Fits(live, 0, g, n, a));
    } else if r.None? {
      forall a: nat | FreeRun(live, a, n)
        ensures false
      {
        var lo, hi := HoleAround(live, a, n);
        assert hi < |live| ==> Closed(live, n, lo, hi);
      }
    } else {
      assert FreeRun(live, r.value, n) by {
        if exists a: nat, b: nat :: Closed(live, n, a, b) {
        }
      }
    }
  }

  // ---- the scan that all strategies share ----

  /** State of a scan that started at `lo` and has reached `i`: with `flag` set the free run before
      `i` starts at `j`, otherwise `i` follows a block or is where the scan started. */
  predicate Scanned(live: seq<nat>, lo: nat, i: nat, flag: bool, j: nat) {
    && lo <= i <= |live|
    && if flag then lo <= j < i && FreeRun(live, j, i - j) && (j == lo || Covered(live, j - 1))
       else i == lo || Covered(live, i - 1)
  }

  predicate AllCovered(live: seq<nat>, lo: nat, hi: nat) {
    forall p | lo <= p < hi :: Covered(live, p)
  }

  /** Whatever fits before `i` lies in the run being scanned. */
  ghost predicate Pending(live: seq<nat>, lo: nat, i: nat, n: nat, flag: bool, j: nat) {
    forall a: nat | Fits(live, lo, i, n, a) :: flag && j <= a
  }

  /** The best closed hole that ends before `i`. */
  ghost predicate BestSoFar(live: seq<nat>, n: nat, smallest: bool, i: nat, found: bool, limit: nat, best: nat) {
    if found then
      exists e: nat :: best <= e < i && Closed(live, n, best, e) && limit == e - best
                       && Preferred(live, n, smallest, best, e, i)
    else
      (forall a: nat, b: nat | b < i :: !Closed(live, n, a, b)) && limit == if smallest then |live| else 0
  }

  /** A scan may step over one free page. */
  lemma StepFree(live: seq<nat>, lo: nat, i: nat, n: nat, flag: bool, j: nat)
    requires Scanned(live, lo, i, flag, j) && i < |live| && !Covered(live, i) && n > 0
    ensures Scanned(live, lo, i + 1, true, if flag then j else i)
    ensures Pending(live, lo, i, n, flag, j) ==> Pending(live, lo, i + 1, n, true, if flag then j else i)
  {
    if Pending(live, lo, i, n, flag, j) {
      var i' := i + 1;
      assert flag && j != lo ==> Covered(live, j - 1);
      assert !flag && i != lo ==> Covered(live, i - 1);
      forall a: nat | Fits(live, lo, i', n, a)
        ensures (if flag then j else i) <= a
      {
        assert a + n <= i ==> Fits(live, lo, i, n, a);
      }
    }
  }

  /** A scan may step over any number of covered pages at once, when the run before them is too short. */
  lemma StepCovered(live: seq<nat>, lo: nat, i: nat, len: nat, n: nat, flag: bool, j: nat)
    requires Scanned(live, lo, i, flag, j) && 0 < len && i + len <= |live| && AllCovered(live, i, i + len) && n > 0
    ensures Scanned(live, lo, i + len, false, 0)
    ensures Pending(live, lo, i, n, flag, j) && (flag ==> i - j < n) ==> Pending(live, lo, i + len, n, false, 0)
  {
    assert Covered(live, i + len - 1);
    if Pending(live, lo, i, n, flag, j) && (flag ==> i - j < n) {
      var i' := i + len;
      assert Covered(live, i);
      forall a: nat
        ensures !Fits(live, lo, i', n, a)
      {
        assert Fits(live, lo, i', n, a) && a + n <= i ==> Fits(live, lo, i, n, a);
        assert i <= a < i' ==> Covered(live, a);
      }
    }
  }

  lemma StartScan(live: seq<nat>, lo: nat, n: nat)
    requires lo <= |live| && n > 0
    ensures Scanned(live, lo, lo, false, 0) && Pending(live, lo, lo, n, false, 0)
  {
  }

  /** When the run being scanned is too short, nothing scanned so far fits. */
  lemma NothingFits(live: seq<nat>, lo: nat, i: nat, n: nat, flag: bool, j: nat)
    requires Pending(live, lo, i, n, flag, j) && (flag ==> i < j + n)
    ensures Lowest(live, lo, i, n, None)
  {
  }

  /** A run that has become long enough is the lowest place. */
  lemma PendingLowest(live: seq<nat>, lo: nat, i: nat, hi: nat, n: nat, j: nat)
    requires Scanned(live, lo, i, true, j) && Pending(live, lo, i, n, true, j) && i - j >= n > 0
    requires i <= hi
    ensures Lowest(live, lo, hi, n, Some(j))
  {
    assert FreeRun(live, j, n);
    assert j != lo ==> Covered(live, j - 1);
    forall b: nat | b < j
      ensures !Fits(live, lo, hi, n, b)
    {
      assert b + n <= i && Fits(live, lo, hi, n, b) ==> Fits(live, lo, i, n, b);
    }
  }

  lemma StartBest(live: seq<nat>, n: nat, smallest: bool)
    ensures BestSoFar(live, n, smallest, 0, false, if smallest then |live| else 0, 0)
  {
  }

  lemma BestFree(live: seq<nat>, n: nat, smallest: bool, i: nat, found: bool, limit: nat, best: nat)
    requires BestSoFar(live, n, smallest, i, found, limit, best) && i < |live| && !Covered(live, i)
    ensures BestSoFar(live, n, smallest, i + 1, found, limit, best)
  {
    if found {
      var e: nat :| best <= e < i && Closed(live, n, best, e) && limit == e - best
        && Preferred(live, n, smallest, best, e, i);
      assert Preferred(live, n, smallest, best, e, i + 1);
    }
  }

  /** The run that a block ends is taken when it is sufficient and strictly better than the best. */
  lemma BestCovered(live: seq<nat>, n: nat, smallest: bool, i: nat, len: nat, flag: bool, j: nat,
                    found: bool, limit: nat, best: nat, take: bool)
    requires n > 0 && Scanned(live, 0, i, flag, j) && BestSoFar(live, n, smallest, i, found, limit, best)
    requires 0 < len && i + len <= |live| && AllCovered(live, i, i + len)
    requires take <==> flag && i - j >= n && if smallest then limit > i - j else limit < i - j
    ensures BestSoFar(live, n, smallest, i + len, found || take,
                      if take then i - j else limit, if take then j else best)
  {
    var size := if flag then i - j else 0;
    forall a: nat, b: nat | i <= b < i + len && Closed(live, n, a, b)
      ensures flag && a == j && b == i
    {
      assert !Covered(live, b - 1);
      assert flag ==> Hole(live, j, i);
      if flag {
        HoleUnique(live, a, j, i);
      }
    }
    assert size >= n ==> Closed(live, n, j, i);
    if take {
      assert Preferred(live, n, smallest, j, i, i + len);
    } else if found {
      var e: nat :| best <= e < i && Closed(live, n, best, e) && limit == e - best
        && Preferred(live, n, smallest, best, e, i);
      assert Preferred(live, n, smallest, best, e, i + len);
    }
  }

  lemma BestIsExtreme(live: seq<nat>, n: nat, smallest: bool, flag: bool, j: nat,
                      found: bool, limit: nat, best: nat, r: Option<nat>)
    requires n > 0 && Scanned(live, 0, |live|, flag, j)
    requires BestSoFar(live, n, smallest, |live|, found, limit, best)
    requires r == if found then Some(best) else if flag && |live| - j >= n then Some(j) else None
    ensures Extreme(live, n, smallest, r)
  {
    if found {
    } else {
      forall a: nat, b: nat
        ensures !Closed(live, n, a, b)
      {
      }
      forall a: nat | Hole(live, a, |live|)
        ensures flag && a == j
      {
        assert !Covered(live, |live| - 1);
        assert flag ==> Hole(live, j, |live|);
        if flag {
          HoleUnique(live, a, j, |live|);
        }
      }
      assert flag ==> Hole(live, j, |live|);
    }
  }

  /** What a next-fit search found before or after it wrapped around. */
  lemma NextFound(live: seq<nat>, g: nat, n: nat, wrapped: bool, j: nat)
    requires n > 0 && g <= |live|
    requires if wrapped then Lowest(live, g, |live|, n, None) && Lowest(live, 0, g, n, Some(j))
             else Lowest(live, g, |live|, n, Some(j))
    ensures NextFitting(live, g, n, Some(j))
  {
  }

  lemma NextMissing(live: seq<nat>, g: nat, n: nat)
    requires Lowest(live, g, |live|, n, None) && Lowest(live, 0, g, n, None)
    ensures NextFitting(live, g, n, None)
  {
  }

  /** A page between blocks is covered only by the block that starts there, and after it comes
      another page between blocks: the skipping scan sees every page that the page-by-page scan sees. */
  lemma AtBoundary(live: seq<nat>, i: nat)
    requires BlocksOk(live) && i < |live| && Boundary(live, i)
    ensures live[i] == 0 ==> !Covered(live, i) && Boundary(live, i + 1)
    ensures live[i] > 0 ==> i + live[i] <= |live| && AllCovered(live, i, i + live[i]) && Boundary(live, i + live[i])
  {
    assert forall h: nat | h < |live| && live[h] > 0 :: Boundary(live, h);
  }

  lemma BoundaryHome(live: seq<nat>)
    ensures Boundary(live, 0)
  {
  }

  /** A block that starts before a boundary ends at or before it. */
  lemma BoundaryStops(live: seq<nat>, i: nat, g: nat)
    requires Boundary(live, g)
    ensures i < g ==> i + live[i] <= g
  {
  }

  // ---- what malloc and free do to the blocks ----

  lemma PlaceBlock(live: seq<nat>, a: nat, n: nat)
    requires BlocksOk(live) && n > 0 && FreeRun(live, a, n)
    ensures live[a] == 0
    ensures BlocksOk(live[a := n]) && Boundary(live[a := n], a)
    ensures forall p: nat :: Covered(live[a := n], p) <==> Covered(live, p) || a <= p < a + n
  {
    var live' := live[a := n];
    assert !Covered(live, a);
    forall h | 0 <= h < a
      ensures h + live[h] <= a
    {
    }
    forall h | a <= h < a + n
      ensures live[h] == 0
    {
      assert !Covered(live, h);
    }
    forall p: nat
      ensures Covered(live', p) <==> Covered(live, p) || a <= p < a + n
    {
      if Covered(live, p) {
        var h :| 0 <= h < |live| && h <= p < h + live[h];
        assert live'[h] == live[h];
      }
      if a <= p < a + n {
        assert live'[a] == n;
      }
    }
  }

  lemma RemoveBlock(live: seq<nat>, a: nat)
    requires BlocksOk(live) && a < |live| && live[a] > 0
    ensures BlocksOk(live[a := 0])
    ensures forall p: nat :: Covered(live[a := 0], p) <==> Covered(live, p) && !(a <= p < a + live[a])
    ensures forall p: nat | Boundary(live, p) :: Boundary(live[a := 0], p)
  {
    var live' := live[a := 0];
    forall p: nat
      ensures Covered(live', p) <==> Covered(live, p) && !(a <= p < a + live[a])
    {
      if Covered(live, p) && !(a <= p < a + live[a]) {
        var h :| 0 <= h < |live| && h <= p < h + live[h];
        assert live'[h] == live[h];
      }
      if Covered(live', p) {
        var h :| 0 <= h < |live'| && h <= p < h + live'[h];
        assert h != a && live[h] == live'[h];
        assert h < a ==> Boundary(live, a);
        assert h > a ==> Boundary(live, h);
      }
    }
    forall p: nat | Boundary(live, p)
      ensures Boundary(live', p)
    {
      assert forall h | 0 <= h < p :: h != a ==> live'[h] == live[h];
    }
  }

  // ---- one call, as both heaps must answer it ----

  datatype Call = Malloc(strategy: Strategy, size: nat) | Free(address: nat)

  /** The least number of pages that hold so many bytes. */
  function PagesOf(size: nat): (n: nat)
    ensures PAGE_SIZE * (n - 1) < size <= PAGE_SIZE * n
  {
    (size + PAGE_SIZE - 1) / PAGE_SIZE
  }

  function AddressOf(r: Option<nat>): nat {
    match r
    case None => 0
    case Some(a) => HEAP_START + PAGE_SIZE * a
  }

  /** No page has the address NULL, and no two pages have the same. */
  lemma AddressesApart(r: Option<nat>, r': Option<nat>)
    ensures AddressOf(r) == AddressOf(r') <==> r == r'
    ensures r.Some? ==> 0x8000_0000 <= AddressOf(r) && AddressOf(r) % 4096 == 0
  {
  }

  /** The block placed, and the roving pointer: at the block unless that reaches the heap's end; a
      failed search sends it back to the start, except that a failed next fit leaves it. */
  ghost predicate MallocStep(strategy: Strategy, n: nat, live: seq<nat>, g: nat,
                             live': seq<nat>, g': nat, address: nat) {
    exists r: Option<nat> ::
      && Chosen(strategy, live, g, n, r) && address == AddressOf(r)
      && match r
         case None => live' == live && g' == (if strategy == NEXTFIT then g else 0)
         case Some(a) => a < |live| && live' == live[a := n] && g' == if a + n >= |live| then 0 else a
  }

  /** The block at the address is removed; an address that no block has changes nothing. */
  ghost predicate FreeStep(address: nat, live: seq<nat>, live': seq<nat>) {
    && |live'| == |live|
    && forall p | 0 <= p < |live| ::
         live'[p] == if address == HEAP_START + PAGE_SIZE * p then 0 else live[p]
  }

  /** Two pages are taken and freed again in a heap of three: next fit then finds no place for three pages,
      although all are free. */
  lemma NextFitMisses()
    ensures MallocStep(NEXTFIT, 1, [0, 0, 0], 0, [1, 0, 0], 0, HEAP_START)
    ensures MallocStep(NEXTFIT, 1, [1, 0, 0], 0, [1, 1, 0], 1, HEAP_START + PAGE_SIZE)
    ensures FreeStep(HEAP_START, [1, 1, 0], [0, 1, 0]) && FreeStep(HEAP_START + PAGE_SIZE, [0, 1, 0], [0, 0, 0])
    ensures MallocStep(NEXTFIT, 3, [0, 0, 0], 1, [0, 0, 0], 1, 0) && FreeRun([0, 0, 0], 0, 3)
  {
    var none, one, two := [0, 0, 0], [1, 0, 0], [1, 1, 0];
    forall p
      ensures !Covered(none, p)
    {
      assert forall h | 0 <= h < 3 :: none[h] == 0;
    }
    assert Fits(none, 0, 3, 1, 0) && Chosen(NEXTFIT, none, 0, 1, Some(0)) && none[0 := 1] == one;
    assert one[0] == 1 && Covered(one, 0);
    forall b: nat | b < 1
      ensures !Fits(one, 0, 3, 1, b)
    {
      assert Covered(one, b);
    }
    assert Fits(one, 0, 3, 1, 1) && Chosen(NEXTFIT, one, 0, 1, Some(1)) && one[1 := 1] == two;
    assert forall a: nat :: !Fits(none, 1, 3, 3, a) && !Fits(none, 0, 1, 3, a);
    assert Chosen(NEXTFIT, none, 1, 3, None) && AddressOf(None) == 0;
  }

  predicate CallOk(c: Call) {
    match c
    case Malloc(_, size) => 0 < size && size + PAGE_SIZE - 1 < 0x1_0000_0000
    case Free(a) => a != 0
  }

  /** A call has one answer and one effect. */
  lemma MallocDetermined(strategy: Strategy, size: nat, live: seq<nat>, g: nat, live': seq<nat>, g': nat, address: nat,
                         live'': seq<nat>, g'': nat, address': nat)
    requires size > 0
    requires MallocStep(strategy, PagesOf(size), live, g, live', g', address)
    requires MallocStep(strategy, PagesOf(size), live, g, live'', g'', address')
    ensures live' == live'' && g' == g'' && address == address'
  {
    var n := PagesOf(size);
    var r: Option<nat> :|
      && Chosen(strategy, live, g, n, r) && address == AddressOf(r)
      && match r
         case None => live' == live && g' == (if strategy == NEXTFIT then g else 0)
         case Some(a) => a < |live| && live' == live[a := n] && g' == if a + n >= |live| then 0 else a;
    var r': Option<nat> :|
      && Chosen(strategy, live, g, n, r') && address' == AddressOf(r')
      && match r'
         case None => live'' == live && g'' == (if strategy == NEXTFIT then g else 0)
         case Some(a) => a < |live| && live'' == live[a := n] && g'' == if a + n >= |live| then 0 else a;
    ChosenUnique(strategy, live, g, n, r, r');
  }

  lemma FreeDetermined(address: nat, live: seq<nat>, live': seq<nat>, live'': seq<nat>)
    requires FreeStep(address, live, live') && FreeStep(address, live, live'')
    ensures live' == live''
  {
  }

  /** A heap's blocks and roving pointer, and the size records that free looks up. */
  ghost predicate HeapOk(live: seq<nat>, g: nat, recordSize: seq<nat>, recordAddress: seq<nat>) {
    && |recordSize| == |recordAddress| == |live|
    && BlocksOk(live) && g < |live| && Boundary(live, g)
    && forall p | 0 <= p < |live| ::
         && recordSize[p] == PAGE_SIZE * live[p]
         && recordAddress[p] == if live[p] > 0 then HEAP_START + PAGE_SIZE * p else 0
  }

  lemma RovingBoundary(live: seq<nat>, g: nat, recordSize: seq<nat>, recordAddress: seq<nat>)
    requires HeapOk(live, g, recordSize, recordAddress)
    ensures BlocksOk(live) && g < |live| && Boundary(live, g)
  {
  }

  /** The heap after a malloc that placed a block, and after a free that removed one. */
  lemma AfterMalloc(live: seq<nat>, g: nat, recordSize: seq<nat>, recordAddress: seq<nat>, a: nat, n: nat)
    requires HeapOk(live, g, recordSize, recordAddress) && n > 0 && FreeRun(live, a, n)
    ensures a < |live|
    ensures HeapOk(live[a := n], if a + n >= |live| then 0 else a,
                   recordSize[a := PAGE_SIZE * n], recordAddress[a := HEAP_START + PAGE_SIZE * a])
  {
    PlaceBlock(live, a, n);
  }

  lemma AfterFree(live: seq<nat>, g: nat, recordSize: seq<nat>, recordAddress: seq<nat>, a: nat)
    requires HeapOk(live, g, recordSize, recordAddress) && a < |live| && live[a] > 0
    ensures HeapOk(live[a := 0], g, recordSize[a := 0], recordAddress[a := 0])
  {
    RemoveBlock(live, a);
  }

  /** Every block has its record, at the page where the block starts. */
  lemma RecordsFound(live: seq<nat>, g: nat, recordSize: seq<nat>, recordAddress: seq<nat>)
    requires HeapOk(live, g, recordSize, recordAddress)
    ensures BlocksOk(live)
    ensures forall p | 0 <= p < |live| ::
              && recordSize[p] == PAGE_SIZE * live[p]
              && recordAddress[p] == if live[p] > 0 then HEAP_START + PAGE_SIZE * p else 0
  {
  }

  lemma RovingHome(live: seq<nat>, g: nat, recordSize: seq<nat>, recordAddress: seq<nat>)
    requires HeapOk(live, g, recordSize, recordAddress)
    ensures HeapOk(live, 0, recordSize, recordAddress)
  {
  }

  lemma FreeInHeap(live: seq<nat>, a: nat, n: nat)
    requires FreeRun(live, a, n)
    ensures a + n <= |live|
  {
  }

  lemma MallocFails(strategy: Strategy, n: nat, live: seq<nat>, g: nat)
    requires Chosen(strategy, live, g, n, None)
    ensures MallocStep(strategy, n, live, g, live, if strategy == NEXTFIT then g else 0, 0)
  {
    assert AddressOf(None) == 0;
  }

  lemma MallocPlaces(strategy: Strategy, n: nat, live: seq<nat>, g: nat, a: nat)
    requires a < |live| && Chosen(strategy, live, g, n, Some(a))
    ensures MallocStep(strategy, n, live, g, live[a := n], if a + n >= |live| then 0 else a, AddressOf(Some(a)))
  {
  }

  lemma ChosenIsFree(strategy: Strategy, live: seq<nat>, g: nat, n: nat, r: Option<nat>)
    requires n > 0 && g <= |live| && Chosen(strategy, live, g, n, r) && r.Some?
    ensures r.value < |live| && FreeRun(live, r.value, n)
  {
    FoundIffFits(strategy, live, g, n, r);
  }

  /** kern/uheap.c: a flag per page. */
  class FlagHeap {
    const pages: nat
    const tracker: array<nat>
    const recordSize: array<nat>
    const recordAddress: array<nat>
    var general: nat
    ghost var live: seq<nat>

    ghost predicate Valid()
      reads this, tracker, recordSize, recordAddress
    {
      && |live| == tracker.Length == recordSize.Length == recordAddress.Length == pages
      && recordSize != recordAddress && recordSize != tracker && recordAddress != tracker
      && HeapOk(live, general, recordSize[..], recordAddress[..])
      && forall p | 0 <= p < pages :: tracker[p] == if Covered(live, p) then 1 else 0
    }

    constructor (pages: nat)
      requires pages > 0
      ensures Valid() && this.pages == pages && live == seq(pages, _ => 0) && general == 0
      ensures fresh(tracker) && fresh(recordSize) && fresh(recordAddress)
    {
      this.pages := pages;
      tracker := new nat[pages](_ => 0);
      recordSize := new nat[pages](_ => 0);
      recordAddress := new nat[pages](_ => 0);
      general := 0;
      live := seq(pages, _ => 0);
    }

    method SearchFirst(n: nat) returns (r: Option<nat>)
      requires Valid() && n > 0
      ensures Lowest(live, 0, pages, n, r)
    {
      hide HeapOk, Lowest, Pending, Scanned, FreeRun, Covered;
      var i, j, size, flag := 0, 0, 0, false;
      StartScan(live, 0, n);
      while i < pages
        invariant i <= pages && j <= i && size == if flag then i - j else 0
        invariant Scanned(live, 0, i, flag, j) && Pending(live, 0, i, n, flag, j)
      {
        if tracker[i] == 0 && flag {
          StepFree(live, 0, i, n, flag, j);
          size := size + 1;
        } else if tracker[i] == 0 {
          StepFree(live, 0, i, n, flag, j);
          flag, j, size := true, i, size + 1;
        } else {
          if size >= n {
            PendingLowest(live, 0, i, pages, n, j);
            return Some(j);
          }
          StepCovered(live, 0, i, 1, n, flag, j);
          flag, j, size := false, 0, 0;
        }
        i := i + 1;
      }
      if size >= n {
        PendingLowest(live, 0, i, pages, n, j);
        return Some(j);
      }
      NothingFits(live, 0, i, n, flag, j);
      return None;
    }

    method SearchExtreme(smallest: bool, n: nat) returns (r: Option<nat>)
      requires Valid() && n > 0
      ensures Extreme(live, n, smallest, r)
    {
      hide HeapOk, Extreme, BestSoFar, Scanned, FreeRun, Covered, Pending;
      var limit: nat := if smallest then pages else 0;
      var i, j, size, flag, found, best := 0, 0, 0, false, false, 0;
      StartScan(live, 0, n);
      StartBest(live, n, smallest);
      while i < pages
        invariant i <= pages && j <= i && size == if flag then i - j else 0
        invariant Scanned(live, 0, i, flag, j) && BestSoFar(live, n, smallest, i, found, limit, best)
      {
        if tracker[i] == 0 && flag {
          StepFree(live, 0, i, n, flag, j);
          BestFree(live, n, smallest, i, found, limit, best);
          size := size + 1;
        } else if tracker[i] == 0 {
          StepFree(live, 0, i, n, flag, j);
          BestFree(live, n, smallest, i, found, limit, best);
          flag, j, size := true, i, size + 1;
        } else {
          var take := size >= n && if smallest then limit > size else limit < size;
          StepCovered(live, 0, i, 1, n, flag, j);
          BestCovered(live, n, smallest, i, 1, flag, j, found, limit, best, take);
          if take {
            best, limit, found := j, size, true;
          }
          flag, j, size := false, 0, 0;
        }
        i := i + 1;
      }
      r := if found then Some(best) else if size >= n then Some(j) else None;
      BestIsExtreme(live, n, smallest, flag, j, found, limit, best, r);
    }

    method SearchNext(n: nat) returns (r: Option<nat>)
      requires Valid() && n > 0
      ensures NextFitting(live, general, n, r)
    {
      hide HeapOk, Lowest, Pending, Scanned, FreeRun, Covered, NextFitting;
      RovingBoundary(live, general, recordSize[..], recordAddress[..]);
      var k: nat, i: nat, j: nat, size: nat, flag := pages, general, 0, 0, false;
      ghost var lo := general;
      ghost var wrapped := false;
      StartScan(live, lo, n);
      while k != 0
        invariant i < pages && j <= i && size == (if flag then i - j else 0) && size < n
        invariant lo == (if wrapped then 0 else general) && k >= 0
        invariant k + i == if wrapped then general else pages + general
        invariant wrapped ==> Lowest(live, general, pages, n, None)
        invariant Scanned(live, lo, i, flag, j) && Pending(live, lo, i, n, flag, j)
      {
        k := k - 1;
        if tracker[i] == 0 {
          StepFree(live, lo, i, n, flag, j);
          if !flag {
            flag, j := true, i;
          }
          size := size + 1;
        } else {
          StepCovered(live, lo, i, 1, n, flag, j);
          flag, j, size := false, 0, 0;
        }
        if size >= n {
          PendingLowest(live, lo, i + 1, if wrapped then general else pages, n, j);
          NextFound(live, general, n, wrapped, j);
          return Some(j);
        }
        i := i + 1;
        if i >= pages {
          NothingFits(live, lo, i, n, flag, j);
          i, j, size, flag := 0, 0, 0, false;
          lo, wrapped := 0, true;
          StartScan(live, 0, n);
        }
      }
      NothingFits(live, 0, i, n, flag, j);
      NextMissing(live, general, n);
      return None;
    }

    /** Sends the roving pointer home for every strategy but next fit, and searches. */
    method Search(strategy: Strategy, n: nat) returns (r: Option<nat>)
      requires Valid() && n > 0
      modifies this`general
      ensures Valid() && general == if strategy == NEXTFIT then old(general) else 0
      ensures Chosen(strategy, live, old(general), n, r)
    {
      hide HeapOk, Lowest, NextFitting, Extreme, FreeRun, Covered;
      if strategy == NEXTFIT {
        r := SearchNext(n);
      } else {
        RovingHome(live, general, recordSize[..], recordAddress[..]);
        general := 0;
        if strategy == FIRSTFIT {
          r := SearchFirst(n);
        } else {
          r := SearchExtreme(strategy == BESTFIT, n);
        }
      }
    }

    /** Marks the pages of a block, records its size, and moves the roving pointer. */
    method Place(a: nat, n: nat) returns (address: nat)
      requires Valid() && n > 0 && FreeRun(live, a, n)
      modifies this`general, this`live, tracker, recordSize, recordAddress
      ensures Valid() && address == AddressOf(Some(a))
      ensures a + n <= pages && live == old(live)[a := n] && general == if a + n >= pages then 0 else a
    {
      hide HeapOk, Covered, FreeRun;
      AfterMalloc(live, general, recordSize[..], recordAddress[..], a, n);
      RovingBoundary(live, general, recordSize[..], recordAddress[..]);
      PlaceBlock(live, a, n);
      FreeInHeap(live, a, n);
      general := a;
      for j := 0 to n
        modifies tracker
        invariant forall p | 0 <= p < pages ::
            tracker[p] == if a <= p < a + j then 1 else old(tracker[p])
      {
        tracker[a + j] := 1;
      }
      address := HEAP_START + PAGE_SIZE * a;
      recordSize[a] := PAGE_SIZE * n;
      recordAddress[a] := address;
      assert recordSize[..] == old(recordSize[..])[a := PAGE_SIZE * n];
      assert recordAddress[..] == old(recordAddress[..])[a := address];
      live := live[a := n];
      if general + n >= pages {
        general := 0;
      }
      assert HeapOk(live, general, recordSize[..], recordAddress[..]);
      assert forall p: nat | p < pages :: tracker[p] == if Covered(live, p) then 1 else 0;
    }

    method Malloc(strategy: Strategy, size: nat) returns (address: nat)
      requires Valid() && CallOk(Call.Malloc(strategy, size))
      modifies this`general, this`live, tracker, recordSize, recordAddress
      ensures Valid()
      ensures forall n: nat | PAGE_SIZE * (n - 1) < size <= PAGE_SIZE * n ::
                MallocStep(strategy, n, old(live), old(general), live, general, address)
    {
      hide HeapOk, Chosen, MallocStep, FreeRun, Covered;
      var n := PagesOf(size);
      RovingBoundary(live, general, recordSize[..], recordAddress[..]);
      var r := Search(strategy, n);
      if r.None? {
        MallocFails(strategy, n, live, old(general));
        return 0;
      }
      ChosenIsFree(strategy, live, old(general), n, r);
      address := Place(r.value, n);
      MallocPlaces(strategy, n, old(live), old(general), r.value);
    }

    method Free(address: nat)
      requires Valid() && address != 0
      modifies this`live, tracker, recordSize, recordAddress
      ensures Valid() && FreeStep(address, old(live), live)
    {
      hide HeapOk, Covered;
      RecordsFound(live, general, recordSize[..], recordAddress[..]);
      for i := 0 to pages
        invariant live == old(live) && tracker[..] == old(tracker[..])
        invariant recordSize[..] == old(recordSize[..]) && recordAddress[..] == old(recordAddress[..])
        invariant forall h | 0 <= h < i :: recordAddress[h] != address
      {
        if recordAddress[i] == address {
          var a := (recordAddress[i] - HEAP_START) / PAGE_SIZE;
          RemoveBlock(live, a);
          AfterFree(live, general, recordSize[..], recordAddress[..], a);
          for j := 0 to recordSize[i] / PAGE_SIZE
            modifies tracker
            invariant forall p | 0 <= p < pages ::
                tracker[p] == if a <= p < a + j then 0 else old(tracker[p])
          {
            tracker[a + j] := 0;
          }
          recordAddress[i] := 0;
          recordSize[i] := 0;
          assert recordSize[..] == old(recordSize[..])[a := 0];
          assert recordAddress[..] == old(recordAddress[..])[a := 0];
          live := live[a := 0];
          return;
        }
      }
    }
  }

  /** lib/uheap.c: a block's length at its first page, so that a scan steps over a whole block. */
  class RunHeap {
    const pages: nat
    const tracker: array<nat>
    const recordSize: array<nat>
    const recordAddress: array<nat>
    var general: nat

    ghost function Live(): seq<nat>
      reads tracker
    {
      tracker[..]
    }

    ghost predicate Valid()
      reads this, tracker, recordSize, recordAddress
    {
      && tracker.Length == recordSize.Length == recordAddress.Length == pages
      && recordSize != recordAddress && recordSize != tracker && recordAddress != tracker
      && HeapOk(Live(), general, recordSize[..], recordAddress[..])
    }

    constructor (pages: nat)
      requires pages > 0
      ensures Valid() && this.pages == pages && Live() == seq(pages, _ => 0) && general == 0
      ensures fresh(tracker) && fresh(recordSize) && fresh(recordAddress)
    {
      this.pages := pages;
      tracker := new nat[pages](_ => 0);
      recordSize := new nat[pages](_ => 0);
      recordAddress := new nat[pages](_ => 0);
      general := 0;
      new;
      assert Live() == seq(pages, _ => 0);
    }

    method SearchFirst(n: nat) returns (r: Option<nat>)
      requires Valid() && n > 0
      ensures Lowest(Live(), 0, pages, n, r)
    {
      hide HeapOk, BlocksOk, Boundary, Lowest, Pending, Scanned, FreeRun, Covered, AllCovered;
      RovingBoundary(Live(), general, recordSize[..], recordAddress[..]);
      BoundaryHome(Live());
      var i, j, size, flag := 0, 0, 0, false;
      StartScan(Live(), 0, n);
      while i < pages
        invariant i <= pages && j <= i && size == (if flag then i - j else 0) && Boundary(Live(), i)
        invariant Scanned(Live(), 0, i, flag, j) && Pending(Live(), 0, i, n, flag, j)
      {
        AtBoundary(Live(), i);
        if tracker[i] == 0 && flag {
          StepFree(Live(), 0, i, n, flag, j);
          size := size + 1;
          i := i + 1;
        } else if tracker[i] == 0 {
          StepFree(Live(), 0, i, n, flag, j);
          flag, j, size := true, i, size + 1;
          i := i + 1;
        } else {
          if size >= n {
            PendingLowest(Live(), 0, i, pages, n, j);
            return Some(j);
          }
          StepCovered(Live(), 0, i, tracker[i], n, flag, j);
          i := i + tracker[i];
          flag, j, size := false, 0, 0;
        }
      }
      if size >= n {
        PendingLowest(Live(), 0, i, pages, n, j);
        return Some(j);
      }
      NothingFits(Live(), 0, i, n, flag, j);
      return None;
    }

    method SearchExtreme(smallest: bool, n: nat) returns (r: Option<nat>)
      requires Valid() && n > 0
      ensures Extreme(Live(), n, smallest, r)
    {
      hide HeapOk, BlocksOk, Boundary, Extreme, BestSoFar, Scanned, FreeRun, Covered, AllCovered, Pending;
      RovingBoundary(Live(), general, recordSize[..], recordAddress[..]);
      BoundaryHome(Live());
      var limit: nat := if smallest then pages else 0;
      var i, j, size, flag, found, best := 0, 0, 0, false, false, 0;
      StartScan(Live(), 0, n);
      StartBest(Live(), n, smallest);
      while i < pages
        invariant i <= pages && j <= i && size == (if flag then i - j else 0) && Boundary(Live(), i)
        invariant Scanned(Live(), 0, i, flag, j) && BestSoFar(Live(), n, smallest, i, found, limit, best)
      {
        AtBoundary(Live(), i);
        if tracker[i] == 0 && flag {
          StepFree(Live(), 0, i, n, flag, j);
          BestFree(Live(), n, smallest, i, found, limit, best);
          size := size + 1;
          i := i + 1;
        } else if tracker[i] == 0 {
          StepFree(Live(), 0, i, n, flag, j);
          BestFree(Live(), n, smallest, i, found, limit, best);
          flag, j, size := true, i, size + 1;
          i := i + 1;
        } else {
          var take := size >= n && if smallest then limit > size else limit < size;
          StepCovered(Live(), 0, i, tracker[i], n, flag, j);
          BestCovered(Live(), n, smallest, i, tracker[i], flag, j, found, limit, best, take);
          if take {
            best, limit, found := j, size, true;
          }
          i := i + tracker[i];
          flag, j, size := false, 0, 0;
        }
      }
      r := if found then Some(best) else if size >= n then Some(j) else None;
      BestIsExtreme(Live(), n, smallest, flag, j, found, limit, best, r);
    }

    /** The counter `k` starts at the number of pages and is reduced by whole block lengths; it never
        goes below 0 because the roving pointer is never strictly inside a block. */
    method SearchNext(n: nat) returns (r: Option<nat>)
      requires Valid() && n > 0
      ensures NextFitting(Live(), general, n, r)
    {
      hide HeapOk, BlocksOk, Boundary, Lowest, Pending, Scanned, FreeRun, Covered, AllCovered, NextFitting;
      RovingBoundary(Live(), general, recordSize[..], recordAddress[..]);
      BoundaryHome(Live());
      var k: nat, i: nat, j: nat, size: nat, flag := pages, general, 0, 0, false;
      ghost var lo := general;
      ghost var wrapped := false;
      StartScan(Live(), lo, n);
      while k != 0
        invariant i < pages && j <= i && size == (if flag then i - j else 0) && size < n
        invariant lo == (if wrapped then 0 else general) && k >= 0
        invariant k + i == if wrapped then general else pages + general
        invariant Boundary(Live(), i)
        invariant wrapped ==> Lowest(Live(), general, pages, n, None)
        invariant Scanned(Live(), lo, i, flag, j) && Pending(Live(), lo, i, n, flag, j)
      {
        AtBoundary(Live(), i);
        if tracker[i] == 0 {
          StepFree(Live(), lo, i, n, flag, j);
          if !flag {
            flag, j := true, i;
          }
          size := size + 1;
          k := k - 1;
          i := i + 1;
        } else {
          StepCovered(Live(), lo, i, tracker[i], n, flag, j);
          BoundaryStops(Live(), i, general);
          k := k - tracker[i];
          i := i + tracker[i];
          flag, j, size := false, 0, 0;
        }
        if size >= n {
          PendingLowest(Live(), lo, i, if wrapped then general else pages, n, j);
          NextFound(Live(), general, n, wrapped, j);
          return Some(j);
        }
        if i >= pages {
          NothingFits(Live(), lo, i, n, flag, j);
          i, j, size, flag := 0, 0, 0, false;
          lo, wrapped := 0, true;
          StartScan(Live(), 0, n);
        }
      }
      NothingFits(Live(), 0, i, n, flag, j);
      NextMissing(Live(), general, n);
      return None;
    }

    method Search(strategy: Strategy, n: nat) returns (r: Option<nat>)
      requires Valid() && n > 0
      modifies this`general
      ensures Valid() && general == if strategy == NEXTFIT then old(general) else 0
      ensures Chosen(strategy, Live(), old(general), n, r)
    {
      hide HeapOk, Lowest, NextFitting, Extreme, FreeRun, Covered;
      if strategy == NEXTFIT {
        r := SearchNext(n);
      } else {
        RovingHome(Live(), general, recordSize[..], recordAddress[..]);
        general := 0;
        if strategy == FIRSTFIT {
          r := SearchFirst(n);
        } else {
          r := SearchExtreme(strategy == BESTFIT, n);
        }
      }
    }

    method Malloc(strategy: Strategy, size: nat) returns (address: nat)
      requires Valid() && CallOk(Call.Malloc(strategy, size))
      modifies this`general, tracker, recordSize, recordAddress
      ensures Valid()
      ensures forall n: nat | PAGE_SIZE * (n - 1) < size <= PAGE_SIZE * n ::
                MallocStep(strategy, n, old(Live()), old(general), Live(), general, address)
    {
      hide HeapOk, Chosen, MallocStep, FreeRun, Covered;
      var n := PagesOf(size);
      RovingBoundary(Live(), general, recordSize[..], recordAddress[..]);
      var r := Search(strategy, n);
      if r.None? {
        MallocFails(strategy, n, Live(), old(general));
        return 0;
      }
      ChosenIsFree(strategy, Live(), old(general), n, r);
      AfterMalloc(Live(), general, recordSize[..], recordAddress[..], r.value, n);
      MallocPlaces(strategy, n, Live(), old(general), r.value);
      general := r.value;
      tracker[general] := n;
      address := HEAP_START + PAGE_SIZE * general;
      recordSize[general] := PAGE_SIZE * n;
      recordAddress[general] := address;
      assert Live() == old(Live())[general := n];
      assert recordSize[..] == old(recordSize[..])[general := PAGE_SIZE * n];
      assert recordAddress[..] == old(recordAddress[..])[general := address];
      if general + n >= pages {
        general := 0;
      }
    }

    method Free(address: nat)
      requires Valid() && address != 0
      modifies tracker, recordSize, recordAddress
      ensures Valid() && FreeStep(address, old(Live()), Live())
    {
      hide HeapOk;
      RecordsFound(Live(), general, recordSize[..], recordAddress[..]);
      for i := 0 to pages
        invariant Live() == old(Live())
        invariant recordSize[..] == old(recordSize[..]) && recordAddress[..] == old(recordAddress[..])
        invariant forall h | 0 <= h < i :: recordAddress[h] != address
      {
        if recordAddress[i] == address {
          var a := (recordAddress[i] - HEAP_START) / PAGE_SIZE;
          AfterFree(Live(), general, recordSize[..], recordAddress[..], a);
          tracker[a] := 0;
          recordAddress[i] := 0;
          recordSize[i] := 0;
          assert Live() == old(Live())[a := 0];
          assert recordSize[..] == old(recordSize[..])[a := 0];
          assert recordAddress[..] == old(recordAddress[..])[a := 0];
          return;
        }
      }
    }
  }

  /** What a caller sees of one call: the address returned and the roving pointer afterwards. */
  datatype Answer = Answer(address: nat, general: nat)

  /** From a fresh start, whatever is called, the two heaps give the same answers, and a page is flagged
      in the one exactly when it lies in the run that some head of the other holds. */
  method RunBoth(pages: nat, calls: seq<Call>) returns (flags: FlagHeap, runs: RunHeap, a: seq<Answer>, b: seq<Answer>)
    requires pages > 0 && forall c | c in calls :: CallOk(c)
    ensures |a| == |calls| && a == b
    ensures flags.Valid() && runs.Valid() && flags.pages == runs.pages == pages && flags.general == runs.general
    ensures forall p | 0 <= p < pages ::
              flags.tracker[p] == 1 <==> exists h :: 0 <= h <= p && p < h + runs.tracker[h]
  {
    hide HeapOk, MallocStep, FreeStep;
    flags := new FlagHeap(pages);
    runs := new RunHeap(pages);
    a, b := [], [];
    for i := 0 to |calls|
      invariant fresh({flags, runs}) && fresh({flags.tracker, flags.recordSize, flags.recordAddress})
      invariant fresh({runs.tracker, runs.recordSize, runs.recordAddress})
      invariant {flags.tracker, flags.recordSize, flags.recordAddress}
                !! {runs.tracker, runs.recordSize, runs.recordAddress}
      invariant flags.Valid() && runs.Valid() && flags.pages == runs.pages == pages
      invariant flags.live == runs.Live() && flags.general == runs.general
      invariant |a| == i && a == b
    {
      assert CallOk(calls[i]);
      var address, address' := 0, 0;
      match calls[i] {
        case Malloc(strategy, size) =>
          ghost var live, g := flags.live, flags.general;
          address := flags.Malloc(strategy, size);
          address' := runs.Malloc(strategy, size);
          MallocDetermined(strategy, size, live, g, flags.live, flags.general, address, runs.Live(), runs.general,
            address');
        case Free(x) =>
          ghost var live := flags.live;
          flags.Free(x);
          runs.Free(x);
          FreeDetermined(x, live, flags.live, runs.Live());
      }
      a := a + [Answer(address, flags.general)];
      b := b + [Answer(address', runs.general)];
    }
  }
}
