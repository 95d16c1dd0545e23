/** A program on demand-paged memory: what it sees of its pages, and what the kernel keeps for it. */
module Programs {
  import opened Common
  import opened KernelMemory
  import opened FlatMemory
  import opened Replacement

  /** `backed` are the pages that have a disk frame, and the program sees its working set at the first `mirror`
      pages of its mirror. */
  datatype Program = Program(memory: FlatMemory, backed: set<nat>, pager: Pager, mirror: nat)

  /** The slot that a page fault uses, and whether a table fault came first. */
  datatype How = How(slot: nat, tabled: bool)

  predicate Misses(p: Program, op: Op) {
    !op.Other? && !InWs(p.pager.ws, op.page)
  }

  predicate IsNew(p: Program, op: Op) {
    !op.Other? && op.page !in p.memory.pages
  }

  /** The page that the operation evicts. */
  function EvictedBy(p: Program, op: Op, how: How): Option<nat> {
    Victim(p.pager, op, how.slot)
  }

  /** What the program loses with it: a page that has no disk frame. */
  function LostWith(p: Program, victim: Option<nat>): set<nat> {
    if victim.Some? && victim.value !in p.backed then {victim.value} else {}
  }

  /** A load, a store or a tick under the algorithm in force, while `free` disk frames are free. A page that the
      program did not have gets a disk frame if one is free. */
  ghost predicate AccessStep(
    p: Program, free: nat, algorithm: Algorithm, op: Op, value: bv8, how: How, p': Program, free': nat)
  {
    && PagerStep(algorithm, op, how.tabled, p.pager, how.slot, p'.pager)
    && FlatStep(Forget(p.memory, LostWith(p, EvictedBy(p, op, how))), op, value, p'.memory)
    && p'.mirror == p.mirror
    && (IsNew(p, op) ==> op.page !in p.backed)
    && if IsNew(p, op) && free > 0 then p'.backed == p.backed + {op.page} && free' == free - 1
       else p'.backed == p.backed && free' == free
  }

  /** A run: `trace` holds the program before each operation and at the end, `frees` the number of free disk
      frames, and `hows` how each operation was served. */
  ghost predicate ProgramRun(
    trace: seq<Program>, frees: seq<nat>, algorithms: seq<Algorithm>, ops: seq<Op>, values: seq<bv8>,
    hows: seq<How>)
  {
    && |trace| == |frees| == |ops| + 1 && |algorithms| == |values| == |hows| == |ops|
    && (forall k | 0 <= k < |ops| ::
          AccessStep(trace[k], frees[k], algorithms[k], ops[k], values[k], hows[k], trace[k + 1], frees[k + 1]))
  }

  /** Every page is resident or has a disk frame. */
  ghost predicate Whole(p: Program) {
    PagerOk(p.pager) && Resident(p.pager.ws) <= p.memory.pages.Keys <= p.backed + Resident(p.pager.ws)
  }

  /** What the operation takes from the program. */
  function Loss(p: Program, op: Op, how: How): set<nat> {
    LostWith(p, EvictedBy(p, op, how))
  }

  /** Exactly a miss on a full working set evicts a page, which was resident. */
  lemma EvictsWhen(p: Program, free: nat, algorithm: Algorithm, op: Op, value: bv8, how: How, p': Program, free': nat)
    requires Whole(p) && AccessStep(p, free, algorithm, op, value, how, p', free')
    ensures EvictedBy(p, op, how).Some? <==> Misses(p, op) && |Resident(p.pager.ws)| == |p.pager.ws|
    ensures EvictedBy(p, op, how).Some? ==> EvictedBy(p, op, how).value in Resident(p.pager.ws)
    ensures forall v :: v in Resident(p'.pager.ws) <==>
              (v in Resident(p.pager.ws) && EvictedBy(p, op, how) != Some(v)) || (!op.Other? && v == op.page)
    ensures PagerOk(p'.pager) && |p'.pager.ws| == |p.pager.ws|
  {
    hide InWs, Full, Victim, PagerStep, FlatStep;
    PagesAfter(algorithm, op, how.tabled, p.pager, how.slot, p'.pager);
    ResidentCount(p.pager.ws);
  }

  lemma WholeStep(p: Program, free: nat, algorithm: Algorithm, op: Op, value: bv8, how: How, p': Program, free': nat)
    requires Whole(p) && AccessStep(p, free, algorithm, op, value, how, p', free')
    ensures Whole(p')
  {
    hide FlatStep, PagerStep, PagerOk, InWs, Victim;
    EvictsWhen(p, free, algorithm, op, value, how, p', free');
    var m := Forget(p.memory, LostWith(p, EvictedBy(p, op, how)));
    KeysStep(m, op, value, p'.memory);
    forall v
      ensures v in Resident(p'.pager.ws) ==> v in p'.memory.pages
      ensures v in p'.memory.pages ==> v in p'.backed || v in Resident(p'.pager.ws)
    {
    }
  }

  lemma KeysStep(m: FlatMemory, op: Op, value: bv8, m': FlatMemory)
    requires FlatStep(m, op, value, m')
    ensures forall v :: v in m'.pages <==> v in m.pages || (!op.Other? && v == op.page)
  {
  }

  /** All pages have a disk frame. */
  predicate AllBacked(p: Program) {
    p.memory.pages.Keys <= p.backed
  }

  /** Every page that is new to the program finds a free disk frame. */
  predicate RoomForNew(trace: seq<Program>, frees: seq<nat>, ops: seq<Op>)
    requires |trace| > |ops| && |frees| > |ops|
  {
    forall k | 0 <= k < |ops| && IsNew(trace[k], ops[k]) :: frees[k] > 0
  }

  lemma BackedStep(p: Program, free: nat, algorithm: Algorithm, op: Op, value: bv8, how: How, p': Program, free': nat)
    requires Whole(p) && AllBacked(p) && AccessStep(p, free, algorithm, op, value, how, p', free')
    ensures Loss(p, op, how) == {} && (AllBacked(p') <==> !IsNew(p, op) || free > 0)
  {
    hide FlatStep, PagerStep, PagerOk, InWs, Victim;
    EvictsWhen(p, free, algorithm, op, value, how, p', free');
    KeysStep(Forget(p.memory, Loss(p, op, how)), op, value, p'.memory);
  }

  /** From a program whose pages all have disk frames: they go on having them if and only if every new page finds
      one free, and then nothing is lost. */
  lemma {:induction false} NothingLost(
    trace: seq<Program>, frees: seq<nat>, algorithms: seq<Algorithm>, ops: seq<Op>, values: seq<bv8>,
    hows: seq<How>)
    requires ProgramRun(trace, frees, algorithms, ops, values, hows) && Whole(trace[0]) && AllBacked(trace[0])
    ensures RoomForNew(trace, frees, ops) <==> forall k | 0 <= k <= |ops| :: AllBacked(trace[k])
    ensures RoomForNew(trace, frees, ops) ==> forall k | 0 <= k < |ops| :: Loss(trace[k], ops[k], hows[k]) == {}
    ensures forall k | 0 <= k <= |ops| :: Whole(trace[k])
  {
    hide AccessStep, Whole, AllBacked, IsNew, Loss;
    if ops != [] {
      var n := |ops| - 1;
      NothingLost(trace[..n + 1], frees[..n + 1], algorithms[..n], ops[..n], values[..n], hows[..n]);
      assert AccessStep(trace[n], frees[n], algorithms[n], ops[n], values[n], hows[n], trace[n + 1], frees[n + 1]);
      WholeStep(trace[n], frees[n], algorithms[n], ops[n], values[n], hows[n], trace[n + 1], frees[n + 1]);
      if AllBacked(trace[n]) {
        BackedStep(trace[n], frees[n], algorithms[n], ops[n], values[n], hows[n], trace[n + 1], frees[n + 1]);
      }
    }
  }

  /** A page that has a disk frame keeps it, and so is never lost. */
  lemma {:induction false} DiskFrameStays(
    trace: seq<Program>, frees: seq<nat>, algorithms: seq<Algorithm>, ops: seq<Op>, values: seq<bv8>,
    hows: seq<How>,
    j: nat, k: nat, page: nat)
    requires ProgramRun(trace, frees, algorithms, ops, values, hows) && j <= k <= |ops| && page in trace[j].backed
    ensures page in trace[k].backed
    ensures forall i | j <= i < k :: page !in Loss(trace[i], ops[i], hows[i])
  {
    if j < k {
      DiskFrameStays(trace, frees, algorithms, ops, values, hows, j, k - 1, page);
      assert AccessStep(trace[k - 1], frees[k - 1], algorithms[k - 1], ops[k - 1], values[k - 1], hows[k - 1], trace[k],
             frees[k]);
    }
  }

  predicate StoresTo(op: Op, page: nat, offset: nat) {
    op.Store? && op.page == page && op.offset == offset
  }

  /** Once stored, a byte keeps its value until the next store to it or the loss of its page. */
  lemma {:induction false} ByteStays(
    trace: seq<Program>, frees: seq<nat>, algorithms: seq<Algorithm>, ops: seq<Op>, values: seq<bv8>,
    hows: seq<How>,
    j: nat, k: nat, page: nat, offset: nat)
    requires ProgramRun(trace, frees, algorithms, ops, values, hows) && j < k <= |ops|
    requires StoresTo(ops[j], page, offset)
    requires forall i | j < i < k :: !StoresTo(ops[i], page, offset) && page !in Loss(trace[i], ops[i], hows[i])
    ensures var m := trace[k].memory;
            page in m.pages && page !in m.blank && offset < PAGE_SIZE && m.pages[page][offset] == ops[j].value
  {
    assert AccessStep(trace[k - 1], frees[k - 1], algorithms[k - 1], ops[k - 1], values[k - 1], hows[k - 1], trace[k],
           frees[k]);
    if j < k - 1 {
      ByteStays(trace, frees, algorithms, ops, values, hows, j, k - 1, page, offset);
    }
  }

  /** A load returns the last value stored to its byte, unless its page was evicted without a disk frame in
      between. */
  lemma LoadReturnsLastStore(
    trace: seq<Program>, frees: seq<nat>, algorithms: seq<Algorithm>, ops: seq<Op>, values: seq<bv8>,
    hows: seq<How>, j: nat, k: nat)
    requires ProgramRun(trace, frees, algorithms, ops, values, hows) && j < k < |ops|
    requires ops[k].Load? && StoresTo(ops[j], ops[k].page, ops[k].offset)
    requires forall i | j < i < k :: !StoresTo(ops[i], ops[k].page, ops[k].offset)
    requires forall i | j < i <= k :: ops[k].page !in Loss(trace[i], ops[i], hows[i])
    ensures values[k] == ops[j].value
  {
    ByteStays(trace, frees, algorithms, ops, values, hows, j, k, ops[k].page, ops[k].offset);
    assert AccessStep(trace[k], frees[k], algorithms[k], ops[k], values[k], hows[k], trace[k + 1], frees[k + 1]);
  }

  /** A byte of a page that the program had from the start keeps its first value until stored to. */
  lemma {:induction false} FirstByteStays(
    trace: seq<Program>, frees: seq<nat>, algorithms: seq<Algorithm>, ops: seq<Op>, values: seq<bv8>,
    hows: seq<How>,
    k: nat, page: nat, offset: nat)
    requires ProgramRun(trace, frees, algorithms, ops, values, hows) && k <= |ops| && offset < PAGE_SIZE
    requires page in trace[0].memory.pages && page !in trace[0].memory.blank
    requires forall i | 0 <= i < k :: !StoresTo(ops[i], page, offset) && page !in Loss(trace[i], ops[i], hows[i])
    ensures page in trace[k].memory.pages && page !in trace[k].memory.blank
    ensures trace[k].memory.pages[page][offset] == trace[0].memory.pages[page][offset]
  {
    if k > 0 {
      assert AccessStep(trace[k - 1], frees[k - 1], algorithms[k - 1], ops[k - 1], values[k - 1], hows[k - 1], trace[k],
             frees[k]);
      FirstByteStays(trace, frees, algorithms, ops, values, hows, k - 1, page, offset);
    }
  }

  /** A load that no store precedes returns the byte the page had at the start. */
  lemma LoadReturnsFirstByte(
    trace: seq<Program>, frees: seq<nat>, algorithms: seq<Algorithm>, ops: seq<Op>, values: seq<bv8>,
    hows: seq<How>, k: nat)
    requires ProgramRun(trace, frees, algorithms, ops, values, hows) && k < |ops| && ops[k].Load?
    requires ops[k].page in trace[0].memory.pages && ops[k].page !in trace[0].memory.blank
    requires forall i | 0 <= i < k :: !StoresTo(ops[i], ops[k].page, ops[k].offset)
    requires forall i | 0 <= i <= k :: ops[k].page !in Loss(trace[i], ops[i], hows[i])
    ensures ops[k].offset < PAGE_SIZE && values[k] == trace[0].memory.pages[ops[k].page][ops[k].offset]
  {
    assert AccessStep(trace[k], frees[k], algorithms[k], ops[k], values[k], hows[k], trace[k + 1], frees[k + 1]);
    FirstByteStays(trace, frees, algorithms, ops, values, hows, k, ops[k].page, ops[k].offset);
  }

  // ---- the algorithms over whole runs ----

  /** What the first `k` operations of a run write to the working set. */
  function RunEvents(
    trace: seq<Program>, algorithms: seq<Algorithm>, ops: seq<Op>, hows: seq<How>, k: nat): (events: seq<WsEvent>)
    requires k <= |ops| == |algorithms| == |hows| <= |trace|
    requires forall i | 0 <= i < |ops| :: |trace[i].pager.used| == |trace[i].pager.ws|
  {
    if k == 0 then []
    else
      RunEvents(trace, algorithms, ops, hows, k - 1)
      + Events(algorithms[k - 1], ops[k - 1], hows[k - 1].tabled, trace[k - 1].pager, hows[k - 1].slot)
  }

  lemma PagerOf(
    trace: seq<Program>, frees: seq<nat>, algorithms: seq<Algorithm>, ops: seq<Op>, values: seq<bv8>,
    hows: seq<How>, k: nat)
    requires ProgramRun(trace, frees, algorithms, ops, values, hows) && k < |ops|
    ensures PagerStep(algorithms[k], ops[k], hows[k].tabled, trace[k].pager, hows[k].slot, trace[k + 1].pager)
    ensures forall i | 0 <= i < |ops| :: |trace[i].pager.used| == |trace[i].pager.ws|
  {
    hide FlatStep, FaultStep;
    forall i | 0 <= i < |ops|
      ensures |trace[i].pager.used| == |trace[i].pager.ws|
      ensures PagerStep(algorithms[i], ops[i], hows[i].tabled, trace[i].pager, hows[i].slot, trace[i + 1].pager)
    {
      assert AccessStep(trace[i], frees[i], algorithms[i], ops[i], values[i], hows[i], trace[i + 1], frees[i + 1]);
    }
  }

  /** The events make the set what it is at every point of the run. */
  lemma {:induction false} RunRecorded(
    trace: seq<Program>, frees: seq<nat>, algorithms: seq<Algorithm>, ops: seq<Op>, values: seq<bv8>,
    hows: seq<How>, histories: seq<seq<bool>>, k: nat)
    requires ProgramRun(trace, frees, algorithms, ops, values, hows) && PagerOk(trace[0].pager) && k <= |ops|
    requires |histories| == |trace[0].pager.ws|
    ensures PagerOk(trace[k].pager) && |trace[k].pager.ws| == |trace[0].pager.ws|
    ensures forall i | 0 <= i < |ops| :: |trace[i].pager.used| == |trace[i].pager.ws|
    ensures forall e | e in RunEvents(trace, algorithms, ops, hows, k) :: EventOk(e, |trace[0].pager.ws|)
    ensures WsRun(trace[0].pager.ws, histories, RunEvents(trace, algorithms, ops, hows, k)).0 == trace[k].pager.ws
  {
    hide AccessStep, PagerOk, Events, WsRun, PagerStep;
    if ops != [] {
      PagerOf(trace, frees, algorithms, ops, values, hows, 0);
    }
    if k == 0 {
      NoEvents(trace[0].pager.ws, histories);
    } else {
      var n := k - 1;
      var ws, p, p' := trace[0].pager.ws, trace[n].pager, trace[k].pager;
      RunRecorded(trace, frees, algorithms, ops, values, hows, histories, n);
      PagerOf(trace, frees, algorithms, ops, values, hows, n);
      PagesAfter(algorithms[n], ops[n], hows[n].tabled, p, hows[n].slot, p');
      var events := RunEvents(trace, algorithms, ops, hows, n);
      EventsRun(algorithms[n], ops[n], hows[n].tabled, p, hows[n].slot, p', WsRun(ws, histories, events).1);
      WsRunConcat(ws, histories, events, Events(algorithms[n], ops[n], hows[n].tabled, p, hows[n].slot));
    }
  }

  /** On every run each page that LRU evicts is one that was referenced least recently since the run began, by the
      histories that the stamps record. */
  lemma LruEvictsOldest(
    trace: seq<Program>, frees: seq<nat>, algorithms: seq<Algorithm>, ops: seq<Op>, values: seq<bv8>,
    hows: seq<How>, histories: seq<seq<bool>>, k: nat)
    requires ProgramRun(trace, frees, algorithms, ops, values, hows) && PagerOk(trace[0].pager) && k < |ops|
    requires StampsRecord(trace[0].pager.ws, histories)
    requires algorithms[k] == LRU && EvictedBy(trace[k], ops[k], hows[k]).Some?
    ensures forall i | 0 <= i < |ops| :: |trace[i].pager.used| == |trace[i].pager.ws|
    ensures var events := RunEvents(trace, algorithms, ops, hows, k) + Ticks(trace[k].pager, LRU, hows[k].tabled);
            && (forall e | e in events :: EventOk(e, |trace[0].pager.ws|))
            && LeastRecent(WsRun(trace[0].pager.ws, histories, events).1, trace[k].pager.hand, hows[k].slot)
  {
    hide AccessStep, PagerOk, RunEvents, Ticks, WsRun, PagerStep, LeastRecent, StampsRecord;
    var ws, p := trace[0].pager.ws, trace[k].pager;
    Recorded(ws, histories);
    RunRecorded(trace, frees, algorithms, ops, values, hows, histories, k);
    PagerOf(trace, frees, algorithms, ops, values, hows, k);
    var events := RunEvents(trace, algorithms, ops, hows, k);
    StampsRecordRun(ws, histories, events);
    var h := WsRun(ws, histories, events).1;
    LruAfter(ops[k], hows[k].tabled, p, hows[k].slot, trace[k + 1].pager, h);
    WsRunConcat(ws, histories, events, Ticks(p, LRU, hows[k].tabled));
  }

  /** A run under FIFO moves working set and hand as a queue of exactly the pages that the operations miss on. */
  lemma {:induction false} FifoIsQueue(
    trace: seq<Program>, frees: seq<nat>, algorithms: seq<Algorithm>, ops: seq<Op>, values: seq<bv8>,
    hows: seq<How>, k: nat)
    requires ProgramRun(trace, frees, algorithms, ops, values, hows) && PagerOk(trace[0].pager) && k <= |ops|
    requires forall i | 0 <= i < k :: algorithms[i] == FIFO
    ensures PagerOk(trace[k].pager)
    ensures FifoFollows(trace[0].pager.ws, trace[0].pager.hand,
                        Arrivals(trace[0].pager.ws, trace[0].pager.hand, ops[..k]),
                        trace[k].pager.ws, trace[k].pager.hand)
  {
    hide AccessStep, PagerOk, PagerStep, FifoFollows, Arrivals, Brought;
    var p := trace[0].pager;
    if k == 0 {
      FifoNothing(p.ws, p.hand);
      NoArrivals(p.ws, p.hand);
    } else {
      var n := k - 1;
      var q, q' := trace[n].pager, trace[k].pager;
      FifoIsQueue(trace, frees, algorithms, ops, values, hows, n);
      PagerOf(trace, frees, algorithms, ops, values, hows, n);
      PagesAfter(FIFO, ops[n], hows[n].tabled, q, hows[n].slot, q');
      FifoAfter(ops[n], hows[n].tabled, q, hows[n].slot, q');
      ArrivalsNext(p.ws, p.hand, ops[..n], q.ws, q.hand, ops[n], q'.ws, q'.hand);
      assert ops[..k] == ops[..n] + [ops[n]];
    }
  }
}
