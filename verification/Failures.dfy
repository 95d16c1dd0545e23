/** What goes wrong, from power-on: runs of the kernel's own code that lose a page, lose a frame, or leave the
    working set and the page tables in disagreement. */
module Failures {
  import opened Common
  import opened KernelMemory
  import opened PageFile
  import opened AddressSpace
  import opened FlatMemory
  import opened Replacement
  import opened Programs
  import opened Paging
  import opened RequiredFrames
  import opened UserMemory
  import opened EnvCreate
  import opened EnvFree
  import opened Machine

  lemma SmallMachine(file: PageFile, maxSize: nat)
    requires file.mem.directory == map[] && file.directories == map[] && file.tables == map[]
    requires file.mem.heapTop + 6 < file.mem.heapMax && 7 <= |file.mem.freeFrames| && 1 <= maxSize <= 2
    ensures WsPages(maxSize) == 1 && PagesToCreate(file, maxSize) == 6 && CanCreate(file, maxSize)
  {
    var dir := file.mem.heapTop;
    assert MIRROR_PAGE / PAGE_TABLE_ENTRIES == 640;
    assert CountTables(map[], dir, 640, 641) == CountTables(map[], dir, 640, 640) + 1;
  }

  /** A run of one program's calls under one algorithm. */
  ghost predicate CallRun(
    programs: seq<Program>, frees: seq<nat>, algorithm: Algorithm, calls: seq<Call>, values: seq<bv8>, hows: seq<How>)
  {
    && |programs| == |frees| == |calls| + 1 && |values| == |hows| == |calls|
    && forall k | 0 <= k < |calls| ::
         CallStep(programs[k], frees[k], algorithm, calls[k], values[k], hows[k], programs[k + 1], frees[k + 1])
  }

  /** A machine with 63 frames. */
  method SmallFile(count: nat) returns (file: PageFile)
    requires 0 < count
    ensures fresh(file) && fresh(file.mem) && SharedOk(file) && StoreOk(StoreOf(file)) && file.count == count
    ensures Settled(StoreOf(file), {}) && NewDirectory(file, file.mem.heapTop)
    ensures file.mem.directory == map[] && file.directories == map[] && file.tables == map[] && file.frames == map[]
    ensures file.mem.heapTop == 1 && file.mem.heapMax == 64 && |file.mem.freeFrames| == 63 && |file.free| == count - 1
  {
    hide StoreOk, SharedOk, NewDirectory, Settled, Together;
    file := Boot(64, FramesBelow(64), 1, 64, count);
    TogetherAll(file, map[]);
    assert Dirs(map[]) == {};
    FileOwnership(file);
    DiskFramesCount(file.free, file.frames, count);
    DirectoryIsNew(file, map[]);
  }

  /** On it, an environment with one or two working-set slots. */
  method SmallEnvironment(maxSize: nat, count: nat) returns (e: Env)
    requires 1 <= maxSize <= 2 && 0 < count
    ensures JustCreated(e) && e.maxSize == maxSize && e.file.count == count
    ensures e.mem.heapTop == 7 && e.mem.heapMax == 64 && |e.mem.freeFrames| == 56
    ensures ProgramOf(e) == NewProgram(maxSize, count - 1) && |e.file.free| == if count > 1 then count - 2 else 0
    ensures fresh(e) && fresh(e.file) && fresh(e.mem)
    ensures e.Valid()
  {
    hide Env.Valid, RoomToCreate, PagesToCreate, WsPages, JustCreated, Isolated, StoreOk, SharedOk;
    hide NewDirectory, Settled, BackedPages, DiskFrameTaken, Resident, ZeroPage, Env.CurrentStore;
    var file := SmallFile(count);
    SmallMachine(file, maxSize);
    ghost var st, free := StoreOf(file), file.free;
    e := CreateEnvironment(file, maxSize);
    NewBacked(st, {}, e.dir, free, file.free, file.frames);
    WsPagesOf(e);
    BelievedNew(e);
  }

  lemma BelievedNew(e: Env)
    requires JustCreated(e)
    ensures 0 < e.maxSize && e.CurrentPager() == NewPager(e.maxSize)
    ensures e.Believed() == FlatMemory(map[FIRST_STACK_PAGE := ZeroPage()], {})
  {
  }

  lemma Slots(e: Env)
    requires JustCreated(e) && 1 <= e.maxSize <= 2
    ensures e.ws == if e.maxSize == 1 then [NewSlot(FIRST_STACK_PAGE)] else [NewSlot(FIRST_STACK_PAGE), EMPTY_SLOT]
    ensures (Full(e.ws) <==> e.maxSize == 1) && forall page :: InWs(e.ws, page) <==> page == FIRST_STACK_PAGE
  {
    assert e.ws == if e.maxSize == 1 then [NewSlot(FIRST_STACK_PAGE)] else [NewSlot(FIRST_STACK_PAGE), EMPTY_SLOT];
    assert !e.ws[0].empty && e.ws[0].page == FIRST_STACK_PAGE;
    assert e.maxSize == 2 ==> e.ws[1].empty;
  }

  lemma SmallMirror(e: Env)
    requires e.Valid() && 1 <= e.maxSize <= 2
    ensures e.wsPages == WsPages(1) && !InMirror(0, e.wsPages) && !InMirror(STACK_BOTTOM_PAGE, e.wsPages)
    ensures !InMirror(FIRST_STACK_PAGE, e.wsPages) && !InMirror(FIRST_STACK_PAGE - 1, e.wsPages)
  {
    hide Env.Valid;
    WsPagesOf(e);
    assert WsPages(1) == 1 && WsPages(2) == 1;
  }

  // ---- a full page file ----

  /** page_fault_handler ignores the full page file: the program stores a 7 to its first stack page and touches
      the page below, and the first page is gone with its 7. */
  method FullPageFileLoses()
    returns (e: Env, ghost trace: seq<Program>, ghost values: seq<bv8>, ghost hows: seq<How>)
    ensures ProgramRun(trace, [0, 0, 0], [FIFO, FIFO],
                       [Op.Store(FIRST_STACK_PAGE, 0, 7), Load(FIRST_STACK_PAGE - 1, 0)], values, hows)
    ensures trace[0] == NewProgram(1, 0) && trace[2] == ProgramOf(e) && e.Valid()
    ensures FIRST_STACK_PAGE in trace[1].memory.pages && trace[1].memory.pages[FIRST_STACK_PAGE][0] == 7
    ensures FIRST_STACK_PAGE !in trace[2].memory.pages
    ensures EvictedBy(trace[1], Load(FIRST_STACK_PAGE - 1, 0), hows[1]) == Some(FIRST_STACK_PAGE)
  {
    hide Env.Valid, WsPages, ZeroPage, Isolated, AccessStep, BackedPages, DiskFrameTaken, NewProgram, EvictedBy;
    hide ProgramOf, Events, JustCreated;
    e := SmallEnvironment(1, 1);
    ghost var p := ProgramOf(e);
    Slots(e);
    SmallMirror(e);
    e.ResidentIsFlat(FIRST_STACK_PAGE - 1);
    e.ResidentIsFlat(FIRST_STACK_PAGE);
    var ok, value, value';
    ghost var how, how';
    ok, value, how := e.Step(Op.Store(FIRST_STACK_PAGE, 0, 7), FIFO);
    ghost var p' := ProgramOf(e);
    e.ResidentIsFlat(FIRST_STACK_PAGE - 1);
    ok, value', how' := e.Step(Load(FIRST_STACK_PAGE - 1, 0), FIFO);
    trace, values, hows := [p, p', ProgramOf(e)], [value, value'], [how, how'];
    NoneFreed(p', FIFO, Load(FIRST_STACK_PAGE - 1, 0), value', how', ProgramOf(e), |e.file.free|);
    SevenLost(p', value, value', how, how', ProgramOf(e));
  }

  lemma NoneFreed(p: Program, algorithm: Algorithm, op: Op, value: bv8, how: How, p': Program, free': nat)
    requires AccessStep(p, 0, algorithm, op, value, how, p', free')
    ensures free' == 0
  {
  }

  lemma SevenLost(p: Program, value: bv8, value': bv8, how: How, how': How, p': Program)
    requires AccessStep(NewProgram(1, 0), 0, FIFO, Op.Store(FIRST_STACK_PAGE, 0, 7), value, how, p, 0)
    requires AccessStep(p, 0, FIFO, Load(FIRST_STACK_PAGE - 1, 0), value', how', p', 0)
    ensures EvictedBy(p, Load(FIRST_STACK_PAGE - 1, 0), how') == Some(FIRST_STACK_PAGE)
    ensures FIRST_STACK_PAGE in p.memory.pages && p.memory.pages[FIRST_STACK_PAGE][0] == 7
    ensures FIRST_STACK_PAGE !in p'.memory.pages
  {
    hide ZeroPage, WsPages;
    var ws := NewPager(1).ws;
    assert ws == [NewSlot(FIRST_STACK_PAGE)] && !ws[0].empty && ws[0].page == FIRST_STACK_PAGE;
    assert forall v :: InWs(ws, v) <==> v == FIRST_STACK_PAGE;
    assert p.pager.ws == ws;
  }

  // ---- the mirror's page table ----

  /** A program whose stack has grown down to its lowest page. */
  method DeepStack() returns (e: Env)
    ensures e.Valid() && e.ws == [NewSlot(STACK_BOTTOM_PAGE)] && e.wsPages == WsPages(1)
    ensures fresh(e) && fresh(e.file) && fresh(e.mem)
  {
    hide Env.Valid, WsPages, ZeroPage, Isolated, FlatStep, JustCreated, PagerStep, Events;
    e := SmallEnvironment(1, 1);
    Slots(e);
    SmallMirror(e);
    e.ResidentIsFlat(STACK_BOTTOM_PAGE);
    ghost var how;
    var ok, value;
    ok, value, how := e.Step(Load(STACK_BOTTOM_PAGE, 0), FIFO);
    OneSlotReplaced(STACK_BOTTOM_PAGE, how, e.CurrentPager());
  }

  lemma OneSlotReplaced(page: nat, how: How, p: Pager)
    requires page != FIRST_STACK_PAGE && PagerStep(FIFO, Load(page, 0), how.tabled, NewPager(1), how.slot, p)
    ensures p.ws == [NewSlot(page)]
  {
    assert NewPager(1).ws == [NewSlot(FIRST_STACK_PAGE)];
  }

  /** env_free loses a frame when that program exits: nobody can use it any more, and it is not free. */
  method DeepStackLeaks() returns (e: Env, ghost f: nat)
    ensures f in e.mem.usable && !Returned(e.mem, e.dir, f)
  {
    hide Env.Valid, WsPages, Isolated, Returned, SharesMirrorTable, IsLost;
    e := DeepStack();
    ghost var lost := e.mem.entries;
    LeakReachable();
    EnvFree.EnvFree(e);
    f :| f in e.mem.usable && !(Returned(e.mem, e.dir, f) || IsLost(lost, f));
  }

  // ---- page 0 ----

  /** A program with two slots allocates page 0. */
  method AllocatePageZero() returns (e: Env)
    ensures forall algorithm, how ::
              CallStep(NewProgram(2, 7), 6, algorithm, Allocate(0, 1), 0, how, ProgramOf(e), |e.file.free|)
    ensures e.CurrentPager() == NewPager(2) && 0 in e.flat
    ensures e.mem.heapTop <= 9 && e.mem.heapMax == 64 && 54 <= |e.mem.freeFrames| && !InMirror(0, e.wsPages)
    ensures fresh(e) && fresh(e.file) && fresh(e.mem)
    ensures e.Valid()
  {
    hide Env.Valid, WsPages, ZeroPage, Isolated, JustCreated, TablesNeeded, BackedPages, Absent, NewProgram, CallStep;
    e := SmallEnvironment(2, 8);
    Slots(e);
    SmallMirror(e);
    FewTables(e.file, e.dir);
    ServeAllocate(e, 0, 1);
    ZeroJoins(ProgramOf(e), |e.file.free|, How(0, false));
  }

  lemma ZeroJoins(p: Program, free: nat, how: How)
    requires CallStep(NewProgram(2, 7), 6, FIFO, Allocate(0, 1), 0, how, p, free) && !InMirror(0, WsPages(2))
    ensures 0 in p.memory.pages && p.pager == NewPager(2)
  {
    hide ZeroPage, InMirror, WsPages;
    assert Absent({FIRST_STACK_PAGE}, 0, 0) == 0;
    assert Joins({FIRST_STACK_PAGE}, 0, 1, 6, 0);
  }

  lemma FewTables(file: PageFile, dir: nat)
    ensures TablesNeeded(file, dir, 0, 1) <= 2
  {
    assert CountTables(file.tables, dir, 0, 1) <= CountTables(file.tables, dir, 0, 0) + 1;
  }

  /** It touches page 0 and gives its stack page back; then freeMem of page 0 is what would miss it. */
  method PageZeroBehindEmptySlot()
    returns (e: Env, ghost programs: seq<Program>, ghost frees: seq<nat>, ghost values: seq<bv8>, ghost hows: seq<How>)
    ensures CallRun(programs, frees, FIFO, [Allocate(0, 1), Access(Load(0, 0)), Free(FIRST_STACK_PAGE, 1)], values,
                    hows)
    ensures programs[0] == NewProgram(2, 7) && frees[0] == 6 && programs[3] == ProgramOf(e)
    ensures e.Valid() && e.ws == [EMPTY_SLOT, NewSlot(0)] && LosesZero(e.ws, 0, 1)
    ensures fresh(e) && fresh(e.file) && fresh(e.mem)
  {
    hide Env.Valid, WsPages, Isolated, Cleared, ProgramOf, NewProgram, CallStep, PagerStep, Emptied;
    hide LosesZero, Joins, DiskFrameTaken, BackedPages, NewPager;
    e := AllocatePageZero();
    ghost var p := e.CurrentPager();
    programs, frees := [NewProgram(2, 7), ProgramOf(e)], [6, |e.file.free|];
    TwoSlots();
    e.ResidentIsFlat(0);
    var ok, value;
    ghost var how;
    ok, value, how := ServeAccess(e, Load(0, 0), FIFO);
    programs, frees := programs + [ProgramOf(e)], frees + [|e.file.free|];
    SecondSlotFilled(how, e.CurrentPager());
    StackPageKept();
    ghost var q := e.CurrentPager();
    ServeFree(e, FIRST_STACK_PAGE, 1);
    programs, frees := programs + [ProgramOf(e)], frees + [|e.file.free|];
    values, hows := [0, value, 0], [How(0, false), how, How(0, false)];
    FirstSlotCleared(q);
    ZeroBehind();
  }

  lemma StackPageKept()
    ensures !LosesZero([NewSlot(FIRST_STACK_PAGE), NewSlot(0)], FIRST_STACK_PAGE, 1)
  {
  }

  lemma ZeroBehind()
    ensures LosesZero([EMPTY_SLOT, NewSlot(0)], 0, 1)
  {
    var ws := [EMPTY_SLOT, NewSlot(0)];
    assert ws[0].empty && !ws[1].empty && ws[1].page == 0;
  }

  lemma TwoSlots()
    ensures var ws := NewPager(2).ws;
            ws == [NewSlot(FIRST_STACK_PAGE), EMPTY_SLOT] && !Full(ws) && !InWs(ws, 0)
  {
    var ws := NewPager(2).ws;
    assert ws == [NewSlot(FIRST_STACK_PAGE), EMPTY_SLOT] && ws[1].empty;
  }

  lemma SecondSlotFilled(how: How, p: Pager)
    requires PagerStep(FIFO, Load(0, 0), how.tabled, NewPager(2), how.slot, p)
    ensures p.ws == [NewSlot(FIRST_STACK_PAGE), NewSlot(0)]
  {
    TwoSlots();
    assert how.slot == 1;
  }

  lemma FirstSlotCleared(q: Pager)
    requires q.ws == [NewSlot(FIRST_STACK_PAGE), NewSlot(0)] && |q.used| == 2
    ensures Emptied(q, FIRST_STACK_PAGE, 1).ws == [EMPTY_SLOT, NewSlot(0)]
  {
  }

  /** freeMem of page 0 stops at the empty slot: the program loses page 0 as it should, but its slot still holds
      the page, which is no longer mapped. */
  method PageZeroLost(e: Env)
    requires e.Valid() && e.ws == [EMPTY_SLOT, NewSlot(0)]
    modifies e`flat, e`blank, e`ws, e`log, e.file`free, e.file`frames
    modifies e.mem`freeFrames, e.mem`references, e.mem`entries, e.mem`records, e.mem`reverse, e.mem`blocks
    modifies e.mem`directory
    ensures e.flat == old(e.flat) - {0} && e.file.frames == old(e.file.frames) - {PageId(e.dir, 0)}
    ensures ZeroLost(e) && !e.Valid()
  {
    hide Env.Valid, WsPages, Isolated, ZeroLost, LosesZero;
    ZeroBehind();
    FreeMem(e, 0, 1);
  }
}
