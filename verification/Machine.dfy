/** The whole machine: environments that share memory and page file begin, take turns loading, storing,
    allocating and freeing under whatever replacement algorithm is in force, and exit. */
module Machine {
  import opened Common
  import opened FrameAccounting
  import opened KernelMemory
  import opened PageFile
  import opened AddressSpace
  import opened FlatMemory
  import opened Replacement
  import opened Programs
  import opened Paging
  import opened UserMemory
  import opened EnvCreate
  import opened EnvFree

  // ---- what the programs see ----

  datatype Call = Access(op: Op) | Allocate(start: nat, n: nat) | Free(start: nat, n: nat)

  /** The programs that are running, and the number of free disk frames. */
  datatype World = World(programs: map<nat, Program>, free: nat)

  /** allocateMem: exactly the pages of the range that have no disk frame get one, in order and as long as any
      is free; the program gains those outside the mirror, with arbitrary contents. */
  ghost predicate AllocateStep(p: Program, free: nat, start: nat, n: nat, p': Program, free': nat) {
    && p'.memory.blank == p.memory.blank && p'.pager == p.pager
    && (forall v | v in p.memory.pages :: v in p'.memory.pages && p'.memory.pages[v] == p.memory.pages[v])
    && (forall v :: v in p'.memory.pages <==>
          v in p.memory.pages || (Joins(p.backed, start, n, free, v) && !InMirror(v, p.mirror)))
    && (forall v :: v in p'.backed <==> v in p.backed || Joins(p.backed, start, n, free, v))
    && free' == if Absent(p.backed, start, n) <= free then free - Absent(p.backed, start, n) else 0
  }

  /** freeMem: exactly the pages of the range go. */
  ghost predicate FreeStep(p: Program, start: nat, n: nat, p': Program) {
    && p'.memory.pages == (map v | v in p.memory.pages && !InRun(v, start, n) :: p.memory.pages[v])
    && p'.memory.blank == (set v | v in p.memory.blank && !InRun(v, start, n))
    && p'.backed == (set v | v in p.backed && !InRun(v, start, n))
    && |p.pager.used| == |p.pager.ws| && p'.pager == Emptied(p.pager, start, n)
  }

  /** What a call does to a program; the disk frames it takes or gives are those of the free list. */
  ghost predicate CallStep(
    p: Program, free: nat, algorithm: Algorithm, call: Call, value: bv8, how: How, p': Program, free': nat)
  {
    && p'.mirror == p.mirror && free' + |p'.backed| == free + |p.backed|
    && match call
       case Access(op) => AccessStep(p, free, algorithm, op, value, how, p', free')
       case Allocate(start, n) => AllocateStep(p, free, start, n, p', free')
       case Free(start, n) => FreeStep(p, start, n, p')
  }

  /** One turn of the machine: a call of an environment, the creation of one, or its exit. */
  datatype Turn =
    | Turn(env: nat, call: Call, algorithm: Algorithm)
    | Create(env: nat, maxSize: nat)
    | Exit(env: nat)

  /** A new program has a zeroed stack page, with a disk frame if one was free. */
  ghost function NewProgram(maxSize: nat, free: nat): Program
    requires maxSize > 0
  {
    Program(FlatMemory(map[FIRST_STACK_PAGE := ZeroPage()], {}), if free > 0 then {FIRST_STACK_PAGE} else {},
            NewPager(maxSize), WsPages(maxSize))
  }

  /** What a turn does to the world; `how` says how an access was served. */
  ghost predicate WorldStep(w: World, t: Turn, value: bv8, how: How, w': World) {
    match t
    case Turn(k, call, algorithm) =>
      && k in w.programs && k in w'.programs && w'.programs == w.programs[k := w'.programs[k]]
      && CallStep(w.programs[k], w.free, algorithm, call, value, how, w'.programs[k], w'.free)
    case Create(k, maxSize) =>
      && maxSize > 0 && k !in w.programs
         && w'.programs == w.programs[k := NewProgram(maxSize, w.free)]
      && w'.free == if w.free > 0 then w.free - 1 else 0
    case Exit(k) =>
      && k in w.programs && w'.programs == w.programs - {k}
      && w'.free == w.free + |w.programs[k].backed|
  }

  // ---- one call ----

  /** What a program may ask for: the mirror is the kernel's. */
  predicate CallOk(e: Env, call: Call) {
    match call
    case Access(op) => e.UserOp(op)
    case Allocate(start, n) => start + n <= USER_TOP_PAGE
    case Free(_, _) => true
  }

  predicate RoomForTables(e: Env, start: nat, n: nat)
    reads e.mem, e.file
  {
    && e.mem.heapTop + TablesNeeded(e.file, e.dir, start, n) < e.mem.heapMax
    && TablesNeeded(e.file, e.dir, start, n) <= |e.mem.freeFrames|
  }

  /** What the kernel does not serve: an access that panics or finds no frame, an allocation that finds no room
      for its disk tables, or a free that would miss page 0. */
  ghost predicate CallStuck(e: Env, call: Call)
    reads e, e.mem, e.file
  {
    match call
    case Access(op) => e.Stuck(op)
    case Allocate(start, n) => !RoomForTables(e, start, n)
    case Free(start, n) => LosesZero(e.ws, start, n)
  }

  lemma BackedAfterAccess(
    dir: nat, page: nat, isNew: bool, free: seq<nat>, frames: map<PageId, nat>, free': seq<nat>,
    frames': map<PageId, nat>)
    requires DiskFrameTaken(PageId(dir, page), isNew, free, frames, free', frames')
    ensures var taken := isNew && free != [];
            && BackedPages(dir, frames') == BackedPages(dir, frames) + (if taken then {page} else {})
            && |free'| == |free| - (if taken then 1 else 0)
            && (forall p: PageId | p.dir != dir :: p in frames <==> p in frames')
  {
  }

  lemma AllocatedIs(e: Env, p: Program, free: nat, start: nat, n: nat)
    requires Joined(e.dir, e.wsPages, p.memory.pages, p.backed, free, start, n, e.flat, e.file.frames, |e.file.free|)
    requires p.memory.blank == e.blank && p.mirror == e.wsPages && p.pager == e.CurrentPager()
    ensures AllocateStep(p, free, start, n, ProgramOf(e), |e.file.free|)
  {
    hide Joins, Absent, InMirror;
  }

  lemma FreedIs(e: Env, p: Program, frames: map<PageId, nat>, start: nat, n: nat)
    requires p.backed == BackedPages(e.dir, frames) && |p.pager.used| == |p.pager.ws|
    requires e.CurrentPager() == Emptied(p.pager, start, n)
    requires e.file.frames == map q | q in frames && !(q.dir == e.dir && InRun(q.page, start, n)) :: frames[q]
    requires e.flat == map v | v in p.memory.pages && !InRun(v, start, n) :: p.memory.pages[v]
    requires e.blank == set v | v in p.memory.blank && !InRun(v, start, n)
    ensures FreeStep(p, start, n, ProgramOf(e))
  {
    hide Env.CurrentPager;
  }

  /** The disk frames that a call takes or gives are those of the free list. */
  lemma FramesMove(e: Env, st: Store, free: seq<nat>)
    requires e.Valid() && OwnershipOk(free, st.frames, e.file.count) && Isolated(e.dir, st, e.CurrentStore())
    ensures |e.file.free| + |BackedPages(e.dir, e.file.frames)| == |free| + |BackedPages(e.dir, st.frames)|
  {
    hide Isolated;
    Ownership(e);
    OthersFrames(e.dir, st, e.CurrentStore());
    DiskFramesShared(e.dir, free, st.frames, e.file.free, e.file.frames, e.file.count);
  }

  method ServeAccess(e: Env, op: Op, algorithm: Algorithm)
    returns (ok: bool, value: bv8, ghost how: How)
    requires e.Valid() && e.UserOp(op)
    modifies e`ws, e`log, e`hand, e`flat, e`blank
    modifies e.file`free, e.file`frames, e.file`directories, e.file`tables, e.file`disk
    modifies e.mem`freeFrames, e.mem`references, e.mem`entries, e.mem`held, e.mem`litter, e.mem`ram, e.mem`directory
    modifies e.mem`heapTop, e.mem`records, e.mem`idx, e.mem`reverse, e.mem`blocks
    ensures e.Valid()
    ensures Isolated(e.dir, old(e.CurrentStore()), e.CurrentStore())
    ensures ok <==> !old(e.Stuck(op))
    ensures ok ==>
              CallStep(old(ProgramOf(e)), |old(e.file.free)|, algorithm, Access(op), value, how, ProgramOf(e),
                |e.file.free|)
    ensures !ok ==> e.Stuck(op)
    ensures ok ==> PagerStep(algorithm, op, how.tabled, old(e.CurrentPager()), how.slot, e.CurrentPager())
  {
    hide Env.Valid, Isolated, Env.Stuck, PagerStep, BackedPages, OwnershipOk, FifoFollows, DiskFrameTaken, Resident;
    ghost var free, st := e.file.free, e.CurrentStore();
    Ownership(e);
    ok, value, how := e.Step(op, algorithm);
    FramesMove(e, st, free);
  }

  method ServeAllocate(e: Env, start: nat, n: nat)
    requires e.Valid() && start + n <= USER_TOP_PAGE && RoomForTables(e, start, n)
    modifies e`flat, e.file`free, e.file`frames, e.file`directories, e.file`tables
    modifies e.mem`freeFrames, e.mem`references, e.mem`entries, e.mem`held, e.mem`litter, e.mem`heapTop, e.mem`records,
             e.mem`idx
    modifies e.mem`reverse, e.mem`blocks
    ensures e.Valid()
    ensures Isolated(e.dir, old(e.CurrentStore()), e.CurrentStore())
    ensures forall algorithm, how ::
              CallStep(old(ProgramOf(e)), |old(e.file.free)|, algorithm, Allocate(start, n), 0, how, ProgramOf(e),
                |e.file.free|)
    ensures e.mem.heapTop == old(e.mem.heapTop + TablesNeeded(e.file, e.dir, start, n))
    ensures |e.mem.freeFrames| == |old(e.mem.freeFrames)| - old(TablesNeeded(e.file, e.dir, start, n))
  {
    hide Env.Valid, Isolated, RoomForTables, TablesNeeded, AllocateStep, BackedPages, Joined, OwnershipOk;
    ghost var p, free, st := ProgramOf(e), e.file.free, e.CurrentStore();
    Ownership(e);
    RoomMeans(e, start, n);
    AllocateMem(e, start, n);
    AllocatedIs(e, p, |free|, start, n);
    FramesMove(e, st, free);
  }

  method ServeFree(e: Env, start: nat, n: nat)
    requires e.Valid() && !LosesZero(e.ws, start, n)
    modifies e`flat, e`blank, e`ws, e`log, e.file`free, e.file`frames
    modifies e.mem`freeFrames, e.mem`references, e.mem`entries, e.mem`records, e.mem`reverse, e.mem`blocks
    modifies e.mem`directory
    ensures e.Valid() && e.CurrentPager() == Emptied(old(e.CurrentPager()), start, n)
    ensures Isolated(e.dir, old(e.CurrentStore()), e.CurrentStore())
    ensures forall algorithm, how ::
              CallStep(old(ProgramOf(e)), |old(e.file.free)|, algorithm, Free(start, n), 0, how, ProgramOf(e),
                |e.file.free|)
  {
    hide Env.Valid, Isolated, LosesZero, FreeStep, BackedPages, OwnershipOk, Cleared, Resident;
    ghost var p, free, st := ProgramOf(e), e.file.free, e.CurrentStore();
    Ownership(e);
    FreeMem(e, start, n);
    FreedIs(e, p, st.frames, start, n);
    FramesMove(e, st, free);
  }

  method Serve(e: Env, call: Call, algorithm: Algorithm) returns (ok: bool, value: bv8, ghost how: How)
    requires e.Valid() && CallOk(e, call)
    modifies e`ws, e`log, e`hand, e`flat, e`blank
    modifies e.file`free, e.file`frames, e.file`directories, e.file`tables, e.file`disk
    modifies e.mem`freeFrames, e.mem`references, e.mem`entries, e.mem`held, e.mem`litter, e.mem`ram, e.mem`directory
    modifies e.mem`heapTop, e.mem`records, e.mem`idx, e.mem`reverse, e.mem`blocks
    ensures e.Valid()
    ensures Isolated(e.dir, old(e.CurrentStore()), e.CurrentStore())
    ensures ok <==> !old(CallStuck(e, call))
    ensures ok ==> CallStep(old(ProgramOf(e)), |old(e.file.free)|, algorithm, call, value, how, ProgramOf(e),
            |e.file.free|)
    ensures !ok ==> CallStuck(e, call)
    ensures !ok && call.Allocate? ==>
              var n := TablesNeeded(e.file, e.dir, call.start, call.n);
              e.mem.heapMax <= e.mem.heapTop + n || |e.mem.freeFrames| < n
  {
    hide Env.Valid, Isolated, Env.Stuck, RoomForTables, LosesZero, CallStep, FifoFollows, ProgramOf;
    IsolatedRefl(e.dir, e.CurrentStore());
    ok, value, how := true, 0, How(0, false);
    match call {
      case Access(op) =>
        ok, value, how := ServeAccess(e, op, algorithm);
      case Allocate(start, n) =>
        RoomMeans(e, start, n);
        ok := RoomForTables(e, start, n);
        if ok {
          ServeAllocate(e, start, n);
        }
      case Free(start, n) =>
        ok := !LosesZero(e.ws, start, n);
        if ok {
          ServeFree(e, start, n);
        }
    }
  }

  lemma Ownership(e: Env)
    requires e.Valid()
    ensures OwnershipOk(e.file.free, e.file.frames, e.file.count)
  {
  }

  lemma OthersFrames(dir: nat, st: Store, st': Store)
    requires Isolated(dir, st, st')
    ensures forall p: PageId | p.dir != dir :: p in st.frames <==> p in st'.frames
  {
  }

  lemma RoomMeans(e: Env, start: nat, n: nat)
    ensures RoomForTables(e, start, n)
            <==> && e.mem.heapTop + TablesNeeded(e.file, e.dir, start, n) < e.mem.heapMax
                 && TablesNeeded(e.file, e.dir, start, n) <= |e.mem.freeFrames|
  {
  }

  // ---- several environments ----

  /** The fields of an environment. */
  datatype Own = Own(
    ws: seq<WsSlot>, hand: nat, maxSize: nat, dir: nat, wsBlock: nat, wsPages: nat, flat: map<nat, Page>,
    blank: set<nat>, log: seq<WsEvent>)

  ghost function OwnOf(e: Env): Own
    reads e
  {
    Own(e.ws, e.hand, e.maxSize, e.dir, e.wsBlock, e.wsPages, e.flat, e.blank, e.log)
  }

  ghost predicate OwnOk(o: Own, st: Store) {
    && StoreOk(st) && o.wsPages == WsPages(o.maxSize)
    && WsOk(o.ws, o.hand, o.maxSize) && LogOk(o.ws, o.maxSize, o.log)
    && Rooted(o.dir, o.wsBlock, o.wsPages, st.blocks)
    && ResidentOk(o.ws, o.dir, o.wsPages, st)
    && FlatOk(o.flat, o.blank, o.dir, o.wsPages, st)
  }

  lemma ValidIs(e: Env)
    ensures e.Valid() <==> e.mem == e.file.mem && SharedOk(e.file) && OwnOk(OwnOf(e), e.CurrentStore())
  {
    hide PageFile.Valid, WsOk, LogOk, Rooted, StoreOk, ResidentOk, FlatOk, WsPages;
  }

  /** What one environment does keeps every other in order. */
  lemma OwnKept(o: Own, dir: nat, st: Store, st': Store)
    requires OwnOk(o, st) && StoreOk(st') && dir != o.dir && Isolated(dir, st, st')
    ensures OwnOk(o, st')
  {
    hide WsOk, LogOk, Translate, Store.Get, WsPages, LostAlone;
    PrivateKept(o, dir, st, st');
    RootedBeside(o.dir, o.wsBlock, o.wsPages, dir, st.blocks, st'.blocks);
    hide PrivateOk, Rooted, OtherBlocksKept;
    FlatKept(o, dir, st, st');
  }

  lemma FlatKept(o: Own, dir: nat, st: Store, st': Store)
    requires StoreOk(st) && FlatOk(o.flat, o.blank, o.dir, o.wsPages, st)
    requires StoreOk(st') && dir != o.dir && Isolated(dir, st, st')
    ensures FlatOk(o.flat, o.blank, o.dir, o.wsPages, st')
  {
    hide Translate, Store.Get, LostAlone, OtherBlocksKept, HeapBeside;
    forall v
      ensures Holds(o.dir, o.wsPages, st', v) <==> Holds(o.dir, o.wsPages, st, v)
      ensures Holds(o.dir, o.wsPages, st, v) ==> Seen(st', o.dir, v) == Seen(st, o.dir, v)
    {
      assert st.Get(o.dir, v) == st'.Get(o.dir, v);
      assert PageId(o.dir, v) in st.frames <==> PageId(o.dir, v) in st'.frames;
    }
  }

  lemma RootedBeside(dir: nat, wsBlock: nat, wsPages: nat, other: nat, blocks: map<nat, Block>, blocks': map<nat,
      Block>)
    requires Rooted(dir, wsBlock, wsPages, blocks) && OtherBlocksKept(other, blocks, blocks') && other != dir
    ensures Rooted(dir, wsBlock, wsPages, blocks')
  {
    var p :| p in blocks && blocks[p].owner == DiskDirectory(dir);
    assert p in blocks' && blocks'[p].owner == DiskDirectory(dir);
  }

  lemma PrivateKept(o: Own, dir: nat, st: Store, st': Store)
    requires PrivateOk(o.dir, o.wsPages, st) && dir != o.dir && Isolated(dir, st, st')
    ensures PrivateOk(o.dir, o.wsPages, st')
  {
    hide Translate, Store.Get, OtherBlocksKept;
    forall v, p: nat {:trigger st'.Get(o.dir, v), HeapSlot(p)} |
      st'.Get(o.dir, v).Some? && !InMirror(v, o.wsPages) && HeapSlot(p) in st'.entries
      ensures st'.entries[HeapSlot(p)].frame != st'.Get(o.dir, v).value.frame
    {
      assert st.Get(o.dir, v) == st'.Get(o.dir, v);
    }
  }

  /** The environment that a directory or a working-set array belongs to. */
  function AnchorDir(page: nat, owner: Owner): nat
    requires Anchor(owner)
  {
    if owner.PageDirectory? then page else owner.dir
  }

  /** Only the environments `dirs` have pages, disk frames, directories and working sets. */
  ghost predicate Settled(st: Store, dirs: set<nat>) {
    && (forall d, v | st.Get(d, v).Some? :: d in dirs)
    && (forall p | p in st.frames :: p.dir in dirs)
    && (forall p | p in st.blocks && Anchor(st.blocks[p].owner) :: AnchorDir(p, st.blocks[p].owner) in dirs)
  }

  lemma SettledAfter(st: Store, dirs: set<nat>, dir: nat, st': Store)
    requires Settled(st, dirs) && Isolated(dir, st, st')
    ensures Settled(st', dirs + {dir})
  {
    hide Translate, Store.Get, HeapBeside;
    forall d, v | st'.Get(d, v).Some?
      ensures d in dirs + {dir}
    {
      assert d != dir ==> st.Get(d, v) == st'.Get(d, v);
    }
    forall p | p in st'.blocks && Anchor(st'.blocks[p].owner)
      ensures AnchorDir(p, st'.blocks[p].owner) in dirs + {dir}
    {
      assert OwnedBy(p, st'.blocks[p].owner, dir) <==> AnchorDir(p, st'.blocks[p].owner) == dir;
    }
  }

  lemma SettledAfterExit(st: Store, dirs: set<nat>, dir: nat, st': Store)
    requires Settled(st, dirs) && Isolated(dir, st, st')
    requires (forall v :: st'.Get(dir, v).None?) && (forall p | p in st'.frames :: p.dir != dir)
    requires forall p | p in st'.blocks :: !OwnedBy(p, st'.blocks[p].owner, dir)
    ensures Settled(st', dirs - {dir})
  {
    hide Translate, Store.Get, HeapBeside;
    SettledAfter(st, dirs, dir, st');
    forall p | p in st'.blocks && Anchor(st'.blocks[p].owner)
      ensures AnchorDir(p, st'.blocks[p].owner) in dirs - {dir}
    {
      assert OwnedBy(p, st'.blocks[p].owner, dir) <==> AnchorDir(p, st'.blocks[p].owner) == dir;
    }
  }

  ghost function Dirs(envs: map<nat, Env>): set<nat> {
    set k | k in envs :: envs[k].dir
  }

  /** Environments over one page file, with directories of their own. */
  ghost predicate Together(file: PageFile, envs: map<nat, Env>)
    reads file, file.mem, envs.Values
  {
    && SharedOk(file) && StoreOk(StoreOf(file)) && Settled(StoreOf(file), Dirs(envs))
    && (forall k | k in envs :: envs[k].file == file && envs[k].mem == file.mem && OwnOk(OwnOf(envs[k]), StoreOf(file)))
    && (forall j, k | j in envs && k in envs && j != k :: envs[j] != envs[k] && envs[j].dir != envs[k].dir)
  }

  ghost function WorldOf(file: PageFile, envs: map<nat, Env>): World
    reads file, envs.Values, (set k | k in envs :: envs[k].file), set k | k in envs :: envs[k].mem
  {
    World(map k | k in envs :: ProgramOf(envs[k]), |file.free|)
  }

  lemma MemberValid(file: PageFile, envs: map<nat, Env>, k: nat)
    requires Together(file, envs) && k in envs
    ensures envs[k].file == file && envs[k].mem == file.mem && envs[k].Valid()
    ensures envs[k].CurrentStore() == StoreOf(file) && envs[k].dir in Dirs(envs)
  {
    hide OwnOk, StoreOk, SharedOk, Settled;
    ValidIs(envs[k]);
  }

  /** The program of an environment with these fields, in that store. */
  ghost function SeenAs(o: Own, st: Store): Program {
    Program(FlatMemory(o.flat, o.blank), BackedPages(o.dir, st.frames), Pager(o.ws, o.hand, UsedIn(o.ws, o.dir, st)),
            o.wsPages)
  }

  lemma ProgramsAre(file: PageFile, envs: map<nat, Env>)
    requires forall k | k in envs :: envs[k].file == file && envs[k].mem == file.mem
    ensures forall k | k in envs :: ProgramOf(envs[k]) == SeenAs(OwnOf(envs[k]), StoreOf(file))
    ensures ProgramsOf(envs).Keys == envs.Keys
    ensures forall k | k in envs :: ProgramsOf(envs)[k] == SeenAs(OwnOf(envs[k]), StoreOf(file))
  {
    hide UsedIn, BackedPages;
    forall k | k in envs
      ensures ProgramOf(envs[k]) == SeenAs(OwnOf(envs[k]), StoreOf(file))
    {
      envs[k].UsedIs();
    }
  }

  /** Once one environment has done something, the others are as they were. */
  lemma OthersTogether(
    file: PageFile, envs: map<nat, Env>, owns: map<nat, Own>, dir: nat, st: Store, st': Store,
    programs: map<nat, Program>)
    requires st' == StoreOf(file) && StoreOk(st') && Isolated(dir, st, st')
    requires owns.Keys == envs.Keys && programs.Keys == envs.Keys
    requires forall k | k in envs ::
               && envs[k].file == file && envs[k].mem == file.mem && envs[k].dir != dir
               && owns[k] == OwnOf(envs[k]) && OwnOk(owns[k], st) && programs[k] == SeenAs(owns[k], st)
    ensures forall k | k in envs :: OwnOk(OwnOf(envs[k]), st') && ProgramOf(envs[k]) == programs[k]
  {
    hide OwnOk, StoreOk, SeenAs, ProgramOf;
    ProgramsAre(file, envs);
    forall k | k in envs
      ensures OwnOk(OwnOf(envs[k]), st') && ProgramOf(envs[k]) == programs[k]
    {
      OwnKept(owns[k], dir, st, st');
      OthersSeen(owns[k], dir, st, st');
    }
  }

  lemma OthersSeen(o: Own, dir: nat, st: Store, st': Store)
    requires Isolated(dir, st, st') && o.dir != dir
    ensures SeenAs(o, st') == SeenAs(o, st)
  {
    hide Translate, Store.Get;
    assert forall v :: st.Get(o.dir, v) == st'.Get(o.dir, v);
    OthersBacked(o.dir, dir, st, st');
    UsedSame(o.ws, o.dir, st, st');
  }

  lemma OthersBacked(dir: nat, other: nat, st: Store, st': Store)
    requires dir != other && Isolated(other, st, st')
    ensures BackedPages(dir, st'.frames) == BackedPages(dir, st.frames)
  {
    OthersFrames(other, st, st');
    forall v
      ensures v in BackedPages(dir, st'.frames) <==> v in BackedPages(dir, st.frames)
    {
      assert PageId(dir, v) in st.frames <==> PageId(dir, v) in st'.frames;
    }
  }

  ghost function OwnsOf(envs: map<nat, Env>): map<nat, Own>
    reads envs.Values
  {
    map k | k in envs :: OwnOf(envs[k])
  }

  /** The other environments, in order. */
  ghost predicate Beside(file: PageFile, e: Env, others: map<nat, Env>)
    reads file, file.mem, others.Values
  {
    && (forall j | j in others ::
          && others[j].file == file && others[j].mem == file.mem && others[j] != e
          && others[j].dir != e.dir && OwnOk(OwnOf(others[j]), StoreOf(file)))
    && (forall i, j | i in others && j in others && i != j ::
          others[i] != others[j] && others[i].dir != others[j].dir)
  }

  ghost function ProgramsOf(envs: map<nat, Env>): map<nat, Program>
    reads envs.Values, (set k | k in envs :: envs[k].file), set k | k in envs :: envs[k].mem
  {
    map k | k in envs :: ProgramOf(envs[k])
  }

  lemma DirsWith(envs: map<nat, Env>, k: nat, others: map<nat, Env>)
    requires k in envs && others == envs - {k}
    requires forall j | j in others :: others[j].dir != envs[k].dir
    ensures Dirs(envs) == Dirs(others) + {envs[k].dir} && Dirs(others) == Dirs(envs) - {envs[k].dir}
  {
    forall d | d in Dirs(envs)
      ensures d in Dirs(others) + {envs[k].dir}
    {
      var j :| j in envs && envs[j].dir == d;
      assert j != k ==> j in others && others[j].dir == d;
    }
    forall d | d in Dirs(others)
      ensures d in Dirs(envs) && d != envs[k].dir
    {
      var j :| j in others && others[j].dir == d;
      assert j in envs && envs[j].dir == d;
    }
  }

  lemma WorldWith(file: PageFile, envs: map<nat, Env>, k: nat, others: map<nat, Env>)
    requires k in envs && others == envs - {k}
    ensures WorldOf(file, envs) == World(ProgramsOf(others)[k := ProgramOf(envs[k])], |file.free|)
    ensures ProgramsOf(others) == WorldOf(file, envs).programs - {k}
    ensures WorldOf(file, others) == World(ProgramsOf(others), |file.free|)
  {
    hide ProgramOf;
    assert WorldOf(file, envs).programs == ProgramsOf(others)[k := ProgramOf(envs[k])];
  }

  lemma TogetherApart(file: PageFile, envs: map<nat, Env>, k: nat, others: map<nat, Env>)
    requires Together(file, envs) && k in envs && others == envs - {k}
    ensures Beside(file, envs[k], others) && (forall j | j in others :: others[j].dir != envs[k].dir)
    ensures Settled(StoreOf(file), Dirs(envs)) && SharedOk(file) && StoreOk(StoreOf(file))
    ensures ProgramsOf(others) == WorldOf(file, envs).programs - {k}
  {
    hide OwnOk, OwnOf, StoreOk, SharedOk, Settled, StoreOf, ProgramOf;
  }

  lemma TogetherAgain(file: PageFile, envs: map<nat, Env>, k: nat, others: map<nat, Env>)
    requires SharedOk(file) && StoreOk(StoreOf(file)) && Settled(StoreOf(file), Dirs(envs))
    requires k in envs && others == envs - {k} && envs[k].file == file && envs[k].mem == file.mem
    requires OwnOk(OwnOf(envs[k]), StoreOf(file)) && Beside(file, envs[k], others)
    ensures Together(file, envs)
  {
    hide OwnOk, OwnOf, StoreOk, SharedOk, Settled, StoreOf;
    forall j | j in envs
      ensures envs[j].file == file && envs[j].mem == file.mem && OwnOk(OwnOf(envs[j]), StoreOf(file))
    {
      assert j != k ==> others[j] == envs[j];
    }
    forall i, j | i in envs && j in envs && i != j
      ensures envs[i] != envs[j] && envs[i].dir != envs[j].dir
    {
      assert i != k ==> others[i] == envs[i];
      assert j != k ==> others[j] == envs[j];
    }
  }

  lemma BesideAfter(
    file: PageFile, e: Env, others: map<nat, Env>, owns: map<nat, Own>, st: Store, programs: map<nat, Program>)
    requires StoreOk(StoreOf(file)) && Isolated(e.dir, st, StoreOf(file))
    requires owns.Keys == others.Keys && programs.Keys == others.Keys
    requires forall k | k in others ::
               && others[k].file == file && others[k].mem == file.mem && others[k].dir != e.dir && others[k] != e
               && owns[k] == OwnOf(others[k]) && OwnOk(owns[k], st) && programs[k] == SeenAs(owns[k], st)
    requires forall i, j | i in others && j in others && i != j ::
               others[i] != others[j] && others[i].dir != others[j].dir
    ensures Beside(file, e, others) && ProgramsOf(others) == programs
  {
    hide OwnOk, StoreOk, SeenAs, ProgramOf, OwnOf;
    OthersTogether(file, others, owns, e.dir, st, StoreOf(file), programs);
  }

  /** A call leaves the other environments in order and their programs as they were. */
  method ServeBeside(file: PageFile, e: Env, ghost others: map<nat, Env>, call: Call, algorithm: Algorithm)
    returns (ok: bool, value: bv8, ghost how: How)
    requires e.Valid() && e.file == file && e.mem == file.mem && CallOk(e, call) && Beside(file, e, others)
    modifies e`ws, e`log, e`hand, e`flat, e`blank
    modifies file`free, file`frames, file`directories, file`tables, file`disk
    modifies file.mem`freeFrames, file.mem`references, file.mem`entries, file.mem`held, file.mem`litter, file.mem`ram
    modifies file.mem`directory, file.mem`heapTop, file.mem`records, file.mem`idx, file.mem`reverse, file.mem`blocks
    ensures e.Valid() && Beside(file, e, others) && ProgramsOf(others) == old(ProgramsOf(others))
    ensures Isolated(e.dir, old(StoreOf(file)), StoreOf(file))
    ensures ok <==> !old(CallStuck(e, call))
    ensures ok ==> CallStep(old(ProgramOf(e)), |old(file.free)|, algorithm, call, value, how, ProgramOf(e), |file.free|)
    ensures !ok ==> CallStuck(e, call)
  {
    hide Env.Valid, OwnOk, SharedOk, StoreOk, Isolated, CallStuck, CallStep, BackedPages, CallOk, DiskFrameTaken,
         Translate, Resident, InWs, Env.Stuck, LosesZero, RoomForTables;
    hide ProgramOf, SeenAs, Resident, UsedIn, ProgramsOf;
    ghost var st, owns, programs := StoreOf(file), OwnsOf(others), ProgramsOf(others);
    ProgramsAre(file, others);
    ok, value, how := Serve(e, call, algorithm);
    ValidIs(e);
    OwnStore(OwnOf(e), e.CurrentStore());
    BesideAfter(file, e, others, owns, st, programs);
  }

  /** A call of one environment; the others do not notice. */
  method TakeCall(file: PageFile, envs: map<nat, Env>, k: nat, call: Call, algorithm: Algorithm)
    returns (ok: bool, value: bv8, ghost how: How)
    requires Together(file, envs) && k in envs && CallOk(envs[k], call)
    modifies envs.Values`ws, envs.Values`log, envs.Values`hand, envs.Values`flat, envs.Values`blank
    modifies file`free, file`frames, file`directories, file`tables, file`disk
    modifies file.mem`freeFrames, file.mem`references, file.mem`entries, file.mem`held, file.mem`litter, file.mem`ram
    modifies file.mem`directory, file.mem`heapTop, file.mem`records, file.mem`idx, file.mem`reverse, file.mem`blocks
    ensures Together(file, envs)
    ensures ok <==> !old(CallStuck(envs[k], call))
    ensures ok ==> WorldStep(old(WorldOf(file, envs)), Turn(k, call, algorithm), value, how, WorldOf(file, envs))
    ensures !ok ==> CallStuck(envs[k], call)
  {
    hide Env.Valid, OwnOk, SharedOk, StoreOk, Settled, Isolated, CallStuck, CallStep, BackedPages, Together, Dirs,
         CallOk;
    hide Beside, ProgramOf;
    ghost var e, st, w := envs[k], StoreOf(file), WorldOf(file, envs);
    ghost var others := envs - {k};
    MemberValid(file, envs, k);
    TogetherApart(file, envs, k, others);
    ok, value, how := ServeBeside(file, envs[k], others, call, algorithm);
    ValidIs(e);
    OwnStore(OwnOf(e), e.CurrentStore());
    DirsWith(envs, k, others);
    SettledAfter(st, Dirs(envs), e.dir, StoreOf(file));
    assert Dirs(envs) + {e.dir} == Dirs(envs);
    TogetherAgain(file, envs, k, others);
    WorldWith(file, envs, k, others);
    assert ProgramsOf(others)[k := ProgramOf(e)] == w.programs[k := ProgramOf(e)];
  }

  lemma OwnStore(o: Own, st: Store)
    requires OwnOk(o, st)
    ensures StoreOk(st)
  {
  }

  /** What a new environment needs. */
  predicate CanCreate(file: PageFile, maxSize: nat)
    reads file, file.mem
  {
    0 < maxSize && MIRROR_PAGE + WsPages(maxSize) <= FIRST_STACK_PAGE && RoomToCreate(file, maxSize)
  }

  lemma DirectoryIsNew(file: PageFile, envs: map<nat, Env>)
    requires Together(file, envs)
    ensures NewDirectory(file, file.mem.heapTop) && forall k | k in envs :: envs[k].dir != file.mem.heapTop
  {
    hide StoreOk, Settled, OwnOk;
    var dir := file.mem.heapTop;
    BelowTop(file);
    forall k | k in envs
      ensures envs[k].dir != dir
    {
      HasDirectoryBlock(OwnOf(envs[k]), StoreOf(file));
    }
    assert dir !in Dirs(envs);
    NotSettled(file, Dirs(envs), dir);
  }

  lemma BelowTop(file: PageFile)
    requires SharedOk(file)
    ensures forall p | p in file.mem.blocks :: p < file.mem.heapTop
  {
    file.mem.BlocksBelowTop();
  }

  lemma HasDirectoryBlock(o: Own, st: Store)
    requires OwnOk(o, st)
    ensures o.dir in st.blocks
  {
  }

  lemma NotSettled(file: PageFile, dirs: set<nat>, dir: nat)
    requires Settled(StoreOf(file), dirs) && dir !in dirs
    ensures NewDirectory(file, dir)
  {
    hide Translate;
    GetIs(file);
    forall v
      ensures file.mem.Lookup(dir, v).None?
    {
      assert StoreOf(file).Get(dir, v) == file.mem.Lookup(dir, v);
    }
  }

  /** env_create; the environments that are there do not notice. */
  method TakeCreate(file: PageFile, envs: map<nat, Env>, k: nat, maxSize: nat) returns (envs': map<nat, Env>)
    requires Together(file, envs) && k !in envs && CanCreate(file, maxSize)
    modifies file`free, file`frames, file`directories, file`tables, file`disk
    modifies file.mem`freeFrames, file.mem`references, file.mem`entries, file.mem`held, file.mem`litter, file.mem`ram
    modifies file.mem`directory, file.mem`heapTop, file.mem`records, file.mem`idx, file.mem`reverse, file.mem`blocks
    ensures k in envs' && fresh(envs'[k]) && envs' == envs[k := envs'[k]]
    ensures Together(file, envs')
    ensures forall value, how ::
              WorldStep(old(WorldOf(file, envs)), Create(k, maxSize), value, how, WorldOf(file, envs'))
  {
    hide Env.Valid, OwnOk, SharedOk, StoreOk, Settled, Isolated, BackedPages, RoomToCreate, PagesToCreate, WsPages,
         NewDirectory;
    hide ZeroPage, Together, Dirs, Beside;
    ghost var st, w, free := StoreOf(file), WorldOf(file, envs), file.free;
    DirectoryIsNew(file, envs);
    TogetherAll(file, envs);
    var e := CreateBeside(file, envs, maxSize);
    envs' := envs[k := e];
    assert envs' - {k} == envs;
    ValidIs(e);
    WsPagesOf(e);
    OwnStore(OwnOf(e), e.CurrentStore());
    SettledAfter(st, Dirs(envs), e.dir, StoreOf(file));
    DirsWith(envs', k, envs);
    TogetherAgain(file, envs', k, envs);
    NewBacked(st, Dirs(envs), e.dir, free, file.free, file.frames);
    WorldWith(file, envs', k, envs);
  }

  /** env_create leaves the environments that are there in order and their programs as they were. */
  method CreateBeside(file: PageFile, ghost others: map<nat, Env>, maxSize: nat) returns (e: Env)
    requires SharedOk(file) && StoreOk(StoreOf(file)) && NewDirectory(file, file.mem.heapTop)
             && CanCreate(file, maxSize)
    requires forall j | j in others ::
               && others[j].file == file && others[j].mem == file.mem && others[j].dir != file.mem.heapTop
               && OwnOk(OwnOf(others[j]), StoreOf(file))
    requires forall i, j | i in others && j in others && i != j ::
               others[i] != others[j] && others[i].dir != others[j].dir
    modifies file`free, file`frames, file`directories, file`tables, file`disk
    modifies file.mem`freeFrames, file.mem`references, file.mem`entries, file.mem`held, file.mem`litter, file.mem`ram
    modifies file.mem`directory, file.mem`heapTop, file.mem`records, file.mem`idx, file.mem`reverse, file.mem`blocks
    ensures fresh(e) && e.file == file && e.mem == file.mem && e.maxSize == maxSize && e.dir == old(file.mem.heapTop)
    ensures JustCreated(e) && Beside(file, e, others) && ProgramsOf(others) == old(ProgramsOf(others))
    ensures DiskFrameTaken(PageId(e.dir, FIRST_STACK_PAGE), true, old(file.free), old(file.frames),
                           file.free, file.frames)
    ensures Isolated(e.dir, old(StoreOf(file)), StoreOf(file))
    ensures e.Valid()
  {
    hide Env.Valid, OwnOk, SharedOk, StoreOk, Isolated, BackedPages, RoomToCreate, PagesToCreate, WsPages, NewDirectory,
         JustCreated;
    hide DiskFrameTaken;
    hide ProgramOf, SeenAs, Resident, UsedIn, ProgramsOf;
    ghost var st, owns, programs := StoreOf(file), OwnsOf(others), ProgramsOf(others);
    ProgramsAre(file, others);
    e := CreateEnvironment(file, maxSize);
    ValidIs(e);
    OwnStore(OwnOf(e), e.CurrentStore());
    BesideAfter(file, e, others, owns, st, programs);
  }

  lemma TogetherAll(file: PageFile, envs: map<nat, Env>)
    requires Together(file, envs)
    ensures forall j | j in envs ::
              envs[j].file == file && envs[j].mem == file.mem && OwnOk(OwnOf(envs[j]), StoreOf(file))
    ensures Settled(StoreOf(file), Dirs(envs)) && SharedOk(file) && StoreOk(StoreOf(file))
    ensures forall i, j | i in envs && j in envs && i != j :: envs[i] != envs[j] && envs[i].dir != envs[j].dir
  {
  }

  /** The first stack page of a new environment has a disk frame if one was free. */
  lemma NewBacked(st: Store, dirs: set<nat>, dir: nat, free: seq<nat>, free': seq<nat>, frames': map<PageId, nat>)
    requires Settled(st, dirs) && dir !in dirs
    requires DiskFrameTaken(PageId(dir, FIRST_STACK_PAGE), true, free, st.frames, free', frames')
    ensures BackedPages(dir, frames') == if |free| > 0 then {FIRST_STACK_PAGE} else {}
    ensures |free'| == if |free| > 0 then |free| - 1 else 0
  {
    NoneBacked(st, dirs, dir);
    BackedAfterAccess(dir, FIRST_STACK_PAGE, true, free, st.frames, free', frames');
  }

  lemma WsPagesOf(e: Env)
    requires e.Valid()
    ensures e.wsPages == WsPages(e.maxSize)
  {
  }

  lemma NoneBacked(st: Store, dirs: set<nat>, dir: nat)
    requires Settled(st, dirs) && dir !in dirs
    ensures BackedPages(dir, st.frames) == {}
  {
    hide Store.Get;
  }

  /** env_free; the environments that stay do not notice, whether or not a frame is lost. */
  method TakeExit(file: PageFile, envs: map<nat, Env>, k: nat) returns (envs': map<nat, Env>)
    requires Together(file, envs) && k in envs
    modifies file`free, file`frames, file`directories, file`tables
    modifies file.mem`freeFrames, file.mem`references, file.mem`entries, file.mem`records, file.mem`reverse
    modifies file.mem`blocks, file.mem`directory, file.mem`lost
    ensures envs' == envs - {k} && Together(file, envs')
    ensures forall value, how :: WorldStep(old(WorldOf(file, envs)), Exit(k), value, how, WorldOf(file, envs'))
  {
    hide Env.Valid, OwnOk, StoreOk, Settled, Isolated, BackedPages, PageFile.Valid, Returned, IsLost, SharesMirrorTable;
    hide OwnershipOk, Translate, Together, Dirs, Beside;
    ghost var e, st, w, free := envs[k], StoreOf(file), WorldOf(file, envs), file.free;
    envs' := envs - {k};
    MemberValid(file, envs, k);
    TogetherApart(file, envs, k, envs');
    DirsWith(envs, k, envs');
    Ownership(e);
    ExitBeside(file, envs[k], envs');
    GetIs(file);
    SettledAfterExit(st, Dirs(envs), e.dir, StoreOf(file));
    TogetherLeft(file, e, envs');
    FileOwnership(file);
    OthersFrames(e.dir, st, StoreOf(file));
    DiskFramesShared(e.dir, free, st.frames, file.free, file.frames, file.count);
    assert BackedPages(e.dir, file.frames) == {};
    WorldWith(file, envs, k, envs');
  }

  /** env_free leaves the other environments in order and their programs as they were. */
  method ExitBeside(file: PageFile, e: Env, ghost others: map<nat, Env>)
    requires e.Valid() && e.file == file && e.mem == file.mem && Beside(file, e, others)
    modifies file`free, file`frames, file`directories, file`tables
    modifies file.mem`freeFrames, file.mem`references, file.mem`entries, file.mem`records, file.mem`reverse
    modifies file.mem`blocks, file.mem`directory, file.mem`lost
    ensures SharedOk(file) && StoreOk(StoreOf(file))
    ensures Beside(file, e, others) && ProgramsOf(others) == old(ProgramsOf(others))
    ensures forall v :: file.mem.Lookup(e.dir, v).None?
    ensures forall p | p in file.mem.blocks :: !OwnedBy(p, file.mem.blocks[p].owner, e.dir)
    ensures file.frames == map p | p in old(file.frames) && p.dir != e.dir :: old(file.frames)[p]
    ensures Isolated(e.dir, old(StoreOf(file)), StoreOf(file))
  {
    hide Env.Valid, OwnOk, StoreOk, Isolated, BackedPages, PageFile.Valid, Returned, IsLost, SharesMirrorTable,
         Translate;
    hide ProgramOf, SeenAs, Resident, UsedIn, ProgramsOf;
    ghost var st, owns, programs := StoreOf(file), OwnsOf(others), ProgramsOf(others);
    ProgramsAre(file, others);
    EnvFree.EnvFree(e);
    BesideAfter(file, e, others, owns, st, programs);
  }

  lemma TogetherLeft(file: PageFile, e: Env, others: map<nat, Env>)
    requires SharedOk(file) && StoreOk(StoreOf(file)) && Settled(StoreOf(file), Dirs(others)) && Beside(file, e, others)
    ensures Together(file, others)
  {
    hide OwnOk, OwnOf, StoreOk, SharedOk, Settled, StoreOf;
  }

  lemma FileOwnership(file: PageFile)
    requires file.Valid()
    ensures OwnershipOk(file.free, file.frames, file.count)
  {
  }

  // ---- runs ----

  /** What stops a run: a turn of an environment that is not there, or that the kernel does not serve. */
  ghost predicate TurnStuck(file: PageFile, envs: map<nat, Env>, t: Turn)
    reads file, file.mem, envs.Values, (set k | k in envs :: envs[k].file), set k | k in envs :: envs[k].mem
  {
    match t
    case Turn(k, call, _) => !(k in envs && CallOk(envs[k], call)) || CallStuck(envs[k], call)
    case Create(k, maxSize) => k in envs || !CanCreate(file, maxSize)
    case Exit(k) => k !in envs
  }

  lemma RoomToCreateMeans(file: PageFile, maxSize: nat)
    ensures CanCreate(file, maxSize)
            <==> && 0 < maxSize && MIRROR_PAGE + WsPages(maxSize) <= FIRST_STACK_PAGE
                 && file.mem.heapTop + PagesToCreate(file, maxSize) < file.mem.heapMax
                 && PagesToCreate(file, maxSize) + 1 <= |file.mem.freeFrames|
  {
    hide PagesToCreate, WsPages;
  }

  /** One turn. */
  method TakeTurn(file: PageFile, envs: map<nat, Env>, t: Turn)
    returns (ok: bool, envs': map<nat, Env>, value: bv8, ghost how: How)
    requires Together(file, envs)
    modifies envs.Values`ws, envs.Values`log, envs.Values`hand, envs.Values`flat, envs.Values`blank
    modifies file`free, file`frames, file`directories, file`tables, file`disk
    modifies file.mem`freeFrames, file.mem`references, file.mem`entries, file.mem`held, file.mem`litter, file.mem`ram
    modifies file.mem`directory, file.mem`heapTop, file.mem`records, file.mem`idx, file.mem`reverse, file.mem`blocks
    modifies file.mem`lost
    ensures Together(file, envs') && (forall k | k in envs' && !(k in envs && envs'[k] == envs[k]) :: fresh(envs'[k]))
    ensures ok <==> !old(TurnStuck(file, envs, t))
    ensures ok ==> WorldStep(old(WorldOf(file, envs)), t, value, how, WorldOf(file, envs'))
    ensures !ok ==> TurnStuck(file, envs', t)
    ensures !ok && t.Create? && t.env !in envs && 0 < t.maxSize
            && MIRROR_PAGE + WsPages(t.maxSize) <= FIRST_STACK_PAGE ==>
              var n := PagesToCreate(file, t.maxSize);
              file.mem.heapMax <= file.mem.heapTop + n || |file.mem.freeFrames| < n + 1
  {
    hide Together, CallOk, CallStuck, CanCreate, WorldStep, WorldOf;
    envs', value, how := envs, 0, How(0, false);
    match t {
      case Turn(k, call, algorithm) =>
        ok := k in envs && CallOk(envs[k], call);
        if ok {
          ok, value, how := TakeCall(file, envs, k, call, algorithm);
        }
      case Create(k, maxSize) =>
        RoomToCreateMeans(file, maxSize);
        ok := k !in envs && CanCreate(file, maxSize);
        if ok {
          envs' := TakeCreate(file, envs, k, maxSize);
        }
      case Exit(k) =>
        ok := k in envs;
        if ok {
          envs' := TakeExit(file, envs, k);
        }
    }
  }

  lemma TogetherWhole(file: PageFile, envs: map<nat, Env>)
    requires Together(file, envs)
    ensures AllWhole(WorldOf(file, envs))
  {
    hide Together, ProgramOf, Whole;
    forall k | k in envs
      ensures Whole(ProgramOf(envs[k]))
    {
      MemberValid(file, envs, k);
      envs[k].IsWhole();
    }
  }

  /** A run of the machine: `worlds` holds the world before every turn and at the end. */
  ghost predicate MachineRun(worlds: seq<World>, turns: seq<Turn>, values: seq<bv8>, hows: seq<How>) {
    && |worlds| == |turns| + 1 && |values| == |turns| && |hows| == |turns|
    && forall t | 0 <= t < |turns| :: WorldStep(worlds[t], turns[t], values[t], hows[t], worlds[t + 1])
  }

  /** Demand paging is invisible to each of the programs that share the machine: over every sequence of
      creations, exits, loads, stores, ticks, allocations and frees, under whatever algorithms, each sees its own
      memory. The run is complete unless a turn gets stuck. */
  method RunTogether(file: PageFile, envs: map<nat, Env>, turns: seq<Turn>)
    returns (envs': map<nat, Env>, values: seq<bv8>, ghost worlds: seq<World>, ghost hows: seq<How>)
    requires Together(file, envs)
    modifies envs.Values`ws, envs.Values`log, envs.Values`hand, envs.Values`flat, envs.Values`blank
    modifies file`free, file`frames, file`directories, file`tables, file`disk
    modifies file.mem`freeFrames, file.mem`references, file.mem`entries, file.mem`held, file.mem`litter, file.mem`ram
    modifies file.mem`directory, file.mem`heapTop, file.mem`records, file.mem`idx, file.mem`reverse, file.mem`blocks
    modifies file.mem`lost
    ensures Together(file, envs')
    ensures |values| <= |turns| && MachineRun(worlds, turns[..|values|], values, hows)
    ensures worlds[0] == old(WorldOf(file, envs)) && AllWhole(worlds[0])
    ensures |values| == |turns| ==> worlds[|turns|] == WorldOf(file, envs')
    ensures |values| < |turns| ==> TurnStuck(file, envs', turns[|values|])
  {
    hide Together, TurnStuck, WorldStep, WorldOf, AllWhole;
    envs', values, worlds, hows := envs, [], [WorldOf(file, envs)], [];
    TogetherWhole(file, envs);
    for i := 0 to |turns|
      invariant Together(file, envs') && |values| == i
      invariant forall k | k in envs' && !(k in envs && envs'[k] == envs[k]) :: fresh(envs'[k])
      invariant MachineRun(worlds, turns[..i], values, hows)
      invariant worlds[0] == old(WorldOf(file, envs)) && AllWhole(worlds[0]) && worlds[i] == WorldOf(file, envs')
    {
      var ok, value;
      ghost var how;
      ok, envs', value, how := TakeTurn(file, envs', turns[i]);
      if !ok {
        return;
      }
      assert turns[..i + 1] == turns[..i] + [turns[i]];
      values, worlds, hows := values + [value], worlds + [WorldOf(file, envs')], hows + [how];
    }
    assert turns[..|turns|] == turns;
  }

  // ---- what a program can rely on ----

  /** The turn gives a byte of a page of program `k` a new value, or takes the page away. */
  predicate Overwrites(t: Turn, k: nat, page: nat, offset: nat) {
    match t
    case Turn(j, call, _) => j == k && CallOverwrites(call, page, offset)
    case Create(_, _) => false
    case Exit(j) => j == k
  }

  predicate CallOverwrites(call: Call, page: nat, offset: nat) {
    match call
    case Access(op) => StoresTo(op, page, offset)
    case Allocate(_, _) => false
    case Free(start, n) => InRun(page, start, n)
  }

  /** Program `k` stores a value to a byte. */
  predicate StoresIn(t: Turn, k: nat, page: nat, offset: nat, value: bv8) {
    t.Turn? && t.env == k && t.call.Access? && StoresTo(t.call.op, page, offset) && t.call.op.value == value
  }

  /** The turn takes a page without a disk frame from program `k`. */
  predicate Loses(w: World, t: Turn, how: How, k: nat, page: nat) {
    t.Turn? && t.env == k && k in w.programs && t.call.Access? && page in Loss(w.programs[k], t.call.op, how)
  }

  /** Whatever the other programs do, a byte keeps the value stored to it until its own program stores to it
      again, frees the page or exits, or until the kernel loses the page. */
  lemma {:induction false} ByteStaysTogether(
    worlds: seq<World>, turns: seq<Turn>, values: seq<bv8>, hows: seq<How>,
    k: nat, j: nat, t: nat, page: nat, offset: nat, value: bv8)
    requires MachineRun(worlds, turns, values, hows) && j < t <= |turns|
             && StoresIn(turns[j], k, page, offset, value)
    requires forall i | j < i < t :: !Overwrites(turns[i], k, page, offset)
    requires forall i | j < i < t :: !Loses(worlds[i], turns[i], hows[i], k, page)
    ensures Holding(worlds[t], k, page, offset, value)
  {
    hide WorldStep, Holding;
    assert WorldStep(worlds[t - 1], turns[t - 1], values[t - 1], hows[t - 1], worlds[t]);
    if j < t - 1 {
      ByteStaysTogether(worlds, turns, values, hows, k, j, t - 1, page, offset, value);
      ByteAfterTurn(worlds[t - 1], turns[t - 1], values[t - 1], hows[t - 1], worlds[t], k, page, offset, value);
    } else {
      ByteAfterStore(worlds[j], turns[j], values[j], hows[j], worlds[t], k, page, offset, value);
    }
  }

  /** The byte of program `k` has that value. */
  predicate Holding(w: World, k: nat, page: nat, offset: nat, value: bv8) {
    && k in w.programs
    && var m := w.programs[k].memory;
    page in m.pages && page !in m.blank && offset < PAGE_SIZE && m.pages[page][offset] == value
  }

  lemma ByteAfterStore(
    w: World, t: Turn, result: bv8, how: How, w': World, k: nat, page: nat, offset: nat, value: bv8)
    requires WorldStep(w, t, result, how, w') && StoresIn(t, k, page, offset, value)
    ensures Holding(w', k, page, offset, value)
  {
    hide PagerStep, Loss, Forget;
  }

  lemma ByteAfterTurn(
    w: World, t: Turn, result: bv8, how: How, w': World, k: nat, page: nat, offset: nat, value: bv8)
    requires WorldStep(w, t, result, how, w') && Holding(w, k, page, offset, value)
    requires !Overwrites(t, k, page, offset) && !Loses(w, t, how, k, page)
    ensures Holding(w', k, page, offset, value)
  {
    hide PagerStep, Victim, NewProgram, Joins, Absent, Emptied;
  }

  /** A page that has a disk frame keeps it until its program frees the page or exits, and is never lost. */
  lemma {:induction false} BackedStays(
    worlds: seq<World>, turns: seq<Turn>, values: seq<bv8>, hows: seq<How>, k: nat, j: nat, t: nat,
    page: nat)
    requires MachineRun(worlds, turns, values, hows) && j <= t <= |turns|
    requires k in worlds[j].programs && page in worlds[j].programs[k].backed
    requires forall i | j <= i < t :: !TakesAway(turns[i], k, page)
    ensures k in worlds[t].programs && page in worlds[t].programs[k].backed
    ensures forall i | j <= i < t :: !Loses(worlds[i], turns[i], hows[i], k, page)
  {
    if j < t {
      BackedStays(worlds, turns, values, hows, k, j, t - 1, page);
      assert WorldStep(worlds[t - 1], turns[t - 1], values[t - 1], hows[t - 1], worlds[t]);
    }
  }

  /** The turn frees the page or ends its program. */
  predicate TakesAway(t: Turn, k: nat, page: nat) {
    match t
    case Turn(j, call, _) => j == k && call.Free? && InRun(page, call.start, call.n)
    case Create(_, _) => false
    case Exit(j) => j == k
  }

  /** A load returns the last value that its own program stored to the byte, if the page had a disk frame by
      then or is not lost in between. */
  lemma LoadReturnsOwnStore(
    worlds: seq<World>, turns: seq<Turn>, values: seq<bv8>, hows: seq<How>,
    k: nat, j: nat, t: nat, page: nat, offset: nat, value: bv8)
    requires MachineRun(worlds, turns, values, hows) && j < t < |turns| && StoresIn(turns[j], k, page, offset, value)
    requires turns[t].Turn? && turns[t].env == k && turns[t].call.Access? && turns[t].call.op == Load(page, offset)
    requires forall i | j < i < t :: !Overwrites(turns[i], k, page, offset)
    requires || (k in worlds[j + 1].programs && page in worlds[j + 1].programs[k].backed)
             || forall i | j < i <= t :: !Loses(worlds[i], turns[i], hows[i], k, page)
    ensures values[t] == value
  {
    assert WorldStep(worlds[t], turns[t], values[t], hows[t], worlds[t + 1]);
    forall i | j < i < t
      ensures !TakesAway(turns[i], k, page)
    {
      assert !Overwrites(turns[i], k, page, offset);
    }
    if k in worlds[j + 1].programs && page in worlds[j + 1].programs[k].backed {
      BackedStays(worlds, turns, values, hows, k, j + 1, t, page);
    }
    assert !Loses(worlds[t], turns[t], hows[t], k, page);
    ByteStaysTogether(worlds, turns, values, hows, k, j, t, page, offset, value);
  }

  /** The turn gives a program a page that should get a disk frame. */
  predicate NeedsFrame(w: World, t: Turn) {
    match t
    case Turn(k, call, _) => k in w.programs && call.Access? && IsNew(w.programs[k], call.op)
    case Create(_, _) => true
    case Exit(_) => false
  }

  ghost predicate AllWhole(w: World) {
    forall k | k in w.programs :: Whole(w.programs[k])
  }

  predicate EveryoneBacked(w: World) {
    forall k | k in w.programs :: AllBacked(w.programs[k])
  }

  lemma WholeAfterCall(
    p: Program, free: nat, algorithm: Algorithm, call: Call, value: bv8, how: How, p': Program, free': nat)
    requires Whole(p) && CallStep(p, free, algorithm, call, value, how, p', free')
    ensures Whole(p')
    ensures AllBacked(p) && call.Access? ==> Loss(p, call.op, how) == {}
    ensures AllBacked(p) ==> (AllBacked(p') <==> !(call.Access? && IsNew(p, call.op)) || free > 0)
  {
    hide AccessStep, Joins, Absent, InMirror, InWs;
    match call
    case Access(op) =>
      WholeStep(p, free, algorithm, op, value, how, p', free');
      if AllBacked(p) {
        BackedStep(p, free, algorithm, op, value, how, p', free');
      }
    case Allocate(start, n) =>
    case Free(start, n) =>
      EmptiedPages(p.pager, start, n);
  }

  lemma EmptiedPages(p: Pager, start: nat, n: nat)
    requires PagerOk(p)
    ensures PagerOk(Emptied(p, start, n))
    ensures forall v :: v in Resident(Emptied(p, start, n).ws) <==> v in Resident(p.ws) && !InRun(v, start, n)
  {
    hide InWs;
    forall v
      ensures v in Resident(Emptied(p, start, n).ws) <==> v in Resident(p.ws) && !InRun(v, start, n)
    {
      InCleared(p.ws, start, n, v);
    }
  }

  lemma InCleared(ws: seq<WsSlot>, start: nat, n: nat, v: nat)
    ensures InWs(Cleared(ws, start, n), v) <==> InWs(ws, v) && !InRun(v, start, n)
  {
    var ws' := Cleared(ws, start, n);
    if InWs(ws, v) && !InRun(v, start, n) {
      var i :| 0 <= i < |ws| && !ws[i].empty && ws[i].page == v;
      assert !ws'[i].empty && ws'[i].page == v;
    }
  }

  lemma BackedAfterTurn(w: World, t: Turn, value: bv8, how: How, w': World)
    requires WorldStep(w, t, value, how, w') && AllWhole(w)
    ensures AllWhole(w')
    ensures EveryoneBacked(w) ==> (EveryoneBacked(w') <==> !NeedsFrame(w, t) || w.free > 0)
    ensures EveryoneBacked(w) ==> forall k, page :: !Loses(w, t, how, k, page)
  {
    hide CallStep, Whole, AllBacked, IsNew, Loss, NewProgram;
    match t
    case Turn(k, call, algorithm) =>
      WholeAfterCall(w.programs[k], w.free, algorithm, call, value, how, w'.programs[k], w'.free);
      assert forall j | j in w'.programs && j != k :: w'.programs[j] == w.programs[j];
    case Create(k, maxSize) =>
      NewIsWhole(maxSize, w.free);
      assert w'.programs[k] == NewProgram(maxSize, w.free);
      assert forall j | j in w.programs :: j in w'.programs && w'.programs[j] == w.programs[j];
    case Exit(k) =>
  }

  lemma NewIsWhole(maxSize: nat, free: nat)
    requires maxSize > 0
    ensures Whole(NewProgram(maxSize, free))
    ensures AllBacked(NewProgram(maxSize, free)) <==> free > 0
  {
    hide ZeroPage, WsPages;
    var ws := NewPager(maxSize).ws;
    assert NewProgram(maxSize, free).memory.pages.Keys == {FIRST_STACK_PAGE};
    assert !ws[0].empty && ws[0].page == FIRST_STACK_PAGE;
    NextAt(0, maxSize);
    assert Resident(ws) == {FIRST_STACK_PAGE};
  }

  /** Every page that comes to a program on the run finds a free disk frame. */
  predicate RoomForAll(worlds: seq<World>, turns: seq<Turn>)
    requires |worlds| > |turns|
  {
    forall t | 0 <= t < |turns| && NeedsFrame(worlds[t], turns[t]) :: worlds[t].free > 0
  }

  /** When all pages have disk frames at the start, they always do if and only if every new page finds one free, and
      then no program ever loses a page, whatever the others do. */
  lemma {:induction false} NothingLostTogether(
    worlds: seq<World>, turns: seq<Turn>, values: seq<bv8>, hows: seq<How>)
    requires MachineRun(worlds, turns, values, hows) && AllWhole(worlds[0]) && EveryoneBacked(worlds[0])
    ensures forall t | 0 <= t <= |turns| :: AllWhole(worlds[t])
    ensures RoomForAll(worlds, turns) <==> forall t | 0 <= t <= |turns| :: EveryoneBacked(worlds[t])
    ensures RoomForAll(worlds, turns) ==>
              forall t, k, page | 0 <= t < |turns| :: !Loses(worlds[t], turns[t], hows[t], k, page)
  {
    hide WorldStep, AllWhole, EveryoneBacked, NeedsFrame, Loses;
    if turns != [] {
      var n := |turns| - 1;
      NothingLostTogether(worlds[..n + 1], turns[..n], values[..n], hows[..n]);
      assert WorldStep(worlds[n], turns[n], values[n], hows[n], worlds[n + 1]);
      BackedAfterTurn(worlds[n], turns[n], values[n], hows[n], worlds[n + 1]);
    }
  }

  // ---- from the start ----

  /** initialize_paging, the kernel heap and initialize_disk_page_file: a machine without environments. */
  method Boot(n: nat, usable: set<nat>, heapStart: nat, heapMax: nat, count: nat) returns (file: PageFile)
    requires 0 < n && 0 !in usable && (forall f | f in usable :: f < n)
    requires 0 < heapStart < heapMax && 0 < count
    ensures fresh(file) && fresh(file.mem) && Together(file, map[])
    ensures file.mem.heapTop == heapStart && file.mem.heapMax == heapMax && |file.mem.freeFrames| == |usable|
    ensures file.mem.directory == map[] && file.directories == map[] && file.tables == map[] && file.frames == map[]
    ensures file.count == count && (count == 1 ==> file.free == [])
  {
    hide PageFile.Valid;
    var mem := new Memory(n, usable, heapStart, heapMax);
    file := new PageFile(mem, count);
    assert forall d, v :: StoreOf(file).Get(d, v) == None;
    assert Dirs(map[]) == {};
  }
}
