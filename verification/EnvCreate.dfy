/** env_create of user_environment.c without the program's segments: the page directory, the working-set array
    with its second mapping among the program's pages, the cleared slots, and the first stack page. */
module EnvCreate {
  import opened Common
  import opened FrameAccounting
  import opened KernelMemory
  import opened PageFile
  import opened AddressSpace
  import opened FlatMemory
  import opened Replacement
  import opened Paging
  import opened RequiredFrames

  const FIRST_STACK_PAGE := STACK_TOP_PAGE - 1

  function ZeroPage(): Page {
    seq(PAGE_SIZE, _ => 0)
  }

  // ---- the mirror ----

  /** For the user to read, and not touched yet. */
  predicate ReadOnly(e: Entry) {
    e.perm == Perm(true, false, false, false)
  }

  /** The first `n` pages of the mirror are mapped to the frames behind the array. */
  ghost predicate Mirrors(mem: Memory, dir: nat, wsBlock: nat, n: nat)
    reads mem
  {
    forall p: nat {:trigger HeapSlot(p)} | wsBlock <= p < wsBlock + n ::
      HeapSlot(p) in mem.entries && mem.MapsTo(dir, MIRROR_PAGE + (p - wsBlock), mem.entries[HeapSlot(p)].frame)
  }

  /** A directory entry through which one of the first `k` mirror pages is mapped. */
  predicate Spans(d: Pde, dir: nat, k: nat) {
    k > 0 && d.dir == dir && MIRROR_PAGE / PAGE_TABLE_ENTRIES <= d.index <= (MIRROR_PAGE + k - 1) / PAGE_TABLE_ENTRIES
  }

  /** Page tables were added and nothing else changed in the kernel heap. */
  ghost predicate TablesAdded(v: View, v': View) {
    && v.blocks.Keys <= v'.blocks.Keys && Kept(v.reverse, v.blocks, v'.reverse, v'.blocks)
    && (forall p | p in v'.blocks && p !in v.blocks :: v'.blocks[p].owner.PageTable?)
    && HeapShrunk(v'.entries, v.entries) && HeapFrom(v.entries, v'.entries, v.freeFrames)
    && SameLost(v.entries, v'.entries) && (ScratchSlot in v'.entries <==> ScratchSlot in v.entries)
    && v'.held <= v.held && (forall f | f in v'.freeFrames :: f in v.freeFrames) && v'.ram == v.ram
  }

  lemma TablesAddedRefl(v: View)
    ensures TablesAdded(v, v)
  {
  }

  lemma TablesAddedTwice(v: View, v': View, v'': View)
    requires TablesAdded(v, v') && TablesAdded(v', v'')
    ensures TablesAdded(v, v'')
  {
    hide HeapShrunk, HeapFrom, SameLost;
    HeapShrunkTwice(v''.entries, v'.entries, v.entries);
    HeapFromTwice(v.entries, v'.entries, v''.entries, v.freeFrames, v'.freeFrames);
    SameLostTwice(v.entries, v'.entries, v''.entries);
  }

  lemma SameLostTwice(entries: map<Slot, Entry>, entries': map<Slot, Entry>, entries'': map<Slot, Entry>)
    requires SameLost(entries, entries') && SameLost(entries', entries'')
    ensures SameLost(entries, entries'')
  {
  }

  lemma TablesAddedBlocks(v: View, v': View)
    requires TablesAdded(v, v')
    ensures BlocksKept(v.blocks, v'.blocks) && HeapShrunk(v'.entries, v.entries)
    ensures HeapFrom(v.entries, v'.entries, v.freeFrames) && SameLost(v.entries, v'.entries)
    ensures v'.held <= v.held && v'.ram == v.ram && (ScratchSlot in v'.entries <==> ScratchSlot in v.entries)
  {
  }

  /** map_frame for a new page, creating its table if there is none. */
  method MapNew(mem: Memory, dir: nat, f: nat, page: nat, perm: Perm)
    requires mem.Valid() && page < USER_TOP_PAGE && f in mem.usable && f !in mem.freeFrames
    requires mem.Lookup(dir, page).None?
    requires TableEntry(dir, page) !in mem.directory ==> mem.heapTop < mem.heapMax - 1 && mem.freeFrames != []
    modifies mem`freeFrames, mem`references, mem`entries, mem`held, mem`litter, mem`heapTop, mem`records, mem`idx,
             mem`reverse
    modifies mem`blocks, mem`directory
    ensures mem.Valid() && TablesAdded(old(mem.Snapshot()), mem.Snapshot()) && f !in mem.held
    ensures mem.Lookup(dir, page) == Some(Entry(f, perm))
    ensures forall d, v | !(d == dir && v == page) :: mem.Lookup(d, v) == old(mem.Lookup(d, v))
    ensures mem.directory.Keys == old(mem.directory.Keys) + {TableEntry(dir, page)}
    ensures var n := if old(TableEntry(dir, page) in mem.directory) then 0 else 1;
            mem.heapTop == old(mem.heapTop) + n && |mem.freeFrames| == |old(mem.freeFrames)| - n
  {
    hide Memory.Valid, Translate, Kept, HeapShrunk, HeapFrom, SameLost;
    KeptRefl(mem.reverse, mem.blocks);
    mem.MapFrame(dir, f, page, perm);
    mem.MappedFrame(dir, page);
    mem.MappedHasTable(dir, page);
  }

  /** The loop that maps the mirror. */
  method MapMirror(mem: Memory, dir: nat, wsBlock: nat, wsPages: nat)
    requires mem.Valid() && MIRROR_PAGE + wsPages <= USER_TOP_PAGE
    requires forall p: nat {:trigger HeapSlot(p)} | wsBlock <= p < wsBlock + wsPages :: HeapSlot(p) in mem.entries
    requires forall v :: mem.Lookup(dir, v).None?
    requires mem.heapTop + TablesOf(mem.directory, dir, MIRROR_PAGE, MIRROR_PAGE + wsPages) < mem.heapMax
    requires TablesOf(mem.directory, dir, MIRROR_PAGE, MIRROR_PAGE + wsPages) <= |mem.freeFrames|
    modifies mem`freeFrames, mem`references, mem`entries, mem`held, mem`litter, mem`heapTop, mem`records, mem`idx,
             mem`reverse
    modifies mem`blocks, mem`directory
    ensures mem.Valid() && TablesAdded(old(mem.Snapshot()), mem.Snapshot())
    ensures Mirrors(mem, dir, wsBlock, wsPages)
    ensures forall v :: mem.Lookup(dir, v).Some? <==> InMirror(v, wsPages)
    ensures forall v | InMirror(v, wsPages) :: ReadOnly(mem.Lookup(dir, v).value)
    ensures forall d, v | d != dir :: mem.Lookup(d, v) == old(mem.Lookup(d, v))
    ensures forall d :: d in mem.directory <==> d in old(mem.directory) || Spans(d, dir, wsPages)
    ensures var n := TablesOf(old(mem.directory), dir, MIRROR_PAGE, MIRROR_PAGE + wsPages);
            mem.heapTop == old(mem.heapTop) + n && |mem.freeFrames| == |old(mem.freeFrames)| - n
  {
    hide Memory.Valid, Translate, TablesOf, TablesAdded, Spans, HeapShrunk;
    CountEmpty(mem.entries, mem.directory, dir, MIRROR_PAGE);
    NoneSpan(dir);
    ghost var directory, v := mem.directory, mem.Snapshot();
    TablesAddedRefl(v);
    for k := 0 to wsPages
      invariant mem.Valid() && TablesAdded(v, mem.Snapshot()) && Mirrors(mem, dir, wsBlock, k)
      invariant forall v :: mem.Lookup(dir, v).Some? <==> InMirror(v, k)
      invariant forall v | InMirror(v, k) :: ReadOnly(mem.Lookup(dir, v).value)
      invariant forall d, v | d != dir :: mem.Lookup(d, v) == old(mem.Lookup(d, v))
      invariant mem.heapTop == old(mem.heapTop) + TablesOf(directory, dir, MIRROR_PAGE, MIRROR_PAGE + k)
      invariant |mem.freeFrames| == |old(mem.freeFrames)| - TablesOf(directory, dir, MIRROR_PAGE, MIRROR_PAGE + k)
      invariant forall d :: d in mem.directory <==> d in directory || Spans(d, dir, k)
    {
      TablesOfStep(directory, dir, MIRROR_PAGE, MIRROR_PAGE + k);
      TablesOfGrows(directory, dir, MIRROR_PAGE, MIRROR_PAGE + k + 1, MIRROR_PAGE + wsPages);
      SpansStep(dir, k);
      ghost var v' := mem.Snapshot();
      StillThere(v.entries, v'.entries, v, v', wsBlock + k);
      var f := mem.KheapPhysical(wsBlock + k);
      mem.HeapFrame(wsBlock + k);
      MapNew(mem, dir, f, MIRROR_PAGE + k, Perm(true, false, false, false));
      TablesAddedTwice(v, v', mem.Snapshot());
      MirrorsNext(mem, dir, wsBlock, k, f, v', mem.Snapshot());
    }
  }

  lemma NoneSpan(dir: nat)
    ensures forall d :: !Spans(d, dir, 0)
  {
  }

  lemma SpansStep(dir: nat, k: nat)
    ensures forall d :: Spans(d, dir, k + 1) <==> Spans(d, dir, k) || d == TableEntry(dir, MIRROR_PAGE + k)
    ensures Spans(TableEntry(dir, MIRROR_PAGE + k), dir, k) <==> k > 0 && (MIRROR_PAGE + k) % PAGE_TABLE_ENTRIES != 0
  {
  }

  lemma StillThere(entries: map<Slot, Entry>, entries': map<Slot, Entry>, v: View, v': View, p: nat)
    requires TablesAdded(v, v') && entries == v.entries && entries' == v'.entries && HeapSlot(p) in entries
    ensures HeapSlot(p) in entries' && entries'[HeapSlot(p)] == entries[HeapSlot(p)]
  {
  }

  lemma MirrorsNext(mem: Memory, dir: nat, wsBlock: nat, k: nat, f: nat, v: View, v': View)
    requires TablesAdded(v, v') && v' == mem.Snapshot() && HeapSlot(wsBlock + k) in v.entries
    requires v.entries[HeapSlot(wsBlock + k)].frame == f && mem.MapsTo(dir, MIRROR_PAGE + k, f)
    requires forall p: nat {:trigger HeapSlot(p)} | wsBlock <= p < wsBlock + k ::
               HeapSlot(p) in v.entries && mem.MapsTo(dir, MIRROR_PAGE + (p - wsBlock), v.entries[HeapSlot(p)].frame)
    ensures Mirrors(mem, dir, wsBlock, k + 1)
  {
    hide Translate;
  }

  // ---- the new environment's store ----

  ghost function StoreOf(file: PageFile): Store
    reads file, file.mem
  {
    Store.Store(file.mem.entries, file.mem.directory, file.mem.ram, file.frames, file.disk, file.mem.blocks)
  }

  lemma GetIs(file: PageFile)
    ensures forall d, v :: StoreOf(file).Get(d, v) == file.mem.Lookup(d, v)
  {
  }

  /** What the environments share is in order between two turns. */
  ghost predicate SharedOk(file: PageFile)
    reads file, file.mem
  {
    file.Valid() && ScratchSlot !in file.mem.entries && file.mem.held == {}
  }

  /** Frames of the free list are named by nobody. */
  ghost predicate FreeUnnamed(st: Store, free: seq<nat>) {
    && (forall d, p | st.Get(d, p).Some? :: st.Get(d, p).value.frame !in free)
    && (forall k: nat {:trigger LostSlot(k)} | LostSlot(k) in st.entries :: st.entries[LostSlot(k)].frame !in free)
  }

  /** The kernel heap took frames of the free list for blocks of environment `dir`. */
  lemma AfterGrowth(dir: nat, st: Store, st': Store, free: seq<nat>)
    requires StoreOk(st) && FreeUnnamed(st, free)
    requires HeapFrom(st.entries, st'.entries, free) && SameLost(st.entries, st'.entries)
    requires OtherBlocksKept(dir, st.blocks, st'.blocks)
    requires forall d, v :: st'.Get(d, v) == st.Get(d, v)
    requires st'.ram == st.ram && st'.frames == st.frames && st'.disk == st.disk
    ensures StoreOk(st') && Isolated(dir, st, st')
  {
    hide Translate, Store.Get, OtherBlocksKept;
    forall k: nat {:trigger LostSlot(k)} | LostSlot(k) in st'.entries
      ensures Unseen(st', st'.entries[LostSlot(k)].frame) && NotHeap(st', st'.entries[LostSlot(k)].frame)
    {
      var f := st.entries[LostSlot(k)].frame;
      assert Unseen(st, f) && NotHeap(st, f);
    }
  }

  lemma RootBlocks(dir: nat, blocks: map<nat, Block>, blocks': map<nat, Block>, page: nat)
    requires page !in blocks && page in blocks' && OwnedBy(page, blocks'[page].owner, dir)
    requires blocks' == blocks[page := blocks'[page]]
    ensures OtherBlocksKept(dir, blocks, blocks')
  {
  }

  lemma NewRunUnseen(st: Store, st': Store, page: nat, size: nat, free: seq<nat>)
    requires NewRun(st.entries, st'.entries, page, size, free) && FreeUnnamed(st, free)
    requires forall d, v :: st'.Get(d, v) == st.Get(d, v)
    ensures RunUnseen(st', page, size)
  {
    hide Translate, Store.Get;
  }

  /** The frames behind a block are mapped at no user page. */
  ghost predicate RunUnseen(st: Store, page: nat, size: nat) {
    forall p: nat {:trigger HeapSlot(p)} | page <= p < page + size ::
      HeapSlot(p) in st.entries && Unseen(st, st.entries[HeapSlot(p)].frame)
  }

  /** kmalloc of a page directory or of a working-set array. */
  method AllocateRoot(file: PageFile, size: nat, ghost owner: Owner, ghost dir: nat) returns (page: nat)
    requires SharedOk(file) && StoreOk(StoreOf(file)) && 0 < size
    requires Anchor(owner) && OwnedBy(file.mem.heapTop, owner, dir)
    requires file.mem.heapTop < file.mem.heapMax - size && size <= |file.mem.freeFrames|
    modifies file.mem`freeFrames, file.mem`references, file.mem`entries, file.mem`held, file.mem`litter,
             file.mem`heapTop
    modifies file.mem`records, file.mem`idx, file.mem`reverse, file.mem`blocks
    ensures SharedOk(file) && StoreOk(StoreOf(file)) && Isolated(dir, old(StoreOf(file)), StoreOf(file))
    ensures page == old(file.mem.heapTop) && page !in old(file.mem.blocks) && page in file.mem.blocks
    ensures file.mem.blocks == old(file.mem.blocks)[page := file.mem.blocks[page]]
    ensures file.mem.blocks[page].owner == owner && file.mem.blocks[page].pages == size
    ensures RunUnseen(StoreOf(file), page, size)
    ensures forall d, v :: file.mem.Lookup(d, v) == old(file.mem.Lookup(d, v))
    ensures file.mem.heapTop == old(file.mem.heapTop) + size
    ensures |file.mem.freeFrames| == |old(file.mem.freeFrames)| - size
  {
    hide Memory.Valid, OwnershipOk, DiskTablesOk, StoreOk, Isolated, Translate, NewRun, HeapFrom, SameLost, Kept;
    hide SameUserSlots, OtherBlocksKept, RunUnseen, FreeUnnamed;
    ghost var st, v := StoreOf(file), file.mem.Snapshot();
    GetIs(file);
    FreeIsUnnamed(file);
    page := file.mem.KmallocOther(size, owner);
    GrownUser(v, file.mem.Snapshot(), size);
    GetIs(file);
    RootBlocks(dir, v.blocks, file.mem.blocks, page);
    DiskTablesKept(file.directories, file.tables, file.frames, v.reverse, v.blocks, file.mem.reverse, file.mem.blocks);
    AfterGrowth(dir, st, StoreOf(file), v.freeFrames);
    NewRunUnseen(st, StoreOf(file), page, size, v.freeFrames);
  }

  lemma FreeIsUnnamed(file: PageFile)
    requires file.Valid()
    ensures FreeUnnamed(StoreOf(file), file.mem.freeFrames)
  {
    hide Memory.Valid, OwnershipOk, DiskTablesOk, Translate;
    GetIs(file);
    file.mem.MappedNotFree();
  }

  lemma GrownUser(v: View, v': View, n: nat)
    requires HeapAdded(v, v', n)
    ensures v'.ram == v.ram && v'.held == v.held && v'.directory == v.directory
    ensures v'.heapTop == v.heapTop + n && |v'.freeFrames| == |v.freeFrames| - n
    ensures HeapFrom(v.entries, v'.entries, v.freeFrames) && SameLost(v.entries, v'.entries)
    ensures Kept(v.reverse, v.blocks, v'.reverse, v'.blocks)
    ensures ScratchSlot in v'.entries <==> ScratchSlot in v.entries
    ensures forall d, p :: Translate(v'.entries, v'.directory, d, p) == Translate(v.entries, v.directory, d, p)
  {
  }

  /** A frame of the array is mapped at its own mirror page and nowhere else. */
  lemma MirrorAlone(mem: Memory, dir: nat, wsBlock: nat, wsPages: nat, st: Store, st': Store, v: nat)
    requires mem.Valid() && Mirrors(mem, dir, wsBlock, wsPages) && InMirror(v, wsPages)
    requires st'.entries == mem.entries && st'.directory == mem.directory && |st'.ram| == |mem.ram|
    requires forall v :: mem.Lookup(dir, v).Some? <==> InMirror(v, wsPages)
    requires forall d, v | d != dir :: st'.Get(d, v) == st.Get(d, v)
    requires HeapShrunk(st'.entries, st.entries) && RunUnseen(st, wsBlock, wsPages)
    ensures st'.Get(dir, v).Some? && st'.Get(dir, v).value.frame < |st'.ram|
    ensures exists p: nat {:trigger HeapSlot(p)} ::
              HeapSlot(p) in st.entries && st.entries[HeapSlot(p)].frame == st'.Get(dir, v).value.frame
    ensures forall d': nat, v': nat
              | st'.Get(d', v').Some? && st'.Get(d', v').value.frame == st'.Get(dir, v).value.frame
                 :: d' == dir && v' == v
  {
    hide Translate, Memory.Valid;
    var p := wsBlock + (v - MIRROR_PAGE);
    mem.Parts();
    mem.TranslationsInverse();
    assert HeapSlot(p) in st.entries && HeapSlot(p) in mem.entries;
    var f := mem.entries[HeapSlot(p)].frame;
    assert Unseen(st, f);
    mem.HeapFrame(p);
    mem.MappedFrame(dir, v);
    assert mem.MapsTo(dir, v, f);
    forall d': nat, v': nat | st'.Get(d', v').Some? && st'.Get(d', v').value.frame == f
      ensures d' == dir && v' == v
    {
      assert d' != dir ==> st.Get(d', v') == st'.Get(d', v');
      if d' == dir {
        assert mem.Lookup(d', v').Some?;
        var p' := wsBlock + (v' - MIRROR_PAGE);
        assert HeapSlot(p') in mem.entries;
        assert mem.MapsTo(dir, v', mem.entries[HeapSlot(p')].frame);
        assert mem.KheapPhysical(p') == mem.KheapPhysical(p);
      }
    }
  }

  /** Mapping the array's frames a second time shares none with another user page. */
  lemma MirrorStore(mem: Memory, dir: nat, wsBlock: nat, wsPages: nat, st: Store, st': Store, free: seq<nat>)
    requires mem.Valid() && Mirrors(mem, dir, wsBlock, wsPages)
    requires StoreOk(st) && st'.entries == mem.entries && st'.directory == mem.directory
    requires st'.ram == st.ram && |st.ram| == |mem.ram| && st'.frames == st.frames && st'.disk == st.disk
    requires forall v :: mem.Lookup(dir, v).Some? <==> InMirror(v, wsPages)
    requires forall d, v | d != dir :: st'.Get(d, v) == st.Get(d, v)
    requires HeapShrunk(st'.entries, st.entries) && RunUnseen(st, wsBlock, wsPages)
    requires HeapFrom(st.entries, st'.entries, free) && FreeUnnamed(st, free) && SameLost(st.entries, st'.entries)
    ensures StoreOk(st')
  {
    hide Translate, Memory.Valid, Mirrors, RunUnseen, HeapShrunk;
    forall d: nat, v: nat | st'.Get(d, v).Some?
      ensures st'.Get(d, v).value.frame < |st'.ram|
      ensures forall d': nat, v': nat
                | st'.Get(d', v').Some? && st'.Get(d, v).value.frame == st'.Get(d', v').value.frame
                   :: d == d' && v == v'
    {
      if d == dir {
        assert mem.Lookup(dir, v).Some?;
        MirrorAlone(mem, dir, wsBlock, wsPages, st, st', v);
      } else {
        assert st.Get(d, v) == st'.Get(d, v);
        forall d': nat, v': nat | st'.Get(d', v').Some? && st'.Get(d, v).value.frame == st'.Get(d', v').value.frame
          ensures d == d' && v == v'
        {
          if d' == dir {
            assert mem.Lookup(dir, v').Some?;
            MirrorAlone(mem, dir, wsBlock, wsPages, st, st', v');
          } else {
            assert st.Get(d', v') == st'.Get(d', v');
          }
        }
      }
    }
    forall k: nat {:trigger LostSlot(k)} | LostSlot(k) in st'.entries
      ensures Unseen(st', st'.entries[LostSlot(k)].frame) && NotHeap(st', st'.entries[LostSlot(k)].frame)
    {
      var f := st.entries[LostSlot(k)].frame;
      assert Unseen(st, f) && NotHeap(st, f);
      forall d: nat, v: nat | st'.Get(d, v).Some?
        ensures st'.Get(d, v).value.frame != f
      {
        if d == dir {
          assert mem.Lookup(dir, v).Some?;
          MirrorAlone(mem, dir, wsBlock, wsPages, st, st', v);
        } else {
          assert st.Get(d, v) == st'.Get(d, v);
        }
      }
    }
  }

  lemma MirrorIsolated(dir: nat, st: Store, st': Store, free: seq<nat>)
    requires FreeUnnamed(st, free) && HeapFrom(st.entries, st'.entries, free) && BlocksKept(st.blocks, st'.blocks)
    requires forall d, v | d != dir :: st'.Get(d, v) == st.Get(d, v)
    requires st'.ram == st.ram && st'.frames == st.frames && st'.disk == st.disk
    ensures Isolated(dir, st, st')
  {
    hide Translate, Store.Get;
  }

  /** The array is mapped a second time. */
  method MapArray(file: PageFile, dir: nat, wsBlock: nat, wsPages: nat)
    requires SharedOk(file) && StoreOk(StoreOf(file)) && MIRROR_PAGE + wsPages <= USER_TOP_PAGE
    requires forall v :: file.mem.Lookup(dir, v).None?
    requires RunUnseen(StoreOf(file), wsBlock, wsPages)
    requires file.mem.heapTop + TablesOf(file.mem.directory, dir, MIRROR_PAGE, MIRROR_PAGE + wsPages) < file.mem.heapMax
    requires TablesOf(file.mem.directory, dir, MIRROR_PAGE, MIRROR_PAGE + wsPages) <= |file.mem.freeFrames|
    modifies file.mem`freeFrames, file.mem`references, file.mem`entries, file.mem`held, file.mem`litter,
             file.mem`heapTop
    modifies file.mem`records, file.mem`idx, file.mem`reverse, file.mem`blocks, file.mem`directory
    ensures SharedOk(file) && StoreOk(StoreOf(file)) && Isolated(dir, old(StoreOf(file)), StoreOf(file))
    ensures BlocksKept(old(file.mem.blocks), file.mem.blocks)
    ensures Mirrors(file.mem, dir, wsBlock, wsPages)
    ensures forall v :: file.mem.Lookup(dir, v).Some? <==> InMirror(v, wsPages)
    ensures forall v | InMirror(v, wsPages) :: ReadOnly(file.mem.Lookup(dir, v).value)
    ensures forall d :: d in file.mem.directory <==> d in old(file.mem.directory) || Spans(d, dir, wsPages)
    ensures var n := TablesOf(old(file.mem.directory), dir, MIRROR_PAGE, MIRROR_PAGE + wsPages);
            file.mem.heapTop == old(file.mem.heapTop) + n && |file.mem.freeFrames| == |old(file.mem.freeFrames)| - n
  {
    hide Memory.Valid, OwnershipOk, DiskTablesOk, StoreOk, Isolated, Translate, HeapFrom, SameLost, HeapShrunk, Kept;
    hide TablesOf, Spans, Mirrors, RunUnseen, FreeUnnamed, BlocksKept;
    ghost var st, v := StoreOf(file), file.mem.Snapshot();
    GetIs(file);
    FreeIsUnnamed(file);
    file.mem.Parts();
    RunThere(st, wsBlock, wsPages);
    MapMirror(file.mem, dir, wsBlock, wsPages);
    ghost var v' := file.mem.Snapshot();
    TablesAddedBlocks(v, v');
    DiskTablesKept(file.directories, file.tables, file.frames, v.reverse, v.blocks, v'.reverse, v'.blocks);
    GetIs(file);
    file.mem.Parts();
    MirrorStore(file.mem, dir, wsBlock, wsPages, st, StoreOf(file), v.freeFrames);
    MirrorIsolated(dir, st, StoreOf(file), v.freeFrames);
  }

  lemma RunThere(st: Store, page: nat, size: nat)
    requires RunUnseen(st, page, size)
    ensures forall p: nat {:trigger HeapSlot(p)} | page <= p < page + size :: HeapSlot(p) in st.entries
  {
  }

  // ---- the first stack page ----

  /** A new environment that has no page in the page file yet. */
  ghost predicate Starting(e: Env)
    reads e, e.mem, e.file
  {
    && e.mem == e.file.mem && e.wsPages == WsPages(e.maxSize)
    && SharedOk(e.file)
    && WsOk(e.ws, e.hand, e.maxSize) && LogOk(e.ws, e.maxSize, e.log)
    && Planted(e.dir, e.wsBlock, e.wsPages, e.mem.blocks)
    && StoreOk(e.CurrentStore())
    && ResidentOk(e.ws, e.dir, e.wsPages, e.CurrentStore())
    && FlatOk(e.flat, e.blank, e.dir, e.wsPages, e.CurrentStore())
  }

  lemma StartingIsValid(e: Env)
    requires Starting(e) && Rooted(e.dir, e.wsBlock, e.wsPages, e.mem.blocks)
    ensures e.Valid()
  {
  }

  lemma PlantedKept(dir: nat, wsBlock: nat, wsPages: nat, blocks: map<nat, Block>, blocks': map<nat, Block>)
    requires Planted(dir, wsBlock, wsPages, blocks) && BlocksKept(blocks, blocks')
    ensures Planted(dir, wsBlock, wsPages, blocks')
  {
  }

  const STACK_PERM := Perm(true, true, false, false)

  /** The program's memory once the first stack page is mapped. */
  ghost predicate StackMapped(ws: seq<WsSlot>, dir: nat, wsPages: nat, st: Store) {
    && ws != [] && StoreOk(st)
    && FlatOk(map[FIRST_STACK_PAGE := ZeroPage()], {}, dir, wsPages, st)
    && ResidentOk(ws[0 := NewSlot(FIRST_STACK_PAGE)], dir, wsPages, st)
  }

  /** From `st` to `st'` a frame that nobody names is mapped at the page; from there to `st''` it is zeroed. */
  lemma StackPageMapped(
    ws: seq<WsSlot>, dir: nat, wsPages: nat, f: nat, e: Entry, st: Store, st': Store, st'': Store)
    requires StoreOk(st) && FlatOk(map[], {}, dir, wsPages, st) && ResidentOk(ws, dir, wsPages, st)
    requires ws != [] && ws[0].empty && !InMirror(FIRST_STACK_PAGE, wsPages)
    requires PageId(dir, FIRST_STACK_PAGE) !in st.frames && st.Get(dir, FIRST_STACK_PAGE).None?
    requires FreshHeap(st, st') && FreshHeap(st', st'') && NotHeap(st', f) && Unseen(st, f) && NotLost(st, f)
    requires OnlyEntry(dir, FIRST_STACK_PAGE, st, st') && st'.Get(dir, FIRST_STACK_PAGE) == Some(Entry(f, STACK_PERM))
    requires OnlyEntry(dir, FIRST_STACK_PAGE, st', st'') && st''.Get(dir, FIRST_STACK_PAGE) == Some(e)
    requires e.frame == f && e.perm.modified && e.perm.user && e.perm.writeable && f < |st.ram|
    requires |st'.ram| == |st.ram| && forall g | 0 <= g < |st.ram| && g != f :: st'.ram[g] == st.ram[g]
    requires st''.ram == st'.ram[f := ZeroPage()]
    requires st'.frames == st.frames && st'.disk == st.disk && st''.frames == st.frames && st''.disk == st.disk
    ensures StackMapped(ws, dir, wsPages, st'') && Isolated(dir, st, st'')
  {
    hide StoreOk, FlatOk, ResidentOk, Isolated, Translate, Store.Get, FreshHeap, ZeroPage, NotHeap;
    var page := FIRST_STACK_PAGE;
    var flat, none: set<nat> := map[], {};
    AfterPlaceUnbacked(flat, none, dir, wsPages, page, Entry(f, STACK_PERM), st, st');
    var flat' := flat[page := st'.ram[f]];
    AfterStore(flat', none + {page}, dir, wsPages, page, ZeroPage(), e, st', st'');
    assert flat'[page := ZeroPage()] == map[page := ZeroPage()] && none + {page} - {page} == {};
    IsolatedTwice(dir, st, st', st'');
    FreshThen(dir, page, st, st', st'');
    StillNotHeap(st', st'', dir, page);
    OnlyEntryTwice(dir, page, st, st', st'');
    ResidentAfterPlace(ws, dir, wsPages, 0, NewSlot(page), st, st'');
  }

  lemma OnlyEntryTwice(dir: nat, page: nat, st: Store, st': Store, st'': Store)
    requires OnlyEntry(dir, page, st, st') && OnlyEntry(dir, page, st', st'')
    ensures OnlyEntry(dir, page, st, st'')
  {
    hide Translate, Store.Get;
  }

  /** The frame taken for the stack page is named by nobody, nor did its table take it. */
  lemma StackFrameFresh(st: Store, st': Store, free: seq<nat>, f: nat, free': seq<nat>)
    requires FreeUnnamed(st, free) && f in free && f !in free' && forall g | g in free' :: g in free
    requires HeapFrom(st.entries, st'.entries, free') && SameLost(st.entries, st'.entries)
    requires BlocksKept(st.blocks, st'.blocks) && forall s | s in st.entries :: st.entries[s].frame != f
    ensures Unseen(st, f) && NotLost(st, f) && NotHeap(st', f) && FreshHeap(st, st')
  {
    hide Translate, Store.Get;
    FreshGrowth(st, st', free');
  }

  /** allocate_frame and loadtime_map_frame for the first stack page. */
  method MapStackFrame(file: PageFile, dir: nat) returns (f: nat)
    requires SharedOk(file) && file.mem.Lookup(dir, FIRST_STACK_PAGE).None?
    requires var n := if TableEntry(dir, FIRST_STACK_PAGE) in file.mem.directory then 0 else 1;
             file.mem.heapTop + n < file.mem.heapMax && 1 + n <= |file.mem.freeFrames|
    modifies file.mem`freeFrames, file.mem`references, file.mem`entries, file.mem`held, file.mem`litter,
             file.mem`heapTop
    modifies file.mem`records, file.mem`idx, file.mem`reverse, file.mem`blocks, file.mem`directory, file.mem`ram
    ensures SharedOk(file) && BlocksKept(old(file.mem.blocks), file.mem.blocks)
    ensures Unseen(old(StoreOf(file)), f) && NotLost(old(StoreOf(file)), f) && NotHeap(StoreOf(file), f)
    ensures FreshHeap(old(StoreOf(file)), StoreOf(file))
    ensures OnlyEntry(dir, FIRST_STACK_PAGE, old(StoreOf(file)), StoreOf(file))
    ensures file.mem.Lookup(dir, FIRST_STACK_PAGE) == Some(Entry(f, STACK_PERM))
    ensures f < |old(file.mem.ram)| && |file.mem.ram| == |old(file.mem.ram)|
    ensures forall g | 0 <= g < |file.mem.ram| && g != f :: file.mem.ram[g] == old(file.mem.ram)[g]
    ensures var n := if old(TableEntry(dir, FIRST_STACK_PAGE) in file.mem.directory) then 0 else 1;
            && file.mem.heapTop == old(file.mem.heapTop) + n
            && |file.mem.freeFrames| == |old(file.mem.freeFrames)| - 1 - n
  {
    hide Memory.Valid, OwnershipOk, DiskTablesOk, Translate, HeapFrom, SameLost, HeapShrunk, Kept, FreshHeap,
         BlocksKept;
    hide FreeUnnamed, Unseen, NotLost, NotHeap;
    ghost var st, free := StoreOf(file), file.mem.freeFrames;
    GetIs(file);
    FreeIsUnnamed(file);
    assert free[0] in free;
    f := file.mem.AllocateUserFrame();
    ghost var v := file.mem.Snapshot();
    MapNew(file.mem, dir, f, FIRST_STACK_PAGE, STACK_PERM);
    ghost var v' := file.mem.Snapshot();
    TablesAddedBlocks(v, v');
    DiskTablesKept(file.directories, file.tables, file.frames, v.reverse, v.blocks, v'.reverse, v'.blocks);
    GetIs(file);
    StackFrameFresh(st, StoreOf(file), free, f, v.freeFrames);
  }

  /** The first stack page has been used. */
  ghost predicate FirstUsed(e: Env)
    reads e, e.mem
  {
    e.mem.Lookup(e.dir, FIRST_STACK_PAGE).Some? && e.mem.Lookup(e.dir, FIRST_STACK_PAGE).value.perm.used
  }

  /** A zeroed frame is mapped at the first stack page; the kernel's own stores set the used and modified bits. */
  method MapZeroPage(e: Env)
    requires Starting(e) && e.ws == EmptySet(e.maxSize) && e.flat == map[] && e.blank == {}
    requires !InMirror(FIRST_STACK_PAGE, e.wsPages) && e.mem.Lookup(e.dir, FIRST_STACK_PAGE).None?
    requires PageId(e.dir, FIRST_STACK_PAGE) !in e.file.frames
    requires var n := if TableEntry(e.dir, FIRST_STACK_PAGE) in e.mem.directory then 0 else 1;
             e.mem.heapTop + n < e.mem.heapMax && 1 + n <= |e.mem.freeFrames|
    modifies e.mem`freeFrames, e.mem`references, e.mem`entries, e.mem`held, e.mem`litter, e.mem`heapTop, e.mem`records,
             e.mem`idx
    modifies e.mem`reverse, e.mem`blocks, e.mem`directory, e.mem`ram
    ensures SharedOk(e.file) && BlocksKept(old(e.mem.blocks), e.mem.blocks)
    ensures StackMapped(e.ws, e.dir, e.wsPages, e.CurrentStore()) && FirstUsed(e)
    ensures Isolated(e.dir, old(e.CurrentStore()), e.CurrentStore())
    ensures var n := if old(TableEntry(e.dir, FIRST_STACK_PAGE) in e.mem.directory) then 0 else 1;
            e.mem.heapTop == old(e.mem.heapTop) + n && |e.mem.freeFrames| == |old(e.mem.freeFrames)| - 1 - n
  {
    hide Memory.Valid, OwnershipOk, DiskTablesOk, StoreOk, FlatOk, ResidentOk, Isolated, Translate, LogOk, FreshHeap;
    hide BlocksKept, ZeroPage, WsPages, Planted, Unseen, NotLost, NotHeap, StackMapped;
    ghost var st := e.CurrentStore();
    e.GetIsLookup();
    var f := MapStackFrame(e.file, e.dir);
    ghost var st' := e.CurrentStore();
    e.GetIsLookup();
    e.mem.StoreFrame(e.dir, FIRST_STACK_PAGE, ZeroPage());
    e.mem.SetBits(e.dir, FIRST_STACK_PAGE, true, true);
    ghost var st'' := e.CurrentStore();
    e.GetIsLookup();
    FreshTouch(st', st'');
    StackPageMapped(e.ws, e.dir, e.wsPages, f, st''.Get(e.dir, FIRST_STACK_PAGE).value, st, st', st'');
  }

  /** The stack page and its slot. */
  method MapStackPage(e: Env)
    requires Starting(e) && e.ws == EmptySet(e.maxSize) && e.hand == 0 && e.flat == map[] && e.blank == {}
             && e.log == []
    requires !InMirror(FIRST_STACK_PAGE, e.wsPages) && e.mem.Lookup(e.dir, FIRST_STACK_PAGE).None?
    requires PageId(e.dir, FIRST_STACK_PAGE) !in e.file.frames
    requires var n := if TableEntry(e.dir, FIRST_STACK_PAGE) in e.mem.directory then 0 else 1;
             e.mem.heapTop + n < e.mem.heapMax && 1 + n <= |e.mem.freeFrames|
    modifies e`ws, e`log, e`hand, e`flat
    modifies e.mem`freeFrames, e.mem`references, e.mem`entries, e.mem`held, e.mem`litter, e.mem`heapTop, e.mem`records,
             e.mem`idx
    modifies e.mem`reverse, e.mem`blocks, e.mem`directory, e.mem`ram
    ensures Starting(e) && FirstUsed(e)
    ensures e.ws == EmptySet(e.maxSize)[0 := NewSlot(FIRST_STACK_PAGE)] && e.hand == 1 % e.maxSize
    ensures e.flat == map[FIRST_STACK_PAGE := ZeroPage()] && e.log == [Fill(0, FIRST_STACK_PAGE)]
    ensures Isolated(e.dir, old(e.CurrentStore()), e.CurrentStore())
    ensures var n := if old(TableEntry(e.dir, FIRST_STACK_PAGE) in e.mem.directory) then 0 else 1;
            e.mem.heapTop == old(e.mem.heapTop) + n && |e.mem.freeFrames| == |old(e.mem.freeFrames)| - 1 - n
  {
    hide SharedOk, StoreOk, FlatOk, ResidentOk, Isolated, LogOk, BlocksKept, Planted, ZeroPage, WsPages;
    ghost var blocks := e.mem.blocks;
    MapZeroPage(e);
    PlantedKept(e.dir, e.wsBlock, e.wsPages, blocks, e.mem.blocks);
    e.SetEntry(0, FIRST_STACK_PAGE);
    NextAt(0, e.maxSize);
    e.hand := 1 % e.maxSize;
    e.flat := map[FIRST_STACK_PAGE := ZeroPage()];
    assert e.log == [] + [Fill(0, FIRST_STACK_PAGE)];
  }

  /** pf_add_empty_env_page with zeros, whose failure env_create ignores. */
  method BackStackPage(e: Env)
    requires Starting(e) && FirstUsed(e) && e.flat == map[FIRST_STACK_PAGE := ZeroPage()]
    requires PageId(e.dir, FIRST_STACK_PAGE) !in e.file.frames
    requires e.mem.heapTop + e.file.MissingTables(e.dir, FIRST_STACK_PAGE) < e.mem.heapMax
    requires e.file.MissingTables(e.dir, FIRST_STACK_PAGE) <= |e.mem.freeFrames|
    modifies e.file`free, e.file`frames, e.file`directories, e.file`tables, e.file`disk
    modifies e.mem`freeFrames, e.mem`references, e.mem`entries, e.mem`held, e.mem`litter, e.mem`heapTop, e.mem`records,
             e.mem`idx
    modifies e.mem`reverse, e.mem`blocks
    ensures e.Valid() && FirstUsed(e)
    ensures DiskFrameTaken(PageId(e.dir, FIRST_STACK_PAGE), true, old(e.file.free), old(e.file.frames),
                           e.file.free, e.file.frames)
    ensures Isolated(e.dir, old(e.CurrentStore()), e.CurrentStore())
    ensures e.mem.heapTop == old(e.mem.heapTop + e.file.MissingTables(e.dir, FIRST_STACK_PAGE))
    ensures |e.mem.freeFrames| == |old(e.mem.freeFrames)| - old(e.file.MissingTables(e.dir, FIRST_STACK_PAGE))
  {
    hide Memory.Valid, OwnershipOk, DiskTablesOk, StoreOk, FlatOk, ResidentOk, Isolated, LogOk, HeapGrew, Translate;
    hide HeapFrom, FreshHeap, BlocksKept, SameLost, FreeUnnamed, Planted, ZeroPage, WsPages, Rooted;
    var page := FIRST_STACK_PAGE;
    ghost var st, v, n := e.CurrentStore(), e.mem.Snapshot(), e.file.MissingTables(e.dir, page);
    e.GetIsLookup();
    FreeIsUnnamed(e.file);
    NewFrame(e.file.free, e.file.frames, e.file.count);
    var ok := e.file.AddPage(e.dir, page, ZeroPage());
    ghost var st' := e.CurrentStore();
    e.GetIsLookup();
    HeapGrewSize(v, e.mem.Snapshot(), n);
    GrowthKeepsUser(v, e.mem.Snapshot(), n);
    PlantedKept(e.dir, e.wsBlock, e.wsPages, st.blocks, st'.blocks);
    NowRooted(e);
    GrowthFresh(st, st', v.freeFrames);
    ResidentKept(e.ws, e.dir, e.wsPages, st, st');
    if ok {
      ghost var dfn := e.file.frames[PageId(e.dir, page)];
      ghost var mid := st.(disk := st'.disk);
      AfterDiskScribble(e.flat, e.blank, e.dir, e.wsPages, dfn, ZeroPage(), st, mid);
      SameGets(st, mid, st', v.freeFrames);
      AfterNewBlock(e.flat, e.blank, e.dir, e.wsPages, page, dfn, mid, st');
      IsolatedTwice(e.dir, st, mid, st');
    } else {
      AfterNothing(e.flat, e.blank, e.dir, e.wsPages, st, st');
    }
    StartingIsValid(e);
  }

  lemma GrowthFresh(st: Store, st': Store, free: seq<nat>)
    requires FreeUnnamed(st, free) && HeapFrom(st.entries, st'.entries, free)
    requires SameLost(st.entries, st'.entries) && BlocksKept(st.blocks, st'.blocks)
    ensures FreshHeap(st, st')
  {
    FreshGrowth(st, st', free);
  }

  lemma SameGets(st: Store, mid: Store, st': Store, free: seq<nat>)
    requires mid == st.(disk := mid.disk) && FreshHeap(st, st') && forall d, p :: st'.Get(d, p) == st.Get(d, p)
    ensures FreshHeap(mid, st') && forall d, p :: st'.Get(d, p) == mid.Get(d, p)
  {
    assert forall d, p :: mid.Get(d, p) == st.Get(d, p);
    hide Translate, Store.Get;
    assert forall f | Unseen(st, f) :: Unseen(mid, f);
    assert forall f | NotLost(st, f) :: NotLost(mid, f);
  }

  lemma NowRooted(e: Env)
    requires e.mem == e.file.mem && e.file.Valid() && Planted(e.dir, e.wsBlock, e.wsPages, e.mem.blocks)
    requires e.dir in e.file.directories
    ensures Rooted(e.dir, e.wsBlock, e.wsPages, e.mem.blocks)
  {
    DirectoryFound(e.file.directories, e.file.tables, e.file.frames, e.mem.reverse, e.mem.blocks, e.dir);
    assert e.mem.blocks[e.file.directories[e.dir]].owner == DiskDirectory(e.dir);
  }

  // ---- the whole ----

  /** Nobody uses the number that the next page directory will get. */
  ghost predicate NewDirectory(file: PageFile, dir: nat)
    reads file, file.mem
  {
    && (forall v :: file.mem.Lookup(dir, v).None?)
    && (forall p | p in file.frames :: p.dir != dir)
    && (forall p | p in file.mem.blocks :: file.mem.blocks[p].owner != WorkingSet(dir))
  }

  /** The page tables that the mirror and the first stack page lie in, and the disk directory and table. */
  function CreationTables(file: PageFile, dir: nat, wsPages: nat): nat
    reads file, file.mem
  {
    var stack := TableEntry(dir, FIRST_STACK_PAGE);
    TablesOf(file.mem.directory, dir, MIRROR_PAGE, MIRROR_PAGE + wsPages)
    + (if stack in file.mem.directory || Spans(stack, dir, wsPages) then 0 else 1)
    + file.MissingTables(dir, FIRST_STACK_PAGE)
  }

  /** The kernel-heap pages that a new environment takes: the directory, the array and the tables. */
  function PagesToCreate(file: PageFile, maxSize: nat): nat
    reads file, file.mem
  {
    1 + WsPages(maxSize) + CreationTables(file, file.mem.heapTop, WsPages(maxSize))
  }

  /** They are there, and a frame more for the first stack page. */
  predicate RoomToCreate(file: PageFile, maxSize: nat)
    reads file, file.mem
  {
    var n := PagesToCreate(file, maxSize);
    file.mem.heapTop + n < file.mem.heapMax && n + 1 <= |file.mem.freeFrames|
  }

  /** The kernel-heap part: directory, array and mirror. */
  method PlantEnvironment(file: PageFile, maxSize: nat) returns (e: Env)
    requires SharedOk(file) && StoreOk(StoreOf(file)) && NewDirectory(file, file.mem.heapTop)
    requires 0 < maxSize && MIRROR_PAGE + WsPages(maxSize) <= FIRST_STACK_PAGE && RoomToCreate(file, maxSize)
    modifies file.mem`freeFrames, file.mem`references, file.mem`entries, file.mem`held, file.mem`litter,
             file.mem`heapTop
    modifies file.mem`records, file.mem`idx, file.mem`reverse, file.mem`blocks, file.mem`directory
    ensures fresh(e) && e.file == file && e.mem == file.mem && e.maxSize == maxSize && e.dir == old(file.mem.heapTop)
    ensures Starting(e) && e.ws == EmptySet(maxSize) && e.hand == 0 && e.flat == map[] && e.blank == {} && e.log == []
    ensures e.dir !in old(file.mem.blocks) && Mirrors(file.mem, e.dir, e.wsBlock, e.wsPages)
    ensures Isolated(e.dir, old(StoreOf(file)), e.CurrentStore())
    ensures !InMirror(FIRST_STACK_PAGE, e.wsPages) && file.mem.Lookup(e.dir, FIRST_STACK_PAGE).None?
    ensures var stack := TableEntry(e.dir, FIRST_STACK_PAGE);
            var t := (if stack in file.mem.directory then 0 else 1) + file.MissingTables(e.dir, FIRST_STACK_PAGE);
            && file.mem.heapTop + t == old(file.mem.heapTop + PagesToCreate(file, maxSize))
            && |file.mem.freeFrames| - t == |old(file.mem.freeFrames)| - old(PagesToCreate(file, maxSize))
  {
    hide StoreOk, Isolated, Translate, TablesOf, Spans, Mirrors, RunUnseen, BlocksKept, WsPages, PageFile.Valid;
    ghost var st := StoreOf(file);
    var dir := file.mem.heapTop;
    ArrayNotEmpty(maxSize);
    var page := AllocateRoot(file, 1, PageDirectory, dir);
    ghost var st1, blocks := StoreOf(file), file.mem.blocks;
    var wsBlock := AllocateRoot(file, WsPages(maxSize), WorkingSet(dir), dir);
    ghost var st2 := StoreOf(file);
    IsolatedTwice(dir, st, st1, st2);
    assert Planted(dir, wsBlock, WsPages(maxSize), file.mem.blocks);
    MapArray(file, dir, wsBlock, WsPages(maxSize));
    PlantedKept(dir, wsBlock, WsPages(maxSize), st2.blocks, file.mem.blocks);
    IsolatedTwice(dir, st, st2, StoreOf(file));
    e := new Env(file, dir, maxSize, wsBlock);
    GetIs(file);
    NothingYet(e);
  }

  lemma ArrayNotEmpty(maxSize: nat)
    ensures 0 < maxSize ==> 0 < WsPages(maxSize)
  {
  }

  lemma NothingYet(e: Env)
    requires e.mem == e.file.mem && e.wsPages == WsPages(e.maxSize) && SharedOk(e.file) && 0 < e.maxSize
    requires e.ws == EmptySet(e.maxSize) && e.hand == 0 && e.flat == map[] && e.blank == {}
    requires LogOk(e.ws, e.maxSize, e.log) && Planted(e.dir, e.wsBlock, e.wsPages, e.mem.blocks)
    requires StoreOk(e.CurrentStore())
    requires forall v :: e.mem.Lookup(e.dir, v).Some? <==> InMirror(v, e.wsPages)
    requires forall v | InMirror(v, e.wsPages) :: ReadOnly(e.mem.Lookup(e.dir, v).value)
    requires forall p | p in e.file.frames :: p.dir != e.dir
    ensures Starting(e)
  {
    hide PageFile.Valid, LogOk, WsPages, Translate, LostAlone;
    e.GetIsLookup();
  }

  /** The working set of a new environment. */
  function NewPager(maxSize: nat): Pager
    requires 0 < maxSize
  {
    Pager(EmptySet(maxSize)[0 := NewSlot(FIRST_STACK_PAGE)], 1 % maxSize, seq(maxSize, j => j == 0))
  }

  /** The fields of a new environment: its first slot holds the first stack page, which is zero. */
  ghost predicate JustCreated(e: Env)
    reads e, e.mem
  {
    && 0 < e.maxSize && e.CurrentPager() == NewPager(e.maxSize)
    && e.Believed() == FlatMemory(map[FIRST_STACK_PAGE := ZeroPage()], {})
  }

  lemma IsJustCreated(e: Env)
    requires 0 < e.maxSize && FirstUsed(e)
    requires e.ws == EmptySet(e.maxSize)[0 := NewSlot(FIRST_STACK_PAGE)] && e.hand == 1 % e.maxSize
    requires e.flat == map[FIRST_STACK_PAGE := ZeroPage()] && e.blank == {}
    ensures JustCreated(e) && InStack(FIRST_STACK_PAGE) && !InStack(FIRST_STACK_PAGE + 1)
    ensures e.flat.Keys == {FIRST_STACK_PAGE} && forall k | 0 <= k < PAGE_SIZE :: e.flat[FIRST_STACK_PAGE][k] == 0
  {
  }

  /** env_create without the segments: a new environment, whose only page is a zeroed stack page, and which
      owns its directory, its working-set array and its disk directory. No other environment notices. */
  method CreateEnvironment(file: PageFile, maxSize: nat) returns (e: Env)
    requires SharedOk(file) && StoreOk(StoreOf(file)) && NewDirectory(file, file.mem.heapTop)
    requires 0 < maxSize && MIRROR_PAGE + WsPages(maxSize) <= FIRST_STACK_PAGE && RoomToCreate(file, maxSize)
    modifies file`free, file`frames, file`directories, file`tables, file`disk
    modifies file.mem`freeFrames, file.mem`references, file.mem`entries, file.mem`held, file.mem`litter,
             file.mem`heapTop
    modifies file.mem`records, file.mem`idx, file.mem`reverse, file.mem`blocks, file.mem`directory, file.mem`ram
    ensures fresh(e) && e.file == file && e.mem == file.mem && e.maxSize == maxSize
    ensures e.dir == old(file.mem.heapTop) && e.dir !in old(file.mem.blocks)
    ensures JustCreated(e)
    ensures InStack(FIRST_STACK_PAGE) && !InStack(FIRST_STACK_PAGE + 1)
    ensures e.flat.Keys == {FIRST_STACK_PAGE} && forall k | 0 <= k < PAGE_SIZE :: e.flat[FIRST_STACK_PAGE][k] == 0
    ensures DiskFrameTaken(PageId(e.dir, FIRST_STACK_PAGE), true, old(file.free), old(file.frames),
                           file.free, file.frames)
    ensures Isolated(e.dir, old(StoreOf(file)), e.CurrentStore())
    ensures file.mem.heapTop == old(file.mem.heapTop + PagesToCreate(file, maxSize))
    ensures |file.mem.freeFrames| == |old(file.mem.freeFrames)| - old(PagesToCreate(file, maxSize)) - 1
    ensures e.wsBlock in e.mem.blocks && e.mem.blocks[e.wsBlock].index < |e.mem.records|
    ensures e.mem.records[e.mem.blocks[e.wsBlock].index] == Record(e.wsBlock, e.wsPages, false)
    ensures 12 * maxSize <= PAGE_SIZE * e.wsPages < 12 * maxSize + PAGE_SIZE
    ensures e.Valid()
  {
    hide Starting, StoreOk, Isolated, Translate, Mirrors, WsPages, ZeroPage, DiskFrameTaken, PagesToCreate;
    hide JustCreated, NewPager, InStack, FirstUsed, EmptySet;
    ghost var st := StoreOf(file);
    e := PlantEnvironment(file, maxSize);
    ghost var st1 := e.CurrentStore();
    MapStackPage(e);
    ghost var st2 := e.CurrentStore();
    IsolatedTwice(e.dir, st, st1, st2);
    BackStackPage(e);
    IsJustCreated(e);
    e.ArraySize();
    IsolatedTwice(e.dir, st, st2, e.CurrentStore());
  }
}
