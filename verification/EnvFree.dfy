/** env_free of user_environment.c: an exited environment gives back everything it holds. */
module EnvFree {
  import opened Common
  import opened FrameAccounting
  import opened KernelMemory
  import opened PageFile
  import opened AddressSpace
  import opened Replacement
  import opened Programs
  import opened Paging

  /** A directory entry through which the mirror of the working set is mapped. */
  predicate MirrorTable(index: nat, wsPages: nat) {
    MIRROR_PAGE <= index * PAGE_TABLE_ENTRIES < MIRROR_PAGE + wsPages
  }

  /** The lowest stack page shares a page table with the mirror: a program whose stack has grown that far
      exits with a frame lost. */
  lemma LeakReachable()
    ensures InStack(STACK_BOTTOM_PAGE) && SharesMirrorTable([NewSlot(STACK_BOTTOM_PAGE)], WsPages(1))
  {
    var ws := [NewSlot(STACK_BOTTOM_PAGE)];
    assert !ws[0].empty && MirrorTable(ws[0].page / PAGE_TABLE_ENTRIES, WsPages(1));
  }

  /** Some resident page shares a page table with the mirror of the working set. */
  predicate SharesMirrorTable(ws: seq<WsSlot>, wsPages: nat) {
    exists i :: 0 <= i < |ws| && !ws[i].empty && MirrorTable(ws[i].page / PAGE_TABLE_ENTRIES, wsPages)
  }

  predicate TableOf(owner: Owner, dir: nat) {
    owner.PageTable? && owner.pde.dir == dir
  }

  predicate InTables(d: Pde, dir: nat, lo: nat, hi: nat) {
    d.dir == dir && lo <= d.index < hi
  }

  /** unmap_frame on a page that may have no table. */
  method UnmapOne(mem: Memory, dir: nat, page: nat)
    requires mem.Valid()
    modifies mem`freeFrames, mem`references, mem`entries
    ensures mem.Valid()
    ensures mem.Lookup(dir, page).None?
    ensures forall d, v | !(d == dir && v == page) :: mem.Lookup(d, v) == old(mem.Lookup(d, v))
    ensures forall s | s in old(mem.entries) && !s.TableSlot? :: s in mem.entries
    ensures Shrunk(old(mem.entries), mem.entries)
  {
    hide Memory.Valid, Translate;
    mem.MappedHasTable(dir, page);
    mem.UnmapFrame(dir, page);
  }

  /** The first loop of __remove_pws_user_pages: the mirror pages are unmapped. */
  method UnmapMirror(e: Env)
    requires e.mem.Valid()
    modifies e.mem`freeFrames, e.mem`references, e.mem`entries
    ensures e.mem.Valid()
    ensures forall v :: e.mem.Lookup(e.dir, v) == if InMirror(v, e.wsPages) then None else old(e.mem.Lookup(e.dir, v))
    ensures forall d, v | d != e.dir :: e.mem.Lookup(d, v) == old(e.mem.Lookup(d, v))
    ensures forall s | s in old(e.mem.entries) && !s.TableSlot? :: s in e.mem.entries
    ensures Shrunk(old(e.mem.entries), e.mem.entries)
  {
    hide Memory.Valid, Translate;
    for k := 0 to e.wsPages
      invariant e.mem.Valid()
      invariant forall v :: e.mem.Lookup(e.dir, v) == if InMirror(v, k) then None else old(e.mem.Lookup(e.dir, v))
      invariant forall d, v | d != e.dir :: e.mem.Lookup(d, v) == old(e.mem.Lookup(d, v))
      invariant forall s | s in old(e.mem.entries) && !s.TableSlot? :: s in e.mem.entries
      invariant Shrunk(old(e.mem.entries), e.mem.entries)
    {
      UnmapOne(e.mem, e.dir, MIRROR_PAGE + k);
    }
  }

  /** Nothing is mapped through a directory entry that is empty. */
  lemma NoTableNoPages(mem: Memory, d: Pde)
    requires d !in mem.directory
    ensures forall d', v | TableEntry(d', v) == d :: mem.Lookup(d', v) == None
  {
  }

  /** Frees the table behind a directory entry, if there is one, whatever it still maps. */
  method DropEntry(mem: Memory, d: Pde)
    requires mem.Valid()
    modifies mem`freeFrames, mem`references, mem`entries, mem`records, mem`reverse, mem`blocks, mem`directory, mem`lost
    ensures mem.Valid()
    ensures mem.directory.Keys == old(mem.directory.Keys) - {d}
    ensures forall d', v :: mem.Lookup(d', v) == if TableEntry(d', v) == d then None else old(mem.Lookup(d', v))
    ensures mem.lost == old(mem.lost) <==> forall v | TableEntry(d.dir, v) == d :: old(mem.Lookup(d.dir, v)).None?
    ensures LostKept(old(mem.entries), mem.entries) && old(mem.lost) <= mem.lost
    ensures LostFrom(old(mem.entries), old(mem.directory), d.dir, old(mem.lost), mem.entries, mem.lost)
    ensures mem.blocks.Keys <= old(mem.blocks.Keys)
    ensures forall p | p in old(mem.blocks) && old(mem.blocks)[p].owner != PageTable(d) :: p in mem.blocks
    ensures Kept(old(mem.reverse), old(mem.blocks), mem.reverse, mem.blocks)
    ensures HeapShrunk(old(mem.entries), mem.entries)
            && (ScratchSlot in mem.entries <==> ScratchSlot in old(mem.entries))
  {
    hide Memory.Valid, Kept, Translate, LostFrom, LostKept, HeapShrunk;
    KeptRefl(mem.reverse, mem.blocks);
    HeapShrunkRefl(mem.entries);
    LostNone(mem.entries, mem.directory, d.dir, mem.lost);
    if d in mem.directory {
      mem.DropTable(d);
    } else {
      NoTableNoPages(mem, d);
    }
  }

  /** The loops of __remove_pws_user_pages and env_free over page tables. */
  method DropTables(mem: Memory, dir: nat, lo: nat, hi: nat)
    requires mem.Valid() && lo <= hi
    modifies mem`freeFrames, mem`references, mem`entries, mem`records, mem`reverse, mem`blocks, mem`directory, mem`lost
    ensures mem.Valid()
    ensures forall d :: d in mem.directory <==> d in old(mem.directory) && !InTables(d, dir, lo, hi)
    ensures forall d, v ::
              mem.Lookup(d, v) == if InTables(TableEntry(d, v), dir, lo, hi) then None else old(mem.Lookup(d, v))
    ensures mem.lost == old(mem.lost)
            <==> forall v | InTables(TableEntry(dir, v), dir, lo, hi) :: old(mem.Lookup(dir, v)).None?
    ensures LostKept(old(mem.entries), mem.entries) && old(mem.lost) <= mem.lost
    ensures LostFrom(old(mem.entries), old(mem.directory), dir, old(mem.lost), mem.entries, mem.lost)
    ensures HeapShrank(old(mem.Snapshot()), mem.Snapshot())
    ensures forall p | p in old(mem.blocks) && !TableOf(old(mem.blocks)[p].owner, dir) :: p in mem.blocks
    ensures ScratchSlot in mem.entries <==> ScratchSlot in old(mem.entries)
  {
    hide Memory.Valid, Kept, Translate, LostFrom, LostKept, HeapShrunk, HeapShrank;
    ghost var v := mem.Snapshot();
    HeapShrankRefl(v);
    LostNone(mem.entries, mem.directory, dir, mem.lost);
    for i := lo to hi
      invariant mem.Valid()
      invariant forall d :: d in mem.directory <==> d in old(mem.directory) && !InTables(d, dir, lo, i)
      invariant forall d, v ::
                  mem.Lookup(d, v) == if InTables(TableEntry(d, v), dir, lo, i) then None else old(mem.Lookup(d, v))
      invariant mem.lost == old(mem.lost)
                <==> forall v | InTables(TableEntry(dir, v), dir, lo, i) :: old(mem.Lookup(dir, v)).None?
      invariant LostKept(old(mem.entries), mem.entries) && old(mem.lost) <= mem.lost
      invariant LostFrom(old(mem.entries), old(mem.directory), dir, old(mem.lost), mem.entries, mem.lost)
      invariant HeapShrank(v, mem.Snapshot())
      invariant forall p | p in old(mem.blocks) && !TableOf(old(mem.blocks)[p].owner, dir) :: p in mem.blocks
      invariant ScratchSlot in mem.entries <==> ScratchSlot in old(mem.entries)
    {
      ghost var v', lost := mem.Snapshot(), mem.lost;
      HeapShrankBlocks(v, v');
      forall page, f | Maps(mem.entries, mem.directory, dir, page, f)
        ensures Maps(v.entries, v.directory, dir, page, f)
      {
        assert mem.Lookup(dir, page) == Translate(mem.entries, mem.directory, dir, page);
        assert old(mem.Lookup(dir, page)) == Translate(v.entries, v.directory, dir, page);
      }
      DropEntry(mem, Pde(dir, i));
      ShrankFrom(v', mem.Snapshot());
      HeapShrankTwice(v, v', mem.Snapshot());
      LostTwice(old(mem.entries), old(mem.directory), dir, old(mem.lost), v'.entries, v'.directory, lost,
                mem.entries, mem.lost);
    }
  }

  lemma HeapShrankRefl(v: View)
    ensures HeapShrank(v, v)
  {
  }

  lemma ShrankFrom(v: View, v': View)
    requires v'.blocks.Keys <= v.blocks.Keys && Kept(v.reverse, v.blocks, v'.reverse, v'.blocks)
    requires HeapShrunk(v.entries, v'.entries)
    ensures HeapShrank(v, v')
  {
  }

  /** Step 1 of env_free: the pages of the working set are unmapped. */
  method UnmapWorkingSet(e: Env)
    requires e.mem.Valid()
    modifies e.mem`freeFrames, e.mem`references, e.mem`entries
    ensures e.mem.Valid()
    ensures forall v :: e.mem.Lookup(e.dir, v) == if InWs(e.ws, v) then None else old(e.mem.Lookup(e.dir, v))
    ensures forall d, v | d != e.dir :: e.mem.Lookup(d, v) == old(e.mem.Lookup(d, v))
    ensures forall s | s in old(e.mem.entries) && !s.TableSlot? :: s in e.mem.entries
    ensures Shrunk(old(e.mem.entries), e.mem.entries)
  {
    hide Memory.Valid, Translate;
    for i := 0 to |e.ws|
      invariant e.mem.Valid()
      invariant forall v :: e.mem.Lookup(e.dir, v) == if InWs(e.ws[..i], v) then None else old(e.mem.Lookup(e.dir, v))
      invariant forall d, v | d != e.dir :: e.mem.Lookup(d, v) == old(e.mem.Lookup(d, v))
      invariant forall s | s in old(e.mem.entries) && !s.TableSlot? :: s in e.mem.entries
      invariant Shrunk(old(e.mem.entries), e.mem.entries)
    {
      InWsNext(e.ws, i);
      if !e.ws[i].empty {
        UnmapOne(e.mem, e.dir, e.ws[i].page);
      }
    }
    assert e.ws[..|e.ws|] == e.ws;
  }

  lemma InWsNext(ws: seq<WsSlot>, i: nat)
    requires i < |ws|
    ensures forall v :: InWs(ws[..i + 1], v) <==> InWs(ws[..i], v) || (!ws[i].empty && ws[i].page == v)
  {
    forall v
      ensures InWs(ws[..i + 1], v) <==> InWs(ws[..i], v) || (!ws[i].empty && ws[i].page == v)
    {
      if InWs(ws[..i], v) {
        var j :| 0 <= j < i && !ws[..i][j].empty && ws[..i][j].page == v;
        assert ws[..i + 1][j] == ws[j];
      }
      if !ws[i].empty && ws[i].page == v {
        assert ws[..i + 1][i] == ws[i];
      }
    }
  }

  /** A page of the program outside the mirror was mapped to the frame. */
  ghost predicate WasProgramFrame(dir: nat, wsPages: nat, st: Store, f: nat) {
    exists v :: !InMirror(v, wsPages) && st.Get(dir, v).Some? && st.Get(dir, v).value.frame == f
  }

  /** The words lost before keep their frames, and each one lost since held a frame of the program. */
  ghost predicate LostPages(dir: nat, wsPages: nat, st: Store, lost: nat, entries': map<Slot, Entry>, lost': nat) {
    && LostKept(st.entries, entries') && lost <= lost'
    && forall k: nat {:trigger LostSlot(k)} | lost <= k < lost' ::
         LostSlot(k) in entries' && WasProgramFrame(dir, wsPages, st, entries'[LostSlot(k)].frame)
  }

  /** Later steps that lose nothing. */
  lemma LostPagesStay(
    dir: nat, wsPages: nat, st: Store, lost: nat, entries': map<Slot, Entry>, lost': nat, entries'': map<Slot, Entry>)
    requires LostPages(dir, wsPages, st, lost, entries', lost') && LostKept(entries', entries'')
    ensures LostPages(dir, wsPages, st, lost, entries'', lost')
  {
    hide WasProgramFrame;
  }

  /** What the mirror's tables take with them. */
  lemma LostWithMirror(
    dir: nat, wsPages: nat, st: Store, entries: map<Slot, Entry>, directory: map<Pde, nat>, lost: nat,
    entries': map<Slot, Entry>, lost': nat)
    requires LostKept(st.entries, entries) && LostKept(entries, entries') && lost <= lost'
    requires LostFrom(entries, directory, dir, lost, entries', lost')
    requires forall v :: Translate(entries, directory, dir, v) == if InMirror(v, wsPages) then None else st.Get(dir, v)
    ensures LostPages(dir, wsPages, st, lost, entries', lost')
  {
    hide Translate, Store.Get, InMirror;
    forall k: nat {:trigger LostSlot(k)} | lost <= k < lost'
      ensures LostSlot(k) in entries' && WasProgramFrame(dir, wsPages, st, entries'[LostSlot(k)].frame)
    {
      assert MappedBy(entries, directory, dir, entries'[LostSlot(k)].frame);
      var v: nat :| Maps(entries, directory, dir, v, entries'[LostSlot(k)].frame);
      assert !InMirror(v, wsPages) && st.Get(dir, v).Some?;
    }
  }

  lemma KeepsLost(entries: map<Slot, Entry>, entries': map<Slot, Entry>)
    requires forall s | s in entries && !s.TableSlot? :: s in entries'
    requires Shrunk(entries, entries')
    ensures LostKept(entries, entries') && HeapShrunk(entries, entries')
    ensures ScratchSlot in entries' <==> ScratchSlot in entries
  {
  }

  /** Which resident pages share a table with the mirror, in terms of the page tables. */
  lemma SharesMeans(ws: seq<WsSlot>, dir: nat, wsPages: nat, st: Store)
    requires ResidentOk(ws, dir, wsPages, st)
    ensures var lo := MIRROR_PAGE / PAGE_TABLE_ENTRIES;
            var hi := (MIRROR_PAGE + wsPages + PAGE_TABLE_ENTRIES - 1) / PAGE_TABLE_ENTRIES;
            SharesMirrorTable(ws, wsPages)
            <==> exists v :: InTables(TableEntry(dir, v), dir, lo, hi) && !InMirror(v, wsPages) && st.Get(dir, v).Some?
  {
    hide Translate, Store.Get, PrivateOk;
    var lo := MIRROR_PAGE / PAGE_TABLE_ENTRIES;
    var hi := (MIRROR_PAGE + wsPages + PAGE_TABLE_ENTRIES - 1) / PAGE_TABLE_ENTRIES;
    if SharesMirrorTable(ws, wsPages) {
      var i :| 0 <= i < |ws| && !ws[i].empty && MirrorTable(ws[i].page / PAGE_TABLE_ENTRIES, wsPages);
      var v := ws[i].page;
      assert InTables(TableEntry(dir, v), dir, lo, hi) && !InMirror(v, wsPages) && st.Get(dir, v).Some?;
    }
    if v :| InTables(TableEntry(dir, v), dir, lo, hi) && !InMirror(v, wsPages) && st.Get(dir, v).Some? {
      var i :| 0 <= i < |ws| && !ws[i].empty && ws[i].page == v;
      assert MirrorTable(ws[i].page / PAGE_TABLE_ENTRIES, wsPages);
    }
  }

  /** __remove_pws_user_pages */
  method RemoveMirror(e: Env)
    requires e.Valid()
    modifies e.mem`freeFrames, e.mem`references, e.mem`entries, e.mem`records, e.mem`reverse, e.mem`blocks
    modifies e.mem`directory, e.mem`lost
    ensures e.mem.Valid() && ScratchSlot !in e.mem.entries
    ensures LostPages(e.dir, e.wsPages, old(e.CurrentStore()), old(e.mem.lost), e.mem.entries, e.mem.lost)
    ensures e.mem.lost == old(e.mem.lost) <==> !SharesMirrorTable(e.ws, e.wsPages)
    ensures forall v | e.mem.Lookup(e.dir, v).Some? :: InWs(e.ws, v)
    ensures forall d, v | d != e.dir :: e.mem.Lookup(d, v) == old(e.mem.Lookup(d, v))
    ensures forall p | p in old(e.mem.blocks) && !TableOf(old(e.mem.blocks)[p].owner, e.dir) :: p in e.mem.blocks
    ensures HeapShrank(old(e.mem.Snapshot()), e.mem.Snapshot())
  {
    hide Memory.Valid, OwnershipOk, DiskTablesOk, StoreOk, FlatOk, Rooted, LogOk, Kept, Translate, LostKept, LostFrom;
    hide HeapShrank, SharesMirrorTable, LostPages, PrivateOk, WsPages, HeapShrunk;
    e.GetIsLookup();
    ghost var v, st, lost := e.mem.Snapshot(), e.CurrentStore(), e.mem.lost;
    SharesMeans(e.ws, e.dir, e.wsPages, st);
    UnmapMirror(e);
    ghost var v' := e.mem.Snapshot();
    KeepsLost(v.entries, v'.entries);
    KeptRefl(v.reverse, v.blocks);
    ShrankFrom(v, v');
    var lo := MIRROR_PAGE / PAGE_TABLE_ENTRIES;
    var hi := (MIRROR_PAGE + e.wsPages + PAGE_TABLE_ENTRIES - 1) / PAGE_TABLE_ENTRIES;
    DropTables(e.mem, e.dir, lo, hi);
    HeapShrankTwice(v, v', e.mem.Snapshot());
    LostWithMirror(e.dir, e.wsPages, st, v'.entries, v'.directory, lost, e.mem.entries, e.mem.lost);
  }

  /** __remove_pws_user_pages and steps 1 and 2 of env_free. */
  method FreeWorkingSet(e: Env)
    requires e.Valid()
    modifies e.mem`freeFrames, e.mem`references, e.mem`entries, e.mem`records, e.mem`reverse, e.mem`blocks
    modifies e.mem`directory, e.mem`lost
    ensures e.mem.Valid() && ScratchSlot !in e.mem.entries
    ensures LostPages(e.dir, e.wsPages, old(e.CurrentStore()), old(e.mem.lost), e.mem.entries, e.mem.lost)
    ensures e.mem.lost == old(e.mem.lost) <==> !SharesMirrorTable(e.ws, e.wsPages)
    ensures forall v :: e.mem.Lookup(e.dir, v).None?
    ensures forall d, v | d != e.dir :: e.mem.Lookup(d, v) == old(e.mem.Lookup(d, v))
    ensures HeapShrank(old(e.mem.Snapshot()), e.mem.Snapshot())
    ensures forall p | p in old(e.mem.blocks) && !TableOf(old(e.mem.blocks)[p].owner, e.dir) && p != e.wsBlock ::
              p in e.mem.blocks
    ensures e.wsBlock !in e.mem.blocks
  {
    hide Memory.Valid, PageFile.Valid, StoreOk, ResidentOk, FlatOk, LogOk, Kept, Translate, SharesMirrorTable;
    hide HeapShrank, LostPages, LostKept, HeapShrunk, WsPages;
    ghost var v, st, lost := e.mem.Snapshot(), e.CurrentStore(), e.mem.lost;
    RemoveMirror(e);
    ghost var v' := e.mem.Snapshot();
    HeapShrankBlocks(v, v');
    UnmapWorkingSet(e);
    ghost var v'' := e.mem.Snapshot();
    KeepsLost(v'.entries, v''.entries);
    LostPagesStay(e.dir, e.wsPages, st, lost, v'.entries, e.mem.lost, v''.entries);
    KeptRefl(v''.reverse, v''.blocks);
    ShrankFrom(v', v'');
    HeapShrankTwice(v, v', v'');
    FreeBlock(e.mem, e.wsBlock);
    LostPagesStay(e.dir, e.wsPages, st, lost, v''.entries, e.mem.lost, e.mem.entries);
    HeapShrankTwice(v, v'', e.mem.Snapshot());
  }

  method FreeBlock(mem: Memory, page: nat)
    requires mem.Valid() && page in mem.blocks && !mem.blocks[page].owner.PageTable?
    modifies mem`freeFrames, mem`references, mem`entries, mem`records, mem`reverse, mem`blocks
    ensures mem.Valid()
    ensures mem.blocks == old(mem.blocks) - {page}
    ensures LostKept(old(mem.entries), mem.entries) && (ScratchSlot in mem.entries <==> ScratchSlot in old(mem.entries))
    ensures HeapShrank(old(mem.Snapshot()), mem.Snapshot())
    ensures forall d, v :: mem.Lookup(d, v) == old(mem.Lookup(d, v))
  {
    hide Memory.Valid, Kept, Translate;
    mem.KfreeOther(page);
  }

  /** Steps 3 and 4 of env_free. */
  method FreeTables(e: Env)
    requires e.mem.Valid()
    requires forall v :: e.mem.Lookup(e.dir, v).None?
    requires e.dir in e.mem.blocks && e.mem.blocks[e.dir].owner == PageDirectory
    modifies e.mem`freeFrames, e.mem`references, e.mem`entries, e.mem`records, e.mem`reverse, e.mem`blocks
    modifies e.mem`directory, e.mem`lost
    ensures e.mem.Valid()
    ensures ScratchSlot in e.mem.entries <==> ScratchSlot in old(e.mem.entries)
    ensures e.mem.lost == old(e.mem.lost) && LostKept(old(e.mem.entries), e.mem.entries)
    ensures forall d, v :: e.mem.Lookup(d, v) == old(e.mem.Lookup(d, v))
    ensures HeapShrank(old(e.mem.Snapshot()), e.mem.Snapshot())
    ensures forall p | p in e.mem.blocks :: p != e.dir && !TableOf(e.mem.blocks[p].owner, e.dir)
    ensures forall p | p in old(e.mem.blocks) && !TableOf(old(e.mem.blocks)[p].owner, e.dir) && p != e.dir ::
              p in e.mem.blocks
  {
    hide Memory.Valid, Kept, HeapShrank, Translate, LostKept, LostFrom;
    ghost var v := e.mem.Snapshot();
    DropTables(e.mem, e.dir, 0, USER_TABLES);
    ghost var v' := e.mem.Snapshot();
    HeapShrankBlocks(v, v');
    e.mem.NoTablesLeft(e.dir);
    FreeBlock(e.mem, e.dir);
    LostKeptTwice(v.entries, v'.entries, e.mem.entries);
    HeapShrankTwice(v, v', e.mem.Snapshot());
    HeapShrankBlocks(v', e.mem.Snapshot());
  }

  lemma LostKeptTwice(entries: map<Slot, Entry>, entries': map<Slot, Entry>, entries'': map<Slot, Entry>)
    requires LostKept(entries, entries') && LostKept(entries', entries'')
    ensures LostKept(entries, entries'')
  {
  }

  /** The steps of env_free before pf_free_env. */
  method FreeMemory(e: Env)
    requires e.Valid()
    modifies e.mem`freeFrames, e.mem`references, e.mem`entries, e.mem`records, e.mem`reverse, e.mem`blocks
    modifies e.mem`directory, e.mem`lost
    ensures e.file.Valid() && ScratchSlot !in e.mem.entries
    ensures LostPages(e.dir, e.wsPages, old(e.CurrentStore()), old(e.mem.lost), e.mem.entries, e.mem.lost)
    ensures e.mem.lost == old(e.mem.lost) <==> !SharesMirrorTable(e.ws, e.wsPages)
    ensures forall v :: e.mem.Lookup(e.dir, v).None?
    ensures forall d, v | d != e.dir :: e.mem.Lookup(d, v) == old(e.mem.Lookup(d, v))
    ensures HeapShrank(old(e.mem.Snapshot()), e.mem.Snapshot())
    ensures forall p | p in e.mem.blocks && OwnedBy(p, e.mem.blocks[p].owner, e.dir) :: ForDisk(e.mem.blocks[p].owner)
    ensures forall p | p in old(e.mem.blocks)
                       && (ForDisk(old(e.mem.blocks)[p].owner) || !OwnedBy(p, old(e.mem.blocks)[p].owner, e.dir)) ::
              p in e.mem.blocks
  {
    hide Memory.Valid, OwnershipOk, DiskTablesOk, StoreOk, ResidentOk, FlatOk, LogOk, Kept, HeapShrank, Translate;
    hide SharesMirrorTable, LostPages, LostKept, WsPages;
    ghost var v, st, lost := e.mem.Snapshot(), e.CurrentStore(), e.mem.lost;
    FreeWorkingSet(e);
    ghost var v' := e.mem.Snapshot();
    HeapShrankBlocks(v, v');
    FreeTables(e);
    LostPagesStay(e.dir, e.wsPages, st, lost, v'.entries, e.mem.lost, e.mem.entries);
    HeapShrankBlocks(v', e.mem.Snapshot());
    HeapShrankTwice(v, v', e.mem.Snapshot());
    DiskTablesShrank(e.file.directories, e.file.tables, e.file.frames, v, e.mem.Snapshot());
  }

  lemma DiskTablesShrank(
    directories: map<nat, nat>, tables: map<Pde, nat>, frames: map<PageId, nat>, v: View, v': View)
    requires DiskTablesOk(directories, tables, frames, v.reverse, v.blocks)
    requires HeapShrank(v, v')
    requires forall p | p in v.blocks && ForDisk(v.blocks[p].owner) :: p in v'.blocks
    ensures DiskTablesOk(directories, tables, frames, v'.reverse, v'.blocks)
  {
    hide DiskTablesOk;
    DiskTablesKept(directories, tables, frames, v.reverse, v.blocks, v'.reverse, v'.blocks);
  }

  /** pf_free_env, after which no kernel-heap block of the environment is left. */
  method FreeDisk(e: Env)
    requires e.file.Valid() && e.mem == e.file.mem && e.dir in e.file.directories
    requires forall p | p in e.mem.blocks && OwnedBy(p, e.mem.blocks[p].owner, e.dir) :: ForDisk(e.mem.blocks[p].owner)
    modifies e.file`free, e.file`frames, e.file`tables, e.file`directories
    modifies e.mem`freeFrames, e.mem`references, e.mem`entries, e.mem`records, e.mem`reverse, e.mem`blocks
    ensures e.file.Valid()
    ensures e.file.frames == map p | p in old(e.file.frames) && p.dir != e.dir :: old(e.file.frames)[p]
    ensures forall p | p in e.mem.blocks :: !OwnedBy(p, e.mem.blocks[p].owner, e.dir)
    ensures forall p | p in old(e.mem.blocks) && !OwnedBy(p, old(e.mem.blocks)[p].owner, e.dir) :: p in e.mem.blocks
    ensures forall p | p in e.mem.blocks :: p in old(e.mem.blocks) && e.mem.blocks[p] == old(e.mem.blocks)[p]
    ensures HeapShrunk(old(e.mem.entries), e.mem.entries) && LostKept(old(e.mem.entries), e.mem.entries)
    ensures ScratchSlot in e.mem.entries <==> ScratchSlot in old(e.mem.entries)
    ensures forall d, v :: e.mem.Lookup(d, v) == old(e.mem.Lookup(d, v))
  {
    hide PageFile.Valid, Kept, Translate, HeapShrunk;
    ghost var v := e.mem.Snapshot();
    e.file.FreeEnv(e.dir);
    KeptBlocks(v.reverse, v.blocks, e.mem.reverse, e.mem.blocks);
  }

  // ---- what is left afterwards ----

  /** The frame backs a page of a live kernel-heap block that does not belong to environment `dir`. */
  ghost predicate BacksOther(mem: Memory, dir: nat, f: nat)
    reads mem
  {
    exists p: nat, h: nat ::
      && HeapSlot(p) in mem.entries && mem.entries[HeapSlot(p)].frame == f
      && h in mem.blocks && InBlock(mem, p, h) && !OwnedBy(h, mem.blocks[h].owner, dir)
  }

  /** Page `p` lies in the live block that starts at `h`. */
  ghost predicate InBlock(mem: Memory, p: nat, h: nat)
    requires h in mem.blocks
    reads mem
  {
    mem.blocks[h].index < |mem.records| && h <= p < h + mem.records[mem.blocks[h].index].size
  }

  /** The frame is mapped at a page of an environment other than `dir`. */
  ghost predicate MappedElsewhere(mem: Memory, dir: nat, f: nat)
    reads mem
  {
    exists d, v :: d != dir && mem.MapsTo(d, v, f)
  }

  /** The frame is free, or of use to the kernel or to another environment. */
  ghost predicate Returned(mem: Memory, dir: nat, f: nat)
    reads mem
  {
    f in mem.freeFrames || BacksOther(mem, dir, f) || MappedElsewhere(mem, dir, f)
  }

  /** The frame is one of a lost word. */
  ghost predicate IsLost(entries: map<Slot, Entry>, f: nat) {
    exists k: nat :: LostSlot(k) in entries && entries[LostSlot(k)].frame == f
  }

  /** When an environment maps nothing and owns nothing, a frame that is not lost has been returned. */
  lemma FramesReturned(mem: Memory, dir: nat, f: nat)
    requires mem.Valid() && mem.held == {} && ScratchSlot !in mem.entries
    requires forall v :: mem.Lookup(dir, v).None?
    requires forall h | h in mem.blocks :: !OwnedBy(h, mem.blocks[h].owner, dir)
    requires f in mem.usable
    ensures Returned(mem, dir, f) || IsLost(mem.entries, f)
  {
    hide Memory.Valid;
    if p: nat :| HeapSlot(p) in mem.entries && mem.entries[HeapSlot(p)].frame == f {
      var h := mem.HeapPageOwner(p);
      assert InBlock(mem, p, h);
    } else if f !in mem.freeFrames && !IsLost(mem.entries, f) {
      mem.NoFrameLost(f);
      var d, v :| mem.Lookup(d, v).Some? && mem.Lookup(d, v).value.frame == f;
      assert d != dir && mem.MapsTo(d, v, f);
    }
  }

  /** A lost frame is nobody's: it is not free and neither the kernel heap nor any environment uses it. */
  lemma LostForGood(mem: Memory, st: Store, dir: nat, k: nat)
    requires mem.Valid() && k < mem.lost
    requires st.entries == mem.entries && st.directory == mem.directory && LostAlone(st)
    ensures LostSlot(k) in mem.entries && mem.entries[LostSlot(k)].frame in mem.usable
    ensures !Returned(mem, dir, mem.entries[LostSlot(k)].frame)
  {
    mem.LostFrame(k);
    assert mem.Lookup(0, 0) == st.Get(0, 0);
    mem.LostUsable(k);
    hide Memory.Valid, Translate;
    var f := mem.entries[LostSlot(k)].frame;
    assert Unseen(st, f) && NotHeap(st, f);
    forall d, v
      ensures !mem.MapsTo(d, v, f)
    {
      assert st.Get(d, v) == mem.Lookup(d, v);
    }
  }

  /** The frames of an environment that is gone are lost exactly when new words were. */
  lemma LostOrReturned(mem: Memory, dir: nat, wsPages: nat, st: Store, lost: nat, st': Store)
    requires mem.Valid() && mem.held == {} && ScratchSlot !in mem.entries
    requires st'.entries == mem.entries && st'.directory == mem.directory && LostAlone(st') && LostAlone(st)
    requires forall k: nat {:trigger LostSlot(k)} :: LostSlot(k) in st.entries <==> k < lost
    requires LostPages(dir, wsPages, st, lost, mem.entries, mem.lost)
    requires forall v :: mem.Lookup(dir, v).None?
    requires forall h | h in mem.blocks :: !OwnedBy(h, mem.blocks[h].owner, dir)
    ensures mem.lost == lost
            <==> forall f | f in mem.usable :: Returned(mem, dir, f) || IsLost(st.entries, f)
  {
    mem.LostCounted();
    hide Memory.Valid, Translate, Returned, WasProgramFrame;
    if mem.lost == lost {
      forall f | f in mem.usable
        ensures Returned(mem, dir, f) || IsLost(st.entries, f)
      {
        FramesReturned(mem, dir, f);
        if IsLost(mem.entries, f) {
          var k: nat :| LostSlot(k) in mem.entries && mem.entries[LostSlot(k)].frame == f;
          assert LostSlot(k) in st.entries && st.entries[LostSlot(k)].frame == f;
        }
      }
    } else {
      LostForGood(mem, st', dir, lost);
      var f := mem.entries[LostSlot(lost)].frame;
      assert WasProgramFrame(dir, wsPages, st, f);
      NotLostBefore(dir, wsPages, st, f);
      assert f in mem.usable && !Returned(mem, dir, f) && !IsLost(st.entries, f);
    }
  }

  lemma NotLostBefore(dir: nat, wsPages: nat, st: Store, f: nat)
    requires LostAlone(st) && WasProgramFrame(dir, wsPages, st, f)
    ensures !IsLost(st.entries, f)
  {
    hide Translate, Store.Get;
    forall k: nat {:trigger LostSlot(k)} | LostSlot(k) in st.entries
      ensures st.entries[LostSlot(k)].frame != f
    {
      assert Unseen(st, st.entries[LostSlot(k)].frame);
    }
  }

  /** Taking away an environment's pages, and heap pages, leaves the others alone, and lost frames are lost to
      everyone. */
  lemma AfterFree(dir: nat, wsPages: nat, st: Store, lost: nat, st': Store, lost': nat)
    requires StoreOk(st) && PrivateOk(dir, wsPages, st)
    requires forall d, p :: st'.Get(d, p) == if d == dir then None else st.Get(d, p)
    requires st'.ram == st.ram && st'.disk == st.disk && HeapShrunk(st.entries, st'.entries)
    requires st'.frames == map p | p in st.frames && p.dir != dir :: st.frames[p]
    requires LostPages(dir, wsPages, st, lost, st'.entries, lost')
    requires forall k: nat {:trigger LostSlot(k)} :: LostSlot(k) in st.entries <==> k < lost
    requires forall k: nat {:trigger LostSlot(k)} :: LostSlot(k) in st'.entries <==> k < lost'
    ensures StoreOk(st')
  {
    hide Translate, Store.Get;
    forall k: nat {:trigger LostSlot(k)} | LostSlot(k) in st'.entries
      ensures Unseen(st', st'.entries[LostSlot(k)].frame) && NotHeap(st', st'.entries[LostSlot(k)].frame)
    {
      var f := st'.entries[LostSlot(k)].frame;
      if k < lost {
        assert LostSlot(k) in st.entries && Unseen(st, f) && NotHeap(st, f);
      } else {
        assert WasProgramFrame(dir, wsPages, st, f);
        var v :| !InMirror(v, wsPages) && st.Get(dir, v).Some? && st.Get(dir, v).value.frame == f;
      }
    }
  }

  lemma IsolatedAfterFree(dir: nat, st: Store, st': Store)
    requires forall d, p | d != dir :: st.Get(d, p) == st'.Get(d, p)
    requires st'.ram == st.ram && st'.disk == st.disk && HeapShrunk(st.entries, st'.entries)
    requires st'.frames == map p | p in st.frames && p.dir != dir :: st.frames[p]
    requires forall p | p in st.blocks && !OwnedBy(p, st.blocks[p].owner, dir) :: p in st'.blocks
    requires forall p | p in st'.blocks :: p in st.blocks && st'.blocks[p] == st.blocks[p]
    ensures Isolated(dir, st, st')
  {
    hide Translate, Store.Get;
  }

  lemma EnvParts(e: Env)
    requires e.Valid()
    ensures e.mem == e.file.mem && e.mem.held == {} && ScratchSlot !in e.mem.entries && e.file.Valid()
    ensures StoreOk(e.CurrentStore()) && PrivateOk(e.dir, e.wsPages, e.CurrentStore()) && LostAlone(e.CurrentStore())
    ensures e.dir in e.file.directories
    ensures forall k: nat {:trigger LostSlot(k)} :: LostSlot(k) in e.mem.entries <==> k < e.mem.lost
  {
    e.HasDirectory();
    e.mem.LostCounted();
  }

  /** env_free: every page, table, working-set block, directory, disk frame and disk table of the
      environment goes back and no other environment is affected. Nothing is lost exactly when no
      resident page shares a page table with the mirror of the working set: exactly then every usable frame,
      unless it was lost before, is free, or backs a live kernel-heap block of another owner, or is mapped by
      another environment. */
  method EnvFree(e: Env)
    requires e.Valid()
    modifies e.file`free, e.file`frames, e.file`tables, e.file`directories
    modifies e.mem`freeFrames, e.mem`references, e.mem`entries, e.mem`records, e.mem`reverse, e.mem`blocks
    modifies e.mem`directory, e.mem`lost
    ensures e.file.Valid() && e.mem.held == {} && ScratchSlot !in e.mem.entries && StoreOk(e.CurrentStore())
    ensures (forall f | f in e.mem.usable :: Returned(e.mem, e.dir, f) || IsLost(old(e.mem.entries), f))
            <==> !SharesMirrorTable(e.ws, e.wsPages)
    ensures forall v :: e.mem.Lookup(e.dir, v).None?
    ensures forall p | p in e.mem.blocks :: !OwnedBy(p, e.mem.blocks[p].owner, e.dir)
    ensures forall p | p in old(e.mem.blocks) && !OwnedBy(p, old(e.mem.blocks)[p].owner, e.dir) :: p in e.mem.blocks
    ensures e.file.frames == map p | p in old(e.file.frames) && p.dir != e.dir :: old(e.file.frames)[p]
    ensures Isolated(e.dir, old(e.CurrentStore()), e.CurrentStore())
  {
    hide Env.Valid, Kept, HeapShrank, SharesMirrorTable, Translate, Memory.Valid, PageFile.Valid, Isolated, HeapShrunk;
    hide OwnedBy, ForDisk, StoreOk, PrivateOk, LostAlone, LostKept, LostPages, Returned, IsLost;
    EnvParts(e);
    e.GetIsLookup();
    ghost var v, st, lost := e.mem.Snapshot(), e.CurrentStore(), e.mem.lost;
    FreeMemory(e);
    ghost var v' := e.mem.Snapshot();
    HeapShrankBlocks(v, v');
    FreeDisk(e);
    LostPagesStay(e.dir, e.wsPages, st, lost, v'.entries, e.mem.lost, e.mem.entries);
    e.file.Parts();
    e.GetIsLookup();
    e.mem.LostCounted();
    HeapShrunkTwice(v.entries, v'.entries, e.mem.entries);
    AfterFree(e.dir, e.wsPages, st, lost, e.CurrentStore(), e.mem.lost);
    IsolatedAfterFree(e.dir, st, e.CurrentStore());
    StoreLost(e.CurrentStore());
    LostOrReturned(e.mem, e.dir, e.wsPages, st, lost, e.CurrentStore());
  }

  lemma StoreLost(st: Store)
    requires StoreOk(st)
    ensures LostAlone(st)
  {
  }
}
