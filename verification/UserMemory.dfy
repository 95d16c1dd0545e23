/** The kernel side of malloc and free: allocateMem, freeMem and calculate_required_frames of
    memory_manager.c. Addresses are page numbers; the ranges are page-aligned. */
module UserMemory {
  import opened Common
  import opened FrameAccounting
  import opened KernelMemory
  import opened PageFile
  import opened AddressSpace
  import opened Replacement
  import opened Paging
  import opened RequiredFrames

  lemma RemoveStore(dir: nat, page: nat, st: Store)
    ensures var st' := st.(frames := st.frames - {PageId(dir, page)});
            && (StoreOk(st) ==> StoreOk(st')) && Isolated(dir, st, st') && forall d, p :: st'.Get(d, p) == st.Get(d, p)
  {
    var st' := st.(frames := st.frames - {PageId(dir, page)});
    assert forall d, p :: st'.Get(d, p) == st.Get(d, p);
    FreshTouch(st, st');
    hide Translate, Store.Get, LostAlone, FreshHeap, OtherBlocksKept, HeapBeside;
    if StoreOk(st) {
      LostStays(st, st');
    }
    FreshBeside(dir, st, st');
  }

  /** The disk frame of a page goes back: unless it is resident the page leaves the program's memory, and a
      resident page may hold anything from now on. */
  lemma AfterRemove(flat: map<nat, Page>, blank: set<nat>, dir: nat, wsPages: nat, page: nat, st: Store)
    requires StoreOk(st) && FlatOk(flat, blank, dir, wsPages, st)
    ensures var st' := st.(frames := st.frames - {PageId(dir, page)});
            && StoreOk(st') && Isolated(dir, st, st')
            && if st.Get(dir, page).Some? && page in flat then FlatOk(flat, blank + {page}, dir, wsPages, st')
               else FlatOk(flat - {page}, blank - {page}, dir, wsPages, st')
  {
    hide Translate, Store.Get, StoreOk, Isolated, FlatOk;
    RemoveStore(dir, page, st);
    if st.Get(dir, page).Some? && page in flat {
      RemoveResident(flat, blank, dir, wsPages, page, st);
    } else {
      RemoveAbsent(flat, blank, dir, wsPages, page, st);
    }
  }

  lemma RemoveResident(flat: map<nat, Page>, blank: set<nat>, dir: nat, wsPages: nat, page: nat, st: Store)
    requires StoreOk(st) && FlatOk(flat, blank, dir, wsPages, st) && st.Get(dir, page).Some? && page in flat
    ensures var st' := st.(frames := st.frames - {PageId(dir, page)});
            StoreOk(st') && FlatOk(flat, blank + {page}, dir, wsPages, st')
  {
    var st' := st.(frames := st.frames - {PageId(dir, page)});
    RemoveStore(dir, page, st);
    hide Translate, Store.Get, LostAlone, Isolated;
    forall v
      ensures Holds(dir, wsPages, st', v) <==> Holds(dir, wsPages, st, v)
    {
      assert page in flat <==> Holds(dir, wsPages, st, page);
    }
  }

  lemma RemoveAbsent(flat: map<nat, Page>, blank: set<nat>, dir: nat, wsPages: nat, page: nat, st: Store)
    requires StoreOk(st) && FlatOk(flat, blank, dir, wsPages, st) && !(st.Get(dir, page).Some? && page in flat)
    ensures var st' := st.(frames := st.frames - {PageId(dir, page)});
            StoreOk(st') && FlatOk(flat - {page}, blank - {page}, dir, wsPages, st')
  {
    var st' := st.(frames := st.frames - {PageId(dir, page)});
    RemoveStore(dir, page, st);
    hide Translate, Store.Get, LostAlone, Isolated;
    forall v
      ensures Holds(dir, wsPages, st', v) <==> Holds(dir, wsPages, st, v) && v != page
    {
      assert page in flat <==> Holds(dir, wsPages, st, page);
    }
  }

  /** Only pages of the run may have left the program's memory, and those that stay may hold anything. */
  ghost predicate Thinned(
    flat: map<nat, Page>, blank: set<nat>, start: nat, n: nat, flat': map<nat, Page>, blank': set<nat>)
  {
    && (forall v | !InRun(v, start, n) :: (v in flat' <==> v in flat) && (v in blank' <==> v in blank))
    && (forall v | v in flat' :: v in flat)
    && (forall v | v in flat' && !InRun(v, start, n) :: flat'[v] == flat[v])
  }

  /** pf_remove_env_page for one page of an environment. */
  method RemoveOne(e: Env, page: nat)
    requires e.Valid()
    modifies e`flat, e`blank, e.file`free, e.file`frames
    ensures e.Valid()
    ensures e.file.frames == old(e.file.frames) - {PageId(e.dir, page)}
    ensures Thinned(old(e.flat), old(e.blank), page, 1, e.flat, e.blank)
    ensures Isolated(e.dir, old(e.CurrentStore()), e.CurrentStore())
  {
    hide Memory.Valid, OwnershipOk, DiskTablesOk, StoreOk, ResidentOk, FlatOk, Isolated, LogOk, Rooted, WsPages;
    hide FreshHeap;
    ghost var st := e.CurrentStore();
    AfterRemove(e.flat, e.blank, e.dir, e.wsPages, page, st);
    e.file.RemovePage(e.dir, page);
    ghost var st' := e.CurrentStore();
    if st.Get(e.dir, page).Some? && page in e.flat {
      e.blank := e.blank + {page};
    } else {
      e.flat, e.blank := e.flat - {page}, e.blank - {page};
    }
    FreshTouch(st, st');
    assert forall d, p :: st'.Get(d, p) == st.Get(d, p);
    ResidentKept(e.ws, e.dir, e.wsPages, st, st');
  }

  lemma ThinnedNone(flat: map<nat, Page>, blank: set<nat>, start: nat)
    ensures Thinned(flat, blank, start, 0, flat, blank)
  {
  }

  lemma ThinnedStep(flat: map<nat, Page>, blank: set<nat>, start: nat, i: nat, flat': map<nat, Page>, blank': set<nat>,
                    flat'': map<nat, Page>, blank'': set<nat>)
    requires Thinned(flat, blank, start, i, flat', blank') && Thinned(flat', blank', start + i, 1, flat'', blank'')
    ensures Thinned(flat, blank, start, i + 1, flat'', blank'')
  {
    assert forall v :: InRun(v, start, i + 1) <==> InRun(v, start, i) || InRun(v, start + i, 1);
  }

  /** The first loop of freeMem. */
  method RemoveFromFile(e: Env, start: nat, n: nat)
    requires e.Valid()
    modifies e`flat, e`blank, e.file`free, e.file`frames
    ensures e.Valid()
    ensures e.file.frames
            == map p | p in old(e.file.frames) && !(p.dir == e.dir && InRun(p.page, start, n)) :: old(e.file.frames)[p]
    ensures Thinned(old(e.flat), old(e.blank), start, n, e.flat, e.blank)
    ensures Isolated(e.dir, old(e.CurrentStore()), e.CurrentStore())
  {
    hide Env.Valid, Isolated, Thinned;
    IsolatedRefl(e.dir, e.CurrentStore());
    ThinnedNone(e.flat, e.blank, start);
    for i := 0 to n
      invariant e.Valid()
      invariant e.file.frames
                == map p | p in old(e.file.frames) && !(p.dir == e.dir && InRun(p.page, start, i))
                   :: old(e.file.frames)[p]
      invariant Thinned(old(e.flat), old(e.blank), start, i, e.flat, e.blank)
      invariant Isolated(e.dir, old(e.CurrentStore()), e.CurrentStore())
    {
      ghost var st, flat, blank := e.CurrentStore(), e.flat, e.blank;
      RemoveOne(e, start + i);
      IsolatedTwice(e.dir, old(e.CurrentStore()), st, e.CurrentStore());
      ThinnedStep(old(e.flat), old(e.blank), start, i, flat, blank, e.flat, e.blank);
    }
  }

  /** Everything but the agreement of working set and page tables, of which this half is left: a mapped page
      outside the mirror has a slot. */
  ghost predicate Loose(e: Env)
    reads e, e.mem, e.file
  {
    && e.mem == e.file.mem && e.wsPages == WsPages(e.maxSize)
    && e.file.Valid()
    && ScratchSlot !in e.mem.entries && e.mem.held == {}
    && WsOk(e.ws, e.hand, e.maxSize) && LogOk(e.ws, e.maxSize, e.log)
    && Rooted(e.dir, e.wsBlock, e.wsPages, e.mem.blocks)
    && StoreOk(e.CurrentStore())
    && FlatOk(e.flat, e.blank, e.dir, e.wsPages, e.CurrentStore())
    && Covered(e.ws, e.dir, e.wsPages, e.CurrentStore())
  }

  ghost predicate Covered(ws: seq<WsSlot>, dir: nat, wsPages: nat, st: Store) {
    forall v | st.Get(dir, v).Some? && !InMirror(v, wsPages) :: InWs(ws, v)
  }

  ghost predicate Agrees(e: Env)
    reads e, e.mem, e.file
  {
    ResidentOk(e.ws, e.dir, e.wsPages, e.CurrentStore())
  }

  lemma ValidIsLoose(e: Env)
    ensures e.Valid() <==> Loose(e) && Agrees(e)
  {
    hide PageFile.Valid, StoreOk, FlatOk, Rooted, LogOk, WsOk, WsPages, PrivateOk, Translate;
  }

  /** The search of freeMem for page 0 stops at an empty slot, whose address is 0, before the slot that
      holds the page. */
  predicate MissesZero(ws: seq<WsSlot>) {
    exists i, k :: 0 <= i < k < |ws| && ws[i].empty && !ws[k].empty && ws[k].page == 0
  }

  /** A slot still holds page 0, which is no longer mapped. */
  ghost predicate ZeroLost(e: Env)
    reads e, e.mem
  {
    e.mem.Lookup(e.dir, 0).None? && InWs(e.ws, 0)
  }

  lemma StillLost(ws: seq<WsSlot>, i: nat, page: nat)
    requires i < |ws| && ws[i].page == page
    ensures InWs(ws, 0) && page > 0 ==> InWs(ws[i := EMPTY_SLOT], 0)
  {
    if InWs(ws, 0) && page > 0 {
      var k :| 0 <= k < |ws| && !ws[k].empty && ws[k].page == 0;
      assert ws[i := EMPTY_SLOT][k] == ws[k];
    }
  }

  lemma ZeroLostDisagrees(e: Env)
    requires ZeroLost(e)
    ensures !Agrees(e)
  {
    e.GetIsLookup();
  }

  /** Clearing an empty slot and unmapping page 0, or clearing a page's own slot and unmapping it, leaves every
      other mapped page with its slot. */
  lemma CoveredAfterRelease(ws: seq<WsSlot>, dir: nat, wsPages: nat, page: nat, i: nat, st: Store, st': Store)
    requires Covered(ws, dir, wsPages, st) && i < |ws| && ws[i].page == page
    requires OnlyEntry(dir, page, st, st') && st'.Get(dir, page).None?
    ensures Covered(ws[i := EMPTY_SLOT], dir, wsPages, st')
  {
    hide Translate, Store.Get;
    forall v | st'.Get(dir, v).Some? && !InMirror(v, wsPages)
      ensures InWs(ws[i := EMPTY_SLOT], v)
    {
      var j :| 0 <= j < |ws| && !ws[j].empty && ws[j].page == v;
      assert ws[i := EMPTY_SLOT][j] == ws[j];
    }
  }

  /** The search of freeMem for one page: its slot is cleared and the page unmapped. Only page 0 can go
      wrong. */
  method ReleaseResident(e: Env, page: nat)
    requires Loose(e) && PageId(e.dir, page) !in e.file.frames
    modifies e`ws, e`log, e`flat, e`blank, e.mem`freeFrames, e.mem`references, e.mem`entries
    ensures Loose(e)
    ensures e.mem.Lookup(e.dir, page).Some? ==> InMirror(page, e.wsPages)
    ensures e.flat == old(e.flat) - {page} && e.blank == old(e.blank) - {page}
    ensures old(Agrees(e)) && !(page == 0 && MissesZero(old(e.ws))) ==>
              Agrees(e) && e.ws == Cleared(old(e.ws), page, 1)
    ensures old(Agrees(e)) && page == 0 && MissesZero(old(e.ws)) ==> ZeroLost(e)
    ensures old(ZeroLost(e)) && page > 0 ==> ZeroLost(e)
    ensures forall v | v != page :: e.mem.Lookup(e.dir, v) == old(e.mem.Lookup(e.dir, v))
    ensures Isolated(e.dir, old(e.CurrentStore()), e.CurrentStore())
  {
    hide Memory.Valid, OwnershipOk, DiskTablesOk, StoreOk, FlatOk, Isolated, LogOk, Rooted, Covered, Translate;
    hide FreshHeap, WsPages, ResidentOk, Cleared, MissesZero, InWs;
    ghost var st := e.CurrentStore();
    IsolatedRefl(e.dir, st);
    e.GetIsLookup();
    var i := 0;
    while i < |e.ws| && e.ws[i].page != page
      modifies {}
      invariant i <= |e.ws|
      invariant forall j | 0 <= j < i :: e.ws[j].page != page
    {
      i := i + 1;
    }
    if i < |e.ws| {
      e.ClearEntry(i);
      e.mem.MappedHasTable(e.dir, page);
      e.mem.UnmapFrame(e.dir, page);
      e.GetIsLookup();
      e.UnmapFresh(page, st, e.CurrentStore());
      AfterUnmap(e.flat, e.blank, e.dir, e.wsPages, page, st, e.CurrentStore());
      e.flat, e.blank := e.flat - {page}, e.blank - {page};
      CoveredAfterRelease(old(e.ws), e.dir, e.wsPages, page, i, st, e.CurrentStore());
      Released(e, old(e.ws), st, page, i);
      StillLost(old(e.ws), i, page);
    } else {
      NotFound(e, page);
    }
  }

  /** A page that the search does not find is not one of the program's. */
  lemma NotFound(e: Env, page: nat)
    requires Loose(e) && PageId(e.dir, page) !in e.file.frames
    requires forall j | 0 <= j < |e.ws| :: e.ws[j].page != page
    ensures e.mem.Lookup(e.dir, page).Some? ==> InMirror(page, e.wsPages)
    ensures e.flat - {page} == e.flat && e.blank - {page} == e.blank
    ensures e.ws == Cleared(e.ws, page, 1) && !(page == 0 && MissesZero(e.ws))
  {
    hide PageFile.Valid, Rooted, LogOk, WsPages, Translate;
    e.GetIsLookup();
    assert !InWs(e.ws, page);
    assert page in e.flat <==> Holds(e.dir, e.wsPages, e.CurrentStore(), page);
  }

  /** What clearing the first slot with the address of `page` and unmapping the page leaves behind. */
  lemma Released(e: Env, ws: seq<WsSlot>, st: Store, page: nat, i: nat)
    requires WsOk(ws, e.hand, e.maxSize) && i < |ws| && ws[i].page == page
    requires forall j | 0 <= j < i :: ws[j].page != page
    requires e.ws == ws[i := EMPTY_SLOT]
    requires OnlyEntry(e.dir, page, st, e.CurrentStore()) && FreshHeap(st, e.CurrentStore())
    requires e.CurrentStore().Get(e.dir, page).None?
    ensures ResidentOk(ws, e.dir, e.wsPages, st) && !(page == 0 && MissesZero(ws)) ==>
              Agrees(e) && e.ws == Cleared(ws, page, 1)
    ensures ResidentOk(ws, e.dir, e.wsPages, st) && page == 0 && MissesZero(ws) ==> ZeroLost(e)
  {
    hide Translate, FreshHeap;
    e.GetIsLookup();
    if ResidentOk(ws, e.dir, e.wsPages, st) {
      if !ws[i].empty {
        ResidentAfterEvict(ws, e.dir, e.wsPages, i, st, e.CurrentStore());
      } else if !MissesZero(ws) {
        assert forall k | 0 <= k < |ws| && !ws[k].empty :: ws[k].page != 0;
        assert st.Get(e.dir, 0).None?;
        assert e.ws == ws;
        ResidentKept(ws, e.dir, e.wsPages, st, e.CurrentStore());
      } else {
        var h, k :| 0 <= h < k < |ws| && ws[h].empty && !ws[k].empty && ws[k].page == 0;
        assert !e.ws[k].empty && e.ws[k].page == 0;
      }
    }
  }

  /** The second loop of freeMem. */
  method ReleaseRun(e: Env, start: nat, n: nat)
    requires e.Valid()
    requires forall v | InRun(v, start, n) :: PageId(e.dir, v) !in e.file.frames
    modifies e`ws, e`log, e`flat, e`blank, e.mem`freeFrames, e.mem`references, e.mem`entries
    ensures Loose(e)
    ensures forall v | InRun(v, start, n) && e.mem.Lookup(e.dir, v).Some? :: InMirror(v, e.wsPages)
    ensures !LosesZero(old(e.ws), start, n) ==> Agrees(e) && e.ws == Cleared(old(e.ws), start, n)
    ensures LosesZero(old(e.ws), start, n) ==> ZeroLost(e)
    ensures Thinned(old(e.flat), old(e.blank), start, n, e.flat, e.blank)
    ensures forall v | v in e.flat :: !InRun(v, start, n)
    ensures forall v | !InRun(v, start, n) :: e.mem.Lookup(e.dir, v) == old(e.mem.Lookup(e.dir, v))
    ensures Isolated(e.dir, old(e.CurrentStore()), e.CurrentStore())
  {
    hide Loose, Agrees, Env.Valid, MissesZero, ZeroLost, Isolated, Translate;
    IsolatedRefl(e.dir, e.CurrentStore());
    ValidIsLoose(e);
    assert e.ws == Cleared(e.ws, start, 0);
    for j := 0 to n
      invariant Loose(e)
      invariant forall v | InRun(v, start, j) && e.mem.Lookup(e.dir, v).Some? :: InMirror(v, e.wsPages)
      invariant !LosesZero(old(e.ws), start, j) ==> Agrees(e) && e.ws == Cleared(old(e.ws), start, j)
      invariant LosesZero(old(e.ws), start, j) ==> ZeroLost(e)
      invariant Thinned(old(e.flat), old(e.blank), start, j, e.flat, e.blank)
      invariant forall v | v in e.flat :: !InRun(v, start, j)
      invariant forall v | !InRun(v, start, j) :: e.mem.Lookup(e.dir, v) == old(e.mem.Lookup(e.dir, v))
      invariant Isolated(e.dir, old(e.CurrentStore()), e.CurrentStore())
    {
      ghost var st, ws := e.CurrentStore(), e.ws;
      assert InRun(start + j, start, n);
      assert start + j == 0 ==> ws == old(e.ws);
      ReleaseResident(e, start + j);
      IsolatedTwice(e.dir, old(e.CurrentStore()), st, e.CurrentStore());
      if !LosesZero(old(e.ws), start, j + 1) {
        assert e.ws == Cleared(old(e.ws), start, j + 1);
      }
    }
  }

  /** The range begins with page 0 and the search for it fails. */
  predicate LosesZero(ws: seq<WsSlot>, start: nat, n: nat) {
    start == 0 < n && MissesZero(ws)
  }

  /** An input on which freeMem fails: page 0 is resident behind an empty slot. */
  lemma FreePageZeroFails()
    ensures LosesZero([EMPTY_SLOT, WsSlot(0, false, 5)], 0, 1)
  {
    var ws := [EMPTY_SLOT, WsSlot(0, false, 5)];
    assert ws[0].empty && !ws[1].empty && ws[1].page == 0;
  }

  /** Some entry of the table is not zero. */
  ghost predicate InUse(entries: map<Slot, Entry>, table: nat) {
    exists x: nat :: TableSlot(table, x) in entries
  }

  /** A directory entry that the last loop of freeMem visits. */
  predicate OverRun(d: Pde, dir: nat, start: nat, n: nat) {
    d.dir == dir && start / PAGE_TABLE_ENTRIES <= d.index <= (start + n) / PAGE_TABLE_ENTRIES
  }

  /** The last loop of freeMem: every table that overlaps the run, and the one after a run that ends at
      a table boundary, is dropped if it is empty. */
  method DropEmptyTables(e: Env, start: nat, n: nat)
    requires Loose(e)
    modifies e.mem`freeFrames, e.mem`references, e.mem`entries, e.mem`records, e.mem`reverse, e.mem`blocks
    modifies e.mem`directory
    ensures Loose(e) && (old(Agrees(e)) ==> Agrees(e)) && (old(ZeroLost(e)) ==> ZeroLost(e))
    ensures forall v :: e.mem.Lookup(e.dir, v) == old(e.mem.Lookup(e.dir, v))
    ensures forall d | d in e.mem.directory ::
              d in old(e.mem.directory) && e.mem.directory[d] == old(e.mem.directory)[d]
    ensures forall d | d in old(e.mem.directory) && d !in e.mem.directory ::
              && d.dir == e.dir && start / PAGE_TABLE_ENTRIES <= d.index <= (start + n) / PAGE_TABLE_ENTRIES
              && forall x :: TableSlot(old(e.mem.directory)[d], x) !in old(e.mem.entries)
    ensures forall d | d in e.mem.directory && OverRun(d, e.dir, start, n) :: InUse(e.mem.entries, e.mem.directory[d])
    ensures Isolated(e.dir, old(e.CurrentStore()), e.CurrentStore())
  {
    hide Loose, Agrees, Isolated, Translate;
    IsolatedRefl(e.dir, e.CurrentStore());
    for i := start / PAGE_TABLE_ENTRIES to (start + n) / PAGE_TABLE_ENTRIES + 1
      invariant Loose(e) && (old(Agrees(e)) ==> Agrees(e))
      invariant SameUserSlots(old(e.mem.entries), e.mem.entries)
      invariant forall v :: e.mem.Lookup(e.dir, v) == old(e.mem.Lookup(e.dir, v))
      invariant forall d | d in e.mem.directory ::
                  d in old(e.mem.directory) && e.mem.directory[d] == old(e.mem.directory)[d]
      invariant forall d | d in old(e.mem.directory) && d !in e.mem.directory ::
                  && d.dir == e.dir && start / PAGE_TABLE_ENTRIES <= d.index < i
                  && forall x :: TableSlot(old(e.mem.directory)[d], x) !in old(e.mem.entries)
      invariant forall d | d in e.mem.directory && d.dir == e.dir && start / PAGE_TABLE_ENTRIES <= d.index < i ::
                  InUse(e.mem.entries, e.mem.directory[d])
      invariant Isolated(e.dir, old(e.CurrentStore()), e.CurrentStore())
    {
      ghost var st := e.CurrentStore();
      DropOne(e, Pde(e.dir, i));
      IsolatedTwice(e.dir, old(e.CurrentStore()), st, e.CurrentStore());
    }
  }

  lemma SameLostSlots(entries: map<Slot, Entry>, entries': map<Slot, Entry>)
    requires SameUserSlots(entries, entries')
    ensures SameLost(entries, entries')
  {
  }

  method DropOne(e: Env, d: Pde)
    requires Loose(e)
    modifies e.mem`freeFrames, e.mem`references, e.mem`entries, e.mem`records, e.mem`reverse, e.mem`blocks
    modifies e.mem`directory
    ensures Loose(e) && (old(Agrees(e)) ==> Agrees(e))
    ensures e.mem.directory == old(e.mem.directory) || e.mem.directory == old(e.mem.directory) - {d}
    ensures d in old(e.mem.directory) && d !in e.mem.directory ==>
              forall x :: TableSlot(old(e.mem.directory)[d], x) !in old(e.mem.entries)
    ensures d in e.mem.directory ==> InUse(e.mem.entries, e.mem.directory[d])
    ensures SameUserSlots(old(e.mem.entries), e.mem.entries)
    ensures forall v :: e.mem.Lookup(e.dir, v) == old(e.mem.Lookup(e.dir, v))
    ensures Isolated(e.dir, old(e.CurrentStore()), e.CurrentStore())
  {
    hide Memory.Valid, OwnershipOk, DiskTablesOk, StoreOk, ResidentOk, FlatOk, Isolated, Kept, LogOk, Translate;
    hide FreshHeap, BlocksKept, Rooted, WsPages, SameLost;
    ghost var st := e.CurrentStore();
    e.GetIsLookup();
    ghost var v := e.mem.Snapshot();
    e.mem.DropTableIfEmpty(d);
    KeptBlocks(v.reverse, v.blocks, e.mem.reverse, e.mem.blocks);
    DiskTablesKept(e.file.directories, e.file.tables, e.file.frames, v.reverse, v.blocks, e.mem.reverse, e.mem.blocks);
    e.GetIsLookup();
    SameLostSlots(st.entries, e.mem.entries);
    FreshSame(st, e.CurrentStore());
    RootedKept(e.dir, e.wsBlock, e.wsPages, st.blocks, e.mem.blocks);
    AfterNothing(e.flat, e.blank, e.dir, e.wsPages, st, e.CurrentStore());
    if old(Agrees(e)) {
      ResidentKept(e.ws, e.dir, e.wsPages, st, e.CurrentStore());
    }
  }

  /** freeMem on a page-aligned range removes exactly that range: its pages are in neither the page
      file, the working set nor the page tables; everything outside keeps its contents, mapping,
      slot and disk frame; and of the tables it visits exactly the empty ones go. The working set and
      the page tables agree afterwards unless the range begins with page 0 and the search misses it. */
  method FreeMem(e: Env, start: nat, n: nat)
    requires e.Valid()
    modifies e`flat, e`blank, e`ws, e`log, e.file`free, e.file`frames
    modifies e.mem`freeFrames, e.mem`references, e.mem`entries, e.mem`records, e.mem`reverse, e.mem`blocks
    modifies e.mem`directory
    ensures e.Valid() <==> !LosesZero(old(e.ws), start, n)
    ensures forall v | InRun(v, start, n) && e.mem.Lookup(e.dir, v).Some? :: InMirror(v, e.wsPages)
    ensures !LosesZero(old(e.ws), start, n) ==> e.CurrentPager() == Emptied(old(e.CurrentPager()), start, n)
    ensures LosesZero(old(e.ws), start, n) ==> ZeroLost(e)
    ensures e.flat == map p | p in old(e.flat) && !InRun(p, start, n) :: old(e.flat)[p]
    ensures e.blank == set p | p in old(e.blank) && !InRun(p, start, n)
    ensures e.file.frames
            == map p | p in old(e.file.frames) && !(p.dir == e.dir && InRun(p.page, start, n)) :: old(e.file.frames)[p]
    ensures forall v | !InRun(v, start, n) :: e.mem.Lookup(e.dir, v) == old(e.mem.Lookup(e.dir, v))
    ensures forall d | d in e.mem.directory ::
              d in old(e.mem.directory) && e.mem.directory[d] == old(e.mem.directory)[d]
    ensures forall d, v | d in old(e.mem.directory) && d !in e.mem.directory && TableEntry(e.dir, v) == d ::
              e.mem.Lookup(e.dir, v).None?
    ensures forall d | d in e.mem.directory && OverRun(d, e.dir, start, n) :: InUse(e.mem.entries, e.mem.directory[d])
    ensures Isolated(e.dir, old(e.CurrentStore()), e.CurrentStore())
  {
    hide Env.Valid, Isolated, Loose, Agrees, ZeroLost, LosesZero;
    e.UsedIs();
    e.GetIsLookup();
    ghost var p, was := e.CurrentPager(), e.CurrentStore();
    RemoveFromFile(e, start, n);
    ghost var st, flat, blank := e.CurrentStore(), e.flat, e.blank;
    ReleaseRun(e, start, n);
    IsolatedTwice(e.dir, old(e.CurrentStore()), st, e.CurrentStore());
    ghost var st' := e.CurrentStore();
    BlankInFlat(e);
    ThinnedTwice(old(e.flat), old(e.blank), start, n, flat, blank, e.flat, e.blank);
    DropEmptyTables(e, start, n);
    IsolatedTwice(e.dir, old(e.CurrentStore()), st', e.CurrentStore());
    e.UsedIs();
    e.GetIsLookup();
    if !LosesZero(p.ws, start, n) {
      EmptiedIs(p, e.dir, start, n, was, e.CurrentStore());
    }
    ValidIsLoose(e);
    if ZeroLost(e) {
      ZeroLostDisagrees(e);
    }
  }

  lemma EmptiedIs(p: Pager, dir: nat, start: nat, n: nat, st: Store, st': Store)
    requires p.used == UsedIn(p.ws, dir, st)
    requires forall v | !InRun(v, start, n) :: st'.Get(dir, v) == st.Get(dir, v)
    ensures var ws' := Cleared(p.ws, start, n); Pager(ws', p.hand, UsedIn(ws', dir, st')) == Emptied(p, start, n)
  {
    hide Translate, Store.Get;
  }

  lemma BlankInFlat(e: Env)
    requires Loose(e)
    ensures e.blank <= e.flat.Keys
  {
  }

  lemma ThinnedTwice(flat: map<nat, Page>, blank: set<nat>, start: nat, n: nat, flat': map<nat, Page>, blank': set<nat>,
                     flat'': map<nat, Page>, blank'': set<nat>)
    requires Thinned(flat, blank, start, n, flat', blank') && Thinned(flat', blank', start, n, flat'', blank'')
    requires blank'' <= flat''.Keys && forall v | v in flat'' :: !InRun(v, start, n)
    ensures flat'' == map p | p in flat && !InRun(p, start, n) :: flat[p]
    ensures blank'' == set p | p in blank && !InRun(p, start, n)
  {
  }

  /** pf_add_empty_env_page for one page of an environment; without a free disk frame nothing joins. */
  method AllocateOne(e: Env, page: nat)
    requires e.Valid() && page < USER_TOP_PAGE
    requires e.mem.heapTop + e.file.MissingTables(e.dir, page) < e.mem.heapMax
    requires e.file.MissingTables(e.dir, page) <= |e.mem.freeFrames|
    modifies e`flat, e.file`free, e.file`frames, e.file`directories, e.file`tables
    modifies e.mem`freeFrames, e.mem`references, e.mem`entries, e.mem`held, e.mem`litter, e.mem`heapTop, e.mem`records,
             e.mem`idx
    modifies e.mem`reverse, e.mem`blocks
    ensures e.Valid()
    ensures DiskFrameTaken(PageId(e.dir, page), PageId(e.dir, page) !in old(e.file.frames),
                           old(e.file.free), old(e.file.frames), e.file.free, e.file.frames)
    ensures forall v :: v in e.flat <==>
              v in old(e.flat) || (v == page && PageId(e.dir, page) in e.file.frames && !InMirror(page, e.wsPages))
    ensures forall v | v in old(e.flat) :: e.flat[v] == old(e.flat)[v]
    ensures e.file.directories.Keys == old(e.file.directories.Keys) + {e.dir}
    ensures e.file.tables.Keys == old(e.file.tables.Keys) + {TableEntry(e.dir, page)}
    ensures e.mem.heapTop == old(e.mem.heapTop + e.file.MissingTables(e.dir, page))
    ensures |e.mem.freeFrames| == |old(e.mem.freeFrames)| - old(e.file.MissingTables(e.dir, page))
    ensures forall v :: e.mem.Lookup(e.dir, v) == old(e.mem.Lookup(e.dir, v))
    ensures Isolated(e.dir, old(e.CurrentStore()), e.CurrentStore())
  {
    hide Memory.Valid, OwnershipOk, DiskTablesOk, StoreOk, ResidentOk, FlatOk, Isolated, HeapGrew, LogOk, Translate;
    hide HeapFrom, FreshHeap, Rooted, BlocksKept, SameLost, WsPages;
    ghost var st := e.CurrentStore();
    ghost var v := e.mem.Snapshot();
    ghost var n := e.file.MissingTables(e.dir, page);
    BackedIsFlat(e, page);
    e.GetIsLookup();
    e.mem.MappedNotFree();
    NewFrame(e.file.free, e.file.frames, e.file.count);
    var ok := e.file.AddEmptyPage(e.dir, page);
    HeapGrewSize(v, e.mem.Snapshot(), n);
    GrowthKeepsUser(v, e.mem.Snapshot(), n);
    e.GetIsLookup();
    FreshGrowth(st, e.CurrentStore(), v.freeFrames);
    RootedKept(e.dir, e.wsBlock, e.wsPages, st.blocks, e.mem.blocks);
    if PageId(e.dir, page) !in st.frames && ok {
      ghost var dfn := e.file.frames[PageId(e.dir, page)];
      AfterNewBlock(e.flat, e.blank, e.dir, e.wsPages, page, dfn, st, e.CurrentStore());
      if page !in e.flat && !InMirror(page, e.wsPages) {
        e.flat := e.flat[page := e.file.disk[dfn]];
      }
    } else {
      AfterNothing(e.flat, e.blank, e.dir, e.wsPages, st, e.CurrentStore());
    }
    ResidentKept(e.ws, e.dir, e.wsPages, st, e.CurrentStore());
  }

  lemma BackedIsFlat(e: Env, page: nat)
    requires e.Valid()
    ensures PageId(e.dir, page) in e.file.frames ==> page in e.flat || InMirror(page, e.wsPages)
    ensures page in e.flat ==> !InMirror(page, e.wsPages)
  {
    assert page in e.flat <==> Holds(e.dir, e.wsPages, e.CurrentStore(), page);
  }

  /** How many of the `n` pages from `start` are not in the page file. */
  function Absent(backed: set<nat>, start: nat, n: nat): nat {
    if n == 0 then 0 else Absent(backed, start, n - 1) + if start + n - 1 in backed then 0 else 1
  }

  lemma {:induction false} AbsentGrows(backed: set<nat>, start: nat, m: nat, n: nat)
    requires m <= n
    ensures Absent(backed, start, m) <= Absent(backed, start, n)
  {
    if m < n {
      AbsentGrows(backed, start, m, n - 1);
    }
  }

  /** A page of the range joins the page file while a free disk frame is left for it. */
  predicate Joins(backed: set<nat>, start: nat, n: nat, free: nat, v: nat) {
    InRun(v, start, n) && Absent(backed, start, v - start) < free
  }

  /** All of them join exactly when the free disk frames suffice for those that are absent. */
  lemma {:induction false} AllJoin(backed: set<nat>, start: nat, n: nat, free: nat)
    ensures (forall v: nat | InRun(v, start, n) :: v in backed || Joins(backed, start, n, free, v))
            <==> Absent(backed, start, n) <= free
  {
    if Absent(backed, start, n) <= free {
      forall v: nat | InRun(v, start, n) && v !in backed
        ensures Joins(backed, start, n, free, v)
      {
        AbsentGrows(backed, start, v - start + 1, n);
      }
    } else {
      var v := FirstLeftOut(backed, start, n, free);
      assert InRun(v, start, n) && v !in backed && !Joins(backed, start, n, free, v);
    }
  }

  lemma {:induction false} FirstLeftOut(backed: set<nat>, start: nat, n: nat, free: nat) returns (v: nat)
    requires Absent(backed, start, n) > free
    ensures InRun(v, start, n) && v !in backed && Absent(backed, start, v - start) >= free
  {
    if Absent(backed, start, n - 1) > free {
      v := FirstLeftOut(backed, start, n - 1, free);
    } else {
      v := start + n - 1;
    }
  }

  /** The disk tables that the range lies in and that do not exist yet, and the disk directory. */
  function TablesUsed(tables: map<Pde, nat>, directories: map<nat, nat>, dir: nat, start: nat, n: nat): nat {
    TablesOf(tables, dir, start, start + n) + if n > 0 && dir !in directories then 1 else 0
  }

  /** Kernel-heap pages that allocateMem takes. */
  function TablesNeeded(file: PageFile, dir: nat, start: nat, n: nat): nat
    reads file
  {
    TablesUsed(file.tables, file.directories, dir, start, n)
  }

  /** The disk tables and directories once the first `n` pages have been dealt with. */
  ghost predicate TablesThere(
    tables: map<Pde, nat>, directories: map<nat, nat>, dir: nat, start: nat, n: nat,
    tables': map<Pde, nat>, directories': map<nat, nat>)
  {
    && (forall f :: f in directories' <==> f in directories || (n > 0 && f == dir))
    && (forall f :: f in tables' <==> f in tables || Spanned(f, dir, start, n))
  }

  lemma TablesThereNone(tables: map<Pde, nat>, directories: map<nat, nat>, dir: nat, start: nat)
    ensures TablesThere(tables, directories, dir, start, 0, tables, directories)
    ensures TablesUsed(tables, directories, dir, start, 0) == 0
  {
  }

  lemma TablesThereStep(
    tables: map<Pde, nat>, directories: map<nat, nat>, dir: nat, start: nat, i: nat, n: nat, file: PageFile)
    requires TablesThere(tables, directories, dir, start, i, file.tables, file.directories) && i < n
    ensures TablesUsed(tables, directories, dir, start, i + 1)
            == TablesUsed(tables, directories, dir, start, i) + file.MissingTables(dir, start + i)
    ensures TablesUsed(tables, directories, dir, start, i + 1) <= TablesUsed(tables, directories, dir, start, n)
  {
    hide TablesOf, Spanned;
    TablesOfStep(tables, dir, start, start + i);
    TablesOfGrows(tables, dir, start, start + i + 1, start + n);
    SpannedStep(dir, start, i);
    NoneSpanned(dir, start);
    assert TableEntry(dir, start + i) in file.tables
           <==> TableEntry(dir, start + i) in tables || Spanned(TableEntry(dir, start + i), dir, start, i);
  }

  lemma TablesThereNext(
    tables: map<Pde, nat>, directories: map<nat, nat>, dir: nat, start: nat, i: nat,
    tables': map<Pde, nat>, directories': map<nat, nat>, tables'': map<Pde, nat>, directories'': map<nat, nat>)
    requires TablesThere(tables, directories, dir, start, i, tables', directories')
    requires tables''.Keys == tables'.Keys + {TableEntry(dir, start + i)}
             && directories''.Keys == directories'.Keys + {dir}
    ensures TablesThere(tables, directories, dir, start, i + 1, tables'', directories'')
  {
    hide Spanned, TableEntry;
    SpannedStep(dir, start, i);
  }

  /** The first `n` pages of a range have joined the page file as far as disk frames were left, and those outside
      the mirror the program's memory. */
  ghost predicate Joined(
    dir: nat, wsPages: nat, flat: map<nat, Page>, backed: set<nat>, free: nat, start: nat, n: nat,
    flat': map<nat, Page>, frames': map<PageId, nat>, free': nat)
  {
    && (forall v: nat :: PageId(dir, v) in frames' <==> v in backed || Joins(backed, start, n, free, v))
    && (forall v: nat :: v in flat' <==> v in flat || (Joins(backed, start, n, free, v) && !InMirror(v, wsPages)))
    && (forall v | v in flat :: v in flat' && flat'[v] == flat[v])
    && free' == if Absent(backed, start, n) <= free then free - Absent(backed, start, n) else 0
  }

  lemma JoinedNone(dir: nat, wsPages: nat, flat: map<nat, Page>, frames: map<PageId, nat>, free: nat, start: nat)
    ensures Joined(dir, wsPages, flat, BackedPages(dir, frames), free, start, 0, flat, frames, free)
  {
    NoneJoin(BackedPages(dir, frames), start, free);
  }

  lemma JoinedStep(
    dir: nat, wsPages: nat, flat: map<nat, Page>, backed: set<nat>, free: nat, start: nat, i: nat,
    flat': map<nat, Page>, frames': map<PageId, nat>, list': seq<nat>,
    flat'': map<nat, Page>, frames'': map<PageId, nat>, list'': seq<nat>)
    requires Joined(dir, wsPages, flat, backed, free, start, i, flat', frames', |list'|)
    requires var p := PageId(dir, start + i); DiskFrameTaken(p, p !in frames', list', frames', list'', frames'')
    requires var page := start + i;
             forall v :: v in flat'' <==>
               v in flat' || (v == page && PageId(dir, page) in frames'' && !InMirror(page, wsPages))
    requires forall v | v in flat' :: flat''[v] == flat'[v]
    requires forall v | v in backed && !InMirror(v, wsPages) :: v in flat
    ensures Joined(dir, wsPages, flat, backed, free, start, i + 1, flat'', frames'', |list''|)
  {
    hide Joins, Absent;
    AbsentStep(backed, start, i);
    JoinsStep(backed, start, i, free);
    NotYet(backed, start, i, free);
  }

  /** allocateMem: pages of the range join the page file, in order, as long as disk frames are left, all of
      them exactly when the free disk frames suffice, and none is brought into memory. Pages that the program
      already has keep their contents; new ones have whatever their block holds. */
  method AllocateMem(e: Env, start: nat, n: nat)
    requires e.Valid() && start + n <= USER_TOP_PAGE
    requires e.mem.heapTop + TablesNeeded(e.file, e.dir, start, n) < e.mem.heapMax
    requires TablesNeeded(e.file, e.dir, start, n) <= |e.mem.freeFrames|
    modifies e`flat, e.file`free, e.file`frames, e.file`directories, e.file`tables
    modifies e.mem`freeFrames, e.mem`references, e.mem`entries, e.mem`held, e.mem`litter, e.mem`heapTop, e.mem`records,
             e.mem`idx
    modifies e.mem`reverse, e.mem`blocks
    ensures e.Valid()
    ensures var backed, free := BackedPages(e.dir, old(e.file.frames)), |old(e.file.free)|;
            && Joined(e.dir, e.wsPages, old(e.flat), backed, free, start, n, e.flat, e.file.frames, |e.file.free|)
            && ((forall v | InRun(v, start, n) :: PageId(e.dir, v) in e.file.frames)
               <==> Absent(backed, start, n) <= free)
    ensures e.mem.heapTop == old(e.mem.heapTop + TablesNeeded(e.file, e.dir, start, n))
    ensures |e.mem.freeFrames| == |old(e.mem.freeFrames)| - old(TablesNeeded(e.file, e.dir, start, n))
    ensures forall v :: e.mem.Lookup(e.dir, v) == old(e.mem.Lookup(e.dir, v))
    ensures Isolated(e.dir, old(e.CurrentStore()), e.CurrentStore())
  {
    hide Env.Valid, Isolated, Translate, TablesUsed, TablesThere, Joins, Joined, Absent, BackedPages, InRun, InMirror;
    hide DiskFrameTaken, PageFile.MissingTables, TableEntry;
    ghost var backed, flat, free := BackedPages(e.dir, e.file.frames), e.flat, |e.file.free|;
    ghost var tables, directories := e.file.tables, e.file.directories;
    JoinedNone(e.dir, e.wsPages, flat, e.file.frames, free, start);
    BackedAreFlat(e);
    TablesThereNone(tables, directories, e.dir, start);
    IsolatedRefl(e.dir, e.CurrentStore());
    for i := 0 to n
      invariant e.Valid()
      invariant TablesThere(tables, directories, e.dir, start, i, e.file.tables, e.file.directories)
      invariant e.mem.heapTop == old(e.mem.heapTop) + TablesUsed(tables, directories, e.dir, start, i)
      invariant |e.mem.freeFrames| == |old(e.mem.freeFrames)| - TablesUsed(tables, directories, e.dir, start, i)
      invariant Joined(e.dir, e.wsPages, flat, backed, free, start, i, e.flat, e.file.frames, |e.file.free|)
      invariant forall v :: e.mem.Lookup(e.dir, v) == old(e.mem.Lookup(e.dir, v))
      invariant Isolated(e.dir, old(e.CurrentStore()), e.CurrentStore())
    {
      ghost var st, flat', list' := e.CurrentStore(), e.flat, e.file.free;
      ghost var tables', directories' := e.file.tables, e.file.directories;
      TablesThereStep(tables, directories, e.dir, start, i, n, e.file);
      AllocateOne(e, start + i);
      IsolatedTwice(e.dir, old(e.CurrentStore()), st, e.CurrentStore());
      TablesThereNext(
        tables, directories, e.dir, start, i, tables', directories', e.file.tables, e.file.directories);
      JoinedStep(e.dir, e.wsPages, flat, backed, free, start, i, flat', st.frames, list', e.flat, e.file.frames,
        e.file.free);
    }
    AllJoined(e.dir, e.wsPages, flat, backed, free, start, n, e.flat, e.file.frames, |e.file.free|);
  }

  lemma BackedAreFlat(e: Env)
    requires e.Valid()
    ensures forall v | v in BackedPages(e.dir, e.file.frames) && !InMirror(v, e.wsPages) :: v in e.flat
  {
    hide Env.Valid;
    forall v | v in BackedPages(e.dir, e.file.frames) && !InMirror(v, e.wsPages)
      ensures v in e.flat
    {
      BackedIsFlat(e, v);
    }
  }

  lemma AllJoined(
    dir: nat, wsPages: nat, flat: map<nat, Page>, backed: set<nat>, free: nat, start: nat, n: nat,
    flat': map<nat, Page>, frames': map<PageId, nat>, free': nat)
    requires Joined(dir, wsPages, flat, backed, free, start, n, flat', frames', free')
    ensures (forall v | InRun(v, start, n) :: PageId(dir, v) in frames') <==> Absent(backed, start, n) <= free
  {
    hide Joins, Absent, InRun;
    AllJoin(backed, start, n, free);
    assert forall v: nat | InRun(v, start, n) ::
             PageId(dir, v) in frames' <==> v in backed || Joins(backed, start, n, free, v);
  }

  lemma NotYet(backed: set<nat>, start: nat, i: nat, free: nat)
    ensures !Joins(backed, start, i, free, start + i)
  {
  }

  /** A table that some of the first `i` pages lie in. */
  predicate Spanned(d: Pde, dir: nat, start: nat, i: nat) {
    i > 0 && d.dir == dir && start / PAGE_TABLE_ENTRIES <= d.index <= (start + i - 1) / PAGE_TABLE_ENTRIES
  }

  lemma SpannedStep(dir: nat, start: nat, i: nat)
    ensures forall d :: Spanned(d, dir, start, i + 1) <==> Spanned(d, dir, start, i) || d == TableEntry(dir, start + i)
    ensures Spanned(TableEntry(dir, start + i), dir, start, i) <==> i > 0 && (start + i) % PAGE_TABLE_ENTRIES != 0
  {
  }

  lemma NoneSpanned(dir: nat, start: nat)
    ensures forall d :: !Spanned(d, dir, start, 0)
  {
  }

  lemma NoneJoin(backed: set<nat>, start: nat, free: nat)
    ensures Absent(backed, start, 0) == 0 && forall v :: !Joins(backed, start, 0, free, v)
  {
  }

  lemma JoinsStep(backed: set<nat>, start: nat, i: nat, free: nat)
    ensures forall v: nat :: Joins(backed, start, i + 1, free, v)
                             <==> (Joins(backed, start, i, free, v)
                               || (v == start + i && Absent(backed, start, i) < free))
  {
    forall v: nat
      ensures Joins(backed, start, i + 1, free, v)
              <==> (Joins(backed, start, i, free, v) || (v == start + i && Absent(backed, start, i) < free))
    {
      JoinsAt(backed, start, i, free, v);
    }
  }

  lemma JoinsAt(backed: set<nat>, start: nat, i: nat, free: nat, v: nat)
    ensures Joins(backed, start, i + 1, free, v)
            <==> Joins(backed, start, i, free, v) || (v == start + i && Absent(backed, start, i) < free)
  {
    if v == start + i {
      assert v - start == i;
    }
  }

  lemma AbsentStep(backed: set<nat>, start: nat, i: nat)
    ensures Absent(backed, start, i + 1) == Absent(backed, start, i) + if start + i in backed then 0 else 1
  {
  }
}
