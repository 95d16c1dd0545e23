/** trap.c and the working-set part of memory_manager.c: victim choice, write-back and placement. */
module Paging {
  import opened Common
  import opened FrameAccounting
  import opened KernelMemory
  import opened PageFile
  import opened AddressSpace
  import opened FlatMemory
  import opened Programs
  import opened Replacement
  import opened LruAging

  // The stack bounds; USER_PAGES_WS_MAX is computed in 32 bits, as in C.
  const USER_TOP := 0xEEC00000
  const STACK_TOP_PAGE := USER_TOP_PAGE - 2
  const STACK_BOTTOM_PAGE := MIRROR_PAGE + (12 * USER_TOP % 0x1_0000_0000 / PAGE_SIZE + PAGE_SIZE - 1) / PAGE_SIZE
  const SLOT_BYTES := 12          // sizeof(struct WorkingSetElement)

  /** The pages that a working-set array of that many slots takes. */
  function WsPages(maxSize: nat): (n: nat)
    ensures PAGE_SIZE * (n - 1) < SLOT_BYTES * maxSize <= PAGE_SIZE * n
  {
    (SLOT_BYTES * maxSize + PAGE_SIZE - 1) / PAGE_SIZE
  }

  datatype Outcome = Placed | NotStack

  predicate InStack(page: nat) {
    STACK_BOTTOM_PAGE <= page < STACK_TOP_PAGE
  }

  /** A user page outside the mirror has its frame to itself: no kernel-heap page is mapped to it. */
  ghost predicate PrivateOk(dir: nat, wsPages: nat, st: Store) {
    forall v, p: nat {:trigger st.Get(dir, v), HeapSlot(p)} |
      st.Get(dir, v).Some? && !InMirror(v, wsPages) && HeapSlot(p) in st.entries ::
      st.entries[HeapSlot(p)].frame != st.Get(dir, v).value.frame
  }

  /** The addresses of the stack, from USTACKBOTTOM to USTACKTOP. */
  lemma StackBounds(address: nat)
    ensures InStack(address / PAGE_SIZE) <==> 0xA003_1000 <= address < 0xEEBF_E000
  {
    assert STACK_BOTTOM_PAGE == 0xA0031 && STACK_TOP_PAGE == 0xEEBFE;
  }

  /** The user may read and write through the entry. */
  predicate MayUse(e: Entry) {
    e.perm.user && e.perm.writeable
  }

  /** The program may read and write its pages, and only read the mirror. */
  ghost predicate Permitted(dir: nat, wsPages: nat, st: Store) {
    forall v | st.Get(dir, v).Some? ::
      st.Get(dir, v).value.perm.user && (st.Get(dir, v).value.perm.writeable <==> !InMirror(v, wsPages))
  }

  /** Apart from the read-only mirror of the working set, a user page is mapped exactly when a
      working-set slot holds it, and then its frame is its own. */
  ghost predicate ResidentOk(ws: seq<WsSlot>, dir: nat, wsPages: nat, st: Store) {
    && (forall i | 0 <= i < |ws| && !ws[i].empty ::
          st.Get(dir, ws[i].page).Some? && ws[i].page < USER_TOP_PAGE && !InMirror(ws[i].page, wsPages))
    && (forall v | InMirror(v, wsPages) :: st.Get(dir, v).Some?)
    && (forall v | st.Get(dir, v).Some? && !InMirror(v, wsPages) :: InWs(ws, v))
    && PrivateOk(dir, wsPages, st) && Permitted(dir, wsPages, st)
  }

  /** The environment has a page directory and one working-set array, of `wsPages` pages. */
  ghost predicate Planted(dir: nat, wsBlock: nat, wsPages: nat, blocks: map<nat, Block>) {
    && dir in blocks && blocks[dir].owner == PageDirectory
    && wsBlock in blocks && blocks[wsBlock].owner == WorkingSet(dir) && blocks[wsBlock].pages == wsPages
    && (forall p | p in blocks && blocks[p].owner == WorkingSet(dir) :: p == wsBlock)
  }

  /** And a disk directory. */
  ghost predicate Rooted(dir: nat, wsBlock: nat, wsPages: nat, blocks: map<nat, Block>) {
    Planted(dir, wsBlock, wsPages, blocks) && exists p :: p in blocks && blocks[p].owner == DiskDirectory(dir)
  }

  lemma RootedKept(dir: nat, wsBlock: nat, wsPages: nat, blocks: map<nat, Block>, blocks': map<nat, Block>)
    requires Rooted(dir, wsBlock, wsPages, blocks) && BlocksKept(blocks, blocks')
    ensures Rooted(dir, wsBlock, wsPages, blocks')
  {
    var p :| p in blocks && blocks[p].owner == DiskDirectory(dir);
    assert p in blocks' && blocks'[p].owner == DiskDirectory(dir);
  }

  lemma RootedDirectory(
    dir: nat, wsBlock: nat, wsPages: nat, directories: map<nat, nat>, tables: map<Pde, nat>,
    frames: map<PageId, nat>, reverse: seq<nat>, blocks: map<nat, Block>)
    requires Rooted(dir, wsBlock, wsPages, blocks) && DiskTablesOk(directories, tables, frames, reverse, blocks)
    ensures dir in directories
  {
  }

  /** The page that a fault takes from the program: the victim, if it has no disk frame. */
  function LostPage(victim: Option<nat>, dir: nat, frames: map<PageId, nat>): set<nat> {
    if victim.Some? && PageId(dir, victim.value) !in frames then {victim.value} else {}
  }

  /** The page file after a fault: a new page takes the first free disk frame, if there is one. */
  predicate DiskFrameTaken(
    p: PageId, isNew: bool, free: seq<nat>, frames: map<PageId, nat>, free': seq<nat>, frames': map<PageId, nat>)
  {
    if isNew && free != [] then frames' == frames[p := free[0]] && free' == free[1..]
    else frames' == frames && free' == free
  }

  function PageOf(op: Op): nat {
    if op.Other? then 0 else op.page
  }

  lemma StampIrrelevant(
    ws: seq<WsSlot>, hand: nat, maxSize: nat, dir: nat, wsPages: nat, st: Store, i: nat, stamp: nat)
    requires WsOk(ws, hand, maxSize) && ResidentOk(ws, dir, wsPages, st)
    requires i < |ws| && !ws[i].empty
    ensures var ws' := ws[i := ws[i].(stamp := stamp)];
            WsOk(ws', hand, maxSize) && ResidentOk(ws', dir, wsPages, st)
  {
    var ws' := ws[i := ws[i].(stamp := stamp)];
    forall v | InWs(ws, v)
      ensures InWs(ws', v)
    {
      var j :| 0 <= j < |ws| && !ws[j].empty && ws[j].page == v;
      assert !ws'[j].empty && ws'[j].page == v;
    }
  }

  /** The same pages are mapped to the same frames, for the same uses, in both stores. */
  ghost predicate SameMapped(st: Store, st': Store) {
    forall d, p ::
      && (st.Get(d, p).Some? <==> st'.Get(d, p).Some?)
      && (st.Get(d, p).Some? ==> SameUse(st.Get(d, p).value, st'.Get(d, p).value))
  }

  predicate SameUse(e: Entry, e': Entry) {
    e.frame == e'.frame && e.perm.user == e'.perm.user && e.perm.writeable == e'.perm.writeable
  }

  lemma ResidentKept(ws: seq<WsSlot>, dir: nat, wsPages: nat, st: Store, st': Store)
    requires SameMapped(st, st') && FreshHeap(st, st')
    requires ResidentOk(ws, dir, wsPages, st)
    ensures ResidentOk(ws, dir, wsPages, st')
  {
    hide Translate, Store.Get;
  }

  lemma ResidentAfterEvict(ws: seq<WsSlot>, dir: nat, wsPages: nat, i: nat, st: Store, st': Store)
    requires ResidentOk(ws, dir, wsPages, st)
    requires i < |ws| && !ws[i].empty
    requires forall j | 0 <= j < |ws| && j != i && !ws[j].empty :: ws[j].page != ws[i].page
    requires OnlyEntry(dir, ws[i].page, st, st') && st'.Get(dir, ws[i].page).None? && FreshHeap(st, st')
    ensures ResidentOk(ws[i := EMPTY_SLOT], dir, wsPages, st')
  {
    hide Translate, Store.Get;
    var ws' := ws[i := EMPTY_SLOT];
    forall v | st'.Get(dir, v).Some? && !InMirror(v, wsPages)
      ensures InWs(ws', v)
    {
      var j :| 0 <= j < |ws| && !ws[j].empty && ws[j].page == v;
      assert ws'[j] == ws[j];
    }
  }

  lemma ResidentAfterPlace(ws: seq<WsSlot>, dir: nat, wsPages: nat, i: nat, slot: WsSlot, st: Store, st': Store)
    requires ResidentOk(ws, dir, wsPages, st)
    requires i < |ws| && ws[i].empty
    requires slot.page < USER_TOP_PAGE && !slot.empty && st.Get(dir, slot.page).None?
    requires OnlyEntry(dir, slot.page, st, st') && st'.Get(dir, slot.page).Some? && FreshHeap(st, st')
    requires NotHeap(st', st'.Get(dir, slot.page).value.frame)
    requires st'.Get(dir, slot.page).value.perm.user && st'.Get(dir, slot.page).value.perm.writeable
    requires !InMirror(slot.page, wsPages)
    ensures ResidentOk(ws[i := slot], dir, wsPages, st')
    ensures forall j | 0 <= j < |ws| && !ws[j].empty :: ws[j].page != slot.page
  {
    hide Translate, Store.Get;
    var ws' := ws[i := slot];
    assert ws'[i] == slot;
    forall v | st'.Get(dir, v).Some? && !InMirror(v, wsPages)
      ensures InWs(ws', v)
    {
      if v != slot.page {
        var j :| 0 <= j < |ws| && !ws[j].empty && ws[j].page == v;
        assert ws'[j] == ws[j];
      }
    }
  }

  /** The used bit of the page in each slot. */
  ghost function UsedIn(ws: seq<WsSlot>, dir: nat, st: Store): (used: seq<bool>)
    ensures |used| == |ws|
  {
    seq(|ws|, i requires 0 <= i < |ws| =>
      !ws[i].empty && st.Get(dir, ws[i].page).Some? && st.Get(dir, ws[i].page).value.perm.used)
  }

  lemma UsedSame(ws: seq<WsSlot>, dir: nat, st: Store, st': Store)
    requires forall v :: st.Get(dir, v) == st'.Get(dir, v)
    ensures UsedIn(ws, dir, st') == UsedIn(ws, dir, st)
  {
    hide Translate, Store.Get;
  }

  lemma UsedElsewhere(
    ws: seq<WsSlot>, ws': seq<WsSlot>, i: nat, dir: nat, page: nat, st: Store, st': Store)
    requires OnlyEntry(dir, page, st, st') && i < |ws| == |ws'| && ws' == ws[i := ws'[i]]
    requires forall j | 0 <= j < |ws| && j != i && !ws[j].empty :: ws[j].page != page
    ensures forall j | 0 <= j < |ws| && j != i :: UsedIn(ws', dir, st')[j] == UsedIn(ws, dir, st)[j]
  {
    hide Translate, Store.Get;
  }

  /** An access sets the used bit of its page. */
  lemma UsedTouched(p: Pager, dir: nat, page: nat, st: Store, st': Store)
    requires OnlyEntry(dir, page, st, st') && p.used == UsedIn(p.ws, dir, st)
    requires st'.Get(dir, page).Some? && st'.Get(dir, page).value.perm.used
    ensures UsedIn(p.ws, dir, st') == TouchUsed(p, page)
  {
    hide Translate, Store.Get;
  }

  class Env {
    const file: PageFile
    const mem: Memory
    const dir: nat                  // env_page_directory
    const maxSize: nat              // page_WS_max_size
    const wsBlock: nat              // ptr_pageWorkingSet
    const wsPages: nat              // pages of the working-set array and of its mirror __uptr_pws

    var ws: seq<WsSlot>             // the array, read through either address
    var hand: nat                   // page_last_WS_index

    ghost var flat: map<nat, Page>  // the flat memory the program believes in
    ghost var blank: set<nat>       // stack pages it has not stored to yet
    ghost var log: seq<WsEvent>     // every tick, placement and eviction so far

    ghost function CurrentStore(): Store
      reads mem, file
    {
      Store.Store(mem.entries, mem.directory, mem.ram, file.frames, file.disk, mem.blocks)
    }

    ghost function Believed(): FlatMemory
      reads this
    {
      FlatMemory(flat, blank)
    }

    /** Everything but LogOk. */
    ghost predicate Base()
      reads this, mem, file
    {
      && mem == file.mem && wsPages == WsPages(maxSize)
      && file.Valid()
      && ScratchSlot !in mem.entries && mem.held == {}
      && WsOk(ws, hand, maxSize)
      && Rooted(dir, wsBlock, wsPages, mem.blocks)
      && StoreOk(CurrentStore())
      && ResidentOk(ws, dir, wsPages, CurrentStore())
      && FlatOk(flat, blank, dir, wsPages, CurrentStore())
    }

    ghost predicate Valid()
      reads this, mem, file
    {
      Base() && LogOk(ws, maxSize, log)
    }

    /** initialize_environment clears the slots. */
    constructor (file: PageFile, dir: nat, maxSize: nat, wsBlock: nat)
      ensures this.file == file && this.mem == file.mem && this.dir == dir && this.maxSize == maxSize
      ensures this.wsBlock == wsBlock && this.wsPages == WsPages(maxSize)
      ensures ws == EmptySet(maxSize) && hand == 0 && flat == map[] && blank == {}
      ensures log == [] && LogOk(ws, maxSize, log)
    {
      hide WsPages;
      this.file, this.mem, this.dir, this.maxSize := file, file.mem, dir, maxSize;
      this.wsBlock, this.wsPages := wsBlock, WsPages(maxSize);
      ws := seq(maxSize, _ => EMPTY_SLOT);
      hand, flat, blank, log := 0, map[], {}, [];
      new;
      LogStart(maxSize);
      assert ws == EmptySet(maxSize);
    }

    /** env_page_ws_get_size */
    method WsSize() returns (counter: nat)
      ensures counter == CountFull(ws)
    {
      counter := 0;
      for i := 0 to |ws|
        invariant counter == CountFull(ws[..i])
      {
        assert ws[..i + 1][..i] == ws[..i];
        if !ws[i].empty {
          counter := counter + 1;
        }
      }
      assert ws[..|ws|] == ws;
    }

    /** env_page_ws_set_entry */
    method SetEntry(i: nat, page: nat)
      requires i < |ws| && LogOk(ws, maxSize, log)
      modifies `ws, `log
      ensures ws == old(ws)[i := NewSlot(page)]
      ensures log == old(log) + [Fill(i, page)] && LogOk(ws, maxSize, log)
    {
      LogSize(ws, maxSize, log);
      LogStep(ws, maxSize, log, Fill(i, page));
      hide LogOk;
      ws := ws[i := NewSlot(page)];
      log := log + [Fill(i, page)];
    }

    /** env_page_ws_clear_entry */
    method ClearEntry(i: nat)
      requires i < |ws| && LogOk(ws, maxSize, log)
      modifies `ws, `log
      ensures ws == old(ws)[i := EMPTY_SLOT]
      ensures log == old(log) + [Clear(i)] && LogOk(ws, maxSize, log)
    {
      LogSize(ws, maxSize, log);
      LogStep(ws, maxSize, log, Clear(i));
      hide LogOk;
      ws := ws[i := EMPTY_SLOT];
      log := log + [Clear(i)];
    }

    /** The LRU loop of page_fault_handler. */
    method LruVictim() returns (i: nat)
      ensures LruChoice(ws, hand, i)
    {
      i := hand;
      var minTime := SENTINEL;
      for k := 0 to |ws|
        invariant minTime == SENTINEL ==> i == hand && forall j | 0 <= j < k :: ws[j].stamp >= SENTINEL
        invariant minTime < SENTINEL ==>
                    && i < k && ws[i].stamp == minTime
                    && (forall j | 0 <= j < k :: minTime <= ws[j].stamp)
                    && (forall j | 0 <= j < i :: minTime < ws[j].stamp)
        invariant minTime <= SENTINEL
      {
        var time := ws[k].stamp;
        if time < minTime {
          i := k;
          minTime := time;
        }
      }
    }

    /** The used bit of the page in each occupied slot. */
    ghost function UsedBits(): (used: seq<bool>)
      reads this, mem
      ensures |used| == |ws|
    {
      seq(|ws|, i requires 0 <= i < |ws| reads this, mem =>
        !ws[i].empty && mem.Lookup(dir, ws[i].page).Some? && mem.Lookup(dir, ws[i].page).value.perm.used)
    }

    lemma UsedIs()
      ensures UsedBits() == UsedIn(ws, dir, CurrentStore())
    {
    }

    /** The working set, the hand and the used bits, as the replacement machine has them. */
    ghost function CurrentPager(): Pager
      reads this, mem
    {
      Pager(ws, hand, UsedBits())
    }

    lemma GetIsLookup()
      ensures forall d, p :: CurrentStore().Get(d, p) == mem.Lookup(d, p)
    {
    }

    lemma Parts()
      ensures Valid() <==> Base() && LogOk(ws, maxSize, log)
    {
    }

    lemma CoreBounds()
      requires Base()
      ensures mem == file.mem && hand < |ws| == maxSize && WsOk(ws, hand, maxSize)
    {
    }

    /** The working-set array is one live block, with room for every slot and less than a page to spare. */
    lemma ArraySize()
      requires Valid()
      ensures wsBlock in mem.blocks && mem.blocks[wsBlock].index < |mem.records|
      ensures mem.records[mem.blocks[wsBlock].index] == Record(wsBlock, wsPages, false)
      ensures 12 * maxSize <= PAGE_SIZE * wsPages < 12 * maxSize + PAGE_SIZE
    {
      hide Memory.Valid;
      mem.BlockSize(wsBlock);
    }

    lemma SlotResident(i: nat)
      requires Base() && i < |ws| && !ws[i].empty
      ensures mem.Lookup(dir, ws[i].page).Some?
    {
      assert CurrentStore().Get(dir, ws[i].page).Some?;
    }

    /** Clears the used bit of the page in slot `i`, as CLOCK does to each slot it passes. */
    method ClearUsed(i: nat)
      requires Base() && i < |ws| && !ws[i].empty
      modifies mem`entries
      ensures Base()
      ensures mem.entries.Keys == old(mem.entries.Keys)
      ensures Isolated(dir, old(CurrentStore()), CurrentStore())
      ensures UsedBits() == old(UsedBits())[i := false]
    {
      hide Memory.Valid, OwnershipOk, DiskTablesOk, StoreOk, FlatOk, Isolated, ResidentOk, Rooted, Translate;
      hide FreshHeap, WsPages;
      ghost var st := CurrentStore();
      SlotResident(i);
      var page := ws[i].page;
      mem.SetBits(dir, page, false, mem.Lookup(dir, page).value.perm.modified);
      GetIsLookup();
      FreshTouch(st, CurrentStore());
      AfterTouch(flat, blank, dir, wsPages, page, mem.Lookup(dir, page).value, st, CurrentStore());
      ResidentKept(ws, dir, wsPages, st, CurrentStore());
      assert forall j | 0 <= j < |ws| && j != i && !ws[j].empty :: ws[j].page != page;
    }

    /** The used-bit test of the CLOCK loop. */
    method IsUsed(i: nat) returns (used: bool)
      requires Base() && i < |ws| && !ws[i].empty
      ensures used == UsedBits()[i]
    {
      hide PageFile.Valid, StoreOk, ResidentOk, FlatOk;
      SlotResident(i);
      used := mem.Lookup(dir, ws[i].page).value.perm.used;
    }

    /** The CLOCK loop of page_fault_handler: at most one look at each slot and one more at the hand. */
    method ClockVictim(ghost used: seq<bool>) returns (i: nat, ghost steps: nat)
      requires Valid() && Full(ws) && used == UsedBits()
      modifies mem`entries
      ensures Valid()
      ensures mem.entries.Keys == old(mem.entries.Keys)
      ensures Isolated(dir, old(CurrentStore()), CurrentStore())
      ensures ClockChoice(used, hand, steps, i) && UsedBits() == Passed(used, hand, steps)
    {
      hide Valid, Base, Isolated, Passed, UsedBits, LogOk, Distance, At, CurrentStore, Memory.Lookup, Translate;
      hide WsOk;
      Parts();
      CoreBounds();
      IsolatedRefl(dir, CurrentStore());
      PassedNone(used, hand);
      i, steps := hand, 0;
      while true
        invariant Base() && |used| == |ws| && steps <= |ws| && i == At(hand, steps, |ws|)
        invariant mem.entries.Keys == old(mem.entries.Keys)
        invariant Isolated(dir, old(CurrentStore()), CurrentStore())
        invariant forall j | 0 <= j < |ws| && Distance(hand, j, |ws|) < steps :: used[j]
        invariant UsedBits() == Passed(used, hand, steps)
        decreases |ws| - steps
      {
        PassedStep(used, hand, steps);
        var isUsed := IsUsed(i);
        if !isUsed {
          break;
        }
        ghost var st := CurrentStore();
        ClearUsed(i);
        IsolatedTwice(dir, old(CurrentStore()), st, CurrentStore());
        i := (i + 1) % maxSize;
        steps := steps + 1;
      }
      Parts();
    }

    lemma HasDirectory()
      requires Base()
      ensures dir in file.directories
    {
      RootedDirectory(dir, wsBlock, wsPages, file.directories, file.tables, file.frames, mem.reverse, mem.blocks);
    }

    /** Brings the disk block of the page in slot `i`, if it has one, up to date if the page was modified. */
    method WriteBack(i: nat)
      requires Valid() && i < |ws| && !ws[i].empty
      modifies file`disk, file`directories
      modifies mem`freeFrames, mem`references, mem`entries, mem`held, mem`litter, mem`heapTop, mem`records, mem`idx
      modifies mem`reverse, mem`blocks
      ensures Valid()
      ensures mem.entries == old(mem.entries) && mem.freeFrames == old(mem.freeFrames)
      ensures UsedBits() == old(UsedBits())
      ensures mem.heapTop == old(mem.heapTop) && file.directories.Keys == old(file.directories.Keys)
      ensures Isolated(dir, old(CurrentStore()), CurrentStore())
      ensures ws[i].page in flat && ws[i].page !in blank && PageId(dir, ws[i].page) in file.frames ==>
                file.disk[file.frames[PageId(dir, ws[i].page)]] == flat[ws[i].page]
    {
      hide Memory.Valid, OwnershipOk, DiskTablesOk, StoreOk, FlatOk, Isolated, ResidentOk, Rooted, LogOk, Translate;
      hide HeapGrew, FreshHeap, BlocksKept, WsPages;
      ghost var st := CurrentStore();
      IsolatedRefl(dir, st);
      UsedIs();
      SlotResident(i);
      HasDirectory();
      var page := ws[i].page;
      var e := mem.Lookup(dir, page).value;
      if e.perm.modified {
        ghost var v := mem.Snapshot();
        var ok := file.UpdatePage(dir, page, e.frame);
        HeapGrewSize(v, mem.Snapshot(), 0);
        GrowthKeepsUser(v, mem.Snapshot(), 0);
        if ok {
          AfterWriteBack(flat, blank, dir, wsPages, page, st, CurrentStore());
        }
        WrittenBack(st, CurrentStore());
        ResidentKept(ws, dir, wsPages, st, CurrentStore());
        UsedIs();
        UsedSame(ws, dir, st, CurrentStore());
      } else {
        CleanBlock(flat, blank, dir, wsPages, page, st);
      }
    }

    lemma WrittenBack(st: Store, st': Store)
      requires st' == st.(disk := st'.disk)
      ensures SameMapped(st, st') && FreshHeap(st, st')
    {
      FreshTouch(st, st');
    }

    /** The frame of a resident page has no other user: unmapping it frees it. */
    lemma VictimAlone(i: nat)
      requires Base() && i < |ws| && !ws[i].empty
      ensures mem.Lookup(dir, ws[i].page).Some?
      ensures var f := mem.Lookup(dir, ws[i].page).value.frame; f < |mem.references| && mem.references[f] == 1
    {
      hide Memory.Valid, OwnershipOk, DiskTablesOk, FlatOk, Translate;
      GetIsLookup();
      assert CurrentStore().Get(dir, ws[i].page).Some?;
      var f := mem.Lookup(dir, ws[i].page).value.frame;
      assert NotLost(CurrentStore(), f) by {
        forall k: nat {:trigger LostSlot(k)} | LostSlot(k) in mem.entries
          ensures mem.entries[LostSlot(k)].frame != f
        {
          assert Unseen(CurrentStore(), mem.entries[LostSlot(k)].frame);
        }
      }
      mem.OneReference(dir, ws[i].page);
    }

    /** unmap_frame and env_page_ws_clear_entry on a victim whose block, if it has one, is up to date. */
    method Unload(i: nat)
      requires Valid() && i < |ws| && !ws[i].empty
      requires ws[i].page in flat && ws[i].page !in blank && PageId(dir, ws[i].page) in file.frames ==>
                 file.disk[file.frames[PageId(dir, ws[i].page)]] == flat[ws[i].page]
      modifies `ws, `log, `flat, `blank, mem`freeFrames, mem`references, mem`entries
      ensures Valid()
      ensures ws == old(ws)[i := EMPTY_SLOT] && log == old(log) + [Clear(i)]
      ensures flat == Evicted(old(flat), dir, old(ws[i].page), file.frames)
      ensures blank == EvictedBlank(old(blank), dir, old(ws[i].page), file.frames)
      ensures mem.Lookup(dir, old(ws[i].page)).None?
      ensures forall v | v != old(ws[i].page) :: mem.Lookup(dir, v) == old(mem.Lookup(dir, v))
      ensures old(mem.Lookup(dir, ws[i].page)).Some?
      ensures mem.freeFrames == [old(mem.Lookup(dir, ws[i].page)).value.frame] + old(mem.freeFrames)
      ensures forall j | 0 <= j < |ws| && j != i :: UsedBits()[j] == old(UsedBits())[j]
      ensures Isolated(dir, old(CurrentStore()), CurrentStore())
    {
      hide Memory.Valid, OwnershipOk, DiskTablesOk, StoreOk, FlatOk, Isolated, ResidentOk, Rooted, LogOk, Translate;
      hide FreshHeap, Evicted, EvictedBlank, WsPages;
      var page := ws[i].page;
      ghost var st := CurrentStore();
      UsedIs();
      ghost var was := ws;
      VictimAlone(i);
      mem.MappedHasTable(dir, page);
      mem.UnmapFrame(dir, page);
      GetIsLookup();
      UnmapFresh(page, st, CurrentStore());
      AfterUnmap(flat, blank, dir, wsPages, page, st, CurrentStore());
      ResidentAfterEvict(ws, dir, wsPages, i, st, CurrentStore());
      ClearEntry(i);
      UsedIs();
      UsedElsewhere(was, ws, i, dir, page, st, CurrentStore());
      flat, blank := Evicted(flat, dir, page, file.frames), EvictedBlank(blank, dir, page, file.frames);
    }

    /** Takes the page in slot `i` out of memory: write-back if modified, unmap, clear the slot. A page without
        a disk frame is gone. */
    method Evict(i: nat)
      requires Valid() && i < |ws| && !ws[i].empty
      modifies `ws, `log, `flat, `blank, file`disk, file`directories
      modifies mem`freeFrames, mem`references, mem`entries, mem`held, mem`litter, mem`heapTop, mem`records, mem`idx
      modifies mem`reverse, mem`blocks
      ensures Valid()
      ensures ws == old(ws)[i := EMPTY_SLOT] && log == old(log) + [Clear(i)]
      ensures flat == Evicted(old(flat), dir, old(ws[i].page), file.frames)
      ensures blank == EvictedBlank(old(blank), dir, old(ws[i].page), file.frames)
      ensures mem.Lookup(dir, old(ws[i].page)).None?
      ensures forall v | v != old(ws[i].page) :: mem.Lookup(dir, v) == old(mem.Lookup(dir, v))
      ensures old(mem.Lookup(dir, ws[i].page)).Some?
      ensures mem.freeFrames == [old(mem.Lookup(dir, ws[i].page)).value.frame] + old(mem.freeFrames)
      ensures forall j | 0 <= j < |ws| && j != i :: UsedBits()[j] == old(UsedBits())[j]
      ensures mem.heapTop == old(mem.heapTop) && file.directories.Keys == old(file.directories.Keys)
      ensures Isolated(dir, old(CurrentStore()), CurrentStore())
    {
      hide PageFile.Valid, StoreOk, FlatOk, Isolated, ResidentOk, Rooted, LogOk, Evicted, EvictedBlank, WsPages;
      ghost var st := CurrentStore();
      WriteBack(i);
      ghost var st' := CurrentStore();
      Unload(i);
      IsolatedTwice(dir, st, st', CurrentStore());
    }

    /** unmap_frame takes one entry of a page table away. */
    lemma UnmapFresh(page: nat, st: Store, st': Store)
      requires st'.blocks == st.blocks
      requires st'.entries == st.entries
               || (TableEntry(dir, page) in st.directory
                   && st'.entries == Without(st.entries, SlotOf(st.directory, dir, page)))
      ensures FreshHeap(st, st')
    {
      FreshSame(st, st');
    }

    const USER_PERM := Perm(true, true, true, false)

    /** allocate_frame, map_frame and pf_read_env_page of page_fault_handler. */
    method Fetch(page: nat) returns (f: nat, ok: bool)
      requires Valid()
      requires page < USER_TOP_PAGE && mem.Lookup(dir, page).None? && TableEntry(dir, page) in mem.directory
      requires mem.freeFrames != []
      modifies mem`freeFrames, mem`references, mem`entries, mem`held, mem`litter, mem`ram, mem`directory
      modifies mem`heapTop, mem`records, mem`idx, mem`reverse, mem`blocks
      ensures file.Valid() && ScratchSlot !in mem.entries && mem.held == {}
      ensures ok <==> PageId(dir, page) in file.frames
      ensures mem.Lookup(dir, page) == Some(Entry(f, USER_PERM))
      ensures OnlyEntry(dir, page, old(CurrentStore()), CurrentStore())
      ensures Unseen(old(CurrentStore()), f) && NotLost(old(CurrentStore()), f) && NotHeap(CurrentStore(), f)
      ensures FreshHeap(old(CurrentStore()), CurrentStore()) && mem.blocks == old(mem.blocks)
      ensures f < |old(mem.ram)| && |mem.ram| == |old(mem.ram)|
      ensures forall g | 0 <= g < |mem.ram| && g != f :: mem.ram[g] == old(mem.ram)[g]
      ensures ok ==>
                file.frames[PageId(dir, page)] < |file.disk| && mem.ram[f] == file.disk[file.frames[PageId(dir, page)]]
      ensures mem.freeFrames == old(mem.freeFrames)[1..] && mem.heapTop == old(mem.heapTop)
      ensures mem.directory == old(mem.directory)
    {
      hide Memory.Valid, OwnershipOk, DiskTablesOk, StoreOk, FlatOk, ResidentOk, Rooted, LogOk, Translate, WsPages;
      GetIsLookup();
      f := mem.AllocateUserFrame();
      mem.MapFrame(dir, f, page, USER_PERM);
      var ok' := file.ReadPage(dir, page);
      ok := ok';
      GetIsLookup();
      BlocksKeptRefl(mem.blocks);
      FreshSame(old(CurrentStore()), CurrentStore());
    }

    /** The kernel-heap pages that placing `page` takes: only a new stack page may need disk tables. */
    function StackTables(page: nat): nat
      reads file
    {
      if PageId(dir, page) in file.frames || !InStack(page) then 0 else file.MissingTables(dir, page)
    }

    /** The call of pf_add_empty_env_page in the stack branch, whose failure the handler ignores. */
    method GiveDiskFrame(page: nat, ghost f: nat, ghost st: Store) returns (ok: bool)
      requires mem == file.mem && file.Valid() && ScratchSlot !in mem.entries && mem.held == {}
      requires Rooted(dir, wsBlock, wsPages, mem.blocks)
      requires page < USER_TOP_PAGE && PageId(dir, page) !in file.frames
      requires mem.heapTop + file.MissingTables(dir, page) < mem.heapMax
      requires file.MissingTables(dir, page) <= |mem.freeFrames|
      requires st.Get(dir, page).None? && mem.Lookup(dir, page) == Some(Entry(f, USER_PERM))
      requires OnlyEntry(dir, page, st, CurrentStore())
      requires NotHeap(CurrentStore(), f) && FreshHeap(st, CurrentStore())
      modifies file`free, file`frames, file`directories, file`tables
      modifies mem`freeFrames, mem`references, mem`entries, mem`held, mem`litter, mem`heapTop, mem`records, mem`idx
      modifies mem`reverse, mem`blocks
      ensures file.Valid() && ScratchSlot !in mem.entries && mem.held == {} && Rooted(dir, wsBlock, wsPages, mem.blocks)
      ensures mem.Lookup(dir, page) == Some(Entry(f, USER_PERM))
      ensures OnlyEntry(dir, page, st, CurrentStore())
      ensures NotHeap(CurrentStore(), f) && FreshHeap(st, CurrentStore())
      ensures ok <==> old(file.free) != []
      ensures ok ==>
                && file.frames == old(file.frames)[PageId(dir, page) := old(file.free)[0]]
                && file.free == old(file.free)[1..] && old(file.free)[0] < |file.disk|
                && forall p | p in old(file.frames) :: old(file.frames)[p] != old(file.free)[0]
      ensures !ok ==> file.frames == old(file.frames) && file.free == []
      ensures mem.directory == old(mem.directory) && mem.ram == old(mem.ram)
      ensures mem.heapTop == old(mem.heapTop + file.MissingTables(dir, page))
      ensures |mem.freeFrames| == |old(mem.freeFrames)| - old(file.MissingTables(dir, page))
    {
      hide Memory.Valid, OwnershipOk, DiskTablesOk, HeapGrew, Translate;
      hide FreshHeap, HeapFrom, Rooted, BlocksKept, SameLost, NotHeap;
      ghost var v := mem.Snapshot();
      ghost var n := file.MissingTables(dir, page);
      NewFrame(file.free, file.frames, file.count);
      ghost var mid := CurrentStore();
      GetIsLookup();
      mem.MappedNotFree();
      ok := file.AddEmptyPage(dir, page);
      HeapGrewSize(v, mem.Snapshot(), n);
      GrowthKeepsUser(v, mem.Snapshot(), n);
      GetIsLookup();
      FreshGrowth(mid, CurrentStore(), v.freeFrames);
      FreshThen(dir, page, st, mid, CurrentStore());
      RootedKept(dir, wsBlock, wsPages, mid.blocks, mem.blocks);
      StillNotHeap(mid, CurrentStore(), dir, page);
    }

    /** The stack branch: the page gets a disk frame if there is one, and the slot. */
    method PlaceStackPage(page: nat, i: nat, ghost f: nat, ghost st: Store)
      requires mem == file.mem && wsPages == WsPages(maxSize)
      requires file.Valid() && ScratchSlot !in mem.entries && mem.held == {}
      requires LogOk(ws, maxSize, log) && Rooted(dir, wsBlock, wsPages, mem.blocks)
      requires page < USER_TOP_PAGE && PageId(dir, page) !in file.frames && !InMirror(page, wsPages)
      requires mem.heapTop + file.MissingTables(dir, page) < mem.heapMax
      requires file.MissingTables(dir, page) <= |mem.freeFrames|
      requires WsOk(ws, hand, maxSize) && i < |ws| && ws[i].empty
      requires StoreOk(st) && FlatOk(flat, blank, dir, wsPages, st) && ResidentOk(ws, dir, wsPages, st)
      requires st.Get(dir, page).None? && mem.Lookup(dir, page) == Some(Entry(f, USER_PERM))
      requires OnlyEntry(dir, page, st, CurrentStore())
      requires Unseen(st, f) && NotLost(st, f) && NotHeap(CurrentStore(), f)
      requires f < |st.ram| && |mem.ram| == |st.ram|
      requires forall g | 0 <= g < |mem.ram| && g != f :: mem.ram[g] == st.ram[g]
      requires file.frames == st.frames && file.disk == st.disk
      requires FreshHeap(st, CurrentStore())
      modifies `ws, `log, `flat, `blank
      modifies file`free, file`frames, file`directories, file`tables
      modifies mem`freeFrames, mem`references, mem`entries, mem`held, mem`litter, mem`heapTop, mem`records, mem`idx
      modifies mem`reverse, mem`blocks
      ensures Valid() && Isolated(dir, st, CurrentStore())
      ensures ws == old(ws)[i := NewSlot(page)] && mem.Lookup(dir, page) == Some(Entry(f, USER_PERM))
      ensures OnlyEntry(dir, page, st, CurrentStore())
      ensures mem.heapTop == old(mem.heapTop + file.MissingTables(dir, page))
      ensures |mem.freeFrames| == |old(mem.freeFrames)| - old(file.MissingTables(dir, page))
      ensures log == old(log) + [Fill(i, page)]
      ensures page in flat && flat == old(flat)[page := flat[page]] && blank == old(blank) + {page}
      ensures old(file.free) != [] ==>
                file.frames == old(file.frames)[PageId(dir, page) := old(file.free)[0]]
                  && file.free == old(file.free)[1..]
      ensures old(file.free) == [] ==> file.frames == old(file.frames) && file.free == []
      ensures mem.directory == old(mem.directory)
    {
      hide PageFile.Valid, StoreOk, FlatOk, Isolated, ResidentOk, LogOk, Translate, OnlyEntry;
      hide FreshHeap, Rooted, Unseen, NotLost, NotHeap, WsPages;
      var ok := GiveDiskFrame(page, f, st);
      GetIsLookup();
      ghost var st', e := CurrentStore(), Entry(f, USER_PERM);
      SetEntry(i, page);
      if ok {
        AfterPlaceFresh(flat, blank, dir, wsPages, page, e, file.frames[PageId(dir, page)], st, st');
      } else {
        AfterPlaceUnbacked(flat, blank, dir, wsPages, page, e, st, st');
      }
      flat, blank := flat[page := mem.ram[f]], blank + {page};
      ResidentAfterPlace(old(ws), dir, wsPages, i, ws[i], st, st');
    }

    /** The lines of page_fault_handler from allocate_frame on: brings `page` in and records it in the
        empty slot `i`. A page that neither the page file nor the stack has ends in a panic, with the
        frame given back. */
    method Place(page: nat, i: nat) returns (outcome: Outcome)
      requires Valid() && i < |ws| && ws[i].empty && !InMirror(page, wsPages)
      requires page < USER_TOP_PAGE && mem.Lookup(dir, page).None? && TableEntry(dir, page) in mem.directory
      requires mem.heapTop + StackTables(page) < mem.heapMax && 1 + StackTables(page) <= |mem.freeFrames|
      modifies `ws, `log, `flat, `blank
      modifies file`free, file`frames, file`directories, file`tables
      modifies mem`freeFrames, mem`references, mem`entries, mem`held, mem`litter, mem`ram, mem`directory
      modifies mem`heapTop, mem`records, mem`idx, mem`reverse, mem`blocks
      ensures Valid()
      ensures Isolated(dir, old(CurrentStore()), CurrentStore())
      ensures outcome == NotStack <==> PageId(dir, page) !in old(file.frames) && !InStack(page)
      ensures outcome == NotStack ==> ws == old(ws) && log == old(log) && mem.Lookup(dir, page).None?
      ensures outcome == Placed ==> ws == old(ws)[i := NewSlot(page)] && mem.Lookup(dir, page).Some?
      ensures outcome == Placed ==> log == old(log) + [Fill(i, page)]
      ensures outcome == Placed ==> mem.Lookup(dir, page).value.perm == USER_PERM
      ensures outcome == Placed ==> OnlyEntry(dir, page, old(CurrentStore()), CurrentStore())
      ensures outcome == Placed ==> mem.heapTop == old(mem.heapTop + StackTables(page))
      ensures outcome == Placed ==> |mem.freeFrames| == |old(mem.freeFrames)| - 1 - old(StackTables(page))
      ensures outcome == NotStack || PageId(dir, page) in old(file.frames) ==> flat == old(flat) && blank == old(blank)
      ensures outcome == Placed && PageId(dir, page) !in old(file.frames) ==>
                page in flat && flat == old(flat)[page := flat[page]] && blank == old(blank) + {page}
      ensures DiskFrameTaken(PageId(dir, page), outcome == Placed && PageId(dir, page) !in old(file.frames),
                             old(file.free), old(file.frames), file.free, file.frames)
      ensures mem.directory == old(mem.directory)
    {
      hide Memory.Valid, OwnershipOk, DiskTablesOk, StoreOk, FlatOk, Isolated, ResidentOk, HeapGrew, LogOk, Translate;
      hide FreshHeap, Rooted, Unseen, NotLost, NotHeap, WsPages;
      ghost var st := CurrentStore();
      var f, ok := Fetch(page);
      if ok {
        AfterPlace(flat, blank, dir, wsPages, page, Entry(f, USER_PERM), st, CurrentStore());
        SetEntry(i, page);
        ResidentAfterPlace(old(ws), dir, wsPages, i, ws[i], st, CurrentStore());
        outcome := Placed;
      } else if InStack(page) {
        PlaceStackPage(page, i, f, st);
        outcome := Placed;
      } else {
        ghost var mid := CurrentStore();
        mem.MappedHasTable(dir, page);
        mem.UnmapFrame(dir, page);
        GetIsLookup();
        UnmapFresh(page, mid, CurrentStore());
        FreshThen(dir, page, st, mid, CurrentStore());
        AfterScribble(flat, blank, dir, wsPages, f, st, CurrentStore());
        ResidentKept(ws, dir, wsPages, st, CurrentStore());
        outcome := NotStack;
      }
    }

    /** Victim choice for a full working set, by the current replacement algorithm. */
    method ChooseVictim(algorithm: Algorithm) returns (i: nat)
      requires Valid() && Full(ws)
      modifies mem`entries
      ensures Valid() && i < |ws|
      ensures SlotChoice(algorithm, ws, old(UsedBits()), hand, i)
      ensures UsedMoved(algorithm, ws, old(UsedBits()), hand, i, UsedBits())
      ensures forall v :: mem.Lookup(dir, v).Some? <==> old(mem.Lookup(dir, v)).Some?
      ensures Isolated(dir, old(CurrentStore()), CurrentStore())
    {
      hide Base, Isolated, LogOk;
      Parts();
      CoreBounds();
      IsolatedRefl(dir, CurrentStore());
      i := hand;
      if algorithm == LRU {
        i := LruVictim();
      } else if algorithm == CLOCK {
        ghost var steps;
        i, steps := ClockVictim(UsedBits());
      }
    }

    /** The scan for an empty slot that ends victim handling. */
    method NextEmpty(start: nat) returns (i: nat)
      requires start < |ws| == maxSize && !Full(ws)
      ensures FirstEmpty(ws, start, i)
    {
      i := start;
      var e :| 0 <= e < |ws| && ws[e].empty;
      ghost var steps := 0;
      while !ws[i].empty
        invariant steps <= Distance(start, e, |ws|) && i == At(start, steps, |ws|) && i < |ws|
        invariant forall j | 0 <= j < |ws| && Distance(start, j, |ws|) < steps :: !ws[j].empty
        decreases |ws| - steps
      {
        NextAt(i, maxSize);
        i := (i + 1) % maxSize;
        steps := steps + 1;
      }
    }

    /** page_fault_handler up to the scan for an empty slot. */
    method MakeRoom(algorithm: Algorithm) returns (i: nat)
      requires Valid()
      modifies `ws, `log, `flat, `blank, file`disk, file`directories
      modifies mem`freeFrames, mem`references, mem`entries, mem`held, mem`litter, mem`heapTop, mem`records, mem`idx
      modifies mem`reverse, mem`blocks
      ensures Valid() && i < |ws| && ws[i].empty
      ensures SlotChoice(algorithm, old(ws), old(UsedBits()), hand, i)
      ensures UsedMoved(algorithm, old(ws), old(UsedBits()), hand, i, UsedBits())
      ensures ws == if Full(old(ws)) then old(ws)[i := EMPTY_SLOT] else old(ws)
      ensures log == old(log) + if Full(old(ws)) then [Clear(i)] else []
      ensures Believed() == Forget(old(Believed()), LostPage(VictimOf(old(ws), i), dir, file.frames))
      ensures forall v | old(mem.Lookup(dir, v)).None? :: mem.Lookup(dir, v).None?
      ensures |mem.freeFrames| == |old(mem.freeFrames)| + (if Full(old(ws)) then 1 else 0)
      ensures mem.heapTop == old(mem.heapTop) && file.directories.Keys == old(file.directories.Keys)
      ensures Isolated(dir, old(CurrentStore()), CurrentStore())
    {
      hide PageFile.Valid, StoreOk, ResidentOk, FlatOk, Rooted, Isolated, LruChoice, ClockChoice, LogOk, Translate,
           WsPages;
      IsolatedRefl(dir, CurrentStore());
      i := hand;
      var size := WsSize();
      ForgetNothing(Believed());
      if size >= maxSize {
        i := ChooseVictim(algorithm);
        ghost var st := CurrentStore();
        Evict(i);
        IsolatedTwice(dir, old(CurrentStore()), st, CurrentStore());
        assert ws[i].empty;
        assert Distance(i, i, |ws|) == 0;
      }
      i := NextEmpty(i);
    }

    /** The last line of page_fault_handler. */
    method MoveHand(i: nat)
      requires Valid() && i < |ws|
      modifies `hand
      ensures Valid() && hand == (i + 1) % maxSize && CurrentStore() == old(CurrentStore())
    {
      hide PageFile.Valid, StoreOk, ResidentOk, FlatOk, Rooted, LogOk, WsPages;
      NextAt(i, maxSize);
      hand := (i + 1) % maxSize;
    }

    /** The lines of page_fault_handler from allocate_frame to the end. */
    method PlaceAndMove(page: nat, i: nat) returns (outcome: Outcome)
      requires Valid() && i < |ws| && ws[i].empty && !InMirror(page, wsPages)
      requires page < USER_TOP_PAGE && mem.Lookup(dir, page).None? && TableEntry(dir, page) in mem.directory
      requires mem.heapTop + StackTables(page) < mem.heapMax && 1 + StackTables(page) <= |mem.freeFrames|
      modifies `ws, `log, `hand, `flat, `blank
      modifies file`free, file`frames, file`directories, file`tables
      modifies mem`freeFrames, mem`references, mem`entries, mem`held, mem`litter, mem`ram, mem`directory
      modifies mem`heapTop, mem`records, mem`idx, mem`reverse, mem`blocks
      ensures Valid()
      ensures Isolated(dir, old(CurrentStore()), CurrentStore())
      ensures outcome == NotStack <==> PageId(dir, page) !in old(file.frames) && !InStack(page)
      ensures outcome == NotStack ==> log == old(log) && mem.Lookup(dir, page).None?
      ensures outcome == Placed ==> ws == old(ws)[i := NewSlot(page)] && hand == (i + 1) % maxSize
      ensures outcome == Placed ==>
                UsedBits()[i] && forall j | 0 <= j < |ws| && j != i :: UsedBits()[j] == old(UsedBits())[j]
      ensures outcome == Placed ==> mem.Lookup(dir, page).Some? && MayUse(mem.Lookup(dir, page).value)
      ensures outcome == Placed ==> log == old(log) + [Fill(i, page)]
      ensures outcome == Placed ==> mem.heapTop == old(mem.heapTop + StackTables(page))
      ensures outcome == Placed ==> |mem.freeFrames| == |old(mem.freeFrames)| - 1 - old(StackTables(page))
      ensures outcome == NotStack || PageId(dir, page) in old(file.frames) ==> flat == old(flat) && blank == old(blank)
      ensures outcome == Placed && PageId(dir, page) !in old(file.frames) ==>
                page in flat && flat == old(flat)[page := flat[page]] && blank == old(blank) + {page}
      ensures DiskFrameTaken(PageId(dir, page), outcome == Placed && PageId(dir, page) !in old(file.frames),
                             old(file.free), old(file.frames), file.free, file.frames)
      ensures mem.directory == old(mem.directory)
    {
      hide Base, Isolated, UsedBits, Translate, InStack, LogOk, WsPages, DiskFrameTaken, OnlyEntry;
      UsedIs();
      ghost var st, was, used := CurrentStore(), ws, UsedBits();
      outcome := Place(page, i);
      if outcome == Placed {
        Parts();
        CoreBounds();
        PlacedUsed(page, i, was, used, st);
        UsedIs();
        MoveHand(i);
        UsedIs();
      }
    }

    /** page_fault_handler, entered on a page whose table exists and whose entry is not present. A victim
        without a disk frame is lost. */
    method PageFault(algorithm: Algorithm, page: nat) returns (outcome: Outcome, ghost i: nat)
      requires Valid() && !InMirror(page, wsPages)
      requires page < USER_TOP_PAGE && mem.Lookup(dir, page).None? && TableEntry(dir, page) in mem.directory
      requires mem.heapTop + StackTables(page) < mem.heapMax
      requires 1 + StackTables(page) <= |mem.freeFrames| + if Full(ws) then 1 else 0
      modifies `ws, `log, `hand, `flat, `blank
      modifies file`free, file`frames, file`directories, file`tables, file`disk
      modifies mem`freeFrames, mem`references, mem`entries, mem`held, mem`litter, mem`ram, mem`directory
      modifies mem`heapTop, mem`records, mem`idx, mem`reverse, mem`blocks
      ensures Valid()
      ensures Isolated(dir, old(CurrentStore()), CurrentStore())
      ensures outcome == NotStack <==> PageId(dir, page) !in old(file.frames) && !InStack(page)
      ensures outcome == NotStack ==> mem.Lookup(dir, page).None?
      ensures SlotChoice(algorithm, old(ws), old(UsedBits()), old(hand), i)
      ensures outcome == Placed ==> FaultMove(algorithm, page, old(CurrentPager()), i, CurrentPager())
      ensures outcome == Placed ==> mem.Lookup(dir, page).Some? && MayUse(mem.Lookup(dir, page).value)
      ensures outcome == Placed ==> mem.heapTop == old(mem.heapTop + StackTables(page))
      ensures outcome == Placed ==>
                |mem.freeFrames| == |old(mem.freeFrames)| - 1 - old(StackTables(page)) + if Full(old(ws)) then 1 else 0
      ensures forall e | e in old(log) :: EventOk(e, maxSize)
      ensures algorithm == LRU && Full(old(ws)) ==> LeastRecent(Histories(maxSize, old(log)), old(hand), i)
      ensures log == old(log) + (if Full(old(ws)) then [Clear(i)] else [])
                     + if outcome == Placed then [Fill(i, page)] else []
      ensures var m := Forget(old(Believed()), LostPage(VictimOf(old(ws), i), dir, old(file.frames)));
              if outcome == NotStack || PageId(dir, page) in old(file.frames) then Believed() == m
              else page in flat && Believed() == FlatMemory(m.pages[page := flat[page]], m.blank + {page})
      ensures DiskFrameTaken(PageId(dir, page), outcome == Placed && PageId(dir, page) !in old(file.frames),
                             old(file.free), old(file.frames), file.free, file.frames)
      ensures mem.directory == old(mem.directory)
    {
      hide Base, Isolated, SlotChoice, UsedBits, Translate, InStack, LeastRecent, Histories, EventOk;
      hide Full, LogOk, Forget, VictimOf, LostPage, WsPages, DiskFrameTaken;
      Parts();
      CoreBounds();
      ghost var st := CurrentStore();
      var idx := MakeRoom(algorithm);
      VictimHistory(algorithm, old(ws), old(log), old(UsedBits()), hand, idx);
      i := idx;
      Parts();
      CoreBounds();
      ghost var st', used := CurrentStore(), UsedBits();
      assert StackTables(page) == old(StackTables(page));
      outcome := PlaceAndMove(page, idx);
      IsolatedTwice(dir, st, st', CurrentStore());
      if outcome == Placed {
        UsedTwice(algorithm, old(ws), old(UsedBits()), old(hand), idx, used, UsedBits());
        assert ws == old(ws)[idx := NewSlot(page)];
      }
    }

    lemma PlacedUsed(page: nat, i: nat, was: seq<WsSlot>, used: seq<bool>, st: Store)
      requires Base() && i < |was| && ws == was[i := NewSlot(page)] && used == UsedIn(was, dir, st)
      requires OnlyEntry(dir, page, st, CurrentStore())
      requires mem.Lookup(dir, page).Some? && mem.Lookup(dir, page).value.perm.used
      ensures UsedBits()[i] && forall j | 0 <= j < |ws| && j != i :: UsedBits()[j] == used[j]
    {
      hide Memory.Valid, OwnershipOk, DiskTablesOk, StoreOk, ResidentOk, FlatOk, Rooted, Translate, WsPages;
      GetIsLookup();
      UsedIs();
      assert !ws[i].empty && ws[i].page == page;
      assert forall j | 0 <= j < |was| && j != i :: ws[j] == was[j];
      assert forall j | 0 <= j < |was| && j != i && !was[j].empty :: was[j].page != page;
      UsedElsewhere(was, ws, i, dir, page, st, CurrentStore());
    }

    /** In every reachable state LRU evicts a page referenced least recently since the environment began. */
    lemma VictimHistory(algorithm: Algorithm, ws: seq<WsSlot>, log: seq<WsEvent>, used: seq<bool>, hand: nat, i: nat)
      requires LogOk(ws, maxSize, log) && SlotChoice(algorithm, ws, used, hand, i)
      ensures forall e | e in log :: EventOk(e, maxSize)
      ensures algorithm == LRU && Full(ws) ==> LeastRecent(Histories(maxSize, log), hand, i)
    {
      hide LruChoice, LeastRecent, WsRun, Histories, ClockChoice, FirstEmpty;
      if algorithm == LRU && Full(ws) {
        LruVictimOverRun(maxSize, log, hand, i);
      }
    }

    /** A slot's stamp changes; nothing else depends on it. */
    method SetStamp(i: nat, stamp: nat)
      requires Base() && i < |ws| && !ws[i].empty
      modifies `ws
      ensures Base()
      ensures ws == old(ws)[i := old(ws)[i].(stamp := stamp)] && UsedBits() == old(UsedBits())
    {
      hide PageFile.Valid, StoreOk, FlatOk, WsOk, ResidentOk, Rooted, Translate, WsPages;
      StampIrrelevant(ws, hand, maxSize, dir, wsPages, CurrentStore(), i, stamp);
      ws := ws[i := ws[i].(stamp := stamp)];
      assert forall j | 0 <= j < |ws| :: ws[j].page == old(ws)[j].page && ws[j].empty == old(ws)[j].empty;
    }

    /** One slot in update_WS_time_stamps. */
    method StampSlot(i: nat, ghost used: bool)
      requires Base() && i < |ws| && used == UsedBits()[i]
      modifies `ws, mem`entries
      ensures Base() && |ws| == |old(ws)|
      ensures ws == old(ws)[i := if ws[i].empty then old(ws)[i] else old(ws)[i].(stamp := Aged(old(ws)[i].stamp, used))]
      ensures UsedBits() == old(UsedBits())[i := false]
      ensures Isolated(dir, old(CurrentStore()), CurrentStore())
      ensures mem.entries.Keys == old(mem.entries.Keys)
    {
      hide PageFile.Valid, WsOk, StoreOk, ResidentOk, FlatOk, Rooted, Isolated, Translate, WsPages;
      IsolatedRefl(dir, CurrentStore());
      if !ws[i].empty {
        SlotResident(i);
        var wasUsed := mem.Lookup(dir, ws[i].page).value.perm.used;
        assert wasUsed == used;
        if wasUsed {
          ClearUsed(i);
        }
        SetStamp(i, Aged(ws[i].stamp, wasUsed));
      }
    }

    /** update_WS_time_stamps for the page working set. */
    method UpdateStamps(ghost used: seq<bool>)
      requires Valid() && used == UsedBits()
      modifies `ws, `log, mem`entries
      ensures Valid()
      ensures ws == Stamped(old(ws), used) && UsedBits() == seq(|ws|, _ => false)
      ensures log == old(log) + [Tick(used)]
      ensures Isolated(dir, old(CurrentStore()), CurrentStore())
      ensures forall v :: mem.Lookup(dir, v).Some? <==> old(mem.Lookup(dir, v)).Some?
    {
      hide Base, Isolated, LogOk;
      Parts();
      CoreBounds();
      LogStep(ws, maxSize, log, Tick(used));
      IsolatedRefl(dir, CurrentStore());
      for i := 0 to |ws|
        invariant Base() && |ws| == |old(ws)| && log == old(log)
        invariant forall j | 0 <= j < i :: ws[j] == Stamped(old(ws), used)[j] && !UsedBits()[j]
        invariant forall j | i <= j < |ws| :: ws[j] == old(ws)[j] && UsedBits()[j] == used[j]
        invariant Isolated(dir, old(CurrentStore()), CurrentStore())
        invariant mem.entries.Keys == old(mem.entries.Keys)
      {
        ghost var st := CurrentStore();
        StampSlot(i, used[i]);
        IsolatedTwice(dir, old(CurrentStore()), st, CurrentStore());
      }
      assert ws == Stamped(old(ws), used);
      NoteTick(used);
    }

    /** The tick is logged when all slots have been stamped. */
    ghost method NoteTick(used: seq<bool>)
      requires Base() && LogOk(ws, maxSize, log + [Tick(used)])
      modifies `log
      ensures Valid() && log == old(log) + [Tick(used)]
    {
      hide PageFile.Valid, WsOk, StoreOk, ResidentOk, FlatOk, Rooted, LogOk, WsPages;
      log := log + [Tick(used)];
    }

    /** trap_dispatch on a page fault: the LRU stamps are updated before the fault is handled. */
    method StampsIfLru(algorithm: Algorithm)
      requires Valid()
      modifies `ws, `log, mem`entries
      ensures Valid()
      ensures CurrentPager() == TickIf(old(CurrentPager()), algorithm)
      ensures log == old(log) + Ticks(old(CurrentPager()), algorithm, false)
      ensures Isolated(dir, old(CurrentStore()), CurrentStore())
      ensures forall v :: mem.Lookup(dir, v).Some? <==> old(mem.Lookup(dir, v)).Some?
    {
      hide PageFile.Valid, StoreOk, FlatOk, ResidentOk, Rooted, LogOk, Isolated, UsedBits, Translate, WsPages;
      IsolatedRefl(dir, CurrentStore());
      if algorithm == LRU {
        UpdateStamps(UsedBits());
      } else {
        assert log == old(log) + [];
      }
    }

    /** Outside the mirror the mapped pages are those of the working set, and they belong to the program. */
    lemma ResidentIsFlat(page: nat)
      requires Valid() && !InMirror(page, wsPages)
      ensures mem.Lookup(dir, page).Some? ==> page in flat
      ensures mem.Lookup(dir, page).None? ==> (page in flat <==> PageId(dir, page) in file.frames)
      ensures mem.Lookup(dir, page).Some? <==> InWs(ws, page)
    {
      GetIsLookup();
      if mem.Lookup(dir, page).Some? {
        assert CurrentStore().Get(dir, page).Some?;
        assert InWs(ws, page);
      }
      assert page in flat <==> Holds(dir, wsPages, CurrentStore(), page);
    }

    /** table_fault_handler: a table is created and the faulting instruction will fault again. */
    method TableFault(page: nat)
      requires Valid() && page < USER_TOP_PAGE && TableEntry(dir, page) !in mem.directory
      requires mem.heapTop < mem.heapMax - 1 && mem.freeFrames != []
      modifies mem`freeFrames, mem`references, mem`entries, mem`held, mem`litter, mem`heapTop, mem`records, mem`idx,
               mem`reverse
      modifies mem`blocks, mem`directory
      ensures Valid()
      ensures Isolated(dir, old(CurrentStore()), CurrentStore())
      ensures mem.directory.Keys == old(mem.directory.Keys) + {TableEntry(dir, page)}
      ensures forall v :: mem.Lookup(dir, v) == old(mem.Lookup(dir, v))
      ensures UsedBits() == old(UsedBits())
      ensures mem.heapTop == old(mem.heapTop) + 1 && |mem.freeFrames| == |old(mem.freeFrames)| - 1
    {
      hide Memory.Valid, OwnershipOk, DiskTablesOk, StoreOk, FlatOk, ResidentOk, Isolated, Kept, LogOk, Translate;
      hide FreshHeap, Rooted, BlocksKept, WsPages;
      ghost var st := CurrentStore();
      UsedIs();
      GetIsLookup();
      mem.MappedNotFree();
      var table := mem.CreatePageTable(dir, page);
      BlocksAfterTable(st.blocks, mem.blocks, table);
      DiskTablesKept(file.directories, file.tables, file.frames, old(mem.reverse), old(mem.blocks), mem.reverse,
        mem.blocks);
      GetIsLookup();
      FreshGrowth(st, CurrentStore(), old(mem.freeFrames));
      RootedKept(dir, wsBlock, wsPages, st.blocks, mem.blocks);
      AfterNothing(flat, blank, dir, wsPages, st, CurrentStore());
      ResidentKept(ws, dir, wsPages, st, CurrentStore());
      UsedIs();
      UsedSame(ws, dir, st, CurrentStore());
    }

    lemma BlocksAfterTable(blocks: map<nat, Block>, blocks': map<nat, Block>, table: nat)
      requires table !in blocks && table in blocks' && blocks'[table].owner.PageTable?
      requires blocks' == blocks[table := blocks'[table]]
      ensures BlocksKept(blocks, blocks')
    {
    }

    /** The table fault of an access, with the stamp update before it, if the directory entry is not present. */
    method TableFaultIfAny(algorithm: Algorithm, page: nat)
      requires Valid() && page < USER_TOP_PAGE
      requires mem.heapTop + NoTable(page) < mem.heapMax && NoTable(page) <= |mem.freeFrames|
      modifies `ws, `log
      modifies mem`freeFrames, mem`references, mem`entries, mem`held, mem`litter, mem`heapTop, mem`records, mem`idx,
               mem`reverse
      modifies mem`blocks, mem`directory
      ensures Valid()
      ensures Isolated(dir, old(CurrentStore()), CurrentStore())
      ensures TableEntry(dir, page) in mem.directory
      ensures forall v :: mem.Lookup(dir, v).Some? <==> old(mem.Lookup(dir, v)).Some?
      ensures mem.heapTop == old(mem.heapTop + NoTable(page))
      ensures |mem.freeFrames| == |old(mem.freeFrames)| - old(NoTable(page))
      ensures if old(NoTable(page)) == 0 then CurrentPager() == old(CurrentPager()) && log == old(log)
              else CurrentPager() == TickIf(old(CurrentPager()), algorithm)
                   && log == old(log) + Ticks(old(CurrentPager()), algorithm, false)
    {
      hide Base, Isolated, UsedBits, Translate, LogOk, WsPages, Ticks, TickIf;
      ghost var st := CurrentStore();
      IsolatedRefl(dir, st);
      if TableEntry(dir, page) !in mem.directory {
        StampsIfLru(algorithm);
        ghost var st' := CurrentStore();
        TableFault(page);
        IsolatedTwice(dir, st, st', CurrentStore());
      }
    }

    /** What precedes page_fault_handler: the table fault and the stamp updates. */
    method BeforeFault(algorithm: Algorithm, page: nat)
      requires Valid() && page < USER_TOP_PAGE
      requires mem.heapTop + NoTable(page) < mem.heapMax && NoTable(page) <= |mem.freeFrames|
      modifies `ws, `log
      modifies mem`freeFrames, mem`references, mem`entries, mem`held, mem`litter, mem`heapTop, mem`records, mem`idx,
               mem`reverse
      modifies mem`blocks, mem`directory
      ensures Valid()
      ensures Isolated(dir, old(CurrentStore()), CurrentStore())
      ensures TableEntry(dir, page) in mem.directory
      ensures forall v :: mem.Lookup(dir, v).Some? <==> old(mem.Lookup(dir, v)).Some?
      ensures mem.heapTop == old(mem.heapTop + NoTable(page))
      ensures |mem.freeFrames| == |old(mem.freeFrames)| - old(NoTable(page))
      ensures CurrentPager() == Prepared(old(CurrentPager()), algorithm, old(NoTable(page)) > 0)
      ensures log == old(log) + Ticks(old(CurrentPager()), algorithm, old(NoTable(page)) > 0)
    {
      hide Base, LogOk, Isolated, UsedBits, Translate, WsPages, Ticks, TickIf;
      ghost var st, p, before, tabled := CurrentStore(), CurrentPager(), log, NoTable(page) > 0;
      TableFaultIfAny(algorithm, page);
      ghost var st', q := CurrentStore(), CurrentPager();
      StampsIfLru(algorithm);
      IsolatedTwice(dir, st, st', CurrentStore());
      TicksJoin(p, algorithm);
    }

    /** The page tables that a fault at `page` must create first. */
    function NoTable(page: nat): nat
      reads mem
    {
      if TableEntry(dir, page) in mem.directory then 0 else 1
    }

    /** The frames that serving a fault at `page` takes: one for a missing table, one for the page unless the victim
        of a full set supplies it, and those of the disk tables of a new stack page. */
    function FramesTaken(page: nat): int
      reads this, mem, file
    {
      NoTable(page) + 1 + StackTables(page) - if Full(ws) then 1 else 0
    }

    /** The kernel-heap pages that it takes. */
    function HeapTaken(page: nat): nat
      reads mem, file
    {
      NoTable(page) + StackTables(page)
    }

    /** They are there. */
    predicate Enough(page: nat)
      reads this, mem, file
    {
      FramesTaken(page) <= |mem.freeFrames| && mem.heapTop + HeapTaken(page) < mem.heapMax
    }

    /** The page-fault trap for an access to a page that is not resident: under LRU the stamps are updated
        first, then fault_handler tells a table fault from a page fault. The access is retried after a
        table fault. */
    method Fault(algorithm: Algorithm, page: nat) returns (outcome: Outcome, ghost how: How)
      requires Valid() && page < USER_TOP_PAGE && !InMirror(page, wsPages)
      requires mem.Lookup(dir, page).None? && Enough(page)
      modifies `ws, `log, `hand, `flat, `blank
      modifies file`free, file`frames, file`directories, file`tables, file`disk
      modifies mem`freeFrames, mem`references, mem`entries, mem`held, mem`litter, mem`ram, mem`directory
      modifies mem`heapTop, mem`records, mem`idx, mem`reverse, mem`blocks
      ensures Valid()
      ensures Isolated(dir, old(CurrentStore()), CurrentStore())
      ensures outcome == NotStack <==> PageId(dir, page) !in old(file.frames) && !InStack(page)
      ensures outcome == NotStack ==> mem.Lookup(dir, page).None?
      ensures outcome == Placed ==> mem.Lookup(dir, page).Some? && MayUse(mem.Lookup(dir, page).value)
      ensures how.tabled == old(NoTable(page) > 0) && how.slot < |old(ws)|
      ensures var q := Prepared(old(CurrentPager()), algorithm, how.tabled);
              SlotChoice(algorithm, q.ws, q.used, q.hand, how.slot)
      ensures outcome == Placed
              ==> FaultStep(algorithm, how.tabled, page, old(CurrentPager()), how.slot, CurrentPager())
      ensures log == old(log) + Ticks(old(CurrentPager()), algorithm, how.tabled)
                     + (if Full(old(ws)) then [Clear(how.slot)] else [])
                     + if outcome == Placed then [Fill(how.slot, page)] else []
      ensures var ticked := old(log) + Ticks(old(CurrentPager()), algorithm, how.tabled);
              && (forall e | e in ticked :: EventOk(e, maxSize))
              && (algorithm == LRU && Full(old(ws)) ==>
                    LeastRecent(Histories(maxSize, ticked), old(hand), how.slot))
      ensures var m := Forget(old(Believed()), LostPage(VictimOf(old(ws), how.slot), dir, old(file.frames)));
              if outcome == NotStack || PageId(dir, page) in old(file.frames) then Believed() == m
              else page in flat && Believed() == FlatMemory(m.pages[page := flat[page]], m.blank + {page})
      ensures DiskFrameTaken(PageId(dir, page), outcome == Placed && PageId(dir, page) !in old(file.frames),
                             old(file.free), old(file.frames), file.free, file.frames)
      ensures outcome == Placed ==>
                && |mem.freeFrames| == |old(mem.freeFrames)| - old(FramesTaken(page))
                && mem.heapTop == old(mem.heapTop + HeapTaken(page))
    {
      hide Base, LogOk, Isolated, SlotChoice, UsedBits, Translate, Forget, LostPage, WsPages, DiskFrameTaken, WsOk;
      hide LeastRecent, Histories, Full, InStack, EventOk, SamePages, VictimOf, InWs, Rooted, Prepared, Ticks,
           UsedMoved;
      hide MayUse;
      Parts();
      CoreBounds();
      ghost var st, p := CurrentStore(), CurrentPager();
      how := How(0, NoTable(page) > 0);
      PreparedPages(p, algorithm, how.tabled);
      BeforeFault(algorithm, page);
      ghost var st' := CurrentStore();
      SamePagesMeans(old(ws), ws, 0);
      ghost var i;
      outcome, i := PageFault(algorithm, page);
      how := How(i, how.tabled);
      IsolatedTwice(dir, st, st', CurrentStore());
      SamePagesMeans(old(ws), Prepared(p, algorithm, how.tabled).ws, i);
      ChoiceBelow(algorithm, Prepared(p, algorithm, how.tabled), i);
    }

    lemma ChoiceBelow(algorithm: Algorithm, q: Pager, i: nat)
      requires PagerOk(q) && SlotChoice(algorithm, q.ws, q.used, q.hand, i)
      ensures i < |q.ws|
    {
    }

    /** One access: nothing at all if the page is resident, otherwise the fault. */
    method Access(algorithm: Algorithm, page: nat) returns (outcome: Outcome, ghost how: How)
      requires Valid() && page < USER_TOP_PAGE && !InMirror(page, wsPages)
      requires mem.Lookup(dir, page).None? ==> Enough(page)
      modifies `ws, `log, `hand, `flat, `blank
      modifies file`free, file`frames, file`directories, file`tables, file`disk
      modifies mem`freeFrames, mem`references, mem`entries, mem`held, mem`litter, mem`ram, mem`directory
      modifies mem`heapTop, mem`records, mem`idx, mem`reverse, mem`blocks
      ensures Valid() && old(log) <= log
      ensures Isolated(dir, old(CurrentStore()), CurrentStore())
      ensures old(mem.Lookup(dir, page)).Some? ==> outcome == Placed && unchanged(this, mem, file)
      ensures outcome == NotStack <==> page !in old(flat) && !InStack(page)
      ensures outcome == NotStack ==> mem.Lookup(dir, page).None?
      ensures outcome == Placed ==> mem.Lookup(dir, page).Some?
      ensures old(mem.Lookup(dir, page)).Some? <==> InWs(old(ws), page)
      ensures outcome == Placed && old(mem.Lookup(dir, page)).None? ==>
                && FaultStep(algorithm, how.tabled, page, old(CurrentPager()), how.slot, CurrentPager())
                && |mem.freeFrames| == |old(mem.freeFrames)| - old(FramesTaken(page))
                && mem.heapTop == old(mem.heapTop + HeapTaken(page))
      ensures old(mem.Lookup(dir, page)).None? ==> how.tabled == old(NoTable(page) > 0)
      ensures var m := Forget(old(Believed()), LostPage(Victim(old(CurrentPager()), Load(page, 0), how.slot),
                                                        dir, old(file.frames)));
              if outcome == Placed then Touched(m, page, Believed()) && page in flat else Believed() == m
      ensures DiskFrameTaken(PageId(dir, page), outcome == Placed && page !in old(flat),
                             old(file.free), old(file.frames), file.free, file.frames)
      ensures outcome == Placed ==>
                log == old(log) + Events(algorithm, Load(page, 0), how.tabled, old(CurrentPager()), how.slot)
    {
      hide Base, LogOk, Isolated, Translate, InStack, Enough, WsPages, SlotChoice, LeastRecent, Histories, Prepared;
      hide UsedBits, UsedMoved, Ticks, MayUse;
      IsolatedRefl(dir, CurrentStore());
      ResidentIsFlat(page);
      ForgetNothing(Believed());
      outcome, how := Placed, How(0, false);
      ghost var was := ws;
      if mem.Lookup(dir, page).None? {
        outcome, how := Fault(algorithm, page);
        VictimElsewhere(was, how.slot, page);
      } else {
        assert log == old(log) + [];
      }
    }

    lemma VictimElsewhere(ws: seq<WsSlot>, i: nat, page: nat)
      requires !InWs(ws, page) && i < |ws|
      ensures forall frames :: page !in LostPage(VictimOf(ws, i), dir, frames)
    {
    }

    /** A page outside the mirror that is mapped may be read and written. */
    lemma PageIsPermitted(page: nat)
      requires Valid() && mem.Lookup(dir, page).Some? && !InMirror(page, wsPages)
      ensures MayUse(mem.Lookup(dir, page).value)
    {
      hide Memory.Valid, OwnershipOk, DiskTablesOk, StoreOk, FlatOk, Rooted, LogOk, Translate, WsPages;
      GetIsLookup();
      assert CurrentStore().Get(dir, page).Some?;
    }

    lemma ResidentContents(page: nat)
      requires Valid() && mem.Lookup(dir, page).Some? && page in flat
      ensures mem.Lookup(dir, page).value.frame < |mem.ram|
      ensures page !in blank ==> mem.ram[mem.Lookup(dir, page).value.frame] == flat[page]
    {
      assert CurrentStore().Get(dir, page).Some?;
      assert page !in blank ==> Seen(CurrentStore(), dir, page) == flat[page];
    }

    /** The memory read of a load on a resident page; the processor sets the used bit. */
    method ReadByte(page: nat, offset: nat) returns (value: bv8)
      requires Valid() && mem.Lookup(dir, page).Some? && page in flat && offset < PAGE_SIZE
      requires mem.Lookup(dir, page).value.perm.user
      modifies mem`entries
      ensures Valid()
      ensures page !in blank ==> value == flat[page][offset]
      ensures mem.Lookup(dir, page)
              == Some(old(mem.Lookup(dir, page).value).(perm := old(mem.Lookup(dir, page).value.perm).(used := true)))
      ensures UsedBits() == TouchUsed(old(CurrentPager()), page)
      ensures Isolated(dir, old(CurrentStore()), CurrentStore())
    {
      hide Memory.Valid, OwnershipOk, DiskTablesOk, StoreOk, FlatOk, Isolated, ResidentOk, Rooted, LogOk, Translate;
      hide FreshHeap, WsPages;
      ghost var st, p := CurrentStore(), CurrentPager();
      var e := mem.Lookup(dir, page).value;
      UsedIs();
      ResidentContents(page);
      value := mem.ram[e.frame][offset];
      mem.SetBits(dir, page, true, e.perm.modified);
      GetIsLookup();
      FreshTouch(st, CurrentStore());
      AfterTouch(flat, blank, dir, wsPages, page, mem.Lookup(dir, page).value, st, CurrentStore());
      ResidentKept(ws, dir, wsPages, st, CurrentStore());
      UsedIs();
      UsedTouched(p, dir, page, st, CurrentStore());
    }

    /** The memory write of a store on a resident page; the processor sets the used and modified bits. */
    method WriteByte(page: nat, offset: nat, value: bv8)
      requires Valid() && mem.Lookup(dir, page).Some? && page in flat && offset < PAGE_SIZE
      requires MayUse(mem.Lookup(dir, page).value)
      modifies `flat, `blank, mem`ram, mem`entries
      ensures Valid()
      ensures page in flat && flat[page][offset] == value
      ensures flat == old(flat)[page := flat[page]] && blank == old(blank) - {page}
      ensures page !in old(blank) ==> flat[page] == old(flat)[page][offset := value]
      ensures mem.Lookup(dir, page)
              == Some(old(mem.Lookup(dir, page).value).(
                        perm := old(mem.Lookup(dir, page).value.perm).(used := true, modified := true)))
      ensures UsedBits() == TouchUsed(old(CurrentPager()), page)
      ensures Isolated(dir, old(CurrentStore()), CurrentStore())
    {
      hide Memory.Valid, OwnershipOk, DiskTablesOk, StoreOk, FlatOk, Isolated, ResidentOk, Rooted, LogOk, Translate;
      hide FreshHeap, WsPages;
      ghost var st, p := CurrentStore(), CurrentPager();
      var e := mem.Lookup(dir, page).value;
      UsedIs();
      ResidentContents(page);
      var contents: Page := mem.ram[e.frame][offset := value];
      mem.StoreFrame(dir, page, contents);
      mem.SetBits(dir, page, true, true);
      GetIsLookup();
      FreshTouch(st, CurrentStore());
      AfterStore(flat, blank, dir, wsPages, page, contents, mem.Lookup(dir, page).value, st, CurrentStore());
      flat, blank := flat[page := contents], blank - {page};
      ResidentKept(ws, dir, wsPages, st, CurrentStore());
      UsedIs();
      UsedTouched(p, dir, page, st, CurrentStore());
    }

    /** A load by the program. */
    method LoadByte(algorithm: Algorithm, page: nat, offset: nat)
      returns (outcome: Outcome, value: bv8, ghost how: How)
      requires Valid() && page < USER_TOP_PAGE && !InMirror(page, wsPages) && offset < PAGE_SIZE
      requires mem.Lookup(dir, page).None? ==> Enough(page)
      modifies `ws, `log, `hand, `flat, `blank
      modifies file`free, file`frames, file`directories, file`tables, file`disk
      modifies mem`freeFrames, mem`references, mem`entries, mem`held, mem`litter, mem`ram, mem`directory
      modifies mem`heapTop, mem`records, mem`idx, mem`reverse, mem`blocks
      ensures Valid() && old(log) <= log
      ensures Isolated(dir, old(CurrentStore()), CurrentStore())
      ensures outcome == NotStack <==> page !in old(flat) && !InStack(page)
      ensures outcome == NotStack ==> mem.Lookup(dir, page).None?
      ensures outcome == Placed ==>
                && PagerStep(algorithm, Load(page, offset), how.tabled, old(CurrentPager()), how.slot, CurrentPager())
                && log == old(log) + Events(algorithm, Load(page, offset), how.tabled, old(CurrentPager()), how.slot)
      ensures old(mem.Lookup(dir, page)).None? ==> how.tabled == old(NoTable(page) > 0)
      ensures var m := Forget(old(Believed()), LostPage(Victim(old(CurrentPager()), Load(page, offset), how.slot),
                                                        dir, old(file.frames)));
              if outcome == Placed then FlatLoad(m, page, offset, value, Believed()) else Believed() == m
      ensures DiskFrameTaken(PageId(dir, page), outcome == Placed && page !in old(flat),
                             old(file.free), old(file.frames), file.free, file.frames)
      ensures outcome == Placed && old(mem.Lookup(dir, page)).None? ==>
                && |mem.freeFrames| == |old(mem.freeFrames)| - old(FramesTaken(page))
                && mem.heapTop == old(mem.heapTop + HeapTaken(page))
      ensures old(mem.Lookup(dir, page)).Some? ==>
                unchanged(file) && unchanged(`ws, `hand) && unchanged(mem`freeFrames, mem`heapTop, mem`directory)
    {
      hide Base, LogOk, Isolated, Translate, InStack, Forget, LostPage, InWs, Full, WsPages, Touched, Enough;
      hide FramesTaken, HeapTaken, FaultStep, UsedBits, Ticks, VictimOf, TouchUsed;
      ghost var p := CurrentPager();
      CoreBounds();
      outcome, how := Access(algorithm, page);
      value := 0;
      if outcome == Placed {
        ghost var st, q := CurrentStore(), CurrentPager();
        PageIsPermitted(page);
        value := ReadByte(page, offset);
        IsolatedTwice(dir, old(CurrentStore()), st, CurrentStore());
        SameOps(algorithm, Load(page, 0), Load(page, offset), how.tabled, p, how.slot);
        TouchedAfter(algorithm, Load(page, offset), how.tabled, p, how.slot, q, CurrentPager());
      }
    }

    /** A store by the program. */
    method StoreByte(algorithm: Algorithm, page: nat, offset: nat, value: bv8)
      returns (outcome: Outcome, ghost how: How)
      requires Valid() && page < USER_TOP_PAGE && !InMirror(page, wsPages) && offset < PAGE_SIZE
      requires mem.Lookup(dir, page).None? ==> Enough(page)
      modifies `ws, `log, `hand, `flat, `blank
      modifies file`free, file`frames, file`directories, file`tables, file`disk
      modifies mem`freeFrames, mem`references, mem`entries, mem`held, mem`litter, mem`ram, mem`directory
      modifies mem`heapTop, mem`records, mem`idx, mem`reverse, mem`blocks
      ensures Valid() && old(log) <= log
      ensures Isolated(dir, old(CurrentStore()), CurrentStore())
      ensures outcome == NotStack <==> page !in old(flat) && !InStack(page)
      ensures outcome == NotStack ==> mem.Lookup(dir, page).None?
      ensures outcome == Placed ==>
                && PagerStep(algorithm, Op.Store(page, offset, value), how.tabled, old(CurrentPager()), how.slot,
                   CurrentPager())
                && log == old(log) + Events(algorithm, Op.Store(page, offset, value), how.tabled, old(CurrentPager()),
                   how.slot)
      ensures old(mem.Lookup(dir, page)).None? ==> how.tabled == old(NoTable(page) > 0)
      ensures var m := Forget(old(Believed()),
              LostPage(Victim(old(CurrentPager()), Op.Store(page, offset, value), how.slot),
                                                        dir, old(file.frames)));
              if outcome == Placed then FlatStore(m, page, offset, value, Believed()) else Believed() == m
      ensures DiskFrameTaken(PageId(dir, page), outcome == Placed && page !in old(flat),
                             old(file.free), old(file.frames), file.free, file.frames)
      ensures outcome == Placed && old(mem.Lookup(dir, page)).None? ==>
                && |mem.freeFrames| == |old(mem.freeFrames)| - old(FramesTaken(page))
                && mem.heapTop == old(mem.heapTop + HeapTaken(page))
      ensures old(mem.Lookup(dir, page)).Some? ==>
                unchanged(file) && unchanged(`ws, `hand) && unchanged(mem`freeFrames, mem`heapTop, mem`directory)
    {
      hide Base, LogOk, Isolated, Translate, InStack, Forget, LostPage, InWs, Full, WsPages, Enough, MayUse;
      hide FramesTaken, HeapTaken, FaultStep, UsedBits, Ticks, VictimOf, TouchUsed;
      ghost var p := CurrentPager();
      CoreBounds();
      outcome, how := Access(algorithm, page);
      if outcome == Placed {
        ghost var st, q := CurrentStore(), CurrentPager();
        PageIsPermitted(page);
        WriteByte(page, offset, value);
        IsolatedTwice(dir, old(CurrentStore()), st, CurrentStore());
        SameOps(algorithm, Load(page, 0), Op.Store(page, offset, value), how.tabled, p, how.slot);
        TouchedAfter(algorithm, Op.Store(page, offset, value), how.tabled, p, how.slot, q, CurrentPager());
      }
    }

    /** An operation a user program may ask for: the mirror is read-only and belongs to the kernel. */
    predicate UserOp(op: Op) {
      op.Other? || (op.page < USER_TOP_PAGE && op.offset < PAGE_SIZE && !InMirror(op.page, wsPages))
    }

    /** The operation faults. */
    ghost predicate Faults(op: Op)
      reads mem
    {
      !op.Other? && mem.Lookup(dir, op.page).None?
    }

    /** What stops a run: a fault on an address outside the program's pages and the stack, on which the kernel
        panics, or one that finds the frame list or the kernel heap exhausted. */
    ghost predicate Stuck(op: Op)
      reads this, mem, file
    {
      Faults(op) && (!Enough(op.page) || (op.page !in flat && !InStack(op.page)))
    }

    /** The operation gives the program a page. */
    ghost predicate Grows(op: Op)
      reads this
    {
      !op.Other? && op.page !in flat
    }

    /** One operation under the algorithm in force; Other is a clock tick. */
    method Step(op: Op, algorithm: Algorithm) returns (ok: bool, value: bv8, ghost how: How)
      requires Valid() && UserOp(op)
      modifies `ws, `log, `hand, `flat, `blank
      modifies file`free, file`frames, file`directories, file`tables, file`disk
      modifies mem`freeFrames, mem`references, mem`entries, mem`held, mem`litter, mem`ram, mem`directory
      modifies mem`heapTop, mem`records, mem`idx, mem`reverse, mem`blocks
      ensures Valid() && old(log) <= log
      ensures Isolated(dir, old(CurrentStore()), CurrentStore())
      ensures ok <==> !old(Stuck(op))
      ensures ok ==> AccessStep(old(ProgramOf(this)), |old(file.free)|, algorithm, op, value, how,
                                ProgramOf(this), |file.free|)
      ensures ok ==> log == old(log) + Events(algorithm, op, how.tabled, old(CurrentPager()), how.slot)
      ensures old(Faults(op)) ==> how.tabled == old(NoTable(op.page) > 0)
      ensures !ok ==> Stuck(op)
      ensures !ok ==> Believed() == Forget(old(Believed()), LostPage(Victim(old(CurrentPager()), op, how.slot),
                                                                     dir, old(file.frames)))
                      || Believed() == old(Believed())
      ensures DiskFrameTaken(PageId(dir, PageOf(op)), ok && old(Grows(op)),
                             old(file.free), old(file.frames), file.free, file.frames)
      ensures ok && old(Faults(op)) ==>
                && |mem.freeFrames| == |old(mem.freeFrames)| - old(FramesTaken(op.page))
                && mem.heapTop == old(mem.heapTop + HeapTaken(op.page))
      ensures !ok && (op.page in old(flat) || InStack(op.page)) ==>
                |old(mem.freeFrames)| < old(FramesTaken(op.page))
                  || mem.heapMax <= old(mem.heapTop + HeapTaken(op.page))
      ensures !op.Other? && !old(Faults(op)) ==>
                unchanged(file) && unchanged(`ws, `hand) && unchanged(mem`freeFrames, mem`heapTop, mem`directory)
    {
      hide Base, LogOk, Isolated, FlatLoad, FlatStore, InStack, UsedBits, Translate, FramesTaken, HeapTaken;
      hide InWs, LostPage, WsPages, AccessStep, Events, PagerStep, BackedPages, DiskFrameTaken;
      ok, value, how := true, 0, How(0, false);
      ghost var p, free, frames := ProgramOf(this), file.free, file.frames;
      NothingTaken(dir, file.free, file.frames);
      if op.Other? {
        ForgetNothing(Believed());
        StampsIfLru(algorithm);
        TickStep(algorithm, op, p.pager);
        AccessIs(dir, p, free, frames, algorithm, op, value, how, ProgramOf(this), file.free, file.frames);
        return;
      }
      IsolatedRefl(dir, CurrentStore());
      ResidentIsFlat(op.page);
      if mem.Lookup(dir, op.page).None? && !Enough(op.page) {
        return false, 0, How(0, NoTable(op.page) > 0);
      }
      var outcome;
      if op.Load? {
        outcome, value, how := LoadByte(algorithm, op.page, op.offset);
      } else {
        outcome, how := StoreByte(algorithm, op.page, op.offset, op.value);
      }
      ok := outcome == Placed;
      if ok {
        AccessIs(dir, p, free, frames, algorithm, op, value, how, ProgramOf(this), file.free, file.frames);
      }
    }

    lemma NothingTaken(dir: nat, free: seq<nat>, frames: map<PageId, nat>)
      ensures LostPage(None, dir, frames) == {} && forall p :: DiskFrameTaken(p, false, free, frames, free, frames)
    {
    }

    /** Demand paging is invisible: whatever the sequence of loads, stores, clock ticks and algorithm
        changes, the values read are those of a flat memory, from which exactly the victims without a disk
        frame disappear, and set, hand, stamps and used bits move as the algorithms define. No other
        environment is affected. The run is complete unless an operation gets stuck. */
    method Run(ops: seq<Op>, algorithms: seq<Algorithm>)
      returns (values: seq<bv8>, ghost trace: seq<Program>, ghost frees: seq<nat>, ghost hows: seq<How>)
      requires Valid() && |algorithms| == |ops|
      requires forall op | op in ops :: UserOp(op)
      modifies `ws, `log, `hand, `flat, `blank
      modifies file`free, file`frames, file`directories, file`tables, file`disk
      modifies mem`freeFrames, mem`references, mem`entries, mem`held, mem`litter, mem`ram, mem`directory
      modifies mem`heapTop, mem`records, mem`idx, mem`reverse, mem`blocks
      ensures Valid() && old(log) <= log
      ensures |values| <= |ops|
      ensures ProgramRun(trace, frees, algorithms[..|values|], ops[..|values|], values, hows)
      ensures trace[0] == old(ProgramOf(this)) && frees[0] == |old(file.free)| && Whole(trace[0])
      ensures forall e | e in old(log) :: EventOk(e, maxSize)
      ensures StampsRecord(trace[0].pager.ws, Histories(maxSize, old(log)))
      ensures Isolated(dir, old(CurrentStore()), CurrentStore())
      ensures |values| < |ops| ==> Stuck(ops[|values|])
      ensures |values| == |ops| ==> trace[|values|] == ProgramOf(this) && frees[|values|] == |file.free|
      ensures |values| == |ops| && (forall a | a in algorithms :: a == FIFO) ==>
                FifoFollows(old(ws), old(hand), Arrivals(old(ws), old(hand), ops), ws, hand)
    {
      hide Valid, Isolated, AccessStep, ProgramOf, FifoFollows, Stuck, Arrivals, Whole, StampsRecord, Events;
      hide EventOk, Histories, Faults, UserOp, FramesTaken, HeapTaken, DiskFrameTaken, NoTable, InWs, Forget, Victim;
      values, trace, frees, hows := [], [ProgramOf(this)], [|file.free|], [];
      ProgramIs();
      IsWhole();
      IsRecorded();
      IsolatedRefl(dir, CurrentStore());
      for k := 0 to |ops|
        invariant Valid() && |values| == k && old(log) <= log
        invariant ProgramRun(trace, frees, algorithms[..k], ops[..k], values, hows)
        invariant trace[0] == old(ProgramOf(this)) && frees[0] == |old(file.free)|
        invariant trace[k] == ProgramOf(this) && frees[k] == |file.free|
        invariant Isolated(dir, old(CurrentStore()), CurrentStore())
      {
        ghost var st := CurrentStore();
        ghost var how;
        var ok, value;
        ok, value, how := Step(ops[k], algorithms[k]);
        IsolatedTwice(dir, old(CurrentStore()), st, CurrentStore());
        if !ok {
          return;
        }
        assert ops[..k + 1] == ops[..k] + [ops[k]] && algorithms[..k + 1] == algorithms[..k] + [algorithms[k]];
        values, trace, frees := values + [value], trace + [ProgramOf(this)], frees + [|file.free|];
        hows := hows + [how];
      }
      assert ops[..|ops|] == ops && algorithms[..|ops|] == algorithms;
      if forall a | a in algorithms :: a == FIFO {
        assert forall i | 0 <= i < |ops| :: algorithms[i] in algorithms;
        PagerIsOk(trace[0]);
        FifoIsQueue(trace, frees, algorithms, ops, values, hows, |ops|);
        ProgramIs();
      }
    }

    /** Every page of the program is resident or has a disk frame. */
    lemma IsWhole()
      requires Valid()
      ensures Whole(ProgramOf(this))
    {
      hide Memory.Valid, OwnershipOk, DiskTablesOk, StoreOk, Rooted, LogOk, Translate, WsPages;
      assert forall v | v in Resident(ws) :: Holds(dir, wsPages, CurrentStore(), v);
    }

    /** The stamps record reference histories since the environment began. */
    lemma IsRecorded()
      requires Valid()
      ensures forall e | e in log :: EventOk(e, maxSize)
      ensures StampsRecord(ws, Histories(maxSize, log))
    {
      hide Base, WsRun, StampsRecord;
      EmptyStamps(maxSize);
      StampsRecordRun(EmptySet(maxSize), NoHistories(maxSize), log);
    }

    lemma ProgramIs()
      ensures ProgramOf(this).pager.ws == ws && ProgramOf(this).pager.hand == hand
    {
    }
  }

  /** What the program of an environment has. */
  ghost function ProgramOf(e: Env): Program
    reads e, e.file, e.mem
  {
    Program(e.Believed(), BackedPages(e.dir, e.file.frames), e.CurrentPager(), e.wsPages)
  }

  lemma PagerIsOk(p: Program)
    requires Whole(p)
    ensures PagerOk(p.pager)
  {
  }

  /** The memory, the page file and the working set after one operation, put together. */
  lemma AccessIs(
    dir: nat, p: Program, free: seq<nat>, frames: map<PageId, nat>, algorithm: Algorithm, op: Op, value: bv8,
    how: How, p': Program, free': seq<nat>, frames': map<PageId, nat>)
    requires p.backed == BackedPages(dir, frames) && p'.backed == BackedPages(dir, frames') && p'.mirror == p.mirror
    requires PagerStep(algorithm, op, how.tabled, p.pager, how.slot, p'.pager)
    requires FlatStep(Forget(p.memory, LostPage(Victim(p.pager, op, how.slot), dir, frames)), op, value, p'.memory)
    requires IsNew(p, op) ==> PageId(dir, op.page) !in frames
    requires DiskFrameTaken(PageId(dir, PageOf(op)), IsNew(p, op), free, frames, free', frames')
    ensures AccessStep(p, |free|, algorithm, op, value, how, p', |free'|)
  {
    hide FlatStep, Forget, PagerStep, Victim;
    assert LostPage(Victim(p.pager, op, how.slot), dir, frames) == LostWith(p, Victim(p.pager, op, how.slot));
    assert IsNew(p, op) && free != [] ==> p'.backed == p.backed + {op.page};
  }
}
