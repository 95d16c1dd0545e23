/** memory_manager.c and kheap.c: frame lists, the bump-allocated kernel heap with its
    frame-to-address reverse map, and two-level user page tables stored in kernel-heap pages. */
module KernelMemory {
  import opened Common
  import opened FrameAccounting

  const PAGE_TABLE_ENTRIES := 1024
  const USER_TOP_PAGE := 0xEEC00
  const USER_TABLES := USER_TOP_PAGE / PAGE_TABLE_ENTRIES

  /** A user page-directory entry: the directory (named by its kernel-heap page) and PDX. */
  datatype Pde = Pde(dir: nat, index: nat)

  /** What a live kernel-heap block is used for. */
  datatype Owner =
    | PageDirectory
    | PageTable(pde: Pde)
    | WorkingSet(dir: nat)
    | DiskDirectory(dir: nat)
    | DiskTable(pde: Pde)

  datatype Block = Block(index: nat, owner: Owner, pages: nat)

  /** A block that lasts as long as its environment. */
  predicate Anchor(owner: Owner) {
    owner.PageDirectory? || owner.WorkingSet?
  }

  /** The environment an owned kernel-heap block belongs to; a directory belongs to itself. */
  predicate OwnedBy(page: nat, owner: Owner, dir: nat) {
    match owner
    case PageDirectory => page == dir
    case PageTable(d) => d.dir == dir
    case WorkingSet(d) => d == dir
    case DiskDirectory(d) => d == dir
    case DiskTable(d) => d.dir == dir
  }

  /** One element of allocatedHAddresses, with page numbers for addresses and pages for sizes. */
  datatype Record = Record(page: nat, size: nat, empty: bool)

  /** The contents of a frame or of a disk block. */
  type Page = c: seq<bv8> | |c| == PAGE_SIZE witness seq(PAGE_SIZE, _ => 0)

  const KERNEL_PERM := Perm(false, true, false, false)

  predicate InRange(s: Slot, lo: nat, hi: nat) {
    s.HeapSlot? && lo <= s.page < hi
  }

  predicate InTable(s: Slot, table: nat, n: nat) {
    s.TableSlot? && s.table == table && s.index < n
  }

  /** virtualAddresses[] and the kernel's heap mappings are inverse to each other. */
  ghost predicate HeapOk(entries: map<Slot, Entry>, reverse: seq<nat>, heapStart: nat, heapTop: nat) {
    && 0 < heapStart <= heapTop
    && (forall p: nat {:trigger HeapSlot(p)} :: HeapSlot(p) in entries ==>
          && heapStart <= p < heapTop
          && entries[HeapSlot(p)].frame < |reverse|
          && reverse[entries[HeapSlot(p)].frame] == p
          && entries[HeapSlot(p)].perm.writeable && !entries[HeapSlot(p)].perm.user)
    && (forall f | 0 <= f < |reverse| && reverse[f] != 0 ::
          HeapSlot(reverse[f]) in entries && entries[HeapSlot(reverse[f])].frame == f)
  }

  /** Where block `i` must end: where the next one starts, the last one at the top. */
  function NextStart(records: seq<Record>, idx: nat, heapTop: nat, i: nat): nat
    requires i < idx <= |records|
  {
    if i == idx - 1 then heapTop else records[i + 1].page
  }

  ghost predicate Tiled(records: seq<Record>, idx: nat, heapStart: nat, heapTop: nat)
    requires idx <= |records|
  {
    && (if idx == 0 then heapTop == heapStart else records[0].page == heapStart)
    && forall i: nat {:trigger NextStart(records, idx, heapTop, i)} | i < idx ::
         records[i].page + records[i].size == NextStart(records, idx, heapTop, i)
  }

  lemma TiledAfterKmalloc(records: seq<Record>, idx: nat, heapStart: nat, heapTop: nat, size: nat)
    requires idx < |records| && Tiled(records, idx, heapStart, heapTop)
    ensures Tiled(records[idx := Record(heapTop, size, false)], idx + 1, heapStart, heapTop + size)
  {
    var records' := records[idx := Record(heapTop, size, false)];
    forall i: nat | i < idx + 1
      ensures records'[i].page + records'[i].size == NextStart(records', idx + 1, heapTop + size, i)
    {
      if i < idx {
        assert records[i].page + records[i].size == NextStart(records, idx, heapTop, i);
      }
    }
  }

  lemma TiledAfterKfree(records: seq<Record>, idx: nat, heapStart: nat, heapTop: nat, i: nat)
    requires idx <= |records| && i < |records| && Tiled(records, idx, heapStart, heapTop)
    ensures Tiled(records[i := records[i].(empty := true)], idx, heapStart, heapTop)
  {
    var records' := records[i := records[i].(empty := true)];
    forall j: nat | j < idx
      ensures records'[j].page + records'[j].size == NextStart(records', idx, heapTop, j)
    {
      assert records[j].page + records[j].size == NextStart(records, idx, heapTop, j);
    }
  }

  /** The blocks handed out so far tile the heap from heapStart to heapTop. */
  ghost predicate LayoutOk(records: seq<Record>, idx: nat, heapStart: nat, heapTop: nat) {
    && idx <= |records|
    && Tiled(records, idx, heapStart, heapTop)
    && (forall i | 0 <= i < idx ::
          records[i].size > 0 && heapStart <= records[i].page && records[i].page + records[i].size <= heapTop)
    && (forall i, j | 0 <= i < j < idx :: records[i].page + records[i].size <= records[j].page)
    && (forall i | idx <= i < |records| :: records[i].page == 0)
  }

  /** A block's pages are mapped exactly while it is live, and `blocks` lists the live ones. */
  ghost predicate LiveOk(records: seq<Record>, idx: nat, entries: map<Slot, Entry>, blocks: map<nat, Block>)
    requires idx <= |records|
  {
    && (forall i, p: nat | 0 <= i < idx && records[i].page <= p < records[i].page + records[i].size ::
          HeapSlot(p) in entries <==> !records[i].empty)
    && (forall p | p in blocks ::
          && blocks[p].index < idx && records[blocks[p].index].page == p && !records[blocks[p].index].empty
          && records[blocks[p].index].size == blocks[p].pages)
    && (forall i | 0 <= i < idx && !records[i].empty :: records[i].page in blocks)
  }

  ghost predicate BlocksOk(
    records: seq<Record>, idx: nat, entries: map<Slot, Entry>, heapStart: nat, heapTop: nat, blocks: map<nat, Block>)
  {
    LayoutOk(records, idx, heapStart, heapTop) && LiveOk(records, idx, entries, blocks)
  }

  /** Frames that backed a heap page still back the same page. */
  ghost predicate StillBacked(reverse: seq<nat>, reverse': seq<nat>) {
    && |reverse| == |reverse'|
    && forall f | 0 <= f < |reverse| && reverse[f] != 0 :: reverse'[f] == reverse[f]
  }

  /** Blocks that stay live keep their record, their owner and the frame behind their first page. */
  ghost predicate Kept(reverse: seq<nat>, blocks: map<nat, Block>, reverse': seq<nat>, blocks': map<nat, Block>) {
    && |reverse| == |reverse'|
    && (forall p | p in blocks && p in blocks' :: blocks[p] == blocks'[p])
    && (forall f | 0 <= f < |reverse| && reverse[f] in blocks && reverse[f] in blocks' :: reverse'[f] == reverse[f])
  }

  /** Only page tables are freed, and no environment begins. */
  ghost predicate BlocksKept(blocks: map<nat, Block>, blocks': map<nat, Block>) {
    && (forall p | p in blocks && !blocks[p].owner.PageTable? :: p in blocks' && blocks'[p] == blocks[p])
    && (forall p | p in blocks' && Anchor(blocks'[p].owner) :: p in blocks && blocks'[p] == blocks[p])
  }

  lemma BlocksKeptRefl(blocks: map<nat, Block>)
    ensures BlocksKept(blocks, blocks)
  {
  }

  lemma BlocksKeptTwice(blocks: map<nat, Block>, blocks': map<nat, Block>, blocks'': map<nat, Block>)
    requires BlocksKept(blocks, blocks') && BlocksKept(blocks', blocks'')
    ensures BlocksKept(blocks, blocks'')
  {
  }

  lemma KeptRefl(reverse: seq<nat>, blocks: map<nat, Block>)
    ensures Kept(reverse, blocks, reverse, blocks)
  {
  }

  lemma KeptBlocks(reverse: seq<nat>, blocks: map<nat, Block>, reverse': seq<nat>, blocks': map<nat, Block>)
    requires Kept(reverse, blocks, reverse', blocks')
    ensures |reverse| == |reverse'|
    ensures forall p | p in blocks && p in blocks' :: blocks[p] == blocks'[p]
  {
  }

  lemma KeptTwice(
    reverse: seq<nat>, blocks: map<nat, Block>, reverse': seq<nat>, blocks': map<nat, Block>,
    reverse'': seq<nat>, blocks'': map<nat, Block>)
    requires Kept(reverse, blocks, reverse', blocks') && Kept(reverse', blocks', reverse'', blocks'')
    requires blocks''.Keys <= blocks'.Keys
    ensures Kept(reverse, blocks, reverse'', blocks'')
  {
  }

  /** Every directory entry names a live heap page owned by that very entry, every such page is
      named by its entry, and every user page-table entry lies in a table that some directory names.
      `lost` words were left behind in tables that are no more. */
  ghost predicate TablesOk(
    entries: map<Slot, Entry>, directory: map<Pde, nat>, reverse: seq<nat>, blocks: map<nat, Block>, lost: nat)
  {
    && (forall d | d in directory ::
          && d.index < USER_TABLES
          && directory[d] < |reverse|
          && reverse[directory[d]] in blocks
          && blocks[reverse[directory[d]]].owner == PageTable(d))
    && (forall p | p in blocks && blocks[p].owner.PageTable? ::
          && blocks[p].owner.pde in directory
          && directory[blocks[p].owner.pde] < |reverse|
          && reverse[directory[blocks[p].owner.pde]] == p)
    && (forall s | s in entries && s.TableSlot? ::
          && s.index < PAGE_TABLE_ENTRIES
          && s.table < |reverse|
          && reverse[s.table] in blocks
          && blocks[reverse[s.table]].owner.PageTable?
          && blocks[reverse[s.table]].owner.pde in directory
          && directory[blocks[reverse[s.table]].owner.pde] == s.table)
    && (forall k: nat {:trigger LostSlot(k)} :: LostSlot(k) in entries <==> k < lost)
  }

  function TableEntry(dir: nat, page: nat): Pde {
    Pde(dir, page / PAGE_TABLE_ENTRIES)
  }

  function SlotOf(directory: map<Pde, nat>, dir: nat, page: nat): Slot
    requires TableEntry(dir, page) in directory
  {
    TableSlot(directory[TableEntry(dir, page)], page % PAGE_TABLE_ENTRIES)
  }

  /** PDX and PTX: the directory index and the table index are the two parts of the page number. */
  lemma PageIsSplit(directory: map<Pde, nat>, dir: nat, page: nat)
    requires TableEntry(dir, page) in directory
    ensures SlotOf(directory, dir, page).TableSlot? && SlotOf(directory, dir, page).index < 1024
    ensures TableEntry(dir, page).dir == dir
    ensures 1024 * TableEntry(dir, page).index + SlotOf(directory, dir, page).index == page
  {
  }

  /** The translation of a user page, as the processor's two-level walk computes it. */
  function Translate(entries: map<Slot, Entry>, directory: map<Pde, nat>, dir: nat, page: nat): Option<Entry> {
    if TableEntry(dir, page) in directory && SlotOf(directory, dir, page) in entries
    then Some(entries[SlotOf(directory, dir, page)])
    else None
  }

  /** No two user pages, of the same or of different environments, share a page-table slot. */
  lemma SlotsDistinct(
    entries: map<Slot, Entry>, directory: map<Pde, nat>, reverse: seq<nat>, blocks: map<nat, Block>,
    dir: nat, page: nat, dir': nat, page': nat, lost: nat)
    requires TablesOk(entries, directory, reverse, blocks, lost)
    requires TableEntry(dir, page) in directory && TableEntry(dir', page') in directory
    requires SlotOf(directory, dir, page) == SlotOf(directory, dir', page')
    ensures dir == dir' && page == page'
  {
    var d, d' := TableEntry(dir, page), TableEntry(dir', page');
    assert blocks[reverse[directory[d]]].owner == PageTable(d);
    assert blocks[reverse[directory[d']]].owner == PageTable(d');
  }

  /** A frame that was just taken from the free list is named by no entry and backs no heap page. */
  lemma HeldFrameUnnamed(
    references: seq<nat>, free: seq<nat>, entries: map<Slot, Entry>, held: set<nat>, usable: set<nat>, f: nat)
    requires Conserved(references, free, entries, held, usable)
    requires f in held || f in free
    ensures f in usable && f < |references|
    ensures f in held ==> f !in free
    ensures forall s | s in entries :: entries[s].frame != f
  {
    assert |Namers(entries, f)| == 0;
    forall s | s in entries
      ensures entries[s].frame != f
    {
      assert s !in Namers(entries, f);
    }
  }

  lemma HeapAfterGrow(entries: map<Slot, Entry>, reverse: seq<nat>, heapStart: nat, heapTop: nat, f: nat)
    requires HeapOk(entries, reverse, heapStart, heapTop)
    requires f < |reverse|
    requires forall s | s in entries :: entries[s].frame != f
    ensures HeapSlot(heapTop) !in entries
    ensures reverse[f] == 0
    ensures HeapOk(entries[HeapSlot(heapTop) := Entry(f, KERNEL_PERM)], reverse[f := heapTop], heapStart, heapTop + 1)
  {
  }

  /** `entries` after `frames` are mapped at consecutive heap pages from `page`. */
  ghost function HeapRun(entries: map<Slot, Entry>, page: nat, frames: seq<nat>): map<Slot, Entry> {
    if frames == [] then entries
    else var k := |frames| - 1;
         HeapRun(entries, page, frames[..k])[HeapSlot(page + k) := Entry(frames[k], KERNEL_PERM)]
  }

  lemma {:induction false} HeapRunAt(entries: map<Slot, Entry>, page: nat, frames: seq<nat>, s: Slot)
    ensures var run := HeapRun(entries, page, frames);
            if InRange(s, page, page + |frames|)
            then s in run && run[s] == Entry(frames[s.page - page], KERNEL_PERM)
            else (s in run <==> s in entries) && (s in run ==> run[s] == entries[s])
  {
    if frames != [] {
      HeapRunAt(entries, page, frames[..|frames| - 1], s);
    }
  }

  lemma BlocksAfterKmalloc(
    records: seq<Record>, idx: nat, entries: map<Slot, Entry>, heapStart: nat, heapTop: nat,
    blocks: map<nat, Block>, frames: seq<nat>, owner: Owner)
    requires BlocksOk(records, idx, entries, heapStart, heapTop, blocks)
    requires idx < |records| && heapStart <= heapTop && frames != []
    ensures heapTop !in blocks
    ensures BlocksOk(records[idx := Record(heapTop, |frames|, false)], idx + 1, HeapRun(entries, heapTop, frames),
                     heapStart, heapTop + |frames|, blocks[heapTop := Block(idx, owner, |frames|)])
  {
    hide HeapRun, Tiled;
    TiledAfterKmalloc(records, idx, heapStart, heapTop, |frames|);
    forall p: nat
      ensures HeapSlot(p) in HeapRun(entries, heapTop, frames)
              <==> heapTop <= p < heapTop + |frames| || HeapSlot(p) in entries
    {
      HeapRunAt(entries, heapTop, frames, HeapSlot(p));
    }
  }

  /** `entries` with the heap pages in [lo, hi) unmapped. */
  ghost function WithoutRun(entries: map<Slot, Entry>, lo: nat, hi: nat): map<Slot, Entry> {
    map s | s in entries && !InRange(s, lo, hi) :: entries[s]
  }

  /** The reverse map after the heap pages in [lo, hi) lose their frames. */
  ghost predicate Released(reverse: seq<nat>, reverse': seq<nat>, lo: nat, hi: nat) {
    && |reverse| == |reverse'|
    && forall f | 0 <= f < |reverse| :: reverse'[f] == if lo <= reverse[f] < hi then 0 else reverse[f]
  }

  lemma HeapAfterShrink(entries: map<Slot, Entry>, reverse: seq<nat>, heapStart: nat, heapTop: nat, page: nat)
    requires HeapOk(entries, reverse, heapStart, heapTop)
    requires HeapSlot(page) in entries
    ensures var f := entries[HeapSlot(page)].frame;
            && f < |reverse|
            && HeapOk(Without(entries, HeapSlot(page)), reverse[f := 0], heapStart, heapTop)
            && Released(reverse, reverse[f := 0], page, page + 1)
  {
  }

  /** An address recorded in allocatedHAddresses is live exactly when its record is not marked empty. */
  lemma RecordLive(
    records: seq<Record>, idx: nat, entries: map<Slot, Entry>, heapStart: nat, heapTop: nat, blocks: map<nat, Block>,
    i: nat)
    requires BlocksOk(records, idx, entries, heapStart, heapTop, blocks)
    requires i < |records| && records[i].page != 0
    ensures i < idx
    ensures records[i].page in blocks <==> !records[i].empty
    ensures records[i].page in blocks ==> blocks[records[i].page].index == i
  {
    if records[i].page in blocks {
      var j := blocks[records[i].page].index;
      assert i == j;
    }
  }

  lemma BlocksAfterKfree(
    records: seq<Record>, idx: nat, entries: map<Slot, Entry>, heapStart: nat, heapTop: nat, blocks: map<nat, Block>,
    i: nat)
    requires BlocksOk(records, idx, entries, heapStart, heapTop, blocks)
    requires i < |records| && records[i].page != 0
    ensures var r := records[i];
            BlocksOk(records[i := r.(empty := true)], idx, WithoutRun(entries, r.page, r.page + r.size),
                     heapStart, heapTop, blocks - {r.page})
  {
    hide Tiled;
    RecordLive(records, idx, entries, heapStart, heapTop, blocks, i);
    TiledAfterKfree(records, idx, heapStart, heapTop, i);
    var r := records[i];
    assert forall j, p: nat | 0 <= j < idx && records[j].page <= p < records[j].page + records[j].size ::
             InRange(HeapSlot(p), r.page, r.page + r.size) <==> j == i;
    LiveAfterKfree(records, idx, entries, blocks, i);
  }

  lemma LiveAfterKfree(records: seq<Record>, idx: nat, entries: map<Slot, Entry>, blocks: map<nat, Block>, i: nat)
    requires i < idx <= |records|
    requires LiveOk(records, idx, entries, blocks)
    requires records[i].page in blocks ==> blocks[records[i].page].index == i
    requires var r := records[i];
             forall j, p: nat | 0 <= j < idx && records[j].page <= p < records[j].page + records[j].size ::
               InRange(HeapSlot(p), r.page, r.page + r.size) <==> j == i
    requires forall j | 0 <= j < idx && j != i :: records[j].page != records[i].page
    ensures var r := records[i];
            LiveOk(records[i := r.(empty := true)], idx, WithoutRun(entries, r.page, r.page + r.size),
              blocks - {r.page})
  {
  }

  /** A live block is recorded at its index, and no other live block starts inside it. */
  lemma BlocksApart(
    records: seq<Record>, idx: nat, entries: map<Slot, Entry>, heapStart: nat, heapTop: nat, blocks: map<nat, Block>,
    page: nat)
    requires BlocksOk(records, idx, entries, heapStart, heapTop, blocks)
    requires page in blocks
    ensures var i := blocks[page].index;
            && i < idx <= |records| && records[i].page == page
            && forall p | p in blocks && page <= p < page + records[i].size :: p == page
  {
  }

  lemma {:induction false} RecordOfPage(
    records: seq<Record>, idx: nat, heapStart: nat, heapTop: nat, p: nat, n: nat) returns (i: nat)
    requires LayoutOk(records, idx, heapStart, heapTop) && 0 < n <= idx
    requires heapStart <= p < records[n - 1].page + records[n - 1].size
    ensures i < idx && records[i].page <= p < records[i].page + records[i].size
  {
    i := n - 1;
    assert n > 1 ==> records[n - 2].page + records[n - 2].size == NextStart(records, idx, heapTop, n - 2);
    if p < records[i].page {
      i := RecordOfPage(records, idx, heapStart, heapTop, p, n - 1);
    }
  }

  /** A mapped heap page lies in exactly one live block. */
  lemma BlockOfPage(
    records: seq<Record>, idx: nat, entries: map<Slot, Entry>, reverse: seq<nat>, heapStart: nat, heapTop: nat,
    blocks: map<nat, Block>, p: nat) returns (h: nat)
    requires HeapOk(entries, reverse, heapStart, heapTop)
    requires BlocksOk(records, idx, entries, heapStart, heapTop, blocks)
    requires HeapSlot(p) in entries
    ensures h in blocks && blocks[h].index < |records| && h <= p < h + records[blocks[h].index].size
  {
    assert idx > 0 ==> records[idx - 1].page + records[idx - 1].size == NextStart(records, idx, heapTop, idx - 1);
    var i := RecordOfPage(records, idx, heapStart, heapTop, p, idx);
    h := records[i].page;
    assert !records[i].empty;
    RecordLive(records, idx, entries, heapStart, heapTop, blocks, i);
  }

  /** A block that is already free has nothing mapped, so taking its pages away changes nothing. */
  lemma EmptyBlockUnmapped(
    records: seq<Record>, idx: nat, entries: map<Slot, Entry>, heapStart: nat, heapTop: nat, blocks: map<nat, Block>,
    i: nat)
    requires BlocksOk(records, idx, entries, heapStart, heapTop, blocks)
    requires i < |records| && records[i].page != 0 && records[i].empty
    ensures WithoutRun(entries, records[i].page, records[i].page + records[i].size) == entries
    ensures blocks - {records[i].page} == blocks
    ensures records[i := records[i].(empty := true)] == records
  {
    RecordLive(records, idx, entries, heapStart, heapTop, blocks, i);
  }

  /** The two maps agree on the kernel-heap pages. */
  ghost predicate SameHeap(entries: map<Slot, Entry>, entries': map<Slot, Entry>) {
    forall p: nat {:trigger HeapSlot(p)} ::
      && (HeapSlot(p) in entries <==> HeapSlot(p) in entries')
      && (HeapSlot(p) in entries ==> entries[HeapSlot(p)] == entries'[HeapSlot(p)])
  }

  lemma HeapUntouched(
    entries: map<Slot, Entry>, entries': map<Slot, Entry>, reverse: seq<nat>, records: seq<Record>, idx: nat,
    heapStart: nat, heapTop: nat, blocks: map<nat, Block>)
    requires HeapOk(entries, reverse, heapStart, heapTop)
    requires BlocksOk(records, idx, entries, heapStart, heapTop, blocks)
    requires SameHeap(entries, entries')
    ensures HeapOk(entries', reverse, heapStart, heapTop)
    ensures BlocksOk(records, idx, entries', heapStart, heapTop, blocks)
  {
  }

  /** The two maps agree everywhere but on the kernel-heap pages. */
  ghost predicate SameUserSlots(entries: map<Slot, Entry>, entries': map<Slot, Entry>) {
    forall s: Slot | !s.HeapSlot? ::
      && (s in entries <==> s in entries')
      && (s in entries ==> entries[s] == entries'[s])
  }

  /** kheap_virtual_address never fails on a directory entry: it leads back to the table's own frame. */
  lemma TableFound(
    entries: map<Slot, Entry>, directory: map<Pde, nat>, reverse: seq<nat>, records: seq<Record>, idx: nat,
    heapStart: nat, heapTop: nat, blocks: map<nat, Block>, d: Pde, lost: nat)
    requires HeapOk(entries, reverse, heapStart, heapTop)
    requires BlocksOk(records, idx, entries, heapStart, heapTop, blocks)
    requires TablesOk(entries, directory, reverse, blocks, lost)
    requires d in directory
    ensures directory[d] < |reverse|
    ensures var page := reverse[directory[d]];
            && page != 0 && page in blocks
            && HeapSlot(page) in entries && entries[HeapSlot(page)].frame == directory[d]
  {
    var page := reverse[directory[d]];
    assert records[blocks[page].index].page == page;
  }

  /** A fresh kernel-heap page becomes the table of a directory entry that had none. */
  lemma TablesAfterCreate(
    entries: map<Slot, Entry>, directory: map<Pde, nat>, reverse: seq<nat>, reverse': seq<nat>, blocks: map<nat, Block>,
    d: Pde, page: nat, f: nat, index: nat, e: Entry, lost: nat)
    requires TablesOk(entries, directory, reverse, blocks, lost)
    requires 0 !in blocks && page !in blocks && d !in directory && d.index < USER_TABLES
    requires StillBacked(reverse, reverse')
    requires f < |reverse| && reverse[f] == 0 && reverse'[f] == page
    ensures forall x :: TableSlot(f, x) !in entries
    ensures TablesOk(entries[HeapSlot(page) := e], directory[d := f], reverse',
            blocks[page := Block(index, PageTable(d), 1)], lost)
  {
  }

  /** A new empty table translates nothing, and no other translation changes. */
  lemma TranslateAfterCreate(
    entries: map<Slot, Entry>, directory: map<Pde, nat>, d: Pde, page: nat, f: nat, e: Entry)
    requires d !in directory
    requires forall x :: TableSlot(f, x) !in entries
    ensures forall dir', page' ::
              Translate(entries[HeapSlot(page) := e], directory[d := f], dir', page')
              == Translate(entries, directory, dir', page')
  {
  }

  /** A kernel-heap block for anything but a page table leaves tables and translations alone. */
  lemma TablesAfterKmalloc(
    entries: map<Slot, Entry>, directory: map<Pde, nat>, reverse: seq<nat>, reverse': seq<nat>, blocks: map<nat, Block>,
    page: nat, frames: seq<nat>, block: Block, lost: nat)
    requires TablesOk(entries, directory, reverse, blocks, lost)
    requires 0 !in blocks && page !in blocks && !block.owner.PageTable?
    requires StillBacked(reverse, reverse')
    ensures SameUserSlots(entries, HeapRun(entries, page, frames))
    ensures TablesOk(HeapRun(entries, page, frames), directory, reverse', blocks[page := block], lost)
  {
    forall s: Slot | !s.HeapSlot?
      ensures s in HeapRun(entries, page, frames) <==> s in entries
      ensures s in entries ==> HeapRun(entries, page, frames)[s] == entries[s]
    {
      HeapRunAt(entries, page, frames, s);
    }
  }

  lemma TablesUntouched(
    entries: map<Slot, Entry>, entries': map<Slot, Entry>, directory: map<Pde, nat>, reverse: seq<nat>,
    blocks: map<nat, Block>, lost: nat)
    requires TablesOk(entries, directory, reverse, blocks, lost)
    requires forall s: Slot | s.TableSlot? :: s in entries' ==> s in entries
    requires forall k: nat {:trigger LostSlot(k)} :: LostSlot(k) in entries' <==> LostSlot(k) in entries
    ensures TablesOk(entries', directory, reverse, blocks, lost)
  {
  }

  lemma TablesAfterMap(
    entries: map<Slot, Entry>, directory: map<Pde, nat>, reverse: seq<nat>, blocks: map<nat, Block>, d: Pde,
    index: nat, e: Entry, lost: nat)
    requires TablesOk(entries, directory, reverse, blocks, lost)
    requires d in directory && index < PAGE_TABLE_ENTRIES
    ensures TablesOk(entries[TableSlot(directory[d], index) := e], directory, reverse, blocks, lost)
  {
  }

  lemma TablesAfterUnmap(
    entries: map<Slot, Entry>, directory: map<Pde, nat>, reverse: seq<nat>, blocks: map<nat, Block>, s: Slot, lost: nat)
    requires TablesOk(entries, directory, reverse, blocks, lost) && !s.LostSlot?
    ensures TablesOk(Without(entries, s), directory, reverse, blocks, lost)
  {
  }

  /** An entry of one user page does not show through at any other user page. */
  lemma TranslateElsewhere(
    entries: map<Slot, Entry>, entries': map<Slot, Entry>, directory: map<Pde, nat>, reverse: seq<nat>,
    blocks: map<nat, Block>,
    dir: nat, page: nat, lost: nat)
    requires TablesOk(entries, directory, reverse, blocks, lost)
    requires TableEntry(dir, page) in directory
    requires forall s | s != SlotOf(directory, dir, page) ::
               (s in entries <==> s in entries') && (s in entries ==> entries[s] == entries'[s])
    ensures forall dir', page' | !(dir' == dir && page' == page) ::
              Translate(entries', directory, dir', page') == Translate(entries, directory, dir', page')
  {
    forall dir', page' | !(dir' == dir && page' == page)
      ensures Translate(entries', directory, dir', page') == Translate(entries, directory, dir', page')
    {
      if TableEntry(dir', page') in directory
         && SlotOf(directory, dir', page') == SlotOf(directory, dir, page) {
        SlotsDistinct(entries, directory, reverse, blocks, dir, page, dir', page', lost);
      }
    }
  }

  lemma RunKeepsUser(entries: map<Slot, Entry>, lo: nat, hi: nat)
    ensures SameUserSlots(entries, WithoutRun(entries, lo, hi)) && Shrunk(entries, WithoutRun(entries, lo, hi))
  {
  }

  /** All words of the table are zero. */
  ghost predicate EmptyTable(entries: map<Slot, Entry>, table: nat) {
    forall s | s in entries :: !InTable(s, table, PAGE_TABLE_ENTRIES)
  }

  /** Dropping an empty table takes no translation away. */
  lemma TablesAfterDrop(
    entries: map<Slot, Entry>, directory: map<Pde, nat>, reverse: seq<nat>, reverse': seq<nat>, blocks: map<nat, Block>,
    d: Pde, page: nat, size: nat, lost: nat)
    requires TablesOk(entries, directory, reverse, blocks, lost)
    requires d in directory && page == reverse[directory[d]] && EmptyTable(entries, directory[d])
    requires Released(reverse, reverse', page, page + size)
    requires forall p | p in blocks && page <= p < page + size :: p == page
    ensures blocks[page].owner == PageTable(d)
    ensures TablesOk(WithoutRun(entries, page, page + size), directory - {d}, reverse', blocks - {page}, lost)
    ensures forall dir', page' ::
              Translate(WithoutRun(entries, page, page + size), directory - {d}, dir', page')
              == Translate(entries, directory, dir', page')
  {
    assert forall s | s in entries && s.TableSlot?
             :: !InTable(s, directory[d], PAGE_TABLE_ENTRIES) && s.table != directory[d];
  }

  /** Page `page` of the environment is mapped to frame `f`. */
  ghost predicate Maps(entries: map<Slot, Entry>, directory: map<Pde, nat>, dir: nat, page: nat, f: nat) {
    Translate(entries, directory, dir, page).Some? && Translate(entries, directory, dir, page).value.frame == f
  }

  /** Some page of the environment is mapped to the frame. */
  ghost predicate MappedBy(entries: map<Slot, Entry>, directory: map<Pde, nat>, dir: nat, f: nat) {
    exists page: nat :: Maps(entries, directory, dir, page, f)
  }

  /** The frame is named by a word of the table. */
  ghost predicate InFrameOf(entries: map<Slot, Entry>, table: nat, f: nat) {
    exists x: nat :: TableSlot(table, x) in entries && entries[TableSlot(table, x)].frame == f
  }

  /** The words lost so far keep their frames. */
  ghost predicate LostKept(entries: map<Slot, Entry>, entries': map<Slot, Entry>) {
    forall k: nat {:trigger LostSlot(k)} | LostSlot(k) in entries ::
      LostSlot(k) in entries' && entries'[LostSlot(k)].frame == entries[LostSlot(k)].frame
  }

  /** The same words are lost. */
  ghost predicate SameLost(entries: map<Slot, Entry>, entries': map<Slot, Entry>) {
    LostKept(entries, entries') && forall k: nat {:trigger LostSlot(k)} | LostSlot(k) in entries'
      :: LostSlot(k) in entries
  }

  /** Each word lost since was an entry of a page of `dir` that was mapped before. */
  ghost predicate LostFrom(
    entries: map<Slot, Entry>, directory: map<Pde, nat>, dir: nat, lost: nat, entries': map<Slot, Entry>, lost': nat)
  {
    forall k: nat {:trigger LostSlot(k)} | lost <= k < lost' ::
      LostSlot(k) in entries' && MappedBy(entries, directory, dir, entries'[LostSlot(k)].frame)
  }

  lemma LostNone(entries: map<Slot, Entry>, directory: map<Pde, nat>, dir: nat, lost: nat)
    ensures SameLost(entries, entries) && LostFrom(entries, directory, dir, lost, entries, lost)
  {
  }

  lemma LostTwice(
    entries: map<Slot, Entry>, directory: map<Pde, nat>, dir: nat, lost: nat, entries': map<Slot, Entry>,
    directory': map<Pde, nat>, lost': nat, entries'': map<Slot, Entry>, lost'': nat)
    requires LostKept(entries, entries') && LostKept(entries', entries'')
    requires LostFrom(entries, directory, dir, lost, entries', lost')
    requires LostFrom(entries', directory', dir, lost', entries'', lost'')
    requires forall page, f | Maps(entries', directory', dir, page, f) :: Maps(entries, directory, dir, page, f)
    ensures LostKept(entries, entries'') && LostFrom(entries, directory, dir, lost, entries'', lost'')
  {
    hide Maps;
  }

  /** The first `n` words of a table have become lost words; no other entry has changed. */
  ghost predicate WordsLeft(entries: map<Slot, Entry>, lost: nat, table: nat, n: nat, entries': map<Slot, Entry>,
      lost': nat) {
    && (forall s: Slot | !InTable(s, table, n) && !s.LostSlot? ::
          (s in entries' <==> s in entries) && (s in entries ==> entries'[s] == entries[s]))
    && (forall s | s in entries' :: !InTable(s, table, n))
    && (forall k: nat {:trigger LostSlot(k)} :: LostSlot(k) in entries' <==> k < lost')
    && LostKept(entries, entries') && lost <= lost'
    && (forall k: nat {:trigger LostSlot(k)} | lost <= k < lost' ::
          LostSlot(k) in entries' && InFrameOf(entries, table, entries'[LostSlot(k)].frame))
    && (lost' == lost <==> forall s | s in entries :: !InTable(s, table, n))
  }

  lemma WordsLeftNone(entries: map<Slot, Entry>, lost: nat, table: nat)
    requires forall k: nat {:trigger LostSlot(k)} :: LostSlot(k) in entries <==> k < lost
    ensures WordsLeft(entries, lost, table, 0, entries, lost)
  {
  }

  lemma WordsLeftStep(entries: map<Slot, Entry>, lost: nat, table: nat, n: nat, entries': map<Slot, Entry>, lost': nat)
    requires WordsLeft(entries, lost, table, n, entries', lost')
    ensures var s := TableSlot(table, n);
            && LostSlot(lost') !in entries'
            && if s in entries' then
                 WordsLeft(entries, lost, table, n + 1, Without(entries', s)[LostSlot(lost') := entries'[s]], lost' + 1)
               else WordsLeft(entries, lost, table, n + 1, entries', lost')
  {
    var s := TableSlot(table, n);
    if s in entries' {
      assert s in entries && InFrameOf(entries, table, entries'[s].frame);
    }
  }

  lemma TablesAfterLeave(
    entries: map<Slot, Entry>, lost: nat, table: nat, entries': map<Slot, Entry>, lost': nat,
    directory: map<Pde, nat>, reverse: seq<nat>, blocks: map<nat, Block>)
    requires TablesOk(entries, directory, reverse, blocks, lost)
    requires WordsLeft(entries, lost, table, PAGE_TABLE_ENTRIES, entries', lost')
    ensures TablesOk(entries', directory, reverse, blocks, lost')
    ensures SameHeap(entries, entries') && (ScratchSlot in entries' <==> ScratchSlot in entries)
    ensures EmptyTable(entries', table) && LostKept(entries, entries') && lost <= lost'
    ensures lost' == lost <==> EmptyTable(entries, table)
  {
    assert forall s: Slot | s in entries' && s.TableSlot? :: !InTable(s, table, PAGE_TABLE_ENTRIES) && s in entries;
  }

  /** What moving the words of a table away does to the translations. */
  lemma TranslateAfterLeave(
    entries: map<Slot, Entry>, lost: nat, d: Pde, entries': map<Slot, Entry>, lost': nat,
    directory: map<Pde, nat>, reverse: seq<nat>, blocks: map<nat, Block>)
    requires TablesOk(entries, directory, reverse, blocks, lost) && d in directory
    requires WordsLeft(entries, lost, directory[d], PAGE_TABLE_ENTRIES, entries', lost')
    ensures forall dir, page ::
              Translate(entries', directory, dir, page)
              == if TableEntry(dir, page) == d then None else Translate(entries, directory, dir, page)
    ensures LostFrom(entries, directory, d.dir, lost, entries', lost')
  {
    forall dir: nat, page: nat
      ensures Translate(entries', directory, dir, page)
              == if TableEntry(dir, page) == d then None else Translate(entries, directory, dir, page)
    {
      if TableEntry(dir, page) in directory {
        var s := SlotOf(directory, dir, page);
        assert InTable(s, directory[d], PAGE_TABLE_ENTRIES) <==> TableEntry(dir, page) == d;
      }
    }
    forall k: nat {:trigger LostSlot(k)} | lost <= k < lost'
      ensures LostSlot(k) in entries' && MappedBy(entries, directory, d.dir, entries'[LostSlot(k)].frame)
    {
      assert InFrameOf(entries, directory[d], entries'[LostSlot(k)].frame);
      var x: nat :| TableSlot(directory[d], x) in entries
                    && entries[TableSlot(directory[d], x)].frame == entries'[LostSlot(k)].frame;
      var page := d.index * PAGE_TABLE_ENTRIES + x;
      assert TableEntry(d.dir, page) == d && SlotOf(directory, d.dir, page) == TableSlot(directory[d], x);
      assert Maps(entries, directory, d.dir, page, entries'[LostSlot(k)].frame);
    }
  }

  /** A table has an entry exactly when some page of its directory entry is mapped. */
  lemma TableEmpty(
    entries: map<Slot, Entry>, directory: map<Pde, nat>, reverse: seq<nat>, blocks: map<nat, Block>, d: Pde, lost: nat)
    requires TablesOk(entries, directory, reverse, blocks, lost)
    requires d in directory
    ensures EmptyTable(entries, directory[d])
            <==> forall page | TableEntry(d.dir, page) == d :: Translate(entries, directory, d.dir, page).None?
  {
    if s: Slot :| s in entries && InTable(s, directory[d], PAGE_TABLE_ENTRIES) {
      var page := d.index * PAGE_TABLE_ENTRIES + s.index;
      assert TableEntry(d.dir, page) == d && SlotOf(directory, d.dir, page) == s;
    } else {
      assert forall page | TableEntry(d.dir, page) == d
             :: InTable(SlotOf(directory, d.dir, page), directory[d], PAGE_TABLE_ENTRIES);
    }
  }

  /** Freeing any other kind of block leaves tables and translations alone. */
  lemma TablesAfterKfree(
    entries: map<Slot, Entry>, directory: map<Pde, nat>, reverse: seq<nat>, reverse': seq<nat>, blocks: map<nat, Block>,
    page: nat, size: nat, lost: nat)
    requires TablesOk(entries, directory, reverse, blocks, lost)
    requires page in blocks && !blocks[page].owner.PageTable?
    requires Released(reverse, reverse', page, page + size)
    requires forall p | p in blocks && page <= p < page + size :: p == page
    ensures TablesOk(WithoutRun(entries, page, page + size), directory, reverse', blocks - {page}, lost)
    ensures forall dir', page' ::
              Translate(WithoutRun(entries, page, page + size), directory, dir', page')
              == Translate(entries, directory, dir', page')
  {
  }

  lemma KeptAfterKfree(reverse: seq<nat>, reverse': seq<nat>, blocks: map<nat, Block>, page: nat, size: nat)
    requires Released(reverse, reverse', page, page + size)
    requires forall p | p in blocks && page <= p < page + size :: p == page
    ensures Kept(reverse, blocks, reverse', blocks - {page})
  {
  }

  /** The part of a Memory object that its clients reason about. */
  datatype View = View(
    freeFrames: seq<nat>, held: set<nat>, entries: map<Slot, Entry>, directory: map<Pde, nat>, ram: seq<Page>,
    heapTop: nat, reverse: seq<nat>, blocks: map<nat, Block>)

  /** Every heap page of `entries'` was there before with the same frame, or has a frame of `free`. */
  ghost predicate HeapFrom(entries: map<Slot, Entry>, entries': map<Slot, Entry>, free: seq<nat>) {
    forall p: nat {:trigger HeapSlot(p)} | HeapSlot(p) in entries' ::
      || (HeapSlot(p) in entries && entries[HeapSlot(p)].frame == entries'[HeapSlot(p)].frame)
      || entries'[HeapSlot(p)].frame in free
  }

  lemma RunFrom(entries: map<Slot, Entry>, page: nat, free: seq<nat>, n: nat)
    requires n <= |free|
    ensures HeapFrom(entries, HeapRun(entries, page, free[..n]), free)
  {
    hide HeapRun;
    forall p: nat {:trigger HeapSlot(p)} | HeapSlot(p) in HeapRun(entries, page, free[..n])
      ensures || (HeapSlot(p) in entries && entries[HeapSlot(p)] == HeapRun(entries, page, free[..n])[HeapSlot(p)])
              || HeapRun(entries, page, free[..n])[HeapSlot(p)].frame in free
    {
      HeapRunAt(entries, page, free[..n], HeapSlot(p));
    }
  }

  /** The pages of a new block are mapped to frames that were free. */
  ghost predicate NewRun(entries: map<Slot, Entry>, entries': map<Slot, Entry>, page: nat, size: nat, free: seq<nat>) {
    forall p: nat {:trigger HeapSlot(p)} | page <= p < page + size ::
      HeapSlot(p) !in entries && HeapSlot(p) in entries' && entries'[HeapSlot(p)].frame in free
  }

  lemma NewRunMapped(
    entries: map<Slot, Entry>, page: nat, free: seq<nat>, n: nat, reverse: seq<nat>, heapStart: nat, heapTop: nat)
    requires n <= |free| && HeapOk(entries, reverse, heapStart, heapTop) && heapTop <= page
    ensures NewRun(entries, HeapRun(entries, page, free[..n]), page, n, free)
  {
    hide HeapRun;
    forall p: nat {:trigger HeapSlot(p)} | page <= p < page + n
      ensures HeapSlot(p) !in entries && HeapSlot(p) in HeapRun(entries, page, free[..n])
      ensures HeapRun(entries, page, free[..n])[HeapSlot(p)].frame in free
    {
      HeapRunAt(entries, page, free[..n], HeapSlot(p));
    }
  }

  lemma HeapFromTwice(
    entries: map<Slot, Entry>, entries': map<Slot, Entry>, entries'': map<Slot, Entry>, free: seq<nat>, free': seq<nat>)
    requires HeapFrom(entries, entries', free) && HeapFrom(entries', entries'', free')
    requires forall f | f in free' :: f in free
    ensures HeapFrom(entries, entries'', free)
  {
  }

  /** Heap pages were only taken away. */
  ghost predicate HeapShrunk(entries: map<Slot, Entry>, entries': map<Slot, Entry>) {
    forall p: nat {:trigger HeapSlot(p)} | HeapSlot(p) in entries' ::
      HeapSlot(p) in entries && entries[HeapSlot(p)] == entries'[HeapSlot(p)]
  }

  lemma HeapShrunkRefl(entries: map<Slot, Entry>)
    ensures HeapShrunk(entries, entries)
  {
  }

  /** Writing an entry of a page table leaves the heap's entries alone. */
  lemma TableSlotsOnly(entries: map<Slot, Entry>, entries': map<Slot, Entry>, s: Slot, e: Entry)
    requires s.TableSlot? && (entries' == entries || entries' == entries[s := e])
    ensures HeapShrunk(entries', entries)
  {
  }

  lemma TableFrom(
    entries: map<Slot, Entry>, mid: map<Slot, Entry>, entries': map<Slot, Entry>, free: seq<nat>, s: Slot, e: Entry)
    requires s.TableSlot? && (entries' == mid || entries' == mid[s := e])
    requires mid == entries || HeapFrom(entries, mid, free)
    ensures HeapFrom(entries, entries', free)
  {
  }

  lemma HeapShrunkTwice(entries: map<Slot, Entry>, entries': map<Slot, Entry>, entries'': map<Slot, Entry>)
    requires HeapShrunk(entries, entries') && HeapShrunk(entries', entries'')
    ensures HeapShrunk(entries, entries'')
  {
  }

  /** Entries were only taken away. */
  ghost predicate Shrunk(entries: map<Slot, Entry>, entries': map<Slot, Entry>) {
    forall s | s in entries' :: s in entries && entries[s] == entries'[s]
  }

  /** From `v` to `v'`, `n` frames went from the free list to new kernel-heap pages; user mappings,
      frame contents and older blocks are as they were. */
  ghost predicate HeapAdded(v: View, v': View, n: nat) {
    && v'.heapTop == v.heapTop + n
    && n <= |v.freeFrames| && v'.freeFrames == v.freeFrames[n..]
    && v'.held == v.held && v'.directory == v.directory && v'.ram == v.ram
    && SameUserSlots(v.entries, v'.entries) && HeapFrom(v.entries, v'.entries, v.freeFrames)
    && v.blocks.Keys <= v'.blocks.Keys
    && Kept(v.reverse, v.blocks, v'.reverse, v'.blocks)
  }

  /** The same, and no environment begins. */
  ghost predicate HeapGrew(v: View, v': View, n: nat) {
    HeapAdded(v, v', n) && BlocksKept(v.blocks, v'.blocks)
  }

  lemma HeapAddedBlock(v: View, v': View, n: nat, page: nat, block: Block)
    requires HeapAdded(v, v', n) && page !in v.blocks && v'.blocks == v.blocks[page := block] && !Anchor(block.owner)
    ensures HeapGrew(v, v', n)
  {
  }

  /** From `v` to `v'` some blocks were freed and the others are as they were. */
  ghost predicate HeapShrank(v: View, v': View) {
    v'.blocks.Keys <= v.blocks.Keys && Kept(v.reverse, v.blocks, v'.reverse, v'.blocks)
      && HeapShrunk(v.entries, v'.entries)
  }

  lemma HeapShrankTwice(v: View, v': View, v'': View)
    requires HeapShrank(v, v') && HeapShrank(v', v'')
    ensures HeapShrank(v, v'')
  {
  }

  lemma HeapShrankBlocks(v: View, v': View)
    requires HeapShrank(v, v')
    ensures v'.blocks.Keys <= v.blocks.Keys && forall p | p in v'.blocks :: v'.blocks[p] == v.blocks[p]
    ensures HeapShrunk(v.entries, v'.entries)
  {
  }

  lemma HeapGrewSize(v: View, v': View, n: nat)
    requires HeapGrew(v, v', n)
    ensures v'.heapTop == v.heapTop + n && n <= |v.freeFrames| && v'.freeFrames == v.freeFrames[n..]
  {
  }

  lemma HeapGrewNone(v: View)
    ensures HeapGrew(v, v, 0)
  {
  }

  lemma HeapGrewTwice(v: View, v': View, v'': View, n: nat, n': nat)
    requires HeapGrew(v, v', n) && HeapGrew(v', v'', n')
    ensures HeapGrew(v, v'', n + n')
  {
  }

  lemma GrowthKeepsUser(v: View, v': View, n: nat)
    requires HeapGrew(v, v', n)
    ensures v'.ram == v.ram && v'.held == v.held && v'.directory == v.directory
    ensures SameUserSlots(v.entries, v'.entries) && HeapFrom(v.entries, v'.entries, v.freeFrames)
    ensures BlocksKept(v.blocks, v'.blocks) && SameLost(v.entries, v'.entries)
    ensures forall dir, page ::
              Translate(v'.entries, v'.directory, dir, page) == Translate(v.entries, v.directory, dir, page)
  {
  }

  /** The words of a frame, as the entries of a page table. */
  function WordsOf(f: nat): set<Slot> {
    set x | 0 <= x < PAGE_TABLE_ENTRIES :: TableSlot(f, x)
  }

  /** Only words of the frames `free` have joined. */
  ghost predicate Littered(litter: set<Slot>, litter': set<Slot>, free: seq<nat>) {
    forall s | s in litter' && s !in litter :: s.TableSlot? && s.table in free
  }

  /** The page tables hold no words of earlier uses of their frames. */
  ghost predicate Swept(directory: map<Pde, nat>, litter: set<Slot>) {
    forall d, s | d in directory && s in litter :: !InTable(s, directory[d], PAGE_TABLE_ENTRIES)
  }

  lemma SweptTable(directory: map<Pde, nat>, litter: set<Slot>, d: Pde, f: nat, litter': set<Slot>)
    requires Swept(directory, litter) && litter' == set s | s in litter && !InTable(s, f, PAGE_TABLE_ENTRIES)
    ensures Swept(directory[d := f], litter')
  {
  }

  lemma NewLitter(litter: set<Slot>, f: nat, free: seq<nat>)
    requires f in free
    ensures Littered(litter, litter + WordsOf(f), free)
  {
  }

  lemma LitteredTwice(litter: set<Slot>, litter': set<Slot>, f: nat, free: seq<nat>)
    requires Littered(litter, litter', free) && f in free
    ensures Littered(litter, litter' + WordsOf(f), free)
  {
  }

  class Memory {
    const usable: set<nat>          // frames that initialize_paging put on the free list
    const heapStart: nat            // KERNEL_HEAP_START, in pages
    const heapMax: nat              // KERNEL_HEAP_MAX, in pages

    var references: seq<nat>        // frames_info[f].references
    var freeFrames: seq<nat>        // free_frame_list, first element first
    var entries: map<Slot, Entry>   // the non-zero page-table entries
    var directory: map<Pde, nat>    // user page-directory entries: the frame holding the table
    var ram: seq<Page>              // contents of the frames that back user pages
    var heapTop: nat                // firstFreeVAInKHeap
    var records: seq<Record>        // allocatedHAddresses
    var idx: nat
    var reverse: seq<nat>           // virtualAddresses: heap page backed by a frame, 0 if none
    var lost: nat                   // words left in page tables that were freed before they were empty
    var litter: set<Slot>           // words that allocated frames still hold from earlier uses

    ghost var held: set<nat>        // frames allocated but not yet named by an entry
    ghost var blocks: map<nat, Block>

    /** initialize_paging: every usable frame goes to the head of the free list, every other frame
        (real-mode area, I/O hole, kernel image) keeps a reference for good. */
    constructor (n: nat, usable: set<nat>, heapStart: nat, heapMax: nat)
      requires 0 < n && 0 !in usable && (forall f | f in usable :: f < n)
      requires 0 < heapStart < heapMax
      ensures Valid()
      ensures this.usable == usable && this.heapStart == heapStart && this.heapMax == heapMax
      ensures |ram| == n && heapTop == heapStart
      ensures (forall f | f in usable :: f in freeFrames) && |freeFrames| == |usable|
      ensures entries == map[] && directory == map[]
      ensures held == {} && blocks == map[] && lost == 0
    {
      this.usable, this.heapStart, this.heapMax := usable, heapStart, heapMax;
      entries, directory, heapTop, idx, held, blocks, lost := map[], map[], heapStart, 0, {}, map[], 0;
      litter := {};
      ram := seq(n, _ => seq(PAGE_SIZE, _ => 0));
      reverse := seq(n, _ => 0);
      records := seq(heapMax - heapStart, _ => Record(0, 0, false));
      references := seq(n, f => if f in usable then 0 else 1);
      freeFrames := [];
      new;
      for i := 0 to n
        invariant Distinct(freeFrames)
        invariant forall f | 0 <= f < i && f in usable :: f in freeFrames
        invariant forall f | f in freeFrames :: f < i && f in usable
        invariant references == seq(n, f => if f in usable then 0 else 1)
        modifies `freeFrames
      {
        if i in usable {
          freeFrames := [i] + freeFrames;
        }
      }
      ElementsAre(freeFrames, usable);
    }

    ghost predicate HeapValid()
      reads this
    {
      && 0 !in usable
      && 0 !in blocks
      && 0 < |reverse| == |references| == |ram|
      && 0 < heapStart < heapMax
      && heapStart + idx <= heapTop < heapMax
      && |records| == heapMax - heapStart
      && Conserved(references, freeFrames, entries, held, usable)
      && HeapOk(entries, reverse, heapStart, heapTop)
      && BlocksOk(records, idx, entries, heapStart, heapTop, blocks)
    }

    ghost predicate Valid()
      reads this
    {
      HeapValid() && TablesOk(entries, directory, reverse, blocks, lost) && Swept(directory, litter)
    }

    function Lookup(dir: nat, page: nat): Option<Entry>
      reads `entries, `directory
    {
      Translate(entries, directory, dir, page)
    }

    // ---- frames (memory_manager.c) ----

    /** allocate_frame, which panics on an empty list. The frame holds whatever it was last used for. */
    method AllocateFrame() returns (f: nat)
      requires freeFrames != []
      requires Conserved(references, freeFrames, entries, held, usable)
      modifies `freeFrames, `references, `held, `litter
      ensures Conserved(references, freeFrames, entries, held, usable)
      ensures f == old(freeFrames)[0] && freeFrames == old(freeFrames)[1..]
      ensures references == old(references) && held == old(held) + {f} && f !in old(held)
      ensures litter == old(litter) + WordsOf(f)
    {
      f := freeFrames[0];
      assert f in freeFrames;
      freeFrames := freeFrames[1..];
      references := references[f := 0];
      held := held + {f};
      litter := litter + WordsOf(f);
    }

    method FreeFrame(f: nat)
      requires f < |references|
      modifies `freeFrames, `references
      ensures freeFrames == [f] + old(freeFrames) && references == old(references)[f := 0]
    {
      references := references[f := 0];
      freeFrames := [f] + freeFrames;
    }

    method DecrementReferences(f: nat)
      requires f < |references| && references[f] > 0
      modifies `freeFrames, `references
      ensures references == old(references[f := references[f] - 1])
      ensures freeFrames == old(FreeAfterDrop(references, freeFrames, f))
    {
      references := references[f := references[f] - 1];
      if references[f] == 0 {
        FreeFrame(f);
      }
    }

    /** The part of unmap_frame that follows the table walk. */
    method UnmapSlot(s: Slot)
      requires Conserved(references, freeFrames, entries, held, usable)
      modifies `freeFrames, `references, `entries
      ensures Conserved(references, freeFrames, entries, held, usable)
      ensures entries == Without(old(entries), s)
      ensures |references| == |old(references)|
      ensures s !in old(entries) ==>
                entries == old(entries) && references == old(references) && freeFrames == old(freeFrames)
      ensures s in old(entries) ==>
                var f := old(entries[s].frame);
                && f < |old(references)| && old(references)[f] > 0
                && references == old(references)[f := old(references)[f] - 1]
                && freeFrames == FreeAfterDrop(old(references), old(freeFrames), f)
    {
      if s in entries {
        ConservedAfterUnmap(references, freeFrames, entries, held, usable, s);
        DecrementReferences(entries[s].frame);
        entries := Without(entries, s);
      }
    }

    /** The part of map_frame that follows the table walk. */
    method MapSlot(s: Slot, f: nat, perm: Perm)
      requires Conserved(references, freeFrames, entries, held, usable)
      requires f in usable && f !in freeFrames
      modifies `freeFrames, `references, `entries, `held
      ensures Conserved(references, freeFrames, entries, held, usable)
      ensures |references| == |old(references)|
      ensures s in old(entries) && old(entries[s].frame) == f ==>
                entries == old(entries) && references == old(references) && freeFrames == old(freeFrames)
                  && held == old(held)
      ensures !(s in old(entries) && old(entries[s].frame) == f) ==>
                entries == old(entries)[s := Entry(f, perm)] && held == old(held) - {f}
      ensures s !in old(entries) ==>
                freeFrames == old(freeFrames) && references == old(references)[f := old(references)[f] + 1]
    {
      hide Conserved;
      if s in entries {
        if entries[s].frame == f {
          return;
        }
        UnmapSlot(s);
        assert f !in freeFrames;
      }
      ConservedAfterMap(references, freeFrames, entries, held, usable, s, Entry(f, perm));
      references := references[f := references[f] + 1];
      entries := entries[s := Entry(f, perm)];
      held := held - {f};
    }

    // ---- kernel heap (kheap.c) ----

    /** One round of the kmalloc loop: a fresh frame mapped at firstFreeVAInKHeap. */
    method GrowHeap()
      requires freeFrames != []
      requires |reverse| == |references|
      requires Conserved(references, freeFrames, entries, held, usable)
      requires HeapOk(entries, reverse, heapStart, heapTop)
      modifies `freeFrames, `references, `entries, `held, `litter, `heapTop, `reverse
      ensures |reverse| == |references| == |old(references)|
      ensures Conserved(references, freeFrames, entries, held, usable)
      ensures HeapOk(entries, reverse, heapStart, heapTop)
      ensures heapTop == old(heapTop) + 1 && held == old(held)
      ensures freeFrames == old(freeFrames)[1..]
      ensures entries == old(entries)[HeapSlot(old(heapTop)) := Entry(old(freeFrames)[0], KERNEL_PERM)]
      ensures HeapSlot(old(heapTop)) !in old(entries)
      ensures StillBacked(old(reverse), reverse)
      ensures litter == old(litter) + WordsOf(old(freeFrames)[0])
    {
      hide Conserved, HeapOk;
      HeldFrameUnnamed(references, freeFrames, entries, held, usable, freeFrames[0]);
      var f := AllocateFrame();
      HeldFrameUnnamed(references, freeFrames, entries, held, usable, f);
      HeapAfterGrow(entries, reverse, heapStart, heapTop, f);
      MapSlot(HeapSlot(heapTop), f, KERNEL_PERM);
      reverse := reverse[f := heapTop];
      heapTop := heapTop + 1;
    }

    /** The kmalloc loop. */
    method GrowHeapBy(size: nat)
      requires size <= |freeFrames|
      requires |reverse| == |references|
      requires Conserved(references, freeFrames, entries, held, usable)
      requires HeapOk(entries, reverse, heapStart, heapTop)
      modifies `freeFrames, `references, `entries, `held, `litter, `heapTop, `reverse
      ensures |reverse| == |references| == |old(references)|
      ensures Conserved(references, freeFrames, entries, held, usable)
      ensures HeapOk(entries, reverse, heapStart, heapTop)
      ensures heapTop == old(heapTop) + size && held == old(held)
      ensures freeFrames == old(freeFrames)[size..]
      ensures entries == HeapRun(old(entries), old(heapTop), old(freeFrames)[..size])
      ensures StillBacked(old(reverse), reverse) && Littered(old(litter), litter, old(freeFrames))
    {
      hide Conserved, HeapOk;
      var i := 0;
      while i < size
        invariant 0 <= i <= size && heapTop == old(heapTop) + i && held == old(held)
        invariant |reverse| == |references| == |old(references)|
        invariant freeFrames == old(freeFrames)[i..]
        invariant Conserved(references, freeFrames, entries, held, usable)
        invariant HeapOk(entries, reverse, heapStart, heapTop)
        invariant entries == HeapRun(old(entries), old(heapTop), old(freeFrames)[..i])
        invariant StillBacked(old(reverse), reverse) && Littered(old(litter), litter, old(freeFrames))
      {
        LitteredTwice(old(litter), litter, freeFrames[0], old(freeFrames));
        GrowHeap();
        assert old(freeFrames)[..i + 1][..i] == old(freeFrames)[..i];
        i := i + 1;
      }
    }

    /** kmalloc for `size` pages. Page 0 is the NULL it returns when no address space is left. */
    method Kmalloc(size: nat, ghost owner: Owner) returns (page: nat)
      requires HeapValid() && 0 < size
      requires heapTop < heapMax - size ==> size <= |freeFrames|
      modifies `freeFrames, `references, `entries, `held, `litter, `heapTop, `records, `idx, `reverse, `blocks
      ensures HeapValid()
      ensures old(heapTop) >= heapMax - size ==> page == 0 && unchanged(this)
      ensures old(heapTop) < heapMax - size ==>
                && page == old(heapTop) && heapTop == page + size && page !in old(blocks)
                && freeFrames == old(freeFrames)[size..] && held == old(held)
                && blocks == old(blocks)[page := Block(old(idx), owner, size)]
                && entries == HeapRun(old(entries), page, old(freeFrames)[..size])
      ensures StillBacked(old(reverse), reverse) && Littered(old(litter), litter, old(freeFrames))
    {
      hide Conserved, HeapOk, BlocksOk, HeapRun;
      if heapTop >= heapMax - size {
        return 0;
      }
      BlocksAfterKmalloc(records, idx, entries, heapStart, heapTop, blocks, freeFrames[..size], owner);
      page := heapTop;
      GrowHeapBy(size);
      records := records[idx := Record(page, size, false)];
      blocks := blocks[page := Block(idx, owner, size)];
      idx := idx + 1;
    }

    /** kheap_virtual_address: the heap page a frame backs, 0 if none. */
    function KheapVirtual(f: nat): nat
      requires f < |reverse|
      reads this
    {
      reverse[f]
    }

    /** kheap_physical_address: the frame behind a heap page; an unmapped page reads as frame 0. */
    function KheapPhysical(page: nat): nat
      reads this
    {
      if HeapSlot(page) in entries then entries[HeapSlot(page)].frame else 0
    }

    /** The two translations are inverse on live heap pages, a frame that backs no heap page translates
        to 0, and the record array is never full. */
    lemma TranslationsInverse()
      requires HeapValid()
      ensures forall page {:trigger KheapPhysical(page)} | HeapSlot(page) in entries ::
                KheapPhysical(page) < |reverse| && KheapVirtual(KheapPhysical(page)) == page
      ensures forall f | 0 < f < |reverse| && KheapVirtual(f) != 0 ::
                HeapSlot(KheapVirtual(f)) in entries && KheapPhysical(KheapVirtual(f)) == f
      ensures idx < |records|
    {
    }

    /** One round of the kfree loop. */
    method ShrinkHeap(page: nat)
      requires 0 !in usable && 0 < |reverse| == |references|
      requires Conserved(references, freeFrames, entries, held, usable)
      requires HeapOk(entries, reverse, heapStart, heapTop)
      modifies `freeFrames, `references, `entries, `reverse
      ensures |reverse| == |references| == |old(references)|
      ensures Conserved(references, freeFrames, entries, held, usable)
      ensures HeapOk(entries, reverse, heapStart, heapTop)
      ensures entries == Without(old(entries), HeapSlot(page))
      ensures Released(old(reverse), reverse, page, page + 1)
      ensures HeapSlot(page) !in old(entries) ==>
                reverse == old(reverse) && freeFrames == old(freeFrames) && references == old(references)
    {
      if HeapSlot(page) in entries {
        HeapAfterShrink(entries, reverse, heapStart, heapTop, page);
      } else {
        assert reverse[0] == 0;
      }
      hide Conserved, HeapOk;
      reverse := reverse[KheapPhysical(page) := 0];
      UnmapSlot(HeapSlot(page));
    }

    /** The kfree loop. */
    method ShrinkHeapBy(page: nat, size: nat)
      requires 0 !in usable && 0 < |reverse| == |references|
      requires Conserved(references, freeFrames, entries, held, usable)
      requires HeapOk(entries, reverse, heapStart, heapTop)
      modifies `freeFrames, `references, `entries, `reverse
      ensures |reverse| == |references| == |old(references)|
      ensures Conserved(references, freeFrames, entries, held, usable)
      ensures HeapOk(entries, reverse, heapStart, heapTop)
      ensures entries == WithoutRun(old(entries), page, page + size)
      ensures Released(old(reverse), reverse, page, page + size)
      ensures old(entries) == WithoutRun(old(entries), page, page + size) ==>
                reverse == old(reverse) && freeFrames == old(freeFrames) && references == old(references)
    {
      hide Conserved, HeapOk;
      var p, i := page, 0;
      while i < size
        invariant 0 <= i <= size && p == page + i
        invariant |reverse| == |references| == |old(references)|
        invariant Conserved(references, freeFrames, entries, held, usable)
        invariant HeapOk(entries, reverse, heapStart, heapTop)
        invariant entries == WithoutRun(old(entries), page, p)
        invariant Released(old(reverse), reverse, page, p)
        invariant old(entries) == WithoutRun(old(entries), page, page + size) ==>
                    reverse == old(reverse) && freeFrames == old(freeFrames) && references == old(references)
      {
        assert old(entries) == WithoutRun(old(entries), page, page + size) ==> HeapSlot(p) !in old(entries) by {
          assert InRange(HeapSlot(p), page, page + size);
        }
        ShrinkHeap(p);
        assert Without(WithoutRun(old(entries), page, p), HeapSlot(p)) == WithoutRun(old(entries), page, p + 1);
        p := p + 1;
        i := i + 1;
      }
    }

    /** The record search of kfree: the first element whose address is `page`. */
    method FindRecord(page: nat) returns (i: nat)
      requires exists j :: 0 <= j < |records| && records[j].page == page
      ensures i < |records| && records[i].page == page
      ensures forall j | 0 <= j < i :: records[j].page != page
    {
      i := 0;
      while records[i].page != page
        invariant i < |records|
        invariant forall j | 0 <= j < i :: records[j].page != page
        decreases |records| - i
      {
        i := i + 1;
      }
    }

    /** kfree. Freeing a block a second time changes nothing. */
    method Kfree(page: nat)
      requires HeapValid() && page > 0
      requires exists j :: 0 <= j < |records| && records[j].page == page
      modifies `freeFrames, `references, `entries, `records, `reverse, `blocks
      ensures HeapValid()
      ensures page !in old(blocks) ==> unchanged(this)
      ensures page in old(blocks) ==>
                var i := old(blocks)[page].index;
                && i < |old(records)| && records == old(records)[i := Record(page, old(records)[i].size, true)]
                && blocks == old(blocks) - {page}
                && entries == WithoutRun(old(entries), page, page + records[i].size)
                && Released(old(reverse), reverse, page, page + records[i].size)
    {
      hide Conserved, HeapOk, BlocksOk, WithoutRun, Released;
      var i := FindRecord(page);
      var size := records[i].size;
      RecordLive(records, idx, entries, heapStart, heapTop, blocks, i);
      BlocksAfterKfree(records, idx, entries, heapStart, heapTop, blocks, i);
      if records[i].empty {
        EmptyBlockUnmapped(records, idx, entries, heapStart, heapTop, blocks, i);
      }
      ShrinkHeapBy(page, size);
      records := records[i := records[i].(empty := true)];
      blocks := blocks - {page};
    }

    ghost function Snapshot(): View
      reads this
    {
      View(freeFrames, held, entries, directory, ram, heapTop, reverse, blocks)
    }

    /** The frames of the page tables are not free. */
    lemma TablesNotFree()
      requires Valid()
      ensures forall d | d in directory :: directory[d] !in freeFrames
    {
      hide BlocksOk;
      forall d | d in directory
        ensures directory[d] !in freeFrames
      {
        TableFound(entries, directory, reverse, records, idx, heapStart, heapTop, blocks, d, lost);
        HeapFrame(reverse[directory[d]]);
      }
    }

    lemma SweptStill(litter': set<Slot>, free: seq<nat>)
      requires Swept(directory, litter') && Littered(litter', litter, free)
      requires forall d | d in directory :: directory[d] !in free
      ensures Swept(directory, litter)
    {
    }

    /** kmalloc of a block that is not a user page table. */
    method KmallocOther(size: nat, ghost owner: Owner) returns (page: nat)
      requires Valid() && 0 < size && !owner.PageTable?
      requires heapTop < heapMax - size && size <= |freeFrames|
      modifies `freeFrames, `references, `entries, `held, `litter, `heapTop, `records, `idx, `reverse, `blocks
      ensures Valid()
      ensures page > 0 && page !in old(blocks) && blocks == old(blocks)[page := Block(old(idx), owner, size)]
      ensures HeapSlot(page) in entries && entries[HeapSlot(page)].frame < |reverse|
      ensures reverse[entries[HeapSlot(page)].frame] == page
      ensures NewRun(old(entries), entries, page, size, old(freeFrames)) && page == old(heapTop)
      ensures HeapAdded(old(Snapshot()), Snapshot(), size)
      ensures !Anchor(owner) ==> HeapGrew(old(Snapshot()), Snapshot(), size)
    {
      hide Conserved, BlocksOk, TablesOk, HeapRun, SameUserSlots, HeapFrom, HeapGrew, Swept, Littered;
      TablesNotFree();
      page := Kmalloc(size, owner);
      HeapRunAt(old(entries), page, old(freeFrames)[..size], HeapSlot(page));
      NewRunMapped(old(entries), page, old(freeFrames), size, old(reverse), heapStart, page);
      TablesAfterKmalloc(old(entries), directory, old(reverse), reverse, old(blocks), page, old(freeFrames)[..size],
                         Block(old(idx), owner, size), lost);
      RunFrom(old(entries), page, old(freeFrames), size);
      SweptStill(old(litter), old(freeFrames));
      if !Anchor(owner) {
        HeapAddedBlock(old(Snapshot()), Snapshot(), size, page, Block(old(idx), owner, size));
      }
    }

    /** kfree of a live block that is not a user page table. */
    method KfreeOther(page: nat)
      requires Valid() && page in blocks && !blocks[page].owner.PageTable?
      modifies `freeFrames, `references, `entries, `records, `reverse, `blocks
      ensures Valid()
      ensures blocks == old(blocks) - {page}
      ensures SameUserSlots(old(entries), entries) && Shrunk(old(entries), entries)
      ensures Kept(old(reverse), old(blocks), reverse, blocks)
      ensures forall dir, page :: Lookup(dir, page) == old(Lookup(dir, page))
    {
      hide Conserved, HeapOk, BlocksOk, TablesOk, WithoutRun, Released, Translate, Kept;
      BlocksApart(records, idx, entries, heapStart, heapTop, blocks, page);
      ghost var size := records[blocks[page].index].size;
      Kfree(page);
      KeptAfterKfree(old(reverse), reverse, old(blocks), page, size);
      TablesAfterKfree(old(entries), directory, old(reverse), reverse, old(blocks), page, size, lost);
      RunKeepsUser(old(entries), page, page + size);
    }

    /** map_frame at USER_LIMIT, the kernel page through which pf_update_env_page reads a victim. */
    method MapScratch(f: nat)
      requires Valid() && ScratchSlot !in entries && f in usable && f !in freeFrames && f !in held
      modifies `freeFrames, `references, `entries, `held
      ensures Valid()
      ensures entries == old(entries)[ScratchSlot := Entry(f, Perm(false, false, false, false))]
      ensures f < |old(references)| && references == old(references)[f := old(references)[f] + 1]
      ensures freeFrames == old(freeFrames) && held == old(held)
    {
      hide HeapOk, BlocksOk, TablesOk;
      assert f < |references|;
      MapSlot(ScratchSlot, f, Perm(false, false, false, false));
      HeapUntouched(old(entries), entries, reverse, records, idx, heapStart, heapTop, blocks);
      TablesUntouched(old(entries), entries, directory, reverse, blocks, lost);
    }

    /** The end of that loan: the extra reference keeps unmap_frame from freeing the frame, which
        its own page `s` still names. */
    method UnmapScratch(f: nat, ghost s: Slot)
      requires Valid() && ScratchSlot in entries && entries[ScratchSlot].frame == f
      requires s != ScratchSlot && s in entries && entries[s].frame == f
      modifies `freeFrames, `references, `entries
      ensures Valid()
      ensures entries == Without(old(entries), ScratchSlot)
      ensures f < |old(references)| && old(references)[f] > 0
      ensures |references| == |old(references)| && references == old(references)[f := old(references)[f] - 1]
      ensures freeFrames == old(freeFrames)
    {
      hide Conserved, HeapOk, BlocksOk, TablesOk;
      TwoNamers(references, freeFrames, entries, held, usable, s);
      ConservedAfterUnmap(references, freeFrames, entries, held, usable, ScratchSlot);
      references := references[f := references[f] + 1];
      DecrementReferences(f);
      entries := Without(entries, ScratchSlot);
      references := references[f := references[f] - 1];
      assert references == old(references)[f := old(references)[f] - 1];
      HeapUntouched(old(entries), entries, reverse, records, idx, heapStart, heapTop, blocks);
      TablesAfterUnmap(old(entries), directory, reverse, blocks, ScratchSlot, lost);
    }

    lemma BlocksBelowTop()
      requires Valid()
      ensures forall p | p in blocks :: p < heapTop
    {
    }

    /** The record of a live block has the block's size. */
    lemma BlockSize(p: nat)
      requires Valid() && p in blocks
      ensures blocks[p].index < |records| && records[blocks[p].index] == Record(p, blocks[p].pages, false)
    {
    }

    lemma BlocksPositive()
      requires Valid()
      ensures 0 !in blocks
    {
    }

    // ---- page tables (memory_manager.c) ----

    /** get_page_table: the kernel address of the table of a user page, 0 if there is none. */
    method GetPageTable(dir: nat, page: nat) returns (table: nat)
      requires Valid()
      ensures table != 0 <==> TableEntry(dir, page) in directory
      ensures table != 0 ==> KheapPhysical(table) == directory[TableEntry(dir, page)]
    {
      hide Conserved, HeapOk, BlocksOk, TablesOk;
      var d := TableEntry(dir, page);
      if d in directory {
        TableFound(entries, directory, reverse, records, idx, heapStart, heapTop, blocks, d, lost);
        table := KheapVirtual(directory[d]);
      } else {
        table := 0;
      }
    }

    /** memset of a new page table. */
    method ZeroTable(table: nat)
      modifies `entries, `litter
      ensures entries == map s | s in old(entries) && !InTable(s, table, PAGE_TABLE_ENTRIES) :: old(entries)[s]
      ensures litter == set s | s in old(litter) && !InTable(s, table, PAGE_TABLE_ENTRIES)
    {
      for i := 0 to PAGE_TABLE_ENTRIES
        invariant entries == map s | s in old(entries) && !InTable(s, table, i) :: old(entries)[s]
        invariant litter == set s | s in old(litter) && !InTable(s, table, i)
      {
        entries, litter := Without(entries, TableSlot(table, i)), litter - {TableSlot(table, i)};
      }
    }

    /** create_page_table, called when the directory entry is zero and the kernel heap has room. */
    method CreatePageTable(dir: nat, page: nat) returns (table: nat)
      requires Valid() && page < USER_TOP_PAGE && TableEntry(dir, page) !in directory
      requires heapTop < heapMax - 1 && freeFrames != []
      modifies `freeFrames, `references, `entries, `held, `litter, `heapTop, `records, `idx, `reverse, `blocks
      modifies `directory
      ensures Valid()
      ensures table == old(heapTop) && heapTop == table + 1 && held == old(held)
      ensures var f := old(freeFrames)[0];
              && freeFrames == old(freeFrames)[1..]
              && directory == old(directory)[TableEntry(dir, page) := f]
              && entries == old(entries)[HeapSlot(table) := Entry(f, KERNEL_PERM)]
              && (forall x :: TableSlot(f, x) !in old(entries))
      ensures HeapShrunk(entries, old(entries)) && HeapFrom(old(entries), entries, old(freeFrames))
      ensures table !in old(blocks)
              && blocks == old(blocks)[table := Block(old(idx), PageTable(TableEntry(dir, page)), 1)]
      ensures Kept(old(reverse), old(blocks), reverse, blocks)
      ensures forall dir', page' :: Lookup(dir', page') == old(Lookup(dir', page'))
    {
      hide Conserved, BlocksOk, TablesOk, Swept, Littered;
      TablesNotFree();
      ghost var f := freeFrames[0];
      HeldFrameUnnamed(references, freeFrames, entries, held, usable, f);
      assert reverse[f] == 0;
      table := Kmalloc(1, PageTable(TableEntry(dir, page)));
      var pa := KheapPhysical(table);
      TablesAfterCreate(old(entries), old(directory), old(reverse), reverse, old(blocks), TableEntry(dir, page),
                        table, pa, old(idx), Entry(f, KERNEL_PERM), lost);
      TranslateAfterCreate(old(entries), old(directory), TableEntry(dir, page), table, f, Entry(f, KERNEL_PERM));
      SweptStill(old(litter), old(freeFrames));
      ghost var litter' := litter;
      ZeroTable(pa);
      assert entries == old(entries)[HeapSlot(table) := Entry(f, KERNEL_PERM)];
      SweptTable(directory, litter', TableEntry(dir, page), pa, litter);
      directory := directory[TableEntry(dir, page) := pa];
    }

    /** map_frame on a user address. */
    method MapFrame(dir: nat, f: nat, page: nat, perm: Perm)
      requires Valid() && page < USER_TOP_PAGE && f in usable && f !in freeFrames
      requires TableEntry(dir, page) !in directory ==> heapTop < heapMax - 1 && freeFrames != []
      modifies `freeFrames, `references, `entries, `held, `litter, `heapTop, `records, `idx, `reverse, `blocks
      modifies `directory
      ensures Valid()
      ensures Lookup(dir, page).Some? && Lookup(dir, page).value.frame == f
      ensures !old(MapsTo(dir, page, f)) ==> Lookup(dir, page).value.perm == perm && held == old(held) - {f}
      ensures old(MapsTo(dir, page, f)) ==> unchanged(this)
      ensures forall dir', page' | !(dir' == dir && page' == page) :: Lookup(dir', page') == old(Lookup(dir', page'))
      ensures old(TableEntry(dir, page) in directory) ==>
                && directory == old(directory) && reverse == old(reverse) && blocks == old(blocks)
                   && heapTop == old(heapTop)
                && (!old(MapsTo(dir, page, f))
                   ==> entries == old(entries)[SlotOf(directory, dir, page) := Entry(f, perm)])
                && (old(Lookup(dir, page).None?) ==> freeFrames == old(freeFrames))
      ensures old(TableEntry(dir, page) !in directory) ==>
                && freeFrames == old(freeFrames)[1..] && heapTop == old(heapTop) + 1
                && directory == old(directory)[TableEntry(dir, page) := old(freeFrames)[0]]
                && old(blocks.Keys) <= blocks.Keys
                && Kept(old(reverse), old(blocks), reverse, blocks)
      ensures HeapShrunk(entries, old(entries)) && held <= old(held)
      ensures HeapFrom(old(entries), entries, old(freeFrames))
      ensures (ScratchSlot in entries <==> ScratchSlot in old(entries)) && SameLost(old(entries), entries)
      ensures forall p | p in blocks && p !in old(blocks) :: blocks[p].owner.PageTable?
    {
      hide Conserved, HeapOk, BlocksOk, TablesOk, Kept, HeapShrunk, HeapFrom;
      HeapShrunkRefl(entries);
      var table := GetPageTable(dir, page);
      if table == 0 {
        table := CreatePageTable(dir, page);
      }
      var s := TableSlot(KheapPhysical(table), page % PAGE_TABLE_ENTRIES);
      assert s == SlotOf(directory, dir, page);
      ghost var mid := entries;
      MapSlot(s, f, perm);
      TableSlotsOnly(mid, entries, s, Entry(f, perm));
      HeapShrunkTwice(entries, mid, old(entries));
      TableFrom(old(entries), mid, entries, old(freeFrames), s, Entry(f, perm));
      HeapUntouched(mid, entries, reverse, records, idx, heapStart, heapTop, blocks);
      TablesAfterMap(mid, directory, reverse, blocks, TableEntry(dir, page), page % PAGE_TABLE_ENTRIES, Entry(f, perm),
        lost);
      TranslateElsewhere(mid, entries, directory, reverse, blocks, dir, page, lost);
    }

    ghost predicate MapsTo(dir: nat, page: nat, f: nat)
      reads this
    {
      Lookup(dir, page).Some? && Lookup(dir, page).value.frame == f
    }

    /** unmap_frame on a user address. */
    method UnmapFrame(dir: nat, page: nat)
      requires Valid()
      modifies `freeFrames, `references, `entries
      ensures Valid()
      ensures Lookup(dir, page).None?
      ensures forall dir', page' | !(dir' == dir && page' == page) :: Lookup(dir', page') == old(Lookup(dir', page'))
      ensures old(Lookup(dir, page).None?) ==> unchanged(this)
      ensures old(Lookup(dir, page).Some?) ==>
                var f := old(Lookup(dir, page).value.frame);
                && entries == Without(old(entries), SlotOf(directory, dir, page))
                && f < |old(references)|
                && freeFrames == FreeAfterDrop(old(references), old(freeFrames), f)
    {
      hide Conserved, HeapOk, BlocksOk, TablesOk;
      var table := GetPageTable(dir, page);
      if table == 0 {
        return;
      }
      var s := TableSlot(KheapPhysical(table), page % PAGE_TABLE_ENTRIES);
      assert s == SlotOf(directory, dir, page);
      UnmapSlot(s);
      HeapUntouched(old(entries), entries, reverse, records, idx, heapStart, heapTop, blocks);
      TablesAfterUnmap(old(entries), directory, reverse, blocks, s, lost);
      TranslateElsewhere(old(entries), entries, directory, reverse, blocks, dir, page, lost);
    }

    /** A write of the used and modified bits of a mapped page: by the processor on a load or store
        (Intel SDM volume 3A, section 4.8), by CLOCK, or by pt_set_page_permissions. */
    method SetBits(dir: nat, page: nat, used: bool, modified: bool)
      requires Valid() && Lookup(dir, page).Some?
      modifies `entries
      ensures Valid()
      ensures Lookup(dir, page)
              == Some(old(Lookup(dir, page).value).(
                 perm := old(Lookup(dir, page).value.perm).(used := used, modified := modified)))
      ensures forall dir', page' | !(dir' == dir && page' == page) :: Lookup(dir', page') == old(Lookup(dir', page'))
      ensures entries.Keys == old(entries.Keys)
      ensures forall s | s in entries :: entries[s].frame == old(entries)[s].frame
    {
      hide Conserved, HeapOk, BlocksOk, TablesOk;
      var table := GetPageTable(dir, page);
      var s := TableSlot(KheapPhysical(table), page % PAGE_TABLE_ENTRIES);
      assert s == SlotOf(directory, dir, page);
      var e := entries[s];
      var e' := e.(perm := e.perm.(used := used, modified := modified));
      ConservedAfterTouch(references, freeFrames, entries, held, usable, s, e');
      entries := entries[s := e'];
      HeapUntouched(old(entries), entries, reverse, records, idx, heapStart, heapTop, blocks);
      TablesAfterMap(old(entries), directory, reverse, blocks, TableEntry(dir, page), page % PAGE_TABLE_ENTRIES, e',
        lost);
      TranslateElsewhere(old(entries), entries, directory, reverse, blocks, dir, page, lost);
    }

    /** The words still in a table that is about to be freed: nothing clears them, and from now on no table
        holds them. */
    method LeaveBehind(table: nat)
      requires Conserved(references, freeFrames, entries, held, usable)
      requires forall k: nat {:trigger LostSlot(k)} :: LostSlot(k) in entries <==> k < lost
      modifies `entries, `lost
      ensures Conserved(references, freeFrames, entries, held, usable)
      ensures WordsLeft(old(entries), old(lost), table, PAGE_TABLE_ENTRIES, entries, lost)
    {
      hide Conserved, WordsLeft;
      WordsLeftNone(entries, lost, table);
      for x := 0 to PAGE_TABLE_ENTRIES
        invariant Conserved(references, freeFrames, entries, held, usable)
        invariant WordsLeft(old(entries), old(lost), table, x, entries, lost)
      {
        var s := TableSlot(table, x);
        WordsLeftStep(old(entries), old(lost), table, x, entries, lost);
        if s in entries {
          ConservedAfterMove(references, freeFrames, entries, held, usable, s, LostSlot(lost));
          entries := Without(entries, s)[LostSlot(lost) := entries[s]];
          lost := lost + 1;
        }
      }
    }

    /** The words of a table that a directory names are left behind. */
    method LeaveTable(d: Pde)
      requires Valid() && d in directory
      modifies `entries, `lost
      ensures Valid() && EmptyTable(entries, directory[d])
      ensures SameHeap(old(entries), entries) && (ScratchSlot in entries <==> ScratchSlot in old(entries))
      ensures LostKept(old(entries), entries) && old(lost) <= lost
      ensures LostFrom(old(entries), directory, d.dir, old(lost), entries, lost)
      ensures lost == old(lost) <==> EmptyTable(old(entries), directory[d])
      ensures forall dir, page ::
                Lookup(dir, page) == if TableEntry(dir, page) == d then None else old(Lookup(dir, page))
    {
      hide Conserved, HeapOk, BlocksOk, TablesOk, Translate, LostFrom, WordsLeft, EmptyTable, LostKept, SameHeap;
      LostCounted();
      LeaveBehind(directory[d]);
      TablesAfterLeave(old(entries), old(lost), directory[d], entries, lost, directory, reverse, blocks);
      TranslateAfterLeave(old(entries), old(lost), d, entries, lost, directory, reverse, blocks);
      HeapUntouched(old(entries), entries, reverse, records, idx, heapStart, heapTop, blocks);
    }

    lemma WhenEmpty(d: Pde)
      requires Valid() && d in directory
      ensures EmptyTable(entries, directory[d])
              <==> forall page | TableEntry(d.dir, page) == d :: Lookup(d.dir, page).None?
    {
      hide TablesOk, HeapValid, EmptyTable, Translate;
      TableEmpty(entries, directory, reverse, blocks, d, lost);
    }

    lemma LostCounted()
      requires Valid()
      ensures forall k: nat {:trigger LostSlot(k)} :: LostSlot(k) in entries <==> k < lost
    {
    }

    /** An empty page table goes back to the kernel heap and its directory entry is cleared: nothing is
        left behind and no translation changes. */
    method DropEmptyTable(d: Pde)
      requires Valid() && d in directory && EmptyTable(entries, directory[d])
      modifies `freeFrames, `references, `entries, `records, `reverse, `blocks, `directory
      ensures Valid()
      ensures directory == old(directory) - {d}
      ensures SameUserSlots(old(entries), entries) && HeapShrunk(old(entries), entries)
      ensures old(directory[d]) < |old(reverse)|
      ensures old(reverse[directory[d]]) in old(blocks) && old(blocks)[old(reverse[directory[d]])].owner == PageTable(d)
      ensures blocks == old(blocks) - {old(reverse[directory[d]])}
      ensures Kept(old(reverse), old(blocks), reverse, blocks)
      ensures forall dir, page :: Lookup(dir, page) == old(Lookup(dir, page))
    {
      hide Conserved, HeapOk, BlocksOk, TablesOk, WithoutRun, Released, Translate, Kept, EmptyTable;
      TableFound(entries, directory, reverse, records, idx, heapStart, heapTop, blocks, d, lost);
      BlocksApart(records, idx, entries, heapStart, heapTop, blocks, reverse[directory[d]]);
      var table := KheapVirtual(directory[d]);
      ghost var size := records[blocks[table].index].size;
      Kfree(table);
      KeptAfterKfree(old(reverse), reverse, old(blocks), table, size);
      TablesAfterDrop(old(entries), directory, old(reverse), reverse, old(blocks), d, table, size, lost);
      RunKeepsUser(old(entries), table, table + size);
      directory := directory - {d};
    }

    /** Gives a page table back to the kernel heap, whatever it still holds: the frames that its words name
        stay referenced. */
    method DropTable(d: Pde)
      requires Valid() && d in directory
      modifies `freeFrames, `references, `entries, `records, `reverse, `blocks, `directory, `lost
      ensures Valid()
      ensures directory == old(directory) - {d}
      ensures HeapShrunk(old(entries), entries) && (ScratchSlot in entries <==> ScratchSlot in old(entries))
      ensures LostKept(old(entries), entries) && old(lost) <= lost
      ensures LostFrom(old(entries), old(directory), d.dir, old(lost), entries, lost)
      ensures lost == old(lost) <==> forall page | TableEntry(d.dir, page) == d :: old(Lookup(d.dir, page)).None?
      ensures old(directory[d]) < |old(reverse)|
      ensures old(reverse[directory[d]]) in old(blocks) && old(blocks)[old(reverse[directory[d]])].owner == PageTable(d)
      ensures blocks == old(blocks) - {old(reverse[directory[d]])}
      ensures Kept(old(reverse), old(blocks), reverse, blocks)
      ensures forall dir, page ::
                Lookup(dir, page) == if TableEntry(dir, page) == d then None else old(Lookup(dir, page))
    {
      hide Memory.Valid, Kept, EmptyTable, Translate, MappedBy;
      WhenEmpty(d);
      LeaveTable(d);
      DropEmptyTable(d);
    }

    /** Without directory entries below USER_TOP an environment has no page tables. */
    lemma NoTablesLeft(dir: nat)
      requires Valid()
      ensures (forall d | d in directory && d.dir == dir :: d.index >= USER_TABLES) ==>
                && (forall p | p in blocks && blocks[p].owner.PageTable? :: blocks[p].owner.pde.dir != dir)
                && (forall page :: Lookup(dir, page).None?)
    {
    }

    lemma MappedHasTable(dir: nat, page: nat)
      ensures Lookup(dir, page).Some? ==> TableEntry(dir, page) in directory
    {
    }

    /** A word left behind in a freed table keeps its frame off the free list. */
    lemma LostFrame(k: nat)
      requires Valid() && k < lost
      ensures LostSlot(k) in entries && entries[LostSlot(k)].frame < |references|
      ensures references[entries[LostSlot(k)].frame] > 0 && entries[LostSlot(k)].frame !in freeFrames
    {
      assert LostSlot(k) in Namers(entries, entries[LostSlot(k)].frame);
    }

    lemma LostUsable(k: nat)
      requires Valid() && k < lost
      ensures LostSlot(k) in entries && entries[LostSlot(k)].frame in usable
    {
    }

    /** A usable frame that is not on the free list is named by a kernel-heap page, by a page that some
        environment's tables translate, or by a lost word. */
    lemma NoFrameLost(f: nat)
      requires Valid() && held == {} && ScratchSlot !in entries
      requires f in usable && f !in freeFrames
      requires forall k: nat {:trigger LostSlot(k)} | LostSlot(k) in entries :: entries[LostSlot(k)].frame != f
      requires forall p: nat :: !(HeapSlot(p) in entries && entries[HeapSlot(p)].frame == f)
      ensures exists dir, page :: Lookup(dir, page).Some? && Lookup(dir, page).value.frame == f
    {
      hide HeapOk, BlocksOk;
      assert |Namers(entries, f)| > 0;
      var s :| s in Namers(entries, f);
      var d := blocks[reverse[s.table]].owner.pde;
      var page := d.index * PAGE_TABLE_ENTRIES + s.index;
      assert TableEntry(d.dir, page) == d && SlotOf(directory, d.dir, page) == s;
      assert Lookup(d.dir, page).Some?;
    }

    /** The last loop of freeMem for one directory entry: a table goes back to the kernel heap only if
        all its 1024 entries are zero, and then its directory entry is cleared. */
    method DropTableIfEmpty(d: Pde)
      requires Valid()
      modifies `freeFrames, `references, `entries, `records, `reverse, `blocks, `directory
      ensures Valid()
      ensures directory == old(directory) || directory == old(directory) - {d}
      ensures d in old(directory) ==>
                (d in directory <==> exists x :: TableSlot(old(directory)[d], x) in old(entries))
      ensures SameUserSlots(old(entries), entries) && HeapShrunk(old(entries), entries)
      ensures blocks.Keys <= old(blocks.Keys) && BlocksKept(old(blocks), blocks)
      ensures forall p | p in old(blocks) && old(blocks)[p].owner != PageTable(d) :: p in blocks
      ensures Kept(old(reverse), old(blocks), reverse, blocks)
      ensures forall dir, page :: Lookup(dir, page) == old(Lookup(dir, page))
    {
      hide Conserved, HeapOk, BlocksOk, Kept, Translate;
      KeptRefl(reverse, blocks);
      BlocksKeptRefl(blocks);
      if d !in directory {
        return;
      }
      var counter := 0;
      while counter < PAGE_TABLE_ENTRIES && TableSlot(directory[d], counter) !in entries
        invariant counter <= PAGE_TABLE_ENTRIES
        invariant forall x | 0 <= x < counter :: TableSlot(directory[d], x) !in entries
      {
        counter := counter + 1;
      }
      if counter == PAGE_TABLE_ENTRIES {
        DropEmptyTable(d);
      }
    }

    /** The frame of a mapped page is a usable frame that is neither free nor waiting to be mapped. */
    lemma MappedFrame(dir: nat, page: nat)
      requires Valid() && Lookup(dir, page).Some?
      ensures var f := Lookup(dir, page).value.frame;
              f in usable && f < |ram| && f !in freeFrames && f !in held
    {
      var s := SlotOf(directory, dir, page);
      assert s in Namers(entries, entries[s].frame);
    }

    lemma Parts()
      requires Valid()
      ensures HeapValid() && |ram| == |reverse|
    {
    }

    /** The frame behind a heap page is a usable frame that is not on the free list. */
    lemma HeapFrame(p: nat)
      requires Valid() && HeapSlot(p) in entries
      ensures KheapPhysical(p) in usable && KheapPhysical(p) !in freeFrames && KheapPhysical(p) !in held
    {
      assert HeapSlot(p) in Namers(entries, KheapPhysical(p));
    }

    lemma MappedNotFree()
      requires Valid()
      ensures forall dir, page | Lookup(dir, page).Some? :: Lookup(dir, page).value.frame !in freeFrames
      ensures forall k: nat {:trigger LostSlot(k)} | LostSlot(k) in entries :: entries[LostSlot(k)].frame !in freeFrames
    {
      LostCounted();
      forall k: nat {:trigger LostSlot(k)} | LostSlot(k) in entries
        ensures entries[LostSlot(k)].frame !in freeFrames
      {
        LostFrame(k);
      }
      hide Valid, Translate;
      forall dir, page | Lookup(dir, page).Some?
        ensures Lookup(dir, page).value.frame !in freeFrames
      {
        MappedFrame(dir, page);
      }
    }

    /** A frame that only one user page names, and no heap page, has exactly one reference. */
    lemma OneReference(dir: nat, page: nat)
      requires Valid() && ScratchSlot !in entries && Lookup(dir, page).Some?
      requires forall k: nat {:trigger LostSlot(k)} | LostSlot(k) in entries ::
                 entries[LostSlot(k)].frame != Lookup(dir, page).value.frame
      requires forall p: nat {:trigger HeapSlot(p)} | HeapSlot(p) in entries ::
                 entries[HeapSlot(p)].frame != Lookup(dir, page).value.frame
      requires forall d, v | Lookup(d, v).Some? && Lookup(d, v).value.frame == Lookup(dir, page).value.frame ::
                 d == dir && v == page
      ensures Lookup(dir, page).value.frame < |references| && references[Lookup(dir, page).value.frame] == 1
    {
      hide HeapOk, BlocksOk;
      var f, s := Lookup(dir, page).value.frame, SlotOf(directory, dir, page);
      forall s' | s' in Namers(entries, f)
        ensures s' == s
      {
        var d := blocks[reverse[s'.table]].owner.pde;
        var v := d.index * PAGE_TABLE_ENTRIES + s'.index;
        assert TableEntry(d.dir, v) == d && SlotOf(directory, d.dir, v) == s';
        assert Lookup(d.dir, v).Some?;
      }
      assert Namers(entries, f) == {s};
    }

    /** The live block that a mapped heap page lies in. */
    lemma HeapPageOwner(p: nat) returns (h: nat)
      requires Valid() && HeapSlot(p) in entries
      ensures h in blocks && blocks[h].index < |records| && h <= p < h + records[blocks[h].index].size
    {
      h := BlockOfPage(records, idx, entries, reverse, heapStart, heapTop, blocks, p);
    }

    /** A victim's contents, read through USER_LIMIT as pf_update_env_page does; the loan leaves the
        page tables, the reference counts and the free list unchanged. */
    method ReadThroughScratch(dir: nat, page: nat, f: nat) returns (contents: Page)
      requires Valid() && ScratchSlot !in entries
      requires Lookup(dir, page).Some? && Lookup(dir, page).value.frame == f
      modifies `freeFrames, `references, `entries, `held
      ensures Valid()
      ensures f < |ram| && contents == ram[f]
      ensures entries == old(entries) && references == old(references)
      ensures freeFrames == old(freeFrames) && held == old(held)
    {
      hide Memory.Valid;
      MappedFrame(dir, page);
      MapScratch(f);
      contents := ram[entries[ScratchSlot].frame];
      ghost var borrowed := references;
      UnmapScratch(f, SlotOf(directory, dir, page));
      assert entries == old(entries);
      assert references == borrowed[f := borrowed[f] - 1];
      assert borrowed == old(references)[f := old(references)[f] + 1];
    }

    /** A copy into the frame mapped at a user page. */
    method StoreFrame(dir: nat, page: nat, contents: Page)
      requires Valid() && Lookup(dir, page).Some?
      modifies `ram
      ensures Valid()
      ensures Lookup(dir, page).value.frame < |old(ram)|
      ensures ram == old(ram)[Lookup(dir, page).value.frame := contents]
    {
      hide Conserved, HeapOk, BlocksOk, TablesOk;
      MappedFrame(dir, page);
      ram := ram[Lookup(dir, page).value.frame := contents];
    }

    /** allocate_frame for a user page. */
    method AllocateUserFrame() returns (f: nat)
      requires Valid() && freeFrames != []
      modifies `freeFrames, `references, `held, `litter, `ram
      ensures Valid()
      ensures f == old(freeFrames)[0] && freeFrames == old(freeFrames)[1..]
      ensures held == old(held) + {f} && f !in old(held)
      ensures f in usable && f < |old(ram)| && f !in freeFrames
      ensures |ram| == |old(ram)| && forall g | 0 <= g < |ram| && g != f :: ram[g] == old(ram)[g]
      ensures forall dir, page :: Lookup(dir, page) == old(Lookup(dir, page))
      ensures forall dir, page | old(Lookup(dir, page)).Some? :: old(Lookup(dir, page)).value.frame != f
      ensures forall s | s in entries :: entries[s].frame != f
    {
      hide Conserved, HeapOk, BlocksOk, TablesOk, Swept, Littered;
      TablesNotFree();
      f := AllocateFrame();
      HeldFrameUnnamed(references, freeFrames, entries, held, usable, f);
      NewLitter(old(litter), f, old(freeFrames));
      SweptStill(old(litter), old(freeFrames));
      var contents: Page := *;
      ram := ram[f := contents];
    }
  }
}
