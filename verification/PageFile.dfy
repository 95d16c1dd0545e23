/** file_manager.c: the page file. Disk frames are handed out from a free list and recorded, page by
    page, in per-environment disk page tables that live in kernel-heap pages. */
module PageFile {
  import opened Common
  import opened FrameAccounting
  import opened KernelMemory

  /** A user page of an environment; environments are identified by their page directory. */
  datatype PageId = PageId(dir: nat, page: nat)

  /** Disk frames 1..count-1 are split exactly between the free list and the pages that own one,
      and no disk frame has two owners. */
  ghost predicate OwnershipOk(free: seq<nat>, frames: map<PageId, nat>, count: nat) {
    && Distinct(free)
    && (forall d | d in free :: 1 <= d < count)
    && (forall p | p in frames :: 1 <= frames[p] < count && frames[p] !in free)
    && (forall p, q | p in frames && q in frames && frames[p] == frames[q] :: p == q)
    && (forall d | 1 <= d < count :: d in free || d in frames.Values)
  }

  predicate InDiskTable(p: PageId, d: Pde, n: nat) {
    TableEntry(p.dir, p.page) == d && p.page % PAGE_TABLE_ENTRIES < n
  }

  predicate DiskTableOf(owner: Owner, dir: nat) {
    owner.DiskTable? && owner.pde.dir == dir
  }

  predicate ForDisk(owner: Owner) {
    owner.DiskDirectory? || owner.DiskTable?
  }

  /** Disk directories are exactly the live kernel-heap blocks kept for that purpose. */
  ghost predicate DirectoriesOk(directories: map<nat, nat>, blocks: map<nat, Block>) {
    && (forall e | e in directories :: directories[e] in blocks && blocks[directories[e]].owner == DiskDirectory(e))
    && (forall p | p in blocks && blocks[p].owner.DiskDirectory? ::
          blocks[p].owner.dir in directories && directories[blocks[p].owner.dir] == p)
  }

  /** Disk tables are exactly the live kernel-heap blocks kept for that purpose. */
  ghost predicate DiskBlocksOk(tables: map<Pde, nat>, reverse: seq<nat>, blocks: map<nat, Block>) {
    && (forall d | d in tables ::
          && tables[d] < |reverse|
          && reverse[tables[d]] in blocks
          && blocks[reverse[tables[d]]].owner == DiskTable(d))
    && (forall p | p in blocks && blocks[p].owner.DiskTable? ::
          && blocks[p].owner.pde in tables
          && tables[blocks[p].owner.pde] < |reverse|
          && reverse[tables[blocks[p].owner.pde]] == p)
  }

  /** Every disk table hangs off a disk directory and every entry lies in a disk table. */
  ghost predicate LinksOk(directories: map<nat, nat>, tables: map<Pde, nat>, frames: map<PageId, nat>) {
    && (forall d | d in tables :: d.dir in directories && d.index < USER_TABLES)
    && (forall p | p in frames :: TableEntry(p.dir, p.page) in tables)
  }

  ghost predicate DiskTablesOk(
    directories: map<nat, nat>, tables: map<Pde, nat>, frames: map<PageId, nat>,
    reverse: seq<nat>, blocks: map<nat, Block>)
  {
    DirectoriesOk(directories, blocks) && DiskBlocksOk(tables, reverse, blocks) && LinksOk(directories, tables, frames)
  }

  lemma OwnershipAfterAllocate(free: seq<nat>, frames: map<PageId, nat>, count: nat, p: PageId)
    requires OwnershipOk(free, frames, count)
    requires free != [] && p !in frames
    ensures 1 <= free[0]
    ensures OwnershipOk(free[1..], frames[p := free[0]], count)
  {
    var frames' := frames[p := free[0]];
    assert free[0] in free && free[0] !in free[1..];
    assert forall d | d in free[1..] :: d in free;
    forall d | 1 <= d < count
      ensures d in free[1..] || d in frames'.Values
    {
      if d in frames.Values {
        var q :| q in frames && frames[q] == d;
        assert q in frames' && frames'[q] == d;
      } else if d == free[0] {
        assert p in frames' && frames'[p] == d;
      }
    }
  }

  lemma OwnedFrame(free: seq<nat>, frames: map<PageId, nat>, count: nat, p: PageId)
    requires OwnershipOk(free, frames, count)
    requires p in frames
    ensures 1 <= frames[p] < count
  {
  }

  lemma NewFrame(free: seq<nat>, frames: map<PageId, nat>, count: nat)
    requires OwnershipOk(free, frames, count)
    ensures free != [] ==> 1 <= free[0] < count && forall p | p in frames :: frames[p] != free[0]
  {
    assert free != [] ==> free[0] in free;
  }

  lemma OwnershipAfterRelease(free: seq<nat>, frames: map<PageId, nat>, count: nat, p: PageId)
    requires OwnershipOk(free, frames, count)
    requires p in frames
    ensures OwnershipOk([frames[p]] + free, frames - {p}, count)
  {
    var frames' := frames - {p};
    forall d | 1 <= d < count
      ensures d in [frames[p]] + free || d in frames'.Values
    {
      if d in frames.Values && d != frames[p] {
        var q :| q in frames && frames[q] == d;
        assert q in frames' && frames'[q] == d;
      }
    }
  }

  /** The disk frames that the free list is made of at the start. */
  function FramesBelow(n: nat): (e: set<nat>)
    requires n > 0
    ensures (forall d :: d in e <==> 1 <= d < n) && |e| == n - 1
  {
    if n == 1 then {} else FramesBelow(n - 1) + {n - 1}
  }

  lemma {:induction false} InjectiveCount(frames: map<PageId, nat>)
    requires forall p, q | p in frames && q in frames && frames[p] == frames[q] :: p == q
    ensures |frames.Values| == |frames|
    decreases |frames|
  {
    if frames != map[] {
      var p :| p in frames;
      var rest := frames - {p};
      InjectiveCount(rest);
      assert frames.Values == rest.Values + {frames[p]} by {
        forall d | d in frames.Values
          ensures d in rest.Values + {frames[p]}
        {
          var q :| q in frames && frames[q] == d;
          assert q == p || (q in rest && rest[q] == d);
        }
      }
      assert frames[p] !in rest.Values;
      assert frames == rest[p := frames[p]];
    }
  }

  /** Every disk frame but number 0 is counted once, free or owned. */
  lemma DiskFramesCount(free: seq<nat>, frames: map<PageId, nat>, count: nat)
    requires OwnershipOk(free, frames, count)
    ensures |free| + |frames| == if count > 0 then count - 1 else 0
  {
    if count == 0 {
      ElementsAre(free, {});
      assert frames == map[];
      return;
    }
    InjectiveCount(frames);
    SplitCount(FramesBelow(count), Elements(free), frames.Values);
  }

  lemma SplitCount(all: set<nat>, a: set<nat>, b: set<nat>)
    requires forall d :: d in all <==> d in a || d in b
    requires forall d | d in a :: d !in b
    ensures |all| == |a| + |b|
  {
    assert all == a + b && a * b == {};
  }

  /** The pages of an environment that have a disk frame. */
  ghost function BackedPages(dir: nat, frames: map<PageId, nat>): (backed: set<nat>)
    ensures forall v :: v in backed <==> PageId(dir, v) in frames
  {
    BackedIs(dir, frames);
    set p | p in frames && p.dir == dir :: p.page
  }

  lemma BackedIs(dir: nat, frames: map<PageId, nat>)
    ensures forall v :: v in (set p | p in frames && p.dir == dir :: p.page) <==> PageId(dir, v) in frames
  {
    forall v | PageId(dir, v) in frames
      ensures v in (set p | p in frames && p.dir == dir :: p.page)
    {
      assert PageId(dir, v).page == v;
    }
  }

  lemma {:induction false} BackedCount(dir: nat, frames: map<PageId, nat>, backed: set<nat>)
    requires forall v :: v in backed <==> PageId(dir, v) in frames
    ensures |frames| == |backed| + |set p | p in frames && p.dir != dir|
    decreases |backed|
  {
    var others := set p | p in frames && p.dir != dir;
    if backed == {} {
      assert frames.Keys == others;
    } else {
      var v :| v in backed;
      var rest := frames - {PageId(dir, v)};
      BackedCount(dir, rest, backed - {v});
      assert others == set p | p in rest && p.dir != dir;
      assert frames == rest[PageId(dir, v) := frames[PageId(dir, v)]];
    }
  }

  /** What one environment gives or takes, the free list takes or gives. */
  lemma DiskFramesShared(
    dir: nat, free: seq<nat>, frames: map<PageId, nat>, free': seq<nat>, frames': map<PageId, nat>, count: nat)
    requires OwnershipOk(free, frames, count) && OwnershipOk(free', frames', count)
    requires forall p: PageId | p.dir != dir :: p in frames <==> p in frames'
    ensures |free'| + |BackedPages(dir, frames')| == |free| + |BackedPages(dir, frames)|
  {
    DiskFramesCount(free, frames, count);
    DiskFramesCount(free', frames', count);
    BackedCount(dir, frames, BackedPages(dir, frames));
    BackedCount(dir, frames', BackedPages(dir, frames'));
    assert (set p | p in frames && p.dir != dir) == set p | p in frames' && p.dir != dir;
  }

  lemma DirectoriesKept(
    directories: map<nat, nat>, blocks: map<nat, Block>, reverse: seq<nat>, reverse': seq<nat>,
    blocks': map<nat, Block>)
    requires DirectoriesOk(directories, blocks)
    requires Kept(reverse, blocks, reverse', blocks')
    requires forall p | p in blocks && blocks[p].owner.DiskDirectory? :: p in blocks'
    requires forall p | p in blocks' && blocks'[p].owner.DiskDirectory? :: p in blocks
    ensures DirectoriesOk(directories, blocks')
  {
  }

  lemma DiskBlocksKept(
    tables: map<Pde, nat>, blocks: map<nat, Block>, reverse: seq<nat>, reverse': seq<nat>, blocks': map<nat, Block>)
    requires DiskBlocksOk(tables, reverse, blocks)
    requires Kept(reverse, blocks, reverse', blocks')
    requires forall p | p in blocks && blocks[p].owner.DiskTable? :: p in blocks'
    requires forall p | p in blocks' && blocks'[p].owner.DiskTable? :: p in blocks
    ensures DiskBlocksOk(tables, reverse', blocks')
  {
  }

  lemma DiskBlocksAfterAdd(
    tables: map<Pde, nat>, blocks: map<nat, Block>, reverse: seq<nat>, reverse': seq<nat>, blocks': map<nat, Block>,
    d: Pde, f: nat)
    requires DiskBlocksOk(tables, reverse, blocks)
    requires Kept(reverse, blocks, reverse', blocks')
    requires d !in tables
    requires f < |reverse'| && reverse'[f] !in blocks && blocks'.Keys == blocks.Keys + {reverse'[f]}
    requires blocks'[reverse'[f]].owner == DiskTable(d)
    ensures DiskBlocksOk(tables[d := f], reverse', blocks')
  {
  }

  lemma DiskBlocksAfterDrop(
    tables: map<Pde, nat>, blocks: map<nat, Block>, reverse: seq<nat>, reverse': seq<nat>, blocks': map<nat, Block>,
    d: Pde)
    requires DiskBlocksOk(tables, reverse, blocks)
    requires Kept(reverse, blocks, reverse', blocks')
    requires d in tables && blocks'.Keys == blocks.Keys - {reverse[tables[d]]}
    ensures DiskBlocksOk(tables - {d}, reverse', blocks')
  {
  }

  lemma DirectoriesAfterDrop(
    directories: map<nat, nat>, blocks: map<nat, Block>, reverse: seq<nat>, reverse': seq<nat>,
    blocks': map<nat, Block>, dir: nat)
    requires DirectoriesOk(directories, blocks)
    requires Kept(reverse, blocks, reverse', blocks')
    requires dir in directories && blocks'.Keys == blocks.Keys - {directories[dir]}
    ensures DirectoriesOk(directories - {dir}, blocks')
  {
  }

  lemma DiskTablesKept(
    directories: map<nat, nat>, tables: map<Pde, nat>, frames: map<PageId, nat>,
    reverse: seq<nat>, blocks: map<nat, Block>, reverse': seq<nat>, blocks': map<nat, Block>)
    requires DiskTablesOk(directories, tables, frames, reverse, blocks)
    requires Kept(reverse, blocks, reverse', blocks')
    requires forall p | p in blocks && ForDisk(blocks[p].owner) :: p in blocks'
    requires forall p | p in blocks' && ForDisk(blocks'[p].owner) :: p in blocks
    ensures DiskTablesOk(directories, tables, frames, reverse', blocks')
  {
    hide DirectoriesOk, DiskBlocksOk, Kept;
    DirectoriesKept(directories, blocks, reverse, reverse', blocks');
    DiskBlocksKept(tables, blocks, reverse, reverse', blocks');
  }

  lemma DiskTablesAfterDirectory(
    directories: map<nat, nat>, tables: map<Pde, nat>, frames: map<PageId, nat>,
    v: View, v': View, n: nat, dir: nat, page: nat)
    requires DiskTablesOk(directories, tables, frames, v.reverse, v.blocks)
    requires HeapGrew(v, v', n)
    requires dir !in directories && page !in v.blocks && page in v'.blocks
             && v'.blocks[page].owner == DiskDirectory(dir)
    requires v'.blocks.Keys == v.blocks.Keys + {page}
    ensures DiskTablesOk(directories[dir := page], tables, frames, v'.reverse, v'.blocks)
  {
    hide DiskBlocksOk;
    DiskBlocksKept(tables, v.blocks, v.reverse, v'.reverse, v'.blocks);
  }

  lemma DiskTableFound(
    directories: map<nat, nat>, tables: map<Pde, nat>, frames: map<PageId, nat>,
    reverse: seq<nat>, blocks: map<nat, Block>, d: Pde)
    requires DiskTablesOk(directories, tables, frames, reverse, blocks)
    requires d in tables
    ensures d.dir in directories
    ensures tables[d] < |reverse| && reverse[tables[d]] in blocks && blocks[reverse[tables[d]]].owner == DiskTable(d)
  {
  }

  lemma FramesHaveTables(
    directories: map<nat, nat>, tables: map<Pde, nat>, frames: map<PageId, nat>, reverse: seq<nat>,
    blocks: map<nat, Block>)
    requires DiskTablesOk(directories, tables, frames, reverse, blocks)
    ensures forall p | p in frames :: TableEntry(p.dir, p.page) in tables && p.dir in directories
    ensures forall d | d in tables :: d.index < USER_TABLES
  {
  }

  /** The disk directory of an environment, its block, and where its disk tables are found. */
  lemma DirectoryFound(
    directories: map<nat, nat>, tables: map<Pde, nat>, frames: map<PageId, nat>,
    reverse: seq<nat>, blocks: map<nat, Block>, dir: nat)
    requires DiskTablesOk(directories, tables, frames, reverse, blocks)
    requires dir in directories
    ensures directories[dir] in blocks && blocks[directories[dir]].owner == DiskDirectory(dir)
    ensures forall p | p in blocks && blocks[p].owner == DiskDirectory(dir) :: p == directories[dir]
    ensures forall p | p in blocks && blocks[p].owner.DiskTable? :: blocks[p].owner.pde in tables
  {
  }

  lemma DiskTablesAfterTable(
    directories: map<nat, nat>, tables: map<Pde, nat>, frames: map<PageId, nat>,
    v: View, v': View, n: nat, d: Pde, f: nat)
    requires DiskTablesOk(directories, tables, frames, v.reverse, v.blocks)
    requires HeapGrew(v, v', n)
    requires d !in tables && d.dir in directories && d.index < USER_TABLES
    requires f < |v'.reverse| && v'.reverse[f] !in v.blocks && v'.blocks.Keys == v.blocks.Keys + {v'.reverse[f]}
    requires v'.blocks[v'.reverse[f]].owner == DiskTable(d)
    ensures DiskTablesOk(directories, tables[d := f], frames, v'.reverse, v'.blocks)
  {
    hide DirectoriesOk, DiskBlocksOk;
    DirectoriesKept(directories, v.blocks, v.reverse, v'.reverse, v'.blocks);
    DiskBlocksAfterAdd(tables, v.blocks, v.reverse, v'.reverse, v'.blocks, d, f);
  }

  lemma DiskTablesAfterFrame(
    directories: map<nat, nat>, tables: map<Pde, nat>, frames: map<PageId, nat>,
    reverse: seq<nat>, blocks: map<nat, Block>, p: PageId, dfn: nat)
    requires DiskTablesOk(directories, tables, frames, reverse, blocks)
    requires TableEntry(p.dir, p.page) in tables
    ensures DiskTablesOk(directories, tables, frames[p := dfn], reverse, blocks)
  {
  }

  lemma DiskTablesAfterRelease(
    directories: map<nat, nat>, tables: map<Pde, nat>, frames: map<PageId, nat>,
    reverse: seq<nat>, blocks: map<nat, Block>, p: PageId)
    requires DiskTablesOk(directories, tables, frames, reverse, blocks)
    ensures DiskTablesOk(directories, tables, frames - {p}, reverse, blocks)
  {
  }

  lemma DiskTablesAfterDropTable(
    directories: map<nat, nat>, tables: map<Pde, nat>, frames: map<PageId, nat>,
    reverse: seq<nat>, blocks: map<nat, Block>, reverse': seq<nat>, blocks': map<nat, Block>, d: Pde)
    requires DiskTablesOk(directories, tables, frames, reverse, blocks)
    requires d in tables && (forall p | p in frames :: TableEntry(p.dir, p.page) != d)
    requires Kept(reverse, blocks, reverse', blocks')
    requires blocks'.Keys == blocks.Keys - {reverse[tables[d]]}
    ensures DiskTablesOk(directories, tables - {d}, frames, reverse', blocks')
  {
    assert blocks[reverse[tables[d]]].owner == DiskTable(d);
    hide DirectoriesOk, DiskBlocksOk;
    DirectoriesKept(directories, blocks, reverse, reverse', blocks');
    DiskBlocksAfterDrop(tables, blocks, reverse, reverse', blocks', d);
  }

  lemma DiskTablesAfterDropDirectory(
    directories: map<nat, nat>, tables: map<Pde, nat>, frames: map<PageId, nat>,
    reverse: seq<nat>, blocks: map<nat, Block>, reverse': seq<nat>, blocks': map<nat, Block>, dir: nat)
    requires DiskTablesOk(directories, tables, frames, reverse, blocks)
    requires dir in directories && (forall d | d in tables :: d.dir != dir)
    requires Kept(reverse, blocks, reverse', blocks')
    requires blocks'.Keys == blocks.Keys - {directories[dir]}
    ensures DiskTablesOk(directories - {dir}, tables, frames, reverse', blocks')
  {
    assert blocks[directories[dir]].owner == DiskDirectory(dir);
    hide DirectoriesOk, DiskBlocksOk;
    DirectoriesAfterDrop(directories, blocks, reverse, reverse', blocks', dir);
    DiskBlocksKept(tables, blocks, reverse, reverse', blocks');
  }

  /** The entries of `dir` below disk directory entry `i` are gone, and nothing else is. */
  ghost predicate FramesFreed(was: map<PageId, nat>, now: map<PageId, nat>, dir: nat, i: nat) {
    now == map p | p in was && !(p.dir == dir && p.page / PAGE_TABLE_ENTRIES < i) :: was[p]
  }

  ghost predicate TablesFreed(was: map<Pde, nat>, now: map<Pde, nat>, dir: nat, i: nat) {
    now == map d | d in was && !(d.dir == dir && d.index < i) :: was[d]
  }

  lemma FreedNone(frames: map<PageId, nat>, tables: map<Pde, nat>, dir: nat)
    ensures FramesFreed(frames, frames, dir, 0) && TablesFreed(tables, tables, dir, 0)
  {
    assert frames == map p | p in frames && !(p.dir == dir && p.page / PAGE_TABLE_ENTRIES < 0) :: frames[p];
  }

  lemma FreedStep(was: map<PageId, nat>, f: map<PageId, nat>, f': map<PageId, nat>,
                  tables: map<Pde, nat>, t: map<Pde, nat>, t': map<Pde, nat>, dir: nat, i: nat)
    requires FramesFreed(was, f, dir, i) && TablesFreed(tables, t, dir, i)
    requires f' == map p | p in f && TableEntry(p.dir, p.page) != Pde(dir, i) :: f[p]
    requires t' == t - {Pde(dir, i)}
    ensures FramesFreed(was, f', dir, i + 1) && TablesFreed(tables, t', dir, i + 1)
  {
    var now := map p | p in was && !(p.dir == dir && p.page / PAGE_TABLE_ENTRIES < i + 1) :: was[p];
    assert forall p: PageId :: p in f' <==> p in now;
    assert f' == now;
  }

  lemma FreedAll(was: map<PageId, nat>, f: map<PageId, nat>, tables: map<Pde, nat>, t: map<Pde, nat>, dir: nat)
    requires FramesFreed(was, f, dir, USER_TABLES) && TablesFreed(tables, t, dir, USER_TABLES)
    requires forall p | p in was :: TableEntry(p.dir, p.page).index < USER_TABLES
    requires forall d | d in tables :: d.index < USER_TABLES
    ensures f == map p | p in was && p.dir != dir :: was[p]
    ensures t == map d | d in tables && d.dir != dir :: tables[d]
  {
  }

  class PageFile {
    const mem: Memory
    const count: nat                    // PAGES_PER_FILE

    var free: seq<nat>                  // disk_free_frame_list
    var disk: seq<Page>                 // block contents by disk frame number
    var directories: map<nat, nat>      // disk_env_pgdir of each environment that has one
    var tables: map<Pde, nat>           // disk directory entries: the frame holding the disk table
    var frames: map<PageId, nat>        // non-zero disk table entries

    /** initialize_disk_page_file: every disk frame but number 0 goes to the head of the free list. */
    constructor (mem: Memory, count: nat)
      requires mem.Valid() && mem.blocks == map[] && count > 0
      ensures Valid() && this.mem == mem && this.count == count
      ensures directories == map[] && tables == map[] && frames == map[] && (count == 1 ==> free == [])
    {
      this.mem, this.count := mem, count;
      disk := seq(count, _ => seq(PAGE_SIZE, _ => 0));
      directories, tables, frames, free := map[], map[], map[], [];
      new;
      for i := 1 to count
        invariant Distinct(free)
        invariant forall d | 1 <= d < i :: d in free
        invariant forall d | d in free :: 1 <= d < i
        modifies `free
      {
        assert i !in free;
        free := [i] + free;
      }
      if count == 1 {
        ElementsAre(free, {});
      }
    }

    ghost predicate Valid()
      reads this, mem
    {
      && mem.Valid()
      && |disk| == count
      && OwnershipOk(free, frames, count)
      && DiskTablesOk(directories, tables, frames, mem.reverse, mem.blocks)
    }

    lemma Parts()
      requires Valid()
      ensures mem.Valid()
    {
    }

    /** allocate_disk_frame: 0 stands for E_NO_PAGE_FILE_SPACE. */
    method AllocateDiskFrame() returns (dfn: nat)
      modifies `free
      ensures old(free) == [] ==> dfn == 0 && free == []
      ensures old(free) != [] ==> dfn == old(free)[0] && free == old(free)[1..]
    {
      if free == [] {
        return 0;
      }
      dfn := free[0];
      free := free[1..];
    }

    method FreeDiskFrame(dfn: nat)
      modifies `free
      ensures free == if dfn == 0 then old(free) else [dfn] + old(free)
    {
      if dfn == 0 {
        return;
      }
      free := [dfn] + free;
    }

    /** The kernel-heap pages that pf_add_empty_env_page still has to allocate for the tables of a page. */
    function MissingTables(dir: nat, page: nat): nat
      reads this
    {
      (if dir in directories then 0 else 1) + (if TableEntry(dir, page) in tables then 0 else 1)
    }

    /** get_disk_page_directory, with room for the directory if it must be created. */
    method GetDiskPageDirectory(dir: nat)
      requires Valid()
      requires dir !in directories ==> mem.heapTop < mem.heapMax - 1 && mem.freeFrames != []
      modifies `directories, mem`freeFrames, mem`references, mem`entries, mem`held, mem`litter, mem`heapTop,
               mem`records, mem`idx,
          mem`reverse, mem`blocks
      ensures Valid()
      ensures directories.Keys == old(directories.Keys) + {dir}
      ensures forall e | e in old(directories) :: directories[e] == old(directories)[e]
      ensures HeapGrew(old(mem.Snapshot()), mem.Snapshot(), if dir in old(directories) then 0 else 1)
      ensures dir in old(directories) ==> unchanged(mem)
    {
      hide OwnershipOk, DiskTablesOk, HeapGrew, Memory.Valid;
      HeapGrewNone(mem.Snapshot());
      if dir !in directories {
        ghost var v := mem.Snapshot();
        var page := mem.KmallocOther(1, DiskDirectory(dir));
        DiskTablesAfterDirectory(directories, tables, frames, v, mem.Snapshot(), 1, dir, page);
        directories := directories[dir := page];
      }
    }

    /** get_disk_page_table without `create`: the kernel address of the disk table, 0 if there is none. */
    method FindDiskPageTable(dir: nat, page: nat) returns (table: nat)
      requires Valid() && dir in directories
      ensures table != 0 <==> TableEntry(dir, page) in tables
    {
      hide OwnershipOk, DiskTablesOk, Memory.Valid;
      var d := TableEntry(dir, page);
      if d in tables {
        mem.BlocksPositive();
        DiskTableFound(directories, tables, frames, mem.reverse, mem.blocks, d);
        table := mem.KheapVirtual(tables[d]);
      } else {
        table := 0;
      }
    }

    /** get_disk_page_table with `create`, and room for the table if it must be created. */
    method GetDiskPageTable(dir: nat, page: nat) returns (table: nat)
      requires Valid() && page < USER_TOP_PAGE && dir in directories
      requires TableEntry(dir, page) !in tables ==> mem.heapTop < mem.heapMax - 1 && mem.freeFrames != []
      modifies `tables, mem`freeFrames, mem`references, mem`entries, mem`held, mem`litter, mem`heapTop, mem`records,
               mem`idx,
               mem`reverse, mem`blocks
      ensures Valid() && table != 0
      ensures tables.Keys == old(tables.Keys) + {TableEntry(dir, page)}
      ensures HeapGrew(old(mem.Snapshot()), mem.Snapshot(), if TableEntry(dir, page) !in old(tables) then 1 else 0)
    {
      hide OwnershipOk, DiskTablesOk, HeapGrew, Memory.Valid;
      HeapGrewNone(mem.Snapshot());
      table := FindDiskPageTable(dir, page);
      if table == 0 {
        ghost var v := mem.Snapshot();
        var d := TableEntry(dir, page);
        table := mem.KmallocOther(1, DiskTable(d));
        DiskTablesAfterTable(directories, tables, frames, v, mem.Snapshot(), 1, d, mem.KheapPhysical(table));
        tables := tables[d := mem.KheapPhysical(table)];
      }
    }

    /** The opening steps shared by pf_add_empty_env_page and pf_add_env_page. */
    method CreateDiskTables(dir: nat, page: nat)
      requires Valid() && page < USER_TOP_PAGE
      requires mem.heapTop + MissingTables(dir, page) < mem.heapMax && MissingTables(dir, page) <= |mem.freeFrames|
      modifies `directories, `tables
      modifies mem`freeFrames, mem`references, mem`entries, mem`held, mem`litter, mem`heapTop, mem`records, mem`idx,
               mem`reverse,
               mem`blocks
      ensures Valid()
      ensures directories.Keys == old(directories.Keys) + {dir}
      ensures tables.Keys == old(tables.Keys) + {TableEntry(dir, page)}
      ensures HeapGrew(old(mem.Snapshot()), mem.Snapshot(), old(MissingTables(dir, page)))
    {
      hide OwnershipOk, DiskTablesOk, HeapGrew, Memory.Valid;
      ghost var v := mem.Snapshot();
      GetDiskPageDirectory(dir);
      ghost var v' := mem.Snapshot();
      HeapGrewSize(v, v', if dir in old(directories) then 0 else 1);
      var table := GetDiskPageTable(dir, page);
      HeapGrewTwice(v, v', mem.Snapshot(), if dir in old(directories) then 0 else 1,
                    if TableEntry(dir, page) in old(tables) then 0 else 1);
    }

    /** pf_add_empty_env_page without initialisation: gives a page a disk frame if it has none, and
        reports failure when the page file is full. The block keeps its old contents. */
    method AddEmptyPage(dir: nat, page: nat) returns (ok: bool)
      requires Valid() && page < USER_TOP_PAGE
      requires mem.heapTop + MissingTables(dir, page) < mem.heapMax && MissingTables(dir, page) <= |mem.freeFrames|
      modifies `free, `frames, `directories, `tables
      modifies mem`freeFrames, mem`references, mem`entries, mem`held, mem`litter, mem`heapTop, mem`records, mem`idx,
               mem`reverse,
               mem`blocks
      ensures Valid()
      ensures ok <==> PageId(dir, page) in old(frames) || old(free) != []
      ensures PageId(dir, page) in old(frames) || !ok ==> frames == old(frames) && free == old(free)
      ensures PageId(dir, page) !in old(frames) && ok ==>
                frames == old(frames)[PageId(dir, page) := old(free)[0]] && free == old(free)[1..]
      ensures directories.Keys == old(directories.Keys) + {dir}
      ensures tables.Keys == old(tables.Keys) + {TableEntry(dir, page)}
      ensures HeapGrew(old(mem.Snapshot()), mem.Snapshot(), old(MissingTables(dir, page)))
    {
      hide OwnershipOk, DiskTablesOk, HeapGrew, Memory.Valid, MissingTables;
      CreateDiskTables(dir, page);
      var p := PageId(dir, page);
      if p !in frames {
        if free != [] {
          OwnershipAfterAllocate(free, frames, count, p);
        }
        var dfn := AllocateDiskFrame();
        if dfn == 0 {
          return false;
        }
        DiskTablesAfterFrame(directories, tables, frames, mem.reverse, mem.blocks, p, dfn);
        frames := frames[p := dfn];
      }
      ok := true;
    }

    /** pf_add_env_page: as above, and the page's block receives `data`. */
    method AddPage(dir: nat, page: nat, data: Page) returns (ok: bool)
      requires Valid() && page < USER_TOP_PAGE
      requires mem.heapTop + MissingTables(dir, page) < mem.heapMax && MissingTables(dir, page) <= |mem.freeFrames|
      modifies `free, `frames, `directories, `tables, `disk
      modifies mem`freeFrames, mem`references, mem`entries, mem`held, mem`litter, mem`heapTop, mem`records, mem`idx,
               mem`reverse,
               mem`blocks
      ensures Valid()
      ensures ok <==> PageId(dir, page) in old(frames) || old(free) != []
      ensures ok ==> PageId(dir, page) in frames && frames[PageId(dir, page)] < |old(disk)|
                     && disk == old(disk)[frames[PageId(dir, page)] := data]
      ensures PageId(dir, page) in old(frames) || !ok ==> frames == old(frames) && free == old(free)
      ensures PageId(dir, page) !in old(frames) && ok ==>
                frames == old(frames)[PageId(dir, page) := old(free)[0]] && free == old(free)[1..]
      ensures !ok ==> disk == old(disk)
      ensures directories.Keys == old(directories.Keys) + {dir}
      ensures HeapGrew(old(mem.Snapshot()), mem.Snapshot(), old(MissingTables(dir, page)))
    {
      hide OwnershipOk, DiskTablesOk, HeapGrew, Memory.Valid, MissingTables;
      ok := AddEmptyPage(dir, page);
      if ok {
        OwnedFrame(free, frames, count, PageId(dir, page));
        disk := disk[frames[PageId(dir, page)] := data];
      }
    }

    /** pf_update_env_page: writes a resident page's frame to its disk block through USER_LIMIT and
        leaves every page-table entry, reference count and free list as it found them. */
    method UpdatePage(dir: nat, page: nat, f: nat) returns (ok: bool)
      requires Valid() && ScratchSlot !in mem.entries
      requires mem.Lookup(dir, page).Some? && mem.Lookup(dir, page).value.frame == f
      requires dir !in directories ==> mem.heapTop < mem.heapMax - 1 && mem.freeFrames != []
      modifies `disk, `directories
      modifies mem`freeFrames, mem`references, mem`entries, mem`held, mem`litter, mem`heapTop, mem`records, mem`idx,
               mem`reverse,
               mem`blocks
      ensures Valid()
      ensures ok <==> PageId(dir, page) in frames
      ensures ok ==> frames[PageId(dir, page)] < |old(disk)| && f < |mem.ram|
                     && disk == old(disk)[frames[PageId(dir, page)] := mem.ram[f]]
      ensures !ok ==> disk == old(disk)
      ensures directories.Keys == old(directories.Keys) + {dir}
      ensures HeapGrew(old(mem.Snapshot()), mem.Snapshot(), if dir in old(directories) then 0 else 1)
      ensures dir in old(directories) ==>
                mem.entries == old(mem.entries) && mem.references == old(mem.references)
                  && mem.blocks == old(mem.blocks)
    {
      hide OwnershipOk, DiskTablesOk, HeapGrew, Memory.Valid, Translate;
      GetDiskPageDirectory(dir);
      FramesHaveTables(directories, tables, frames, mem.reverse, mem.blocks);
      GrowthKeepsUser(old(mem.Snapshot()), mem.Snapshot(), if dir in old(directories) then 0 else 1);
      var table := FindDiskPageTable(dir, page);
      if table == 0 || PageId(dir, page) !in frames {
        return false;
      }
      OwnedFrame(free, frames, count, PageId(dir, page));
      var contents := mem.ReadThroughScratch(dir, page, f);
      disk := disk[frames[PageId(dir, page)] := contents];
      ok := true;
    }

    /** pf_read_env_page: copies a page's disk block into the frame mapped at the page. The copy
        sets the processor's used and modified bits; the modified bit is cleared again. */
    method ReadPage(dir: nat, page: nat) returns (ok: bool)
      requires Valid() && mem.Lookup(dir, page).Some?
      modifies mem`ram, mem`entries
      ensures Valid()
      ensures ok <==> PageId(dir, page) in frames
      ensures !ok ==> mem.ram == old(mem.ram) && mem.entries == old(mem.entries)
      ensures ok ==>
                var e := old(mem.Lookup(dir, page).value);
                && e.frame < |old(mem.ram)| && frames[PageId(dir, page)] < |disk|
                && mem.ram == old(mem.ram)[e.frame := disk[frames[PageId(dir, page)]]]
                && mem.Lookup(dir, page) == Some(Entry(e.frame, e.perm.(used := true, modified := false)))
      ensures mem.entries.Keys == old(mem.entries.Keys)
      ensures forall s | s in mem.entries :: mem.entries[s].frame == old(mem.entries)[s].frame
      ensures forall d, p | !(d == dir && p == page) :: mem.Lookup(d, p) == old(mem.Lookup(d, p))
    {
      hide OwnershipOk, DiskTablesOk, Memory.Valid, Translate;
      FramesHaveTables(directories, tables, frames, mem.reverse, mem.blocks);
      if dir !in directories {
        return false;
      }
      var table := FindDiskPageTable(dir, page);
      if table == 0 || PageId(dir, page) !in frames {
        return false;
      }
      OwnedFrame(free, frames, count, PageId(dir, page));
      mem.StoreFrame(dir, page, disk[frames[PageId(dir, page)]]);
      mem.SetBits(dir, page, true, true);
      mem.SetBits(dir, page, true, false);
      ok := true;
    }

    /** pf_remove_env_page: takes away a page's disk frame, if it has one. */
    method RemovePage(dir: nat, page: nat)
      requires Valid()
      modifies `free, `frames
      ensures Valid()
      ensures frames == old(frames) - {PageId(dir, page)}
      ensures PageId(dir, page) !in old(frames) ==> free == old(free)
      ensures PageId(dir, page) in old(frames) ==> free == [old(frames)[PageId(dir, page)]] + old(free)
    {
      hide OwnershipOk, DiskTablesOk, Memory.Valid;
      FramesHaveTables(directories, tables, frames, mem.reverse, mem.blocks);
      if dir !in directories {
        return;
      }
      var table := FindDiskPageTable(dir, page);
      if table == 0 {
        return;
      }
      ClearDiskEntry(PageId(dir, page));
    }

    /** Zeroes a disk-table entry and frees the disk frame it named; entry 0 frees nothing. */
    method ClearDiskEntry(p: PageId)
      requires Valid()
      modifies `free, `frames
      ensures Valid()
      ensures frames == old(frames) - {p}
      ensures p !in old(frames) ==> free == old(free)
      ensures p in old(frames) ==> free == [old(frames)[p]] + old(free)
    {
      hide OwnershipOk, DiskTablesOk, Memory.Valid;
      DiskTablesAfterRelease(directories, tables, frames, mem.reverse, mem.blocks, p);
      assert p !in frames ==> frames - {p} == frames;
      if p in frames {
        OwnershipAfterRelease(free, frames, count, p);
        OwnedFrame(free, frames, count, p);
      }
      var dfn := if p in frames then frames[p] else 0;
      frames := frames - {p};
      FreeDiskFrame(dfn);
    }

    /** One disk table in pf_free_env: frees the disk frames of its 1024 entries, then the table. */
    method FreeDiskTable(d: Pde)
      requires Valid() && d in tables
      modifies `free, `frames, `tables
      modifies mem`freeFrames, mem`references, mem`entries, mem`records, mem`reverse, mem`blocks
      ensures Valid()
      ensures frames == map p | p in old(frames) && TableEntry(p.dir, p.page) != d :: old(frames)[p]
      ensures tables == old(tables) - {d}
      ensures old(tables)[d] < |old(mem.reverse)|
      ensures mem.blocks == old(mem.blocks) - {old(mem.reverse)[old(tables)[d]]}
      ensures SameUserSlots(old(mem.entries), mem.entries) && HeapShrunk(old(mem.entries), mem.entries)
      ensures Kept(old(mem.reverse), old(mem.blocks), mem.reverse, mem.blocks)
      ensures forall dir, page :: mem.Lookup(dir, page) == old(mem.Lookup(dir, page))
    {
      hide OwnershipOk, DiskTablesOk, Kept, Memory.Valid, Translate;
      DiskTableFound(directories, tables, frames, mem.reverse, mem.blocks, d);
      var table := mem.KheapVirtual(tables[d]);
      for i := 0 to PAGE_TABLE_ENTRIES
        invariant Valid() && tables == old(tables) && directories == old(directories)
        invariant mem.freeFrames == old(mem.freeFrames) && mem.references == old(mem.references)
        invariant mem.entries == old(mem.entries) && mem.records == old(mem.records)
        invariant mem.reverse == old(mem.reverse) && mem.blocks == old(mem.blocks)
        invariant frames == map p | p in old(frames) && !InDiskTable(p, d, i) :: old(frames)[p]
      {
        ClearDiskEntry(PageId(d.dir, d.index * PAGE_TABLE_ENTRIES + i));
      }
      tables := tables - {d};
      mem.KfreeOther(table);
      DiskTablesAfterDropTable(directories, old(tables), frames, old(mem.reverse), old(mem.blocks), mem.reverse,
        mem.blocks, d);
    }

    /** The loop of pf_free_env over the disk directory. */
    method FreeDiskTables(dir: nat)
      requires Valid() && dir in directories
      modifies `free, `frames, `tables
      modifies mem`freeFrames, mem`references, mem`entries, mem`records, mem`reverse, mem`blocks
      ensures Valid()
      ensures frames == map p | p in old(frames) && p.dir != dir :: old(frames)[p]
      ensures tables == map d | d in old(tables) && d.dir != dir :: old(tables)[d]
      ensures mem.blocks.Keys <= old(mem.blocks.Keys)
      ensures forall p | p in old(mem.blocks) && !DiskTableOf(old(mem.blocks)[p].owner, dir) :: p in mem.blocks
      ensures SameUserSlots(old(mem.entries), mem.entries) && HeapShrunk(old(mem.entries), mem.entries)
      ensures Kept(old(mem.reverse), old(mem.blocks), mem.reverse, mem.blocks)
      ensures forall d, page :: mem.Lookup(d, page) == old(mem.Lookup(d, page))
    {
      hide OwnershipOk, DiskTablesOk, Kept, Memory.Valid, Translate, FramesFreed, TablesFreed;
      KeptRefl(mem.reverse, mem.blocks);
      FramesHaveTables(directories, tables, frames, mem.reverse, mem.blocks);
      FreedNone(frames, tables, dir);
      for i := 0 to USER_TABLES
        invariant Valid() && directories == old(directories)
        invariant FramesFreed(old(frames), frames, dir, i) && TablesFreed(old(tables), tables, dir, i)
        invariant mem.blocks.Keys <= old(mem.blocks).Keys
        invariant forall p | p in old(mem.blocks) && !DiskTableOf(old(mem.blocks)[p].owner, dir) :: p in mem.blocks
        invariant SameUserSlots(old(mem.entries), mem.entries) && HeapShrunk(old(mem.entries), mem.entries)
        invariant Kept(old(mem.reverse), old(mem.blocks), mem.reverse, mem.blocks)
        invariant forall d, page :: mem.Lookup(d, page) == old(mem.Lookup(d, page))
      {
        ghost var v, f, t := mem.Snapshot(), frames, tables;
        KeptBlocks(old(mem.reverse), old(mem.blocks), mem.reverse, mem.blocks);
        FreeDiskDirectoryEntry(Pde(dir, i));
        KeptTwice(old(mem.reverse), old(mem.blocks), v.reverse, v.blocks, mem.reverse, mem.blocks);
        FreedStep(old(frames), f, frames, old(tables), t, tables, dir, i);
      }
      FreedAll(old(frames), frames, old(tables), tables, dir);
    }

    /** One round of that loop, which skips directory entries that are zero. */
    method FreeDiskDirectoryEntry(d: Pde)
      requires Valid()
      modifies `free, `frames, `tables
      modifies mem`freeFrames, mem`references, mem`entries, mem`records, mem`reverse, mem`blocks
      ensures Valid()
      ensures frames == map p | p in old(frames) && TableEntry(p.dir, p.page) != d :: old(frames)[p]
      ensures tables == old(tables) - {d}
      ensures mem.blocks.Keys <= old(mem.blocks.Keys)
      ensures forall p | p in old(mem.blocks) && old(mem.blocks)[p].owner != DiskTable(d) :: p in mem.blocks
      ensures SameUserSlots(old(mem.entries), mem.entries) && HeapShrunk(old(mem.entries), mem.entries)
      ensures Kept(old(mem.reverse), old(mem.blocks), mem.reverse, mem.blocks)
      ensures forall d, page :: mem.Lookup(d, page) == old(mem.Lookup(d, page))
    {
      hide OwnershipOk, DiskTablesOk, Kept, Memory.Valid, Translate;
      if d in tables {
        DiskTableFound(directories, tables, frames, mem.reverse, mem.blocks, d);
        FreeDiskTable(d);
      } else {
        FramesHaveTables(directories, tables, frames, mem.reverse, mem.blocks);
        KeptRefl(mem.reverse, mem.blocks);
      }
    }

    /** pf_free_env: every disk frame, disk table and the disk directory of the environment go back,
        and nothing else does. */
    method FreeEnv(dir: nat)
      requires Valid() && dir in directories
      modifies `free, `frames, `tables, `directories
      modifies mem`freeFrames, mem`references, mem`entries, mem`records, mem`reverse, mem`blocks
      ensures Valid()
      ensures frames == map p | p in old(frames) && p.dir != dir :: old(frames)[p]
      ensures directories == old(directories) - {dir}
      ensures mem.blocks.Keys <= old(mem.blocks.Keys)
      ensures forall p | p in mem.blocks
                :: !DiskTableOf(mem.blocks[p].owner, dir) && mem.blocks[p].owner != DiskDirectory(dir)
      ensures forall p | p in old(mem.blocks) && !DiskTableOf(old(mem.blocks)[p].owner, dir)
                         && old(mem.blocks)[p].owner != DiskDirectory(dir) :: p in mem.blocks
      ensures SameUserSlots(old(mem.entries), mem.entries) && HeapShrunk(old(mem.entries), mem.entries)
      ensures Kept(old(mem.reverse), old(mem.blocks), mem.reverse, mem.blocks)
      ensures forall d, page :: mem.Lookup(d, page) == old(mem.Lookup(d, page))
    {
      hide OwnershipOk, DiskTablesOk, Kept, Memory.Valid, Translate;
      FreeDiskTables(dir);
      ghost var v := mem.Snapshot();
      DirectoryFound(directories, tables, frames, mem.reverse, mem.blocks, dir);
      KeptBlocks(old(mem.reverse), old(mem.blocks), mem.reverse, mem.blocks);
      mem.KfreeOther(directories[dir]);
      KeptTwice(old(mem.reverse), old(mem.blocks), v.reverse, v.blocks, mem.reverse, mem.blocks);
      KeptBlocks(v.reverse, v.blocks, mem.reverse, mem.blocks);
      DiskTablesAfterDropDirectory(directories, tables, frames, v.reverse, v.blocks, mem.reverse, mem.blocks, dir);
      directories := directories - {dir};
    }
  }
}
