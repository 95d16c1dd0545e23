/** calculate_required_frames of memory_manager.c, and the allocation it predicts. */
module RequiredFrames {
  import opened Common
  import opened FrameAccounting
  import opened KernelMemory

  const TABLE_SIZE := PAGE_SIZE * PAGE_TABLE_ENTRIES

  function CountTables(directory: map<Pde, nat>, dir: nat, lo: nat, hi: nat): nat
    decreases hi
  {
    if hi <= lo then 0
    else CountTables(directory, dir, lo, hi - 1) + (if Pde(dir, hi - 1) in directory then 0 else 1)
  }

  function CountPages(entries: map<Slot, Entry>, directory: map<Pde, nat>, dir: nat, lo: nat, hi: nat): nat
    decreases hi
  {
    if hi <= lo then 0
    else CountPages(entries, directory, dir, lo, hi - 1)
         + (if Translate(entries, directory, dir, hi - 1).None? then 1 else 0)
  }

  /** The first page number at or after an address, and the first table number. */
  function PageEnd(address: nat): nat {
    (address + PAGE_SIZE - 1) / PAGE_SIZE
  }

  function TableEnd(address: nat): nat {
    (address + TABLE_SIZE - 1) / TABLE_SIZE
  }

  /** calculate_required_frames on a range that does not wrap. */
  method CalculateRequiredFrames(mem: Memory, dir: nat, start: nat, size: nat) returns (n: nat)
    requires mem.Valid()
    ensures n == CountTables(mem.directory, dir, start / TABLE_SIZE, TableEnd(start + size))
                 + CountPages(mem.entries, mem.directory, dir, start / PAGE_SIZE, PageEnd(start + size))
  {
    hide Memory.Valid, Translate;
    var tables := 0;
    var current := start / TABLE_SIZE;
    while current * TABLE_SIZE < start + size
      invariant start / TABLE_SIZE <= current && (current <= TableEnd(start + size) || current == start / TABLE_SIZE)
      invariant tables == CountTables(mem.directory, dir, start / TABLE_SIZE, current)
      decreases start + size - current * TABLE_SIZE
    {
      var table := mem.GetPageTable(dir, current * PAGE_TABLE_ENTRIES);
      if table == 0 {
        tables := tables + 1;
      }
      current := current + 1;
    }
    var pages := 0;
    current := start / PAGE_SIZE;
    while current * PAGE_SIZE < start + size
      invariant start / PAGE_SIZE <= current && (current <= PageEnd(start + size) || current == start / PAGE_SIZE)
      invariant pages == CountPages(mem.entries, mem.directory, dir, start / PAGE_SIZE, current)
      decreases start + size - current * PAGE_SIZE
    {
      if mem.Lookup(dir, current).None? {
        pages := pages + 1;
      }
      current := current + 1;
    }
    n := tables + pages;
  }

  /** One page of the range, given a fresh frame with map_frame if it has none. */
  method MapOne(mem: Memory, dir: nat, page: nat, perm: Perm)
    requires mem.Valid() && page < USER_TOP_PAGE
    requires TableEntry(dir, page) !in mem.directory ==> mem.heapTop < mem.heapMax - 1
    requires (if mem.Lookup(dir, page).None? then 1 else 0) + (if TableEntry(dir, page) in mem.directory then 0 else 1)
             <= |mem.freeFrames|
    modifies mem
    ensures mem.Valid()
    ensures |mem.freeFrames| == |old(mem.freeFrames)|
            - (if old(mem.Lookup(dir, page)).None? then 1 else 0)
            - (if old(TableEntry(dir, page) in mem.directory) then 0 else 1)
    ensures mem.heapTop == old(mem.heapTop) + (if old(TableEntry(dir, page) in mem.directory) then 0 else 1)
    ensures mem.directory.Keys == old(mem.directory.Keys) + {TableEntry(dir, page)}
    ensures mem.Lookup(dir, page).Some?
    ensures forall v | v != page :: mem.Lookup(dir, v) == old(mem.Lookup(dir, v))
  {
    hide Memory.Valid, Kept;
    if mem.Lookup(dir, page).None? {
      var f := mem.AllocateUserFrame();
      mem.MapFrame(dir, f, page, perm);
    }
  }

  /** Tables that some page of [lo, hi) lies in. */
  function TablesOf(directory: map<Pde, nat>, dir: nat, lo: nat, hi: nat): nat {
    if hi <= lo then 0
    else CountTables(directory, dir, lo / PAGE_TABLE_ENTRIES, (hi - 1) / PAGE_TABLE_ENTRIES + 1)
  }

  lemma TablesOfStep(directory: map<Pde, nat>, dir: nat, lo: nat, page: nat)
    requires lo <= page
    ensures TablesOf(directory, dir, lo, page + 1)
            == TablesOf(directory, dir, lo, page)
               + (if (page == lo || page % PAGE_TABLE_ENTRIES == 0) && TableEntry(dir, page) !in directory
                   then 1 else 0)
  {
    var a, b := lo / PAGE_TABLE_ENTRIES, page / PAGE_TABLE_ENTRIES;
    if page > lo {
      assert (page - 1) / PAGE_TABLE_ENTRIES == if page % PAGE_TABLE_ENTRIES == 0 then b - 1 else b;
    }
    assert CountTables(directory, dir, a, b + 1)
           == CountTables(directory, dir, a, b) + (if Pde(dir, b) in directory then 0 else 1);
  }

  lemma {:induction false} CountTablesGrows(directory: map<Pde, nat>, dir: nat, lo: nat, hi: nat, hi': nat)
    requires hi <= hi'
    ensures CountTables(directory, dir, lo, hi) <= CountTables(directory, dir, lo, hi')
  {
    if hi < hi' {
      CountTablesGrows(directory, dir, lo, hi, hi' - 1);
    }
  }

  lemma {:induction false} CountPagesGrows(
    entries: map<Slot, Entry>, directory: map<Pde, nat>, dir: nat, lo: nat, hi: nat, hi': nat)
    requires hi <= hi'
    ensures CountPages(entries, directory, dir, lo, hi) <= CountPages(entries, directory, dir, lo, hi')
  {
    if hi < hi' {
      CountPagesGrows(entries, directory, dir, lo, hi, hi' - 1);
    }
  }

  lemma TablesOfGrows(directory: map<Pde, nat>, dir: nat, lo: nat, hi: nat, hi': nat)
    requires hi <= hi'
    ensures TablesOf(directory, dir, lo, hi) <= TablesOf(directory, dir, lo, hi')
  {
    if lo < hi {
      CountTablesGrows(directory, dir, lo / PAGE_TABLE_ENTRIES, (hi - 1) / PAGE_TABLE_ENTRIES + 1,
                       (hi' - 1) / PAGE_TABLE_ENTRIES + 1);
    }
  }

  lemma CountPagesStep(entries: map<Slot, Entry>, directory: map<Pde, nat>, dir: nat, lo: nat, page: nat)
    requires lo <= page
    ensures CountPages(entries, directory, dir, lo, page + 1)
            == CountPages(entries, directory, dir, lo, page)
               + (if Translate(entries, directory, dir, page).None? then 1 else 0)
  {
  }

  lemma CountEmpty(entries: map<Slot, Entry>, directory: map<Pde, nat>, dir: nat, lo: nat)
    ensures forall hi: nat | hi <= lo
              :: CountPages(entries, directory, dir, lo, hi) == 0 && TablesOf(directory, dir, lo, hi) == 0
  {
  }

  /** The frames that mapping every page of the range takes: one for each unmapped page, and one for each
      missing table that some page of the range lies in. */
  function Needed(mem: Memory, dir: nat, start: nat, size: nat): nat
    reads mem
  {
    CountPages(mem.entries, mem.directory, dir, start / PAGE_SIZE, PageEnd(start + size))
    + TablesOf(mem.directory, dir, start / PAGE_SIZE, PageEnd(start + size))
  }

  /** Every unmapped page of the range gets a fresh frame; the free list shrinks by the unmapped pages
      plus the missing tables they lie in. */
  method MapRange(mem: Memory, dir: nat, start: nat, size: nat, perm: Perm)
    requires mem.Valid() && PageEnd(start + size) <= USER_TOP_PAGE
    requires Needed(mem, dir, start, size) <= |mem.freeFrames|
    requires mem.heapTop + TablesOf(mem.directory, dir, start / PAGE_SIZE, PageEnd(start + size)) < mem.heapMax
    modifies mem
    ensures mem.Valid()
    ensures |mem.freeFrames| == |old(mem.freeFrames)| - old(Needed(mem, dir, start, size))
    ensures forall v | start / PAGE_SIZE <= v < PageEnd(start + size) :: mem.Lookup(dir, v).Some?
  {
    hide Memory.Valid, Translate, CountTables, CountPages, TablesOf;
    CountEmpty(mem.entries, mem.directory, dir, start / PAGE_SIZE);
    var lo, page := start / PAGE_SIZE, start / PAGE_SIZE;
    while page * PAGE_SIZE < start + size
      invariant lo <= page && (page <= PageEnd(start + size) || page == lo)
      invariant mem.Valid()
      invariant |mem.freeFrames| == |old(mem.freeFrames)|
                  - CountPages(old(mem.entries), old(mem.directory), dir, lo, page)
                    - TablesOf(old(mem.directory), dir, lo, page)
      invariant mem.heapTop == old(mem.heapTop) + TablesOf(old(mem.directory), dir, lo, page)
      invariant forall d | d in mem.directory ::
                  d in old(mem.directory)
                  || (page > lo && d.dir == dir
                     && lo / PAGE_TABLE_ENTRIES <= d.index <= (page - 1) / PAGE_TABLE_ENTRIES)
      invariant forall d | d in old(mem.directory) :: d in mem.directory
      invariant page > lo ==> TableEntry(dir, page - 1) in mem.directory
      invariant forall v | v >= page :: mem.Lookup(dir, v) == old(mem.Lookup(dir, v))
      invariant forall v | lo <= v < page :: mem.Lookup(dir, v).Some?
      decreases start + size - page * PAGE_SIZE
    {
      TablesOfStep(old(mem.directory), dir, lo, page);
      CountPagesStep(old(mem.entries), old(mem.directory), dir, lo, page);
      CountPagesGrows(old(mem.entries), old(mem.directory), dir, lo, page + 1, PageEnd(start + size));
      TablesOfGrows(old(mem.directory), dir, lo, page + 1, PageEnd(start + size));
      MapOne(mem, dir, page, perm);
      page := page + 1;
    }
  }

  /** The one case in which the prediction is wrong: an empty range at a page boundary inside a
      table that does not exist still counts that table. */
  predicate CountsUnneededTable(directory: map<Pde, nat>, dir: nat, start: nat, size: nat) {
    && size == 0 && start % PAGE_SIZE == 0 && start % TABLE_SIZE != 0
    && Pde(dir, start / TABLE_SIZE) !in directory
  }

  /** It does for an empty range at the second page of an address space without tables. */
  lemma CountsUnneeded(dir: nat)
    ensures CountsUnneededTable(map[], dir, PAGE_SIZE, 0)
  {
    assert PAGE_SIZE % TABLE_SIZE != 0;
  }

  /** calculate_required_frames predicts the drop in free frames exactly, except in that case. */
  lemma PredictionExact(directory: map<Pde, nat>, dir: nat, start: nat, size: nat)
    ensures CountTables(directory, dir, start / TABLE_SIZE, TableEnd(start + size))
            == TablesOf(directory, dir, start / PAGE_SIZE, PageEnd(start + size))
            <==> !CountsUnneededTable(directory, dir, start, size)
  {
    assert start / TABLE_SIZE == start / PAGE_SIZE / PAGE_TABLE_ENTRIES;
  }

  /** The prediction followed by the allocation: the number predicted is the drop in free frames, except
      in that case. */
  method PredictAndMap(mem: Memory, dir: nat, start: nat, size: nat, perm: Perm) returns (n: nat)
    requires mem.Valid() && PageEnd(start + size) <= USER_TOP_PAGE
    requires Needed(mem, dir, start, size) <= |mem.freeFrames|
    requires mem.heapTop + TablesOf(mem.directory, dir, start / PAGE_SIZE, PageEnd(start + size)) < mem.heapMax
    modifies mem
    ensures mem.Valid()
    ensures n == |old(mem.freeFrames)| - |mem.freeFrames|
            <==> !CountsUnneededTable(old(mem.directory), dir, start, size)
    ensures forall v | start / PAGE_SIZE <= v < PageEnd(start + size) :: mem.Lookup(dir, v).Some?
  {
    hide Memory.Valid, CountTables, CountPages, TablesOf, CountsUnneededTable;
    n := CalculateRequiredFrames(mem, dir, start, size);
    PredictionExact(mem.directory, dir, start, size);
    MapRange(mem, dir, start, size, perm);
  }
}
