/** What an environment sees of its memory, and how each step of a page fault keeps it in line
    with a flat memory. */
module AddressSpace {
  import opened Common
  import opened FrameAccounting
  import opened KernelMemory
  import opened PageFile

  const MIRROR_PAGE := 0xA0000    // USER_PAGES_WS_START

  /** The pages at which the program can read its working-set array. */
  predicate InMirror(page: nat, wsPages: nat) {
    MIRROR_PAGE <= page < MIRROR_PAGE + wsPages
  }

  /** Where user data lives: page tables and frames in memory, blocks in the page file; and the kernel-heap
      blocks that are live. */
  datatype Store = Store(
    entries: map<Slot, Entry>, directory: map<Pde, nat>, ram: seq<Page>, frames: map<PageId, nat>, disk: seq<Page>,
    blocks: map<nat, Block>)
  {
    function Get(dir: nat, page: nat): Option<Entry> {
      Translate(entries, directory, dir, page)
    }
  }

  /** No user page is mapped to the frame. */
  ghost predicate Unseen(st: Store, f: nat) {
    forall d, p | st.Get(d, p).Some? :: st.Get(d, p).value.frame != f
  }

  /** No lost word names the frame. */
  ghost predicate NotLost(st: Store, f: nat) {
    forall k: nat {:trigger LostSlot(k)} | LostSlot(k) in st.entries :: st.entries[LostSlot(k)].frame != f
  }

  /** The frame backs no kernel-heap page. */
  ghost predicate NotHeap(st: Store, f: nat) {
    forall p: nat {:trigger HeapSlot(p)} | HeapSlot(p) in st.entries :: st.entries[HeapSlot(p)].frame != f
  }

  /** Nobody uses the frame of a lost word. */
  ghost predicate LostAlone(st: Store) {
    forall k: nat {:trigger LostSlot(k)} | LostSlot(k) in st.entries ::
      Unseen(st, st.entries[LostSlot(k)].frame) && NotHeap(st, st.entries[LostSlot(k)].frame)
  }

  /** Frames and blocks named by the tables exist, no two user pages share either, and lost frames are lost
      to everyone. */
  ghost predicate StoreOk(st: Store) {
    && (forall d, p | st.Get(d, p).Some? :: st.Get(d, p).value.frame < |st.ram|)
    && (forall p | p in st.frames :: st.frames[p] < |st.disk|)
    && (forall d, p, d', p' | st.Get(d, p).Some? && st.Get(d', p').Some?
                             && st.Get(d, p).value.frame == st.Get(d', p').value.frame :: d == d' && p == p')
    && (forall p, q | p in st.frames && q in st.frames && st.frames[p] == st.frames[q] :: p == q)
    && LostAlone(st)
  }

  /** The memory seen at a page: the frame if resident, else the disk block. */
  ghost function Seen(st: Store, dir: nat, page: nat): Page
    requires StoreOk(st) && (PageId(dir, page) in st.frames || st.Get(dir, page).Some?)
  {
    if st.Get(dir, page).Some? then st.ram[st.Get(dir, page).value.frame] else st.disk[st.frames[PageId(dir, page)]]
  }

  /** A page of the program: outside the mirror, and in the page file or in memory. */
  ghost predicate Holds(dir: nat, wsPages: nat, st: Store, v: nat) {
    !InMirror(v, wsPages) && (PageId(dir, v) in st.frames || st.Get(dir, v).Some?)
  }

  /** The environment's memory equals the flat memory on every page of the program except the `blank` ones
      (stack pages not stored to yet), and a clean resident page equals its block. */
  ghost predicate FlatOk(flat: map<nat, Page>, blank: set<nat>, dir: nat, wsPages: nat, st: Store)
    requires StoreOk(st)
  {
    && blank <= flat.Keys
    && (forall v :: v in flat <==> Holds(dir, wsPages, st, v))
    && (forall v | v in flat && v !in blank :: Seen(st, dir, v) == flat[v])
    && (forall v | v in flat && v !in blank && st.Get(dir, v).Some? && !st.Get(dir, v).value.perm.modified ::
          PageId(dir, v) in st.frames && st.disk[st.frames[PageId(dir, v)]] == flat[v])
  }

  /** No page of an environment other than `dir` is mapped to the frame. */
  ghost predicate UnseenBeside(dir: nat, st: Store, f: nat) {
    forall d, p | d != dir && st.Get(d, p).Some? :: st.Get(d, p).value.frame != f
  }

  /** The kernel heap took only frames that no user page is mapped to and that are not lost; no word was lost;
      and only page tables were freed. */
  ghost predicate FreshHeap(st: Store, st': Store) {
    && (forall p: nat {:trigger HeapSlot(p)} | HeapSlot(p) in st'.entries ::
          || (HeapSlot(p) in st.entries && st.entries[HeapSlot(p)].frame == st'.entries[HeapSlot(p)].frame)
          || (Unseen(st, st'.entries[HeapSlot(p)].frame) && NotLost(st, st'.entries[HeapSlot(p)].frame)))
    && SameLost(st.entries, st'.entries)
    && BlocksKept(st.blocks, st'.blocks)
  }

  lemma FreshGrowth(st: Store, st': Store, free: seq<nat>)
    requires HeapFrom(st.entries, st'.entries, free)
    requires forall d, p | st.Get(d, p).Some? :: st.Get(d, p).value.frame !in free
    requires forall k: nat {:trigger LostSlot(k)} | LostSlot(k) in st.entries :: st.entries[LostSlot(k)].frame !in free
    requires SameLost(st.entries, st'.entries) && BlocksKept(st.blocks, st'.blocks)
    ensures FreshHeap(st, st')
  {
    hide Translate, SameLost, BlocksKept;
  }

  lemma FreshSame(st: Store, st': Store)
    requires forall p: nat {:trigger HeapSlot(p)} | HeapSlot(p) in st'.entries ::
               HeapSlot(p) in st.entries && st.entries[HeapSlot(p)].frame == st'.entries[HeapSlot(p)].frame
    requires SameLost(st.entries, st'.entries) && BlocksKept(st.blocks, st'.blocks)
    ensures FreshHeap(st, st')
  {
    hide SameLost, BlocksKept;
  }

  /** Only bits of entries have changed. */
  lemma FreshTouch(st: Store, st': Store)
    requires st'.entries.Keys == st.entries.Keys && st'.blocks == st.blocks
    requires forall s | s in st.entries :: st'.entries[s].frame == st.entries[s].frame
    ensures FreshHeap(st, st')
  {
    assert SameLost(st.entries, st'.entries);
    FreshSame(st, st');
  }

  /** The heap after two steps, the first of which only mapped `page`. */
  lemma FreshThen(dir: nat, page: nat, st: Store, st': Store, st'': Store)
    requires FreshHeap(st, st') && FreshHeap(st', st'')
    requires OnlyEntry(dir, page, st, st') && st.Get(dir, page).None?
    ensures FreshHeap(st, st'')
  {
    hide Translate, Store.Get, BlocksKept;
    BlocksKeptTwice(st.blocks, st'.blocks, st''.blocks);
    forall p: nat {:trigger HeapSlot(p)} | HeapSlot(p) in st''.entries
      ensures || (HeapSlot(p) in st.entries && st.entries[HeapSlot(p)].frame == st''.entries[HeapSlot(p)].frame)
              || (Unseen(st, st''.entries[HeapSlot(p)].frame) && NotLost(st, st''.entries[HeapSlot(p)].frame))
    {
      var f := st''.entries[HeapSlot(p)].frame;
      assert Unseen(st', f) ==> Unseen(st, f);
      assert NotLost(st', f) ==> NotLost(st, f);
    }
  }

  /** A user page's frame that backs no heap page goes on backing none. */
  lemma StillNotHeap(st: Store, st': Store, dir: nat, page: nat)
    requires FreshHeap(st, st') && st.Get(dir, page).Some? && NotHeap(st, st.Get(dir, page).value.frame)
    ensures NotHeap(st', st.Get(dir, page).value.frame)
  {
    hide Translate, Store.Get;
  }

  /** Nothing that belongs to another environment has changed, and the kernel heap took none of its frames. */
  ghost predicate Isolated(dir: nat, st: Store, st': Store) {
    && OthersKept(dir, st, st')
    && OtherBlocksKept(dir, st.blocks, st'.blocks)
    && HeapBeside(dir, st, st')
  }

  /** The kernel heap took no frame that another environment's page is mapped to. */
  ghost predicate HeapBeside(dir: nat, st: Store, st': Store) {
    forall p: nat {:trigger HeapSlot(p)} | HeapSlot(p) in st'.entries ::
      || (HeapSlot(p) in st.entries && st.entries[HeapSlot(p)].frame == st'.entries[HeapSlot(p)].frame)
      || UnseenBeside(dir, st, st'.entries[HeapSlot(p)].frame)
  }

  /** Pages of other environments keep their frames, disk blocks and contents. */
  ghost predicate OthersKept(dir: nat, st: Store, st': Store) {
    && |st.ram| == |st'.ram| && |st.disk| == |st'.disk|
    && (forall d, p | d != dir :: st.Get(d, p) == st'.Get(d, p))
    && (forall d, p | d != dir && st.Get(d, p).Some? && st.Get(d, p).value.frame < |st.ram| ::
          st.ram[st.Get(d, p).value.frame] == st'.ram[st.Get(d, p).value.frame])
    && (forall p: PageId | p.dir != dir :: p in st.frames <==> p in st'.frames)
    && (forall p: PageId | p.dir != dir && p in st.frames :: st.frames[p] == st'.frames[p])
    && (forall p: PageId | p.dir != dir && p in st.frames && st.frames[p] < |st.disk| ::
          st.disk[st.frames[p]] == st'.disk[st.frames[p]])
  }

  /** Other environments keep their kernel-heap blocks, and none of them begins. */
  ghost predicate OtherBlocksKept(dir: nat, blocks: map<nat, Block>, blocks': map<nat, Block>) {
    && (forall p | p in blocks && !blocks[p].owner.PageTable? && !OwnedBy(p, blocks[p].owner, dir) ::
          p in blocks' && blocks'[p] == blocks[p])
    && (forall p | p in blocks' && Anchor(blocks'[p].owner) && !OwnedBy(p, blocks'[p].owner, dir) ::
          p in blocks && blocks'[p] == blocks[p])
  }

  lemma FreshBeside(dir: nat, st: Store, st': Store)
    requires FreshHeap(st, st')
    ensures OtherBlocksKept(dir, st.blocks, st'.blocks) && HeapBeside(dir, st, st')
  {
    hide Translate, Store.Get;
  }

  lemma IsolatedRefl(dir: nat, st: Store)
    ensures Isolated(dir, st, st)
  {
    hide Translate;
  }

  lemma OtherBlocksTwice(dir: nat, blocks: map<nat, Block>, blocks': map<nat, Block>, blocks'': map<nat, Block>)
    requires OtherBlocksKept(dir, blocks, blocks') && OtherBlocksKept(dir, blocks', blocks'')
    ensures OtherBlocksKept(dir, blocks, blocks'')
  {
  }

  lemma IsolatedTwice(dir: nat, st: Store, st': Store, st'': Store)
    requires Isolated(dir, st, st') && Isolated(dir, st', st'')
    ensures Isolated(dir, st, st'')
  {
    hide Translate, Store.Get, OtherBlocksKept;
    OtherBlocksTwice(dir, st.blocks, st'.blocks, st''.blocks);
    forall p: nat {:trigger HeapSlot(p)} | HeapSlot(p) in st''.entries
      ensures || (HeapSlot(p) in st.entries && st.entries[HeapSlot(p)].frame == st''.entries[HeapSlot(p)].frame)
              || UnseenBeside(dir, st, st''.entries[HeapSlot(p)].frame)
    {
      var f := st''.entries[HeapSlot(p)].frame;
      assert UnseenBeside(dir, st', f) ==> UnseenBeside(dir, st, f);
    }
  }

  /** From `st` to `st'` only the translation of one page changed. */
  ghost predicate OnlyEntry(dir: nat, page: nat, st: Store, st': Store) {
    forall d, p | !(d == dir && p == page) :: st.Get(d, p) == st'.Get(d, p)
  }

  /** Lost frames stay lost when the translations are as before, or fewer. */
  lemma LostStays(st: Store, st': Store)
    requires LostAlone(st) && FreshHeap(st, st')
    requires forall d, p | st'.Get(d, p).Some? ::
               st.Get(d, p).Some? && st.Get(d, p).value.frame == st'.Get(d, p).value.frame
    ensures LostAlone(st')
  {
    hide Translate, Store.Get, BlocksKept;
    forall k: nat {:trigger LostSlot(k)} | LostSlot(k) in st'.entries
      ensures Unseen(st', st'.entries[LostSlot(k)].frame) && NotHeap(st', st'.entries[LostSlot(k)].frame)
    {
      assert Unseen(st, st.entries[LostSlot(k)].frame) && NotHeap(st, st.entries[LostSlot(k)].frame);
    }
  }

  /** Or when one page more is mapped, to a frame that is not lost. */
  lemma LostStaysAfterMap(dir: nat, page: nat, st: Store, st': Store)
    requires LostAlone(st) && FreshHeap(st, st') && OnlyEntry(dir, page, st, st')
    requires st'.Get(dir, page).Some? && NotLost(st, st'.Get(dir, page).value.frame)
    ensures LostAlone(st')
  {
    hide Translate, Store.Get, BlocksKept;
    forall k: nat {:trigger LostSlot(k)} | LostSlot(k) in st'.entries
      ensures Unseen(st', st'.entries[LostSlot(k)].frame) && NotHeap(st', st'.entries[LostSlot(k)].frame)
    {
      assert Unseen(st, st.entries[LostSlot(k)].frame) && NotHeap(st, st.entries[LostSlot(k)].frame);
    }
  }

  lemma CleanBlock(flat: map<nat, Page>, blank: set<nat>, dir: nat, wsPages: nat, page: nat, st: Store)
    requires StoreOk(st) && FlatOk(flat, blank, dir, wsPages, st)
    requires st.Get(dir, page).Some? && !st.Get(dir, page).value.perm.modified
    ensures page in flat && page !in blank ==>
              PageId(dir, page) in st.frames && st.disk[st.frames[PageId(dir, page)]] == flat[page]
  {
    hide Translate;
  }

  /** Write-back: the victim's frame is copied to its own disk block. */
  lemma AfterWriteBack(flat: map<nat, Page>, blank: set<nat>, dir: nat, wsPages: nat, page: nat, st: Store, st': Store)
    requires StoreOk(st) && FlatOk(flat, blank, dir, wsPages, st)
    requires st.Get(dir, page).Some? && PageId(dir, page) in st.frames
    requires st' == st.(disk := st.disk[st.frames[PageId(dir, page)] := st.ram[st.Get(dir, page).value.frame]])
    ensures StoreOk(st') && FlatOk(flat, blank, dir, wsPages, st') && Isolated(dir, st, st')
    ensures page in flat && page !in blank ==> st'.disk[st'.frames[PageId(dir, page)]] == flat[page]
  {
    assert forall d, p :: st'.Get(d, p) == st.Get(d, p) by {
      hide Translate;
    }
    hide Translate, Store.Get, LostAlone, FreshHeap, OtherBlocksKept, HeapBeside;
    FreshTouch(st, st');
    LostStays(st, st');
    FreshBeside(dir, st, st');
  }

  /** The program's pages once `page` has left memory: a page without a disk frame is gone. */
  function Evicted(flat: map<nat, Page>, dir: nat, page: nat, frames: map<PageId, nat>): map<nat, Page> {
    if PageId(dir, page) in frames then flat else flat - {page}
  }

  function EvictedBlank(blank: set<nat>, dir: nat, page: nat, frames: map<PageId, nat>): set<nat> {
    if PageId(dir, page) in frames then blank else blank - {page}
  }

  lemma UnmapStore(dir: nat, page: nat, st: Store, st': Store)
    requires StoreOk(st) && FreshHeap(st, st')
    requires OnlyEntry(dir, page, st, st') && st'.Get(dir, page).None?
    requires st'.ram == st.ram && st'.frames == st.frames && st'.disk == st.disk
    ensures StoreOk(st') && Isolated(dir, st, st')
  {
    hide Translate, Store.Get, LostAlone, FreshHeap, OtherBlocksKept, HeapBeside;
    LostStays(st, st');
    FreshBeside(dir, st, st');
  }

  /** Unmapping a page whose block, if it has one, is up to date. */
  lemma AfterUnmap(flat: map<nat, Page>, blank: set<nat>, dir: nat, wsPages: nat, page: nat, st: Store, st': Store)
    requires StoreOk(st) && FlatOk(flat, blank, dir, wsPages, st)
    requires FreshHeap(st, st')
    requires page in flat && page !in blank && PageId(dir, page) in st.frames ==>
               st.disk[st.frames[PageId(dir, page)]] == flat[page]
    requires OnlyEntry(dir, page, st, st') && st'.Get(dir, page).None?
    requires st'.ram == st.ram && st'.frames == st.frames && st'.disk == st.disk
    ensures StoreOk(st') && Isolated(dir, st, st')
    ensures FlatOk(Evicted(flat, dir, page, st.frames), EvictedBlank(blank, dir, page, st.frames), dir, wsPages, st')
  {
    hide Translate, Store.Get, LostAlone, FreshHeap, Isolated;
    UnmapStore(dir, page, st, st');
    var flat' := Evicted(flat, dir, page, st.frames);
    forall v
      ensures v in flat' <==> Holds(dir, wsPages, st', v)
    {
      assert v in flat <==> Holds(dir, wsPages, st, v);
    }
  }

  /** Placing a page of the page file in a frame no entry names, with its block's contents. */
  lemma AfterPlace(
    flat: map<nat, Page>, blank: set<nat>, dir: nat, wsPages: nat, page: nat, e: Entry, st: Store, st': Store)
    requires StoreOk(st) && FlatOk(flat, blank, dir, wsPages, st)
    requires FreshHeap(st, st')
    requires PageId(dir, page) in st.frames && st.Get(dir, page).None?
    requires Unseen(st, e.frame) && NotLost(st, e.frame)
    requires OnlyEntry(dir, page, st, st') && st'.Get(dir, page) == Some(e) && e.frame < |st.ram|
    requires st'.ram == st.ram[e.frame := st.disk[st.frames[PageId(dir, page)]]]
    requires st'.frames == st.frames && st'.disk == st.disk
    ensures StoreOk(st') && FlatOk(flat, blank, dir, wsPages, st') && Isolated(dir, st, st')
  {
    hide Translate, Store.Get, LostAlone, FreshHeap, OtherBlocksKept, HeapBeside;
    LostStaysAfterMap(dir, page, st, st');
    FreshBeside(dir, st, st');
  }

  /** A new page joins the program's memory with whatever its frame holds, whether or not it gets a disk
      frame. */
  lemma AfterPlaceUnbacked(
    flat: map<nat, Page>, blank: set<nat>, dir: nat, wsPages: nat, page: nat, e: Entry, st: Store, st': Store)
    requires StoreOk(st) && FlatOk(flat, blank, dir, wsPages, st) && !InMirror(page, wsPages)
    requires FreshHeap(st, st')
    requires PageId(dir, page) !in st.frames && st.Get(dir, page).None?
    requires Unseen(st, e.frame) && NotLost(st, e.frame)
    requires OnlyEntry(dir, page, st, st') && st'.Get(dir, page) == Some(e) && e.frame < |st.ram|
    requires |st'.ram| == |st.ram| && (forall f | 0 <= f < |st.ram| && f != e.frame :: st'.ram[f] == st.ram[f])
    requires st'.frames == st.frames && st'.disk == st.disk
    ensures StoreOk(st') && FlatOk(flat[page := st'.ram[e.frame]], blank + {page}, dir, wsPages, st')
    ensures Isolated(dir, st, st')
  {
    hide Translate, Store.Get, LostAlone, FreshHeap, OtherBlocksKept, HeapBeside;
    LostStaysAfterMap(dir, page, st, st');
    FreshBeside(dir, st, st');
  }

  /** Writing to a disk frame that no page has is not seen. */
  lemma AfterDiskScribble(
    flat: map<nat, Page>, blank: set<nat>, dir: nat, wsPages: nat, dfn: nat, data: Page, st: Store, st': Store)
    requires StoreOk(st) && FlatOk(flat, blank, dir, wsPages, st)
    requires dfn < |st.disk| && forall p | p in st.frames :: st.frames[p] != dfn
    requires st' == st.(disk := st.disk[dfn := data])
    ensures StoreOk(st') && FlatOk(flat, blank, dir, wsPages, st') && Isolated(dir, st, st')
  {
    assert forall d, p :: st'.Get(d, p) == st.Get(d, p) by {
      hide Translate;
    }
    hide Translate, Store.Get, LostAlone, FreshHeap, OtherBlocksKept, HeapBeside;
    FreshTouch(st, st');
    LostStays(st, st');
    FreshBeside(dir, st, st');
  }

  /** A page gets a disk frame nobody has. */
  lemma NewBlock(dir: nat, page: nat, dfn: nat, st: Store, st': Store)
    requires StoreOk(st) && PageId(dir, page) !in st.frames
    requires FreshHeap(st, st')
    requires dfn < |st.disk| && (forall p | p in st.frames :: st.frames[p] != dfn)
    requires forall d, p :: st'.Get(d, p) == st.Get(d, p)
    requires st'.ram == st.ram && st'.disk == st.disk && st'.frames == st.frames[PageId(dir, page) := dfn]
    ensures StoreOk(st') && Isolated(dir, st, st')
  {
    hide Translate, Store.Get, LostAlone, FreshHeap, OtherBlocksKept, HeapBeside;
    LostStays(st, st');
    FreshBeside(dir, st, st');
  }

  /** A page gets a disk frame nobody has: unless it is resident or in the mirror it joins the program's memory
      with the block's contents. */
  lemma AfterNewBlock(
    flat: map<nat, Page>, blank: set<nat>, dir: nat, wsPages: nat, page: nat, dfn: nat, st: Store, st': Store)
    requires StoreOk(st) && FlatOk(flat, blank, dir, wsPages, st)
    requires PageId(dir, page) !in st.frames && dfn < |st.disk| && (forall p | p in st.frames :: st.frames[p] != dfn)
    requires FreshHeap(st, st') && forall d, p :: st'.Get(d, p) == st.Get(d, p)
    requires st'.ram == st.ram && st'.disk == st.disk && st'.frames == st.frames[PageId(dir, page) := dfn]
    ensures StoreOk(st') && Isolated(dir, st, st')
    ensures FlatOk(if page in flat || InMirror(page, wsPages) then flat else flat[page := st.disk[dfn]],
                   blank, dir, wsPages, st')
  {
    hide Translate, Store.Get, Isolated, LostAlone, FreshHeap;
    NewBlock(dir, page, dfn, st, st');
    var flat' := if page in flat || InMirror(page, wsPages) then flat else flat[page := st.disk[dfn]];
    forall v
      ensures v in flat' <==> Holds(dir, wsPages, st', v)
    {
      assert v in flat <==> Holds(dir, wsPages, st, v);
    }
  }

  /** Placing a new stack page that gets a disk frame. */
  lemma AfterPlaceFresh(
    flat: map<nat, Page>, blank: set<nat>, dir: nat, wsPages: nat, page: nat, e: Entry, dfn: nat, st: Store, st': Store)
    requires StoreOk(st) && FlatOk(flat, blank, dir, wsPages, st) && !InMirror(page, wsPages)
    requires FreshHeap(st, st')
    requires PageId(dir, page) !in st.frames && st.Get(dir, page).None?
    requires Unseen(st, e.frame) && NotLost(st, e.frame)
    requires OnlyEntry(dir, page, st, st') && st'.Get(dir, page) == Some(e) && e.frame < |st.ram|
    requires |st'.ram| == |st.ram| && (forall f | 0 <= f < |st.ram| && f != e.frame :: st'.ram[f] == st.ram[f])
    requires dfn < |st.disk| && (forall p | p in st.frames :: st.frames[p] != dfn)
    requires st'.frames == st.frames[PageId(dir, page) := dfn] && st'.disk == st.disk
    ensures StoreOk(st') && Isolated(dir, st, st')
    ensures FlatOk(flat[page := st'.ram[e.frame]], blank + {page}, dir, wsPages, st')
  {
    hide Translate, Isolated, FreshHeap;
    var mid := st'.(frames := st.frames);
    assert forall d, p :: mid.Get(d, p) == st'.Get(d, p);
    SameHeapFresh(st, mid, st');
    AfterPlaceUnbacked(flat, blank, dir, wsPages, page, e, st, mid);
    FreshTouch(mid, st');
    AfterNewBlock(flat[page := st'.ram[e.frame]], blank + {page}, dir, wsPages, page, dfn, mid, st');
    IsolatedTwice(dir, st, mid, st');
  }

  lemma SameHeapFresh(st: Store, mid: Store, st': Store)
    requires FreshHeap(st, st') && mid == st'.(frames := mid.frames)
    ensures FreshHeap(st, mid)
  {
  }

  /** Writing to a frame that no user page names is not seen. */
  lemma AfterScribble(flat: map<nat, Page>, blank: set<nat>, dir: nat, wsPages: nat, f: nat, st: Store, st': Store)
    requires StoreOk(st) && FlatOk(flat, blank, dir, wsPages, st)
    requires FreshHeap(st, st')
    requires Unseen(st, f)
    requires forall d, p :: st.Get(d, p) == st'.Get(d, p)
    requires |st'.ram| == |st.ram| && (forall g | 0 <= g < |st.ram| && g != f :: st'.ram[g] == st.ram[g])
    requires st'.frames == st.frames && st'.disk == st.disk
    ensures StoreOk(st') && FlatOk(flat, blank, dir, wsPages, st') && Isolated(dir, st, st')
  {
    hide Translate, Store.Get, LostAlone, FreshHeap, OtherBlocksKept, HeapBeside;
    LostStays(st, st');
    FreshBeside(dir, st, st');
  }

  lemma AfterNothing(flat: map<nat, Page>, blank: set<nat>, dir: nat, wsPages: nat, st: Store, st': Store)
    requires StoreOk(st) && FlatOk(flat, blank, dir, wsPages, st)
    requires FreshHeap(st, st')
    requires forall d, p :: st.Get(d, p) == st'.Get(d, p)
    requires st'.ram == st.ram && st'.frames == st.frames && st'.disk == st.disk
    ensures StoreOk(st') && FlatOk(flat, blank, dir, wsPages, st') && Isolated(dir, st, st')
  {
    hide Translate, Store.Get, LostAlone, FreshHeap, OtherBlocksKept, HeapBeside;
    LostStays(st, st');
    FreshBeside(dir, st, st');
  }

  /** A change of the used bit, or of the modified bit from clear to set. */
  lemma AfterTouch(
    flat: map<nat, Page>, blank: set<nat>, dir: nat, wsPages: nat, page: nat, e: Entry, st: Store, st': Store)
    requires StoreOk(st) && FlatOk(flat, blank, dir, wsPages, st)
    requires FreshHeap(st, st')
    requires st.Get(dir, page).Some? && st.Get(dir, page).value.frame == e.frame
    requires st.Get(dir, page).value.perm.modified ==> e.perm.modified
    requires OnlyEntry(dir, page, st, st') && st'.Get(dir, page) == Some(e)
    requires st'.ram == st.ram && st'.frames == st.frames && st'.disk == st.disk
    ensures StoreOk(st') && FlatOk(flat, blank, dir, wsPages, st') && Isolated(dir, st, st')
  {
    hide Translate, Store.Get, LostAlone, FreshHeap, OtherBlocksKept, HeapBeside;
    LostStays(st, st');
    FreshBeside(dir, st, st');
    TouchedStore(dir, page, e, st, st');
  }

  lemma TouchedStore(dir: nat, page: nat, e: Entry, st: Store, st': Store)
    requires StoreOk(st) && LostAlone(st')
    requires st.Get(dir, page).Some? && st.Get(dir, page).value.frame == e.frame
    requires OnlyEntry(dir, page, st, st') && st'.Get(dir, page) == Some(e)
    requires st'.ram == st.ram && st'.frames == st.frames && st'.disk == st.disk
    ensures StoreOk(st')
  {
    hide Translate, Store.Get, LostAlone;
  }

  /** A store by the program: the page's frame changes and its modified bit is set. */
  lemma AfterStore(
    flat: map<nat, Page>, blank: set<nat>, dir: nat, wsPages: nat, page: nat, contents: Page, e: Entry, st: Store,
    st': Store)
    requires StoreOk(st) && FlatOk(flat, blank, dir, wsPages, st)
    requires FreshHeap(st, st') && page in flat
    requires st.Get(dir, page).Some? && st.Get(dir, page).value.frame == e.frame && e.perm.modified
    requires OnlyEntry(dir, page, st, st') && st'.Get(dir, page) == Some(e)
    requires e.frame < |st.ram| && st'.ram == st.ram[e.frame := contents]
    requires st'.frames == st.frames && st'.disk == st.disk
    ensures StoreOk(st') && FlatOk(flat[page := contents], blank - {page}, dir, wsPages, st') && Isolated(dir, st, st')
  {
    hide Translate, Store.Get, LostAlone, FreshHeap, OtherBlocksKept, HeapBeside;
    LostStays(st, st');
    FreshBeside(dir, st, st');
  }
}
