/** Page-table entries, the physical frames they name, and the accounting that ties
    `frames_info[f].references` and `free_frame_list` to those entries. */
module FrameAccounting {
  import opened Common

  /** The low permission bits of a page-table entry. PERM_PRESENT is implied: an absent entry is zero. */
  datatype Perm = Perm(user: bool, writeable: bool, used: bool, modified: bool)

  datatype Entry = Entry(frame: nat, perm: Perm)

  /** Where a page-table entry lives: in the static table of a kernel-heap page, at an index of
      a user page table (named by the frame that holds the table), or at USER_LIMIT, the page
      borrowed while a victim is written back. A lost slot stands for the k-th word that was left
      in a page table when the table was freed: no table holds it, but its frame stays referenced. */
  datatype Slot = HeapSlot(page: nat) | TableSlot(table: nat, index: nat) | ScratchSlot | LostSlot(k: nat)

  function Namers(entries: map<Slot, Entry>, f: nat): set<Slot> {
    set s | s in entries && entries[s].frame == f
  }

  function Without(entries: map<Slot, Entry>, s: Slot): map<Slot, Entry> {
    entries - {s}
  }

  /** Frame conservation: a usable (non-reserved) frame is on the free list exactly once with
      no references, or off it with as many references as entries name it. The frames of `held`
      have just been taken from the list and are not named yet. */
  ghost predicate Conserved(
    references: seq<nat>, free: seq<nat>, entries: map<Slot, Entry>, held: set<nat>, usable: set<nat>)
  {
    && Distinct(free)
    && held <= usable
    && (forall f | f in usable :: f < |references|)
    && (forall f | f in free :: f in usable)
    && (forall s | s in entries :: entries[s].frame in usable)
    && (forall f | f in usable :: references[f] == |Namers(entries, f)|)
    && (forall f | f in held :: references[f] == 0)
    && (forall f | f in usable :: f in free <==> references[f] == 0 && f !in held)
  }

  lemma NamersAdd(entries: map<Slot, Entry>, s: Slot, e: Entry, f: nat)
    requires s !in entries
    ensures Namers(entries[s := e], f) == Namers(entries, f) + (if e.frame == f then {s} else {})
    ensures |Namers(entries[s := e], f)| == |Namers(entries, f)| + (if e.frame == f then 1 else 0)
  {
  }

  lemma NamersDrop(entries: map<Slot, Entry>, s: Slot, f: nat)
    requires s in entries
    ensures Namers(Without(entries, s), f) == Namers(entries, f) - {s}
    ensures |Namers(Without(entries, s), f)| == |Namers(entries, f)| - (if entries[s].frame == f then 1 else 0)
  {
    assert Namers(Without(entries, s), f) == Namers(entries, f) - {s};
    if entries[s].frame == f {
      assert s in Namers(entries, f);
    } else {
      assert s !in Namers(entries, f);
    }
  }

  /** Writing a new entry and counting it keeps every frame accounted for. */
  lemma ConservedAfterMap(
    references: seq<nat>, free: seq<nat>, entries: map<Slot, Entry>, held: set<nat>, usable: set<nat>, s: Slot,
    e: Entry)
    requires Conserved(references, free, entries, held, usable)
    requires s !in entries && e.frame in usable && e.frame !in free
    ensures e.frame < |references|
    ensures Conserved(references[e.frame := references[e.frame] + 1], free, entries[s := e], held - {e.frame}, usable)
  {
    forall f | f in usable
      ensures references[e.frame := references[e.frame] + 1][f] == |Namers(entries[s := e], f)|
    {
      NamersAdd(entries, s, e, f);
    }
  }

  /** The frame list after one reference to `f` is dropped (decrement_references, free_frame). */
  function FreeAfterDrop(references: seq<nat>, free: seq<nat>, f: nat): seq<nat>
    requires f < |references|
  {
    if references[f] == 1 then [f] + free else free
  }

  /** Clearing an entry and dropping its reference keeps every frame accounted for. */
  lemma ConservedAfterUnmap(
    references: seq<nat>, free: seq<nat>, entries: map<Slot, Entry>, held: set<nat>, usable: set<nat>, s: Slot)
    requires Conserved(references, free, entries, held, usable)
    requires s in entries
    ensures entries[s].frame < |references| && references[entries[s].frame] > 0
    ensures var f := entries[s].frame;
            Conserved(references[f := references[f] - 1], FreeAfterDrop(references, free, f), Without(entries, s),
              held, usable)
  {
    var f := entries[s].frame;
    assert s in Namers(entries, f);
    forall g | g in usable
      ensures references[f := references[f] - 1][g] == |Namers(Without(entries, s), g)|
    {
      NamersDrop(entries, s, g);
    }
  }

  /** Changing only permission bits leaves the accounting alone. */
  lemma ConservedAfterTouch(
    references: seq<nat>, free: seq<nat>, entries: map<Slot, Entry>, held: set<nat>, usable: set<nat>, s: Slot,
    e: Entry)
    requires Conserved(references, free, entries, held, usable)
    requires s in entries && e.frame == entries[s].frame
    ensures Conserved(references, free, entries[s := e], held, usable)
  {
    forall f | f in usable
      ensures references[f] == |Namers(entries[s := e], f)|
    {
      assert Namers(entries[s := e], f) == Namers(entries, f);
    }
  }

  /** An entry may move to an unused slot without anyone noticing. */
  lemma ConservedAfterMove(
    references: seq<nat>, free: seq<nat>, entries: map<Slot, Entry>, held: set<nat>, usable: set<nat>, s: Slot,
    s': Slot)
    requires Conserved(references, free, entries, held, usable)
    requires s in entries && s' !in entries
    ensures Conserved(references, free, Without(entries, s)[s' := entries[s]], held, usable)
  {
    var rest := Without(entries, s);
    forall f | f in usable
      ensures references[f] == |Namers(rest[s' := entries[s]], f)|
    {
      NamersDrop(entries, s, f);
      NamersAdd(rest, s', entries[s], f);
    }
  }

  /** A frame borrowed through USER_LIMIT while another entry names it has at least two references. */
  lemma TwoNamers(
    references: seq<nat>, free: seq<nat>, entries: map<Slot, Entry>, held: set<nat>, usable: set<nat>, s: Slot)
    requires Conserved(references, free, entries, held, usable)
    requires s in entries && ScratchSlot in entries && s != ScratchSlot
    requires entries[s].frame == entries[ScratchSlot].frame
    ensures entries[s].frame < |references| && references[entries[s].frame] >= 2
  {
    var f := entries[s].frame;
    assert {s, ScratchSlot} <= Namers(entries, f);
    assert |Namers(entries, f)| == |Namers(entries, f) - {s, ScratchSlot}| + |{s, ScratchSlot}|;
  }
}
