/** Which slot of the working set a fault uses: FIFO, CLOCK and aging LRU as one machine over the slots, the hand and
    the used bits, and what each of them promises. */
module Replacement {
  import opened Common
  import opened FlatMemory
  import opened LruAging

  const SENTINEL := 1_000_000_000

  /** One element of the page working set; a page is named by its number. */
  datatype WsSlot = WsSlot(page: nat, empty: bool, stamp: nat)

  const EMPTY_SLOT := WsSlot(0, true, 0)

  /** A slot that env_page_ws_set_entry has just filled. */
  function NewSlot(page: nat): WsSlot {
    WsSlot(page, false, 0x8000_0000)
  }

  datatype Algorithm = LRU | FIFO | CLOCK | MODIFIED_CLOCK

  predicate InWs(ws: seq<WsSlot>, page: nat) {
    exists i :: 0 <= i < |ws| && !ws[i].empty && ws[i].page == page
  }

  predicate Full(ws: seq<WsSlot>) {
    forall i | 0 <= i < |ws| :: !ws[i].empty
  }

  predicate WsOk(ws: seq<WsSlot>, hand: nat, maxSize: nat) {
    && 0 < |ws| == maxSize && hand < maxSize
    && (forall i | 0 <= i < |ws| && ws[i].empty :: ws[i] == EMPTY_SLOT)
    && (forall i, j | 0 <= i < j < |ws| && !ws[i].empty && !ws[j].empty :: ws[i].page != ws[j].page)
  }

  /** The page in the slot that a fault empties; a set with room has no victim. */
  function VictimOf(ws: seq<WsSlot>, i: nat): Option<nat> {
    if Full(ws) && i < |ws| then Some(ws[i].page) else None
  }

  /** The same pages in the same slots. */
  predicate SamePages(ws: seq<WsSlot>, ws': seq<WsSlot>) {
    |ws| == |ws'| && forall i | 0 <= i < |ws| :: ws[i].page == ws'[i].page && ws[i].empty == ws'[i].empty
  }

  lemma SamePagesTwice(ws: seq<WsSlot>, ws': seq<WsSlot>, ws'': seq<WsSlot>)
    requires SamePages(ws, ws') && SamePages(ws', ws'')
    ensures SamePages(ws, ws'')
  {
  }

  lemma VictimIsFull(algorithm: Algorithm, ws: seq<WsSlot>, used: seq<bool>, hand: nat, i: nat)
    requires SlotChoice(algorithm, ws, used, hand, i) && hand < |ws| && |used| == |ws|
    ensures i < |ws| && (VictimOf(ws, i).Some? <==> Full(ws))
  {
  }

  lemma SamePagesMeans(ws: seq<WsSlot>, ws': seq<WsSlot>, i: nat)
    requires SamePages(ws, ws')
    ensures (Full(ws) <==> Full(ws')) && VictimOf(ws, i) == VictimOf(ws', i)
    ensures VictimOf(ws, i).Some? ==> InWs(ws, VictimOf(ws, i).value)
    ensures forall page :: InWs(ws, page) <==> InWs(ws', page)
  {
    forall page
      ensures InWs(ws, page) <==> InWs(ws', page)
    {
      if InWs(ws, page) {
        var j :| 0 <= j < |ws| && !ws[j].empty && ws[j].page == page;
        assert !ws'[j].empty && ws'[j].page == page;
      }
    }
  }

  /** The pages of the working set. */
  ghost function Resident(ws: seq<WsSlot>): (r: set<nat>)
    ensures forall v :: v in r <==> InWs(ws, v)
  {
    set i | 0 <= i < |ws| && !ws[i].empty :: ws[i].page
  }

  /** They fill the set exactly when there are as many as slots. */
  lemma {:induction false} ResidentCount(ws: seq<WsSlot>)
    requires forall i, j | 0 <= i < j < |ws| && !ws[i].empty && !ws[j].empty :: ws[i].page != ws[j].page
    ensures |Resident(ws)| == CountFull(ws)
  {
    hide InWs, Resident, Full;
    if ws == [] {
      NoneIn();
    } else {
      var n := |ws| - 1;
      ResidentCount(ws[..n]);
      InWsLast(ws);
      assert Resident(ws) == Resident(ws[..n]) + if ws[n].empty then {} else {ws[n].page};
    }
  }

  lemma NoneIn()
    ensures Resident([]) == {}
  {
  }

  lemma InWsLast(ws: seq<WsSlot>)
    requires ws != []
    ensures var n := |ws| - 1;
            forall v :: InWs(ws, v) <==> InWs(ws[..n], v) || (!ws[n].empty && ws[n].page == v)
    ensures var n := |ws| - 1;
            (forall i | 0 <= i < n && !ws[i].empty :: ws[i].page != ws[n].page) ==> !InWs(ws[..n], ws[n].page)
  {
    var n := |ws| - 1;
    forall v | InWs(ws, v)
      ensures InWs(ws[..n], v) || (!ws[n].empty && ws[n].page == v)
    {
      var j :| 0 <= j < |ws| && !ws[j].empty && ws[j].page == v;
      assert j < n ==> !ws[..n][j].empty && ws[..n][j].page == v;
    }
    forall v | InWs(ws[..n], v)
      ensures InWs(ws, v)
    {
      var j :| 0 <= j < n && !ws[..n][j].empty && ws[..n][j].page == v;
      assert !ws[j].empty && ws[j].page == v;
    }
  }

  /** The victim goes and the page comes. */
  ghost predicate PagesMoved(ws: seq<WsSlot>, victim: Option<nat>, page: nat, ws': seq<WsSlot>) {
    forall v :: InWs(ws', v) <==> v == page || (InWs(ws, v) && victim != Some(v))
  }

  lemma MovedIs(ws: seq<WsSlot>, i: nat, page: nat)
    requires forall i, j | 0 <= i < j < |ws| && !ws[i].empty && !ws[j].empty :: ws[i].page != ws[j].page
    requires i < |ws| && (!ws[i].empty ==> Full(ws))
    ensures PagesMoved(ws, VictimOf(ws, i), page, ws[i := NewSlot(page)])
  {
    var ws' := ws[i := NewSlot(page)];
    forall v
      ensures InWs(ws', v) <==> v == page || (InWs(ws, v) && VictimOf(ws, i) != Some(v))
    {
      if v == page {
        assert !ws'[i].empty && ws'[i].page == v;
      } else if InWs(ws, v) && VictimOf(ws, i) != Some(v) {
        var j :| 0 <= j < |ws| && !ws[j].empty && ws[j].page == v;
        assert !ws'[j].empty && ws'[j].page == v;
      }
    }
  }

  lemma SlotMoved(algorithm: Algorithm, ws: seq<WsSlot>, used: seq<bool>, hand: nat, i: nat, page: nat)
    requires WsOk(ws, hand, |ws|) && |used| == |ws| && SlotChoice(algorithm, ws, used, hand, i)
    ensures i < |ws| && PagesMoved(ws, VictimOf(ws, i), page, ws[i := NewSlot(page)])
  {
    hide PagesMoved, LruChoice, ClockChoice, VictimOf, InWs;
    VictimIsFull(algorithm, ws, used, hand, i);
    MovedIs(ws, i, page);
  }

  function CountFull(ws: seq<WsSlot>): (n: nat)
    ensures n <= |ws|
    ensures n == |ws| <==> Full(ws)
  {
    if ws == [] then 0
    else CountFull(ws[..|ws| - 1]) + (if ws[|ws| - 1].empty then 0 else 1)
  }

  /** The slot reached after `steps` moves of the clock hand. */
  function At(hand: nat, steps: nat, size: nat): nat {
    if hand + steps < size then hand + steps else hand + steps - size
  }

  /** How many moves of the hand it takes to reach slot `i`. */
  function Distance(hand: nat, i: nat, size: nat): nat
    requires hand < size
  {
    if i >= hand then i - hand else i - hand + size
  }

  lemma NextAt(i: nat, size: nat)
    requires i < size
    ensures (i + 1) % size == if i + 1 == size then 0 else i + 1
  {
  }

  /** LRU picks the lowest slot with the least stamp below the sentinel, or the hand if there is none. */
  predicate LruChoice(ws: seq<WsSlot>, hand: nat, i: nat) {
    if exists j :: 0 <= j < |ws| && ws[j].stamp < SENTINEL then
      && i < |ws| && ws[i].stamp < SENTINEL
      && (forall j | 0 <= j < |ws| :: ws[i].stamp <= ws[j].stamp)
      && (forall j | 0 <= j < i :: ws[i].stamp < ws[j].stamp)
    else
      i == hand
  }

  /** CLOCK passes slots whose used bit is set and stops at the first clear one; after a full turn
      every bit it passed is clear, so it stops at the hand. */
  predicate ClockChoice(used: seq<bool>, hand: nat, steps: nat, i: nat) {
    && hand < |used| && steps <= |used| && i == At(hand, steps, |used|)
    && (forall j | 0 <= j < |used| && Distance(hand, j, |used|) < steps :: used[j])
    && (steps < |used| ==> !used[i])
  }

  /** The working set after a tick of update_WS_time_stamps. */
  function Stamped(ws: seq<WsSlot>, used: seq<bool>): (r: seq<WsSlot>)
    requires |used| == |ws|
    ensures |r| == |ws|
  {
    seq(|ws|, i requires 0 <= i < |ws| => if ws[i].empty then ws[i] else ws[i].(stamp := Aged(ws[i].stamp, used[i])))
  }

  /** FIFO serves the slots as a queue: the victim is the front, the new page joins at the back. */
  lemma FifoStep(ws: seq<WsSlot>, used: seq<bool>, hand: nat, i: nat, slot: WsSlot)
    requires hand < |ws| && InOrder(ws, hand) && !slot.empty
    requires SlotChoice(FIFO, ws, used, hand, i)
    ensures i == hand
    ensures Rotation(ws[i := slot], (i + 1) % |ws|) == Rotation(ws, hand)[1..] + [slot]
    ensures InOrder(ws[i := slot], (i + 1) % |ws|)
  {
    InOrderStep(ws, hand, slot);
    if !Full(ws) {
      assert Distance(hand, hand, |ws|) == 0;
    }
    RotationStep(ws, hand, slot);
  }

  /** The working set and hand after FIFO faults that bring in `slots`, oldest first. */
  function FifoRun(ws: seq<WsSlot>, hand: nat, slots: seq<WsSlot>): (r: (seq<WsSlot>, nat))
    requires hand < |ws|
    ensures |r.0| == |ws| && r.1 < |ws|
  {
    if slots == [] then (ws, hand)
    else
      var (ws', hand') := FifoRun(ws, hand, slots[..|slots| - 1]);
      (ws'[hand' := slots[|slots| - 1]], (hand' + 1) % |ws|)
  }

  /** On fault-only runs from an in-order fill the slot written by the k-th fault is the k-th oldest
      arrival: the longest-resident page, or the next empty slot while the set fills up. */
  lemma {:induction false} FifoVictimIsOldest(ws: seq<WsSlot>, hand: nat, slots: seq<WsSlot>)
    requires hand < |ws| && InOrder(ws, hand)
    requires forall k | 0 <= k < |slots| :: !slots[k].empty
    ensures var (ws', hand') := FifoRun(ws, hand, slots);
            && InOrder(ws', hand')
            && Rotation(ws', hand') == (Rotation(ws, hand) + slots)[|slots|..]
            && ws'[hand'] == (Rotation(ws, hand) + slots)[|slots|]
  {
    hide Rotation, InOrder;
    var (ws', hand') := FifoRun(ws, hand, slots);
    if slots != [] {
      var n := |slots| - 1;
      FifoVictimIsOldest(ws, hand, slots[..n]);
      var (w, h) := FifoRun(ws, hand, slots[..n]);
      InOrderStep(w, h, slots[n]);
      RotationStep(w, h, slots[n]);
      assert Rotation(ws, hand) + slots == Rotation(ws, hand) + slots[..n] + [slots[n]];
    }
    RotationFront(ws, hand);
    RotationFront(ws', hand');
  }

  /** A fault-only FIFO run goes on one fault at a time. */
  lemma FifoRunMore(ws: seq<WsSlot>, hand: nat, slots: seq<WsSlot>, more: seq<WsSlot>)
    requires hand < |ws| && |more| <= 1
    ensures FifoRun(ws, hand, slots + more) == FifoRun(FifoRun(ws, hand, slots).0, FifoRun(ws, hand, slots).1, more)
  {
    if more != [] {
      assert (slots + more)[..|slots|] == slots && more[..0] == [];
    } else {
      assert slots + more == slots;
    }
  }

  /** Working set and hand moved as a FIFO run that brought in `slots` moves them. */
  predicate FifoFollows(ws: seq<WsSlot>, hand: nat, slots: seq<WsSlot>, ws': seq<WsSlot>, hand': nat) {
    hand < |ws| && InOrder(ws, hand) ==>
      (ws', hand') == FifoRun(ws, hand, slots) && InOrder(ws', hand')
  }

  lemma FifoNothing(ws: seq<WsSlot>, hand: nat)
    ensures FifoFollows(ws, hand, [], ws, hand)
  {
  }

  lemma FifoFault(ws: seq<WsSlot>, used: seq<bool>, hand: nat, i: nat, slot: WsSlot, algorithm: Algorithm)
    requires hand < |ws| && SlotChoice(algorithm, ws, used, hand, i) && !slot.empty && i < |ws|
    ensures algorithm == FIFO ==> FifoFollows(ws, hand, [slot], ws[i := slot], (i + 1) % |ws|)
  {
    if algorithm == FIFO && InOrder(ws, hand) {
      FifoStep(ws, used, hand, i, slot);
      assert [slot][..0] == [];
    }
  }

  /** The slots that a set brings in to serve an operation. */
  function Brought(ws: seq<WsSlot>, op: Op): (slots: seq<WsSlot>)
    ensures |slots| <= 1
  {
    if op.Other? || InWs(ws, op.page) then [] else [NewSlot(op.page)]
  }

  /** The slots that a set under FIFO brings in to serve a run of operations, oldest first. */
  function Arrivals(ws: seq<WsSlot>, hand: nat, ops: seq<Op>): seq<WsSlot> {
    if hand >= |ws| || ops == [] then []
    else
      var slots := Arrivals(ws, hand, ops[..|ops| - 1]);
      slots + Brought(FifoRun(ws, hand, slots).0, ops[|ops| - 1])
  }

  lemma NoArrivals(ws: seq<WsSlot>, hand: nat)
    ensures Arrivals(ws, hand, []) == []
  {
  }

  lemma ArrivalsNext(ws: seq<WsSlot>, hand: nat, ops: seq<Op>, ws': seq<WsSlot>, hand': nat, op: Op,
                     ws'': seq<WsSlot>, hand'': nat)
    requires FifoFollows(ws, hand, Arrivals(ws, hand, ops), ws', hand')
    requires FifoFollows(ws', hand', Brought(ws', op), ws'', hand'')
    ensures FifoFollows(ws, hand, Arrivals(ws, hand, ops + [op]), ws'', hand'')
  {
    hide InWs;
    if hand < |ws| && InOrder(ws, hand) {
      assert (ops + [op])[..|ops|] == ops;
      FifoRunMore(ws, hand, Arrivals(ws, hand, ops), Brought(ws', op));
    }
  }

  lemma RotationFront(ws: seq<WsSlot>, hand: nat)
    requires hand < |ws|
    ensures |Rotation(ws, hand)| == |ws| && Rotation(ws, hand)[0] == ws[hand]
  {
  }

  /** Every slot's stamp records its page's reference history. */
  ghost predicate StampsRecord(ws: seq<WsSlot>, histories: seq<seq<bool>>) {
    && |histories| == |ws|
    && forall j | 0 <= j < |ws| :: ws[j].stamp == StampOf(histories[j], STAMP_DIGITS)
  }

  /** Slot `i` is the lowest of those referenced least recently over the last 16 ticks, or the hand if
      every page was referenced since the last tick. */
  predicate LeastRecent(histories: seq<seq<bool>>, hand: nat, i: nat) {
    if forall j | 0 <= j < |histories| :: Referenced(histories[j], 0) then i == hand
    else
      && i < |histories|
      && (forall j | 0 <= j < |histories| :: !Older(histories[j], histories[i], STAMP_DIGITS))
      && (forall j | 0 <= j < i :: Older(histories[i], histories[j], STAMP_DIGITS))
  }

  /** When the stamps record reference histories, LRU replaces a least recently referenced page. */
  lemma LruVictimIsOldest(ws: seq<WsSlot>, histories: seq<seq<bool>>, hand: nat, i: nat)
    requires StampsRecord(ws, histories) && LruChoice(ws, hand, i)
    ensures LeastRecent(histories, hand, i)
  {
    forall j | 0 <= j < |ws|
      ensures ws[j].stamp < SENTINEL <==> !Referenced(histories[j], 0)
      ensures i < |ws| ==> (ws[j].stamp < ws[i].stamp <==> Older(histories[j], histories[i], STAMP_DIGITS))
      ensures i < |ws| ==> (ws[i].stamp < ws[j].stamp <==> Older(histories[i], histories[j], STAMP_DIGITS))
    {
      Sentinel(histories[j]);
      if i < |ws| {
        StampOrder(histories[j], histories[i], STAMP_DIGITS);
        StampOrder(histories[i], histories[j], STAMP_DIGITS);
      }
    }
  }

  /** What happens to the working set between two faults: a clock tick or the update before a fault, and
      the two writes of a replacement. */
  datatype WsEvent = Tick(used: seq<bool>) | Fill(slot: nat, page: nat) | Clear(slot: nat)

  predicate EventOk(e: WsEvent, size: nat) {
    if e.Tick? then |e.used| == size else e.slot < size
  }

  function WsAfter(ws: seq<WsSlot>, e: WsEvent): (ws': seq<WsSlot>)
    requires EventOk(e, |ws|)
    ensures |ws'| == |ws|
  {
    match e
    case Tick(used) => Stamped(ws, used)
    case Fill(i, page) => ws[i := NewSlot(page)]
    case Clear(i) => ws[i := EMPTY_SLOT]
  }

  /** A tick pushes each page's used bit onto its history; a new page starts as just referenced. */
  function HistoriesAfter(ws: seq<WsSlot>, histories: seq<seq<bool>>, e: WsEvent): (h: seq<seq<bool>>)
    requires EventOk(e, |ws|) && |histories| == |ws|
    ensures |h| == |ws|
  {
    match e
    case Tick(used) =>
      seq(|ws|, j requires 0 <= j < |ws| => if ws[j].empty then histories[j] else [used[j]] + histories[j])
    case Fill(i, _) => histories[i := [true]]
    case Clear(i) => histories[i := []]
  }

  function WsRun(ws: seq<WsSlot>, histories: seq<seq<bool>>, events: seq<WsEvent>): (r: (seq<WsSlot>, seq<seq<bool>>))
    requires |histories| == |ws| && forall e | e in events :: EventOk(e, |ws|)
    ensures |r.0| == |r.1| == |ws|
    decreases events
  {
    if events == [] then (ws, histories)
    else WsRun(WsAfter(ws, events[0]), HistoriesAfter(ws, histories, events[0]), events[1..])
  }

  lemma StampsAfterEvent(ws: seq<WsSlot>, histories: seq<seq<bool>>, e: WsEvent)
    requires StampsRecord(ws, histories) && EventOk(e, |ws|)
    ensures StampsRecord(WsAfter(ws, e), HistoriesAfter(ws, histories, e))
  {
    if e.Tick? {
      forall j | 0 <= j < |ws|
        ensures WsAfter(ws, e)[j].stamp == StampOf(HistoriesAfter(ws, histories, e)[j], STAMP_DIGITS)
      {
        AgedPushes(histories[j], e.used[j]);
      }
    } else {
      AgedPushes([], true);
      assert [true] + [] == [true];
    }
  }

  /** Over every run of ticks and replacements the stamps record the pages' reference histories. */
  lemma {:induction false} StampsRecordRun(ws: seq<WsSlot>, histories: seq<seq<bool>>, events: seq<WsEvent>)
    requires StampsRecord(ws, histories) && forall e | e in events :: EventOk(e, |ws|)
    ensures StampsRecord(WsRun(ws, histories, events).0, WsRun(ws, histories, events).1)
    decreases events
  {
    if events != [] {
      StampsAfterEvent(ws, histories, events[0]);
      StampsRecordRun(WsAfter(ws, events[0]), HistoriesAfter(ws, histories, events[0]), events[1..]);
    }
  }

  function EmptySet(size: nat): (ws: seq<WsSlot>)
    ensures |ws| == size
  {
    seq(size, _ => EMPTY_SLOT)
  }

  function NoHistories(size: nat): (h: seq<seq<bool>>)
    ensures |h| == size
  {
    seq(size, _ => [])
  }

  lemma EmptyStamps(size: nat)
    ensures StampsRecord(EmptySet(size), NoHistories(size))
  {
  }

  /** From the empty set of a new environment, after any run of ticks and replacements, LRU evicts a page
      that was referenced least recently in that run, or the hand's page if all were just referenced. */
  lemma LruVictimOverRun(size: nat, events: seq<WsEvent>, hand: nat, i: nat)
    requires forall e | e in events :: EventOk(e, size)
    requires LruChoice(WsRun(EmptySet(size), NoHistories(size), events).0, hand, i)
    ensures LeastRecent(Histories(size, events), hand, i)
  {
    hide LruChoice, LeastRecent, WsRun, StampsRecord;
    EmptyStamps(size);
    StampsRecordRun(EmptySet(size), NoHistories(size), events);
    LruVictimIsOldest(WsRun(EmptySet(size), NoHistories(size), events).0, Histories(size, events), hand, i);
  }

  /** The reference history of each slot's page after a run from the empty set. */
  function Histories(size: nat, events: seq<WsEvent>): seq<seq<bool>>
    requires forall e | e in events :: EventOk(e, size)
  {
    WsRun(EmptySet(size), NoHistories(size), events).1
  }

  lemma {:induction false} WsRunMore(ws: seq<WsSlot>, histories: seq<seq<bool>>, events: seq<WsEvent>, e: WsEvent)
    requires |histories| == |ws| && EventOk(e, |ws|) && forall e' | e' in events :: EventOk(e', |ws|)
    ensures forall e' | e' in events + [e] :: EventOk(e', |ws|)
    ensures WsRun(ws, histories, events + [e]).0 == WsAfter(WsRun(ws, histories, events).0, e)
    decreases events
  {
    hide WsAfter, HistoriesAfter;
    var all := events + [e];
    if events != [] {
      assert all[0] == events[0] && all[1..] == events[1..] + [e];
      WsRunMore(WsAfter(ws, events[0]), HistoriesAfter(ws, histories, events[0]), events[1..], e);
    } else {
      assert all[0] == e && all[1..] == [];
    }
  }

  lemma {:induction false} WsRunConcat(
    ws: seq<WsSlot>, histories: seq<seq<bool>>, events: seq<WsEvent>, more: seq<WsEvent>)
    requires |histories| == |ws| && forall e | e in events + more :: EventOk(e, |ws|)
    ensures forall e | e in events :: EventOk(e, |ws|)
    ensures forall e | e in more :: EventOk(e, |ws|)
    ensures var (ws', histories') := WsRun(ws, histories, events);
            WsRun(ws, histories, events + more) == WsRun(ws', histories', more)
    decreases events
  {
    hide WsAfter, HistoriesAfter;
    assert forall e | e in events :: e in events + more;
    assert forall e | e in more :: e in events + more;
    if events == [] {
      assert events + more == more;
    } else {
      var all := events + more;
      assert all[0] == events[0] && all[1..] == events[1..] + more;
      WsRunConcat(WsAfter(ws, events[0]), HistoriesAfter(ws, histories, events[0]), events[1..], more);
    }
  }

  /** The working set is what the logged events make of the empty set. */
  ghost predicate LogOk(ws: seq<WsSlot>, size: nat, log: seq<WsEvent>) {
    && (forall e | e in log :: EventOk(e, size))
    && ws == WsRun(EmptySet(size), NoHistories(size), log).0
  }

  lemma LogStart(size: nat)
    ensures LogOk(EmptySet(size), size, [])
  {
  }

  lemma LogSize(ws: seq<WsSlot>, size: nat, log: seq<WsEvent>)
    requires LogOk(ws, size, log)
    ensures |ws| == size
  {
  }

  lemma LogStep(ws: seq<WsSlot>, size: nat, log: seq<WsEvent>, e: WsEvent)
    requires LogOk(ws, size, log) && EventOk(e, size)
    ensures |ws| == size && LogOk(WsAfter(ws, e), size, log + [e])
  {
    hide WsAfter, WsRun;
    WsRunMore(EmptySet(size), NoHistories(size), log, e);
  }

  /** The used bits after the hand has passed `steps` slots. */
  function Passed(used: seq<bool>, hand: nat, steps: nat): seq<bool>
    requires hand < |used|
  {
    seq(|used|, j requires 0 <= j < |used| => used[j] && Distance(hand, j, |used|) >= steps)
  }

  lemma PassedStep(used: seq<bool>, hand: nat, steps: nat)
    requires hand < |used| && steps <= |used|
    ensures var i := At(hand, steps, |used|);
            && i < |used|
            && (steps < |used| ==> Passed(used, hand, steps)[i] == used[i])
            && (steps == |used| ==> !Passed(used, hand, steps)[i])
            && (steps < |used| ==> Passed(used, hand, steps)[i := false] == Passed(used, hand, steps + 1))
            && (steps < |used| ==> (i + 1) % |used| == At(hand, steps + 1, |used|))
            && (forall j | 0 <= j < |used| && Distance(hand, j, |used|) < steps + 1 ::
                  Distance(hand, j, |used|) < steps || j == i)
  {
    NextAt(At(hand, steps, |used|), |used|);
  }

  lemma PassedNone(used: seq<bool>, hand: nat)
    requires hand < |used|
    ensures Passed(used, hand, 0) == used && At(hand, 0, |used|) == hand
  {
  }

  /** The first empty slot met by the hand. */
  predicate FirstEmpty(ws: seq<WsSlot>, hand: nat, i: nat) {
    && hand < |ws| && i < |ws| && ws[i].empty
    && forall j | 0 <= j < |ws| && Distance(hand, j, |ws|) < Distance(hand, i, |ws|) :: !ws[j].empty
  }

  /** The slots in the order the hand will meet them. */
  function Rotation(ws: seq<WsSlot>, hand: nat): seq<WsSlot>
    requires hand <= |ws|
  {
    ws[hand..] + ws[..hand]
  }

  /** The hand meets every empty slot before any occupied one, as after an in-order fill. */
  predicate InOrder(ws: seq<WsSlot>, hand: nat) {
    hand <= |ws| && forall a, b | 0 <= a < b < |ws| && Rotation(ws, hand)[b].empty :: Rotation(ws, hand)[a].empty
  }

  /** Writing at the hand and moving it on is a step of a queue: out at the front, in at the back. */
  lemma RotationStep(ws: seq<WsSlot>, hand: nat, slot: WsSlot)
    requires hand < |ws|
    ensures Rotation(ws[hand := slot], (hand + 1) % |ws|) == Rotation(ws, hand)[1..] + [slot]
  {
    NextAt(hand, |ws|);
  }

  lemma InOrderStep(ws: seq<WsSlot>, hand: nat, slot: WsSlot)
    requires hand < |ws| && InOrder(ws, hand) && !slot.empty
    ensures InOrder(ws[hand := slot], (hand + 1) % |ws|)
    ensures ws[hand].empty || Full(ws)
  {
    RotationStep(ws, hand, slot);
    var rot := Rotation(ws, hand);
    if !ws[hand].empty {
      assert !rot[0].empty;
      forall i | 0 <= i < |ws|
        ensures !ws[i].empty
      {
        assert rot[Distance(hand, i, |ws|)] == ws[i];
      }
    }
  }

  /** Which slot a fault uses: the algorithm's victim when the set is full, else the next empty slot. */
  ghost predicate SlotChoice(algorithm: Algorithm, ws: seq<WsSlot>, used: seq<bool>, hand: nat, i: nat) {
    if Full(ws) then
      match algorithm
      case LRU => LruChoice(ws, hand, i)
      case CLOCK => exists steps :: ClockChoice(used, hand, steps, i)
      case _ => i == hand
    else
      FirstEmpty(ws, hand, i)
  }

  predicate InRun(page: nat, start: nat, n: nat) {
    start <= page < start + n
  }

  /** The working set without the pages of a run. */
  function Cleared(ws: seq<WsSlot>, start: nat, n: nat): seq<WsSlot> {
    seq(|ws|, i requires 0 <= i < |ws| =>
      if !ws[i].empty && InRun(ws[i].page, start, n) then EMPTY_SLOT else ws[i])
  }

  // ---- the replacement machine ----

  /** The working set, the hand, and the used bit of the page in each slot. */
  datatype Pager = Pager(ws: seq<WsSlot>, hand: nat, used: seq<bool>)

  predicate PagerOk(p: Pager) {
    |p.used| == |p.ws| && WsOk(p.ws, p.hand, |p.ws|)
  }

  /** update_WS_time_stamps */
  function Ticked(p: Pager): (q: Pager)
    requires |p.used| == |p.ws|
    ensures |q.used| == |q.ws| == |p.ws| && q.hand == p.hand
  {
    Pager(Stamped(p.ws, p.used), p.hand, seq(|p.ws|, _ => false))
  }

  function TickIf(p: Pager, algorithm: Algorithm): (q: Pager)
    requires |p.used| == |p.ws|
    ensures |q.used| == |q.ws| == |p.ws| && q.hand == p.hand
  {
    if algorithm == LRU then Ticked(p) else p
  }

  /** What page_fault_handler finds: under LRU the stamps are updated before every fault, the table fault that
      may come first included. */
  function Prepared(p: Pager, algorithm: Algorithm, tabled: bool): (q: Pager)
    requires |p.used| == |p.ws|
    ensures |q.used| == |q.ws| == |p.ws| && q.hand == p.hand
  {
    TickIf(if tabled then TickIf(p, algorithm) else p, algorithm)
  }

  /** The used bits beside slot `i` after the choice of that slot: CLOCK clears those that it passes. */
  ghost predicate UsedMoved(
    algorithm: Algorithm, ws: seq<WsSlot>, used: seq<bool>, hand: nat, i: nat, used': seq<bool>)
  {
    && |used'| == |used| && hand < |used|
    && if Full(ws) && algorithm == CLOCK then
         exists steps ::
           && ClockChoice(used, hand, steps, i)
           && forall j | 0 <= j < |used| && j != i :: used'[j] == Passed(used, hand, steps)[j]
       else
         forall j | 0 <= j < |used| && j != i :: used'[j] == used[j]
  }

  /** page_fault_handler: the page takes the slot that the algorithm in force defines, the hand moves behind it. */
  ghost predicate FaultMove(algorithm: Algorithm, page: nat, q: Pager, i: nat, p': Pager) {
    && SlotChoice(algorithm, q.ws, q.used, q.hand, i) && i < |q.ws|
    && UsedMoved(algorithm, q.ws, q.used, q.hand, i, p'.used) && i < |p'.used| && p'.used[i]
    && p'.ws == q.ws[i := NewSlot(page)] && p'.hand == (i + 1) % |q.ws|
  }

  /** The same after the updates that precede it. */
  ghost predicate FaultStep(algorithm: Algorithm, tabled: bool, page: nat, p: Pager, i: nat, p': Pager) {
    |p.used| == |p.ws| && FaultMove(algorithm, page, Prepared(p, algorithm, tabled), i, p')
  }

  lemma UsedTwice(
    algorithm: Algorithm, ws: seq<WsSlot>, used: seq<bool>, hand: nat, i: nat, used': seq<bool>, used'': seq<bool>)
    requires UsedMoved(algorithm, ws, used, hand, i, used') && |used''| == |used'|
    requires forall j | 0 <= j < |used'| && j != i :: used''[j] == used'[j]
    ensures UsedMoved(algorithm, ws, used, hand, i, used'')
  {
    hide ClockChoice, Passed, Full;
  }

  /** freeMem clears the slots of a run of pages. */
  function Emptied(p: Pager, start: nat, n: nat): (q: Pager)
    requires |p.used| == |p.ws|
    ensures |q.used| == |q.ws| == |p.ws|
  {
    Pager(Cleared(p.ws, start, n), p.hand,
          seq(|p.ws|, j requires 0 <= j < |p.ws| => p.used[j] && !InRun(p.ws[j].page, start, n)))
  }

  /** The used bits after an access to a page of the set. */
  function TouchUsed(p: Pager, page: nat): (used: seq<bool>)
    requires |p.used| == |p.ws|
    ensures |used| == |p.ws|
  {
    seq(|p.ws|, j requires 0 <= j < |p.ws| => p.used[j] || (!p.ws[j].empty && p.ws[j].page == page))
  }

  /** One operation under the algorithm in force. For a page that is not in the set, `i` is the slot used, and
      `tabled` says whether a table fault comes first. */
  ghost predicate PagerStep(algorithm: Algorithm, op: Op, tabled: bool, p: Pager, i: nat, p': Pager) {
    && |p.used| == |p.ws|
    && if op.Other? then p' == TickIf(p, algorithm)
       else if InWs(p.ws, op.page) then p' == p.(used := TouchUsed(p, op.page))
       else FaultStep(algorithm, tabled, op.page, p, i, p')
  }

  /** The access that follows a fault finds the used bit of the page set. */
  lemma TouchedAfter(algorithm: Algorithm, op: Op, tabled: bool, p: Pager, i: nat, q: Pager, q': Pager)
    requires !op.Other? && PagerOk(p) && |q.used| == |q.ws| && q' == q.(used := TouchUsed(q, op.page))
    requires if InWs(p.ws, op.page) then q == p else FaultStep(algorithm, tabled, op.page, p, i, q)
    ensures PagerStep(algorithm, op, tabled, p, i, q')
  {
    hide InWs, Prepared, SlotChoice, UsedMoved;
    if !InWs(p.ws, op.page) {
      FaultMoves(algorithm, tabled, op.page, p, i, q);
      assert q.ws[i] == NewSlot(op.page);
      assert q'.used == q.used;
    }
  }

  /** Only the page of an access matters for the replacement. */
  lemma SameOps(algorithm: Algorithm, op: Op, op': Op, tabled: bool, p: Pager, i: nat)
    requires !op.Other? && !op'.Other? && op.page == op'.page && |p.used| == |p.ws|
    ensures Victim(p, op, i) == Victim(p, op', i)
    ensures Events(algorithm, op, tabled, p, i) == Events(algorithm, op', tabled, p, i)
  {
  }

  lemma TickStep(algorithm: Algorithm, op: Op, p: Pager)
    requires op.Other? && |p.used| == |p.ws|
    ensures PagerStep(algorithm, op, false, p, 0, TickIf(p, algorithm)) && Victim(p, op, 0) == None
    ensures Events(algorithm, op, false, p, 0) == Ticks(p, algorithm, false)
  {
  }

  /** The page that an operation evicts. */
  function Victim(p: Pager, op: Op, i: nat): Option<nat> {
    if op.Other? || InWs(p.ws, op.page) then None else VictimOf(p.ws, i)
  }

  lemma TickedPages(p: Pager, algorithm: Algorithm)
    requires PagerOk(p)
    ensures PagerOk(TickIf(p, algorithm)) && SamePages(p.ws, TickIf(p, algorithm).ws)
  {
  }

  lemma PreparedPages(p: Pager, algorithm: Algorithm, tabled: bool)
    requires PagerOk(p)
    ensures PagerOk(Prepared(p, algorithm, tabled)) && SamePages(p.ws, Prepared(p, algorithm, tabled).ws)
  {
    hide TickIf;
    TickedPages(p, algorithm);
    TickedPages(if tabled then TickIf(p, algorithm) else p, algorithm);
    if tabled {
      SamePagesTwice(p.ws, TickIf(p, algorithm).ws, Prepared(p, algorithm, tabled).ws);
    }
  }

  /** A fault has a victim exactly when the set is full; the victim goes and the page comes. */
  lemma FaultMoves(algorithm: Algorithm, tabled: bool, page: nat, p: Pager, i: nat, p': Pager)
    requires PagerOk(p) && FaultStep(algorithm, tabled, page, p, i, p') && !InWs(p.ws, page)
    ensures PagerOk(p') && (VictimOf(p.ws, i).Some? <==> Full(p.ws))
    ensures VictimOf(p.ws, i).Some? ==> InWs(p.ws, VictimOf(p.ws, i).value)
    ensures PagesMoved(p.ws, VictimOf(p.ws, i), page, p'.ws)
  {
    hide Prepared, SlotChoice, PagesMoved, InWs, Full, VictimOf;
    var q := Prepared(p, algorithm, tabled);
    PreparedPages(p, algorithm, tabled);
    SamePagesMeans(p.ws, q.ws, i);
    VictimIsFull(algorithm, q.ws, q.used, q.hand, i);
    SlotMoved(algorithm, q.ws, q.used, q.hand, i, page);
    MovedOnward(p.ws, q.ws, VictimOf(p.ws, i), page, p'.ws);
    SlotFilled(q.ws, q.hand, i, page);
  }

  lemma MovedOnward(ws: seq<WsSlot>, ws': seq<WsSlot>, victim: Option<nat>, page: nat, ws'': seq<WsSlot>)
    requires (forall v :: InWs(ws, v) <==> InWs(ws', v)) && PagesMoved(ws', victim, page, ws'')
    ensures PagesMoved(ws, victim, page, ws'')
  {
    hide InWs;
  }

  lemma SlotFilled(ws: seq<WsSlot>, hand: nat, i: nat, page: nat)
    requires WsOk(ws, hand, |ws|) && i < |ws| && !InWs(ws, page)
    ensures WsOk(ws[i := NewSlot(page)], (i + 1) % |ws|, |ws|)
  {
    NextAt(i, |ws|);
  }

  /** What one operation does to the pages of the set. */
  lemma PagesAfter(algorithm: Algorithm, op: Op, tabled: bool, p: Pager, i: nat, p': Pager)
    requires PagerOk(p) && PagerStep(algorithm, op, tabled, p, i, p')
    ensures PagerOk(p') && |p'.ws| == |p.ws|
    ensures var victim := Victim(p, op, i);
            && (victim.Some? <==> !op.Other? && !InWs(p.ws, op.page) && Full(p.ws))
            && (victim.Some? ==> InWs(p.ws, victim.value))
            && forall v :: InWs(p'.ws, v) <==> (InWs(p.ws, v) && victim != Some(v)) || (!op.Other? && v == op.page)
  {
    hide TickIf, InWs, Full, VictimOf, WsOk;
    if op.Other? {
      TickedPages(p, algorithm);
      SamePagesMeans(p.ws, p'.ws, 0);
    } else if !InWs(p.ws, op.page) {
      FaultMoves(algorithm, tabled, op.page, p, i, p');
    }
  }

  /** Under FIFO set and hand move as a queue. */
  lemma FifoAfter(op: Op, tabled: bool, p: Pager, i: nat, p': Pager)
    requires PagerOk(p) && PagerStep(FIFO, op, tabled, p, i, p')
    ensures FifoFollows(p.ws, p.hand, Brought(p.ws, op), p'.ws, p'.hand)
  {
    hide InWs, SlotChoice, UsedMoved, FifoFollows;
    if op.Other? || InWs(p.ws, op.page) {
      FifoNothing(p.ws, p.hand);
    } else {
      FifoFault(p.ws, p.used, p.hand, i, NewSlot(op.page), FIFO);
    }
  }

  /** The updates of the stamps before a fault. */
  function Ticks(p: Pager, algorithm: Algorithm, tabled: bool): seq<WsEvent>
    requires |p.used| == |p.ws|
  {
    if algorithm != LRU then []
    else if tabled then [Tick(p.used), Tick(Ticked(p).used)]
    else [Tick(p.used)]
  }

  /** What an operation writes to the working set. */
  function Events(algorithm: Algorithm, op: Op, tabled: bool, p: Pager, i: nat): seq<WsEvent>
    requires |p.used| == |p.ws|
  {
    if op.Other? then Ticks(p, algorithm, false)
    else if InWs(p.ws, op.page) then []
    else Ticks(p, algorithm, tabled) + (if Full(p.ws) then [Clear(i)] else []) + [Fill(i, op.page)]
  }

  lemma TicksJoin(p: Pager, algorithm: Algorithm)
    requires |p.used| == |p.ws|
    ensures Prepared(p, algorithm, false) == TickIf(p, algorithm)
    ensures Prepared(p, algorithm, true) == TickIf(TickIf(p, algorithm), algorithm)
    ensures Ticks(p, algorithm, true) == Ticks(p, algorithm, false) + Ticks(TickIf(p, algorithm), algorithm, false)
  {
  }

  lemma TicksRun(p: Pager, histories: seq<seq<bool>>, algorithm: Algorithm, tabled: bool)
    requires |p.used| == |p.ws| == |histories|
    ensures forall e | e in Ticks(p, algorithm, tabled) :: EventOk(e, |p.ws|)
    ensures WsRun(p.ws, histories, Ticks(p, algorithm, tabled)).0 == Prepared(p, algorithm, tabled).ws
  {
    hide Stamped, WsRun;
    NoEvents(p.ws, histories);
    if algorithm == LRU {
      WsRunMore(p.ws, histories, [], Tick(p.used));
      assert [] + [Tick(p.used)] == [Tick(p.used)];
      if tabled {
        var used := Ticked(p).used;
        WsRunMore(p.ws, histories, [Tick(p.used)], Tick(used));
        assert [Tick(p.used)] + [Tick(used)] == [Tick(p.used), Tick(used)];
      }
    }
  }

  /** Under LRU the victim is a page that was referenced least recently, as the stamps record it. */
  lemma LruAfter(op: Op, tabled: bool, p: Pager, i: nat, p': Pager, histories: seq<seq<bool>>)
    requires PagerOk(p) && PagerStep(LRU, op, tabled, p, i, p') && Victim(p, op, i).Some?
    requires StampsRecord(p.ws, histories)
    ensures forall e | e in Ticks(p, LRU, tabled) :: EventOk(e, |p.ws|)
    ensures LeastRecent(WsRun(p.ws, histories, Ticks(p, LRU, tabled)).1, p.hand, i)
  {
    hide Ticks, WsRun, LruChoice, LeastRecent, StampsRecord, Prepared, InWs, UsedMoved, WsOk;
    Recorded(p.ws, histories);
    var q := Prepared(p, LRU, tabled);
    TicksRun(p, histories, LRU, tabled);
    StampsRecordRun(p.ws, histories, Ticks(p, LRU, tabled));
    PreparedPages(p, LRU, tabled);
    SamePagesMeans(p.ws, q.ws, i);
    LruVictimIsOldest(q.ws, WsRun(p.ws, histories, Ticks(p, LRU, tabled)).1, p.hand, i);
  }

  lemma Recorded(ws: seq<WsSlot>, histories: seq<seq<bool>>)
    requires StampsRecord(ws, histories)
    ensures |histories| == |ws|
  {
  }

  /** The events of an operation make the set what it is afterwards. */
  lemma EventsRun(algorithm: Algorithm, op: Op, tabled: bool, p: Pager, i: nat, p': Pager, histories: seq<seq<bool>>)
    requires PagerOk(p) && PagerStep(algorithm, op, tabled, p, i, p') && |histories| == |p.ws|
    ensures forall e | e in Events(algorithm, op, tabled, p, i) :: EventOk(e, |p.ws|)
    ensures WsRun(p.ws, histories, Events(algorithm, op, tabled, p, i)).0 == p'.ws
  {
    hide Ticks, WsRun, Prepared, InWs, UsedMoved, SlotChoice, Full;
    if op.Other? {
      TicksRun(p, histories, algorithm, false);
      TicksJoin(p, algorithm);
    } else if InWs(p.ws, op.page) {
      NoEvents(p.ws, histories);
    } else {
      var ticks := Ticks(p, algorithm, tabled);
      TicksRun(p, histories, algorithm, tabled);
      var more := ticks + if Full(p.ws) then [Clear(i)] else [];
      if Full(p.ws) {
        WsRunMore(p.ws, histories, ticks, Clear(i));
      } else {
        assert more == ticks;
      }
      WsRunMore(p.ws, histories, more, Fill(i, op.page));
    }
  }

  lemma NoEvents(ws: seq<WsSlot>, histories: seq<seq<bool>>)
    requires |histories| == |ws|
    ensures WsRun(ws, histories, []) == (ws, histories)
  {
  }
}
