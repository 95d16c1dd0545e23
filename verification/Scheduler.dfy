/** kern/sched.c: three queues and a cursor into the ready queue, which together behave as a rotation. */
module Scheduler {
  import opened Common
  import opened Queue

  // ---- the rotation ----

  datatype Event<T> = Arrive(env: T) | Leave(env: T) | Dispatch

  function Turned<T>(r: seq<T>): seq<T> {
    if r == [] then [] else r[1..] + [r[0]]
  }

  function After<T(==)>(r: seq<T>, e: Event<T>): seq<T> {
    match e
    case Arrive(x) => r + [x]
    case Leave(x) => Without(r, x)
    case Dispatch => Turned(r)
  }

  function Final<T(==)>(r: seq<T>, events: seq<Event<T>>): seq<T>
    decreases events
  {
    if events == [] then r else Final(After(r, events[0]), events[1..])
  }

  /** Who runs, in order. */
  function Dispatched<T(==)>(r: seq<T>, events: seq<Event<T>>): seq<T>
    decreases events
  {
    if events == [] then []
    else (if events[0].Dispatch? then r[..if r == [] then 0 else 1] else [])
         + Dispatched(After(r, events[0]), events[1..])
  }

  function Calls<T>(events: seq<Event<T>>): nat {
    if events == [] then 0 else (if events[0].Dispatch? then 1 else 0) + Calls(events[1..])
  }

  /** One event moves an environment that stays towards the front, or to the back when it runs. */
  lemma PositionAfter<T>(r: seq<T>, e: Event<T>, p: nat) returns (p': nat)
    requires p < |r| && e != Leave(r[p])
    ensures p' < |After(r, e)| && After(r, e)[p'] == r[p]
    ensures e.Dispatch? && p > 0 ==> p' == p - 1
    ensures !e.Dispatch? ==> p' <= p
  {
    match e
    case Arrive(_) => p' := p;
    case Leave(x) =>
      WithoutPosition(r, p, x);
      p' :| 0 <= p' <= p && p' < |Without(r, x)| && Without(r, x)[p'] == r[p];
    case Dispatch => p' := if p == 0 then |r| - 1 else p - 1;
  }

  /** Whatever arrives or leaves meanwhile, an environment at position `p` that stays runs within the
      next `p + 1` calls of the scheduler, none of which finds the queue empty. */
  lemma {:induction false} BoundedWait<T>(r: seq<T>, events: seq<Event<T>>, p: nat)
    requires p < |r| && Leave(r[p]) !in events
    ensures |Dispatched(r, events)| == Calls(events)
    ensures Calls(events) > p ==> r[p] in Dispatched(r, events)[..p + 1]
    decreases events
  {
    hide After;
    if events == [] {
      return;
    }
    var e, rest, r' := events[0], events[1..], After(r, events[0]);
    assert events == [e] + rest;
    var p' := PositionAfter(r, e, p);
    BoundedWait(r', rest, p');
    var ran := Dispatched(r', rest);
    if e.Dispatch? {
      assert Dispatched(r, events) == [r[0]] + ran;
      if p > 0 {
        assert Calls(events) > p ==> Dispatched(r, events)[..p + 1] == [r[0]] + ran[..p];
      }
    } else {
      assert Dispatched(r, events) == ran;
      assert Calls(events) > p ==> ran[..p' + 1] <= ran[..p + 1];
    }
  }

  lemma {:induction false} WithoutPosition<T>(r: seq<T>, p: nat, x: T)
    requires p < |r| && r[p] != x
    ensures exists p' :: 0 <= p' <= p && p' < |Without(r, x)| && Without(r, x)[p'] == r[p]
  {
    if r[0] == x {
      assert Without(r, x)[p - 1] == r[p];
    } else if p == 0 {
      assert Without(r, x)[0] == r[0];
    } else {
      WithoutPosition(r[1..], p - 1, x);
      var q :| 0 <= q <= p - 1 && q < |Without(r[1..], x)| && Without(r[1..], x)[q] == r[1..][p - 1];
      assert Without(r, x)[q + 1] == r[p];
    }
  }

  lemma DropFirst<T>(s: seq<T>, k: nat)
    requires k < |s|
    ensures Without(s[k..], s[k]) == s[k + 1..]
  {
  }

  // ---- a list and a cursor as a rotation ----

  function Rotated<T>(elems: seq<T>, cursor: nat): seq<T>
    requires cursor <= |elems|
  {
    elems[cursor..] + elems[..cursor]
  }

  lemma RotatedConcat<T>(front: seq<T>, back: seq<T>)
    ensures Rotated(front + back, |front|) == back + front
  {
    assert (front + back)[|front|..] == back && (front + back)[..|front|] == front;
  }

  lemma RotatedInsert<T>(elems: seq<T>, cursor: nat, x: T)
    requires cursor <= |elems|
    ensures Rotated(elems[..cursor] + [x] + elems[cursor..], cursor + 1) == Rotated(elems, cursor) + [x]
  {
    RotatedConcat(elems[..cursor] + [x], elems[cursor..]);
  }

  lemma RotatedTurn<T>(elems: seq<T>, cursor: nat)
    requires cursor < |elems|
    ensures Rotated(elems, cursor) != [] && Rotated(elems, cursor)[0] == elems[cursor]
    ensures Rotated(elems, if cursor + 1 == |elems| then 0 else cursor + 1) == Turned(Rotated(elems, cursor))
  {
    assert Turned(Rotated(elems, cursor)) == elems[cursor + 1..] + elems[..cursor] + [elems[cursor]];
  }

  function CursorWithout(length: nat, cursor: nat, k: nat): nat
    requires cursor < length && k < length
  {
    if k < cursor then cursor - 1 else if k == cursor == length - 1 then 0 else cursor
  }

  lemma RotatedAt<T>(elems: seq<T>, cursor: nat, i: nat)
    requires cursor <= |elems| && i < |elems|
    ensures |Rotated(elems, cursor)| == |elems|
    ensures Rotated(elems, cursor)[i] == elems[if cursor + i < |elems| then cursor + i else cursor + i - |elems|]
  {
  }

  lemma RotatedRemove<T>(elems: seq<T>, cursor: nat, k: nat)
    requires Distinct(elems) && cursor < |elems| && k < |elems|
    ensures CursorWithout(|elems|, cursor, k) <= |Without(elems, elems[k])|
    ensures Rotated(Without(elems, elems[k]), CursorWithout(|elems|, cursor, k))
            == Without(Rotated(elems, cursor), elems[k])
  {
    hide Rotated, Without;
    var n, x, r := |elems|, elems[k], Rotated(elems, cursor);
    var at := if k < cursor then n - cursor + k else k - cursor;
    RotatedLength(elems, cursor);
    RotatedAt(elems, cursor, at);
    forall i | 0 <= i < n && i != at
      ensures r[i] != x
    {
      RotatedAt(elems, cursor, i);
    }
    WithoutLength(elems, x);
    WithoutLength(r, x);
    var shorter, c := Without(elems, x), CursorWithout(n, cursor, k);
    RotatedLength(shorter, c);
    forall i | 0 <= i < n - 1
      ensures Rotated(shorter, c)[i] == Without(r, x)[i]
    {
      var i' := if i < at then i else i + 1;
      var m := if c + i < n - 1 then c + i else c + i - (n - 1);
      RotatedAt(shorter, c, i);
      RotatedAt(elems, cursor, i');
      WithoutIndex(r, x, at, i);
      WithoutIndex(elems, x, k, m);
    }
  }

  lemma RotatedLength<T>(elems: seq<T>, cursor: nat)
    requires cursor <= |elems|
    ensures |Rotated(elems, cursor)| == |elems|
  {
  }

  // ---- the ready queue and its cursor ----

  class Ring {
    const ready: Queue
    var schedNext: Node?
    ghost var cursor: nat

    ghost predicate Valid()
      reads this, ready, ready.elems
    {
      && ready.Valid() && schedNext == At(ready.elems, cursor)
      && cursor <= |ready.elems| && (ready.elems != [] ==> cursor < |ready.elems|)
    }

    /** The ready environments in the order in which they will run. */
    ghost function Rotation(): seq<Node>
      reads this, ready
    {
      if cursor <= |ready.elems| then Rotated(ready.elems, cursor) else []
    }

    constructor ()
      ensures Valid() && ready.elems == [] && fresh(ready)
    {
      ready := new Queue();
      schedNext, cursor := null, 0;
    }

    method NextCircular(env: Node?) returns (next: Node?)
      requires Valid() && (env != null ==> env in ready.elems)
      ensures env == null ==> next == null
      ensures forall k | 0 <= k < |ready.elems| && env == ready.elems[k] ::
                next == ready.elems[if k + 1 == |ready.elems| then 0 else k + 1]
    {
      if env == null {
        return null;
      }
      ghost var k :| 0 <= k < |ready.elems| && ready.elems[k] == env;
      assert Linked(ready.elems, k);
      next := env.next;
      if next == null {
        next := ready.first;
      }
    }

    /** The head of the rotation goes to its back; the next environment is unknown only when none is ready. */
    method Turn() returns (env: Node?)
      requires Valid()
      modifies this
      ensures Valid() && Rotation() == Turned(old(Rotation())) && env == At(old(Rotation()), 0)
      ensures env == null <==> ready.elems == []
    {
      hide Queue.Valid, Rotated;
      env := schedNext;
      assert ready.elems == [] ==> Rotated(ready.elems, 0) == [] by {
        RotatedConcat<Node>([], []);
      }
      schedNext := NextCircular(schedNext);
      if ready.elems != [] {
        RotatedTurn(ready.elems, cursor);
        cursor := if cursor + 1 == |ready.elems| then 0 else cursor + 1;
      }
    }

    /** A new environment is linked in before the next one to run: it runs last. */
    method Insert(env: Node)
      requires Valid() && env !in ready.elems
      modifies this, ready, ready.elems`next, ready.elems`prev, env`next, env`prev
      ensures Valid() && Rotation() == old(Rotation()) + [env]
      ensures forall x :: x in ready.elems <==> x in old(ready.elems) || x == env
    {
      hide Queue.Valid;
      ghost var was := ready.elems;
      if schedNext != null {
        RotatedInsert(was, cursor, env);
        ready.InsertBefore(schedNext, env, cursor);
        cursor := cursor + 1;
        assert was == was[..cursor - 1] + was[cursor - 1..];
      } else {
        assert was == [];
        ready.InsertTail(env);
        schedNext := env;
      }
    }

    method Remove(env: Node)
      requires Valid() && env in ready.elems
      modifies this, ready, ready.elems`next, ready.elems`prev
      ensures Valid() && Rotation() == Without(old(Rotation()), env) && ready.elems == Without(old(ready.elems), env)
      ensures forall x :: x in ready.elems <==> x in old(ready.elems) && x != env
    {
      hide Queue.Valid, Distinct, Without, Rotated;
      ready.ElementsDistinct();
      ghost var k :| 0 <= k < |ready.elems| && ready.elems[k] == env;
      RotatedRemove(ready.elems, cursor, k);
      WithoutAt(ready.elems, k);
      if env == schedNext {
        schedNext := NextCircular(env);
        if schedNext == env {
          schedNext := null;
        }
      }
      cursor := CursorWithout(|ready.elems|, cursor, k);
      ready.Remove(env);
    }
  }

  // ---- the scheduler ----

  predicate Disjoint<T(==)>(s: seq<T>, t: seq<T>) {
    forall x | x in s :: x !in t
  }

  ghost predicate AllAre(s: seq<Node>, status: Status)
    reads s
  {
    forall x | x in s :: x.status == status
  }

  class Scheduler {
    const ring: Ring
    const created: Queue
    const exited: Queue
    var current: Node?
    var started: bool

    ghost predicate Valid()
      reads this, ring, ring.ready, created, exited, ring.ready.elems, created.elems, exited.elems
    {
      && ring.ready != created && ring.ready != exited && created != exited
      && ring.Valid() && created.Valid() && exited.Valid()
      && Disjoint(ring.ready.elems, created.elems) && Disjoint(ring.ready.elems, exited.elems)
      && Disjoint(created.elems, exited.elems)
      && AllAre(ring.ready.elems, READY) && AllAre(created.elems, NEW) && AllAre(exited.elems, EXIT)
    }

    ghost predicate Queued(env: Node)
      reads this, ring.ready, created, exited
    {
      env in ring.ready.elems || env in created.elems || env in exited.elems
    }

    constructor ()
      ensures Valid() && ring.ready.elems == created.elems == exited.elems == []
      ensures fresh(ring) && fresh(ring.ready) && fresh(created) && fresh(exited)
      ensures !started && current == null
    {
      ring := new Ring();
      created := new Queue();
      exited := new Queue();
      current, started := null, false;
    }

    /** One call of the scheduler. */
    method Dispatch() returns (env: Node?)
      requires Valid()
      modifies this, ring
      ensures Valid() && ring.Rotation() == Turned(old(ring.Rotation())) && env == At(old(ring.Rotation()), 0)
      ensures current == env && started == (env != null) && (env == null <==> ring.ready.elems == [])
    {
      hide Ring.Valid, Queue.Valid, Disjoint, AllAre;
      started := true;
      env := ring.Turn();
      if env != null {
        current := env;
      } else {
        current := null;
        started := false;
      }
    }

    method InsertReady(env: Node)
      requires Valid() && !Queued(env)
      modifies ring, ring.ready, ring.ready.elems`next, ring.ready.elems`prev, env
      ensures Valid() && ring.Rotation() == old(ring.Rotation()) + [env]
      ensures forall x :: x in ring.ready.elems <==> x in old(ring.ready.elems) || x == env
    {
      hide Ring.Valid, Queue.Valid;
      env.status := READY;
      label L:
      ring.Insert(env);
      assert forall x | x in created.elems || x in exited.elems ::
          x.next == old@L(x.next) && x.prev == old@L(x.prev) && x.status == old@L(x.status);
    }

    method RemoveReady(env: Node)
      requires Valid() && env in ring.ready.elems
      modifies ring, ring.ready, ring.ready.elems
      ensures Valid() && !Queued(env) && env.status == UNKNOWN
      ensures ring.Rotation() == Without(old(ring.Rotation()), env)
      ensures forall x :: x in ring.ready.elems <==> x in old(ring.ready.elems) && x != env
    {
      hide Ring.Valid, Queue.Valid;
      ring.Remove(env);
      env.status := UNKNOWN;
      assert forall x | x in created.elems || x in exited.elems ::
          x.next == old(x.next) && x.prev == old(x.prev) && x.status == old(x.status);
    }

    method InsertNew(env: Node)
      requires Valid() && !Queued(env)
      modifies created, created.elems`next, created.elems`prev, env
      ensures Valid() && created.elems == old(created.elems) + [env]
    {
      hide Ring.Valid, Queue.Valid;
      env.status := NEW;
      label L:
      created.InsertTail(env);
      assert forall x | x in ring.ready.elems || x in exited.elems ::
          x.next == old@L(x.next) && x.prev == old@L(x.prev) && x.status == old@L(x.status);
    }

    method RemoveNew(env: Node)
      requires Valid() && env in created.elems
      modifies created, created.elems
      ensures Valid() && !Queued(env) && env.status == UNKNOWN
      ensures created.elems == Without(old(created.elems), env)
    {
      hide Ring.Valid, Queue.Valid;
      created.Remove(env);
      env.status := UNKNOWN;
      assert forall x | x in ring.ready.elems || x in exited.elems ::
          x.next == old(x.next) && x.prev == old(x.prev) && x.status == old(x.status);
    }

    method InsertExit(env: Node)
      requires Valid() && !Queued(env)
      modifies exited, exited.elems`next, exited.elems`prev, env
      ensures Valid() && exited.elems == old(exited.elems) + [env]
    {
      hide Ring.Valid, Queue.Valid;
      env.status := EXIT;
      label L:
      exited.InsertTail(env);
      assert forall x | x in ring.ready.elems || x in created.elems ::
          x.next == old@L(x.next) && x.prev == old@L(x.prev) && x.status == old@L(x.status);
    }

    method RemoveExit(env: Node)
      requires Valid() && env in exited.elems
      modifies exited, exited.elems
      ensures Valid() && !Queued(env) && env.status == UNKNOWN
      ensures exited.elems == Without(old(exited.elems), env)
    {
      hide Ring.Valid, Queue.Valid;
      exited.Remove(env);
      env.status := UNKNOWN;
      assert forall x | x in ring.ready.elems || x in created.elems ::
          x.next == old(x.next) && x.prev == old(x.prev) && x.status == old(x.status);
    }

    method MakeReady(env: Node)
      requires Valid() && env in created.elems
      modifies ring, ring.ready, created, ring.ready.elems, created.elems
      ensures Valid() && created.elems == Without(old(created.elems), env)
      ensures ring.Rotation() == old(ring.Rotation()) + [env]
      ensures forall x :: x in ring.ready.elems <==> x in old(ring.ready.elems) || x == env
    {
      hide Valid, Ring.Valid, Queue.Valid, Ring.Rotation, Without;
      QueuesApart();
      RemoveNew(env);
      InsertReady(env);
    }

    lemma RotationMembers()
      requires Valid()
      ensures forall x :: x in ring.Rotation() <==> x in ring.ready.elems
    {
      assert ring.ready.elems == ring.ready.elems[..ring.cursor] + ring.ready.elems[ring.cursor..];
    }

    lemma QueuesApart()
      requires Valid()
      ensures ring.ready != created && ring.ready != exited && created != exited
    {
    }

    lemma NewElements()
      requires Valid()
      ensures Distinct(created.elems) && created.first == At(created.elems, 0)
    {
      created.ElementsDistinct();
    }

    /** Every new environment becomes ready, in order; the loop saves the next element before its body
        unlinks the current one. A stopped scheduler is then called. */
    method RunAll() returns (env: Node?)
      requires Valid()
      modifies this, ring, ring.ready, created, ring.ready.elems, created.elems
      ensures Valid() && created.elems == []
      ensures var r := old(ring.Rotation()) + old(created.elems);
              if old(started) then ring.Rotation() == r && env == null && current == old(current)
              else ring.Rotation() == Turned(r) && env == At(r, 0) && current == env
    {
      hide Valid, Ring.Valid, Queue.Valid, Distinct, Rotated, Ring.Rotation, Without;
      NewElements();
      QueuesApart();
      ghost var all := created.elems;
      ghost var k := 0;
      var at := created.first;
      var saved := NextOf(at);
      while saved != null || at != null
        invariant Valid() && k <= |all| && created.elems == all[k..]
        invariant at == At(all, k) && saved == At(all, k + 1)
        invariant ring.Rotation() == old(ring.Rotation()) + all[..k]
        invariant forall x | x in ring.ready.elems :: x in old(ring.ready.elems) || x in all
        invariant started == old(started) && current == old(current)
        decreases |all| - k
      {
        DropFirst(all, k);
        assert forall i | 0 <= i < |ring.ready.elems| ::
            ring.ready.elems[i] in old(ring.ready.elems) || ring.ready.elems[i] in all;
        MakeReady(at);
        assert all[..k + 1] == all[..k] + [at];
        k := k + 1;
        at := saved;
        saved := NextOf(at);
      }
      env := null;
      if !started {
        env := Dispatch();
      }
    }

    method NextOf(env: Node?) returns (next: Node?)
      requires Valid() && (env != null ==> env in created.elems)
      ensures env == null ==> next == null
      ensures forall k | 0 <= k < |created.elems| && env == created.elems[k] :: next == At(created.elems, k + 1)
    {
      if env == null {
        return null;
      }
      ghost var k :| 0 <= k < |created.elems| && created.elems[k] == env;
      assert Linked(created.elems, k);
      next := env.next;
    }

    /** The ready environment leaves the rotation for the exit queue; when it is the running one, the
        scheduler is called at once. */
    method ExitReady(env: Node) returns (next: Node?)
      requires Valid() && env in ring.ready.elems && current != null
      modifies this, ring, ring.ready, exited, ring.ready.elems, exited.elems`next, exited.elems`prev
      ensures Valid() && exited.elems == old(exited.elems) + [env]
      ensures var r := Without(old(ring.Rotation()), env);
              if old(current) == env then ring.Rotation() == Turned(r) && next == At(r, 0) && current == next
              else ring.Rotation() == r && next == null && current == old(current)
    {
      hide Valid, Ring.Valid, Queue.Valid, Ring.Rotation, Without;
      QueuesApart();
      RemoveReady(env);
      InsertExit(env);
      next := null;
      if current == env {
        next := Dispatch();
      }
    }
  }

  predicate Admissible<T(==)>(r: seq<T>, events: seq<Event<T>>)
    decreases events
  {
    if events == [] then true
    else
      && (events[0].Arrive? ==> events[0].env !in r) && (events[0].Leave? ==> events[0].env in r)
      && Admissible(After(r, events[0]), events[1..])
  }

  /** One event on the linked list and cursor is one event on the rotation. */
  method RunEvent(s: Scheduler, e: Event<Node>, ghost pool: set<Node>) returns (ran: seq<Node>)
    requires s.Valid() && Admissible(s.ring.Rotation(), [e])
    requires forall x | x in s.ring.ready.elems :: x in pool
    requires !e.Dispatch? ==> e.env in pool
    requires forall x | x in pool :: x !in s.created.elems && x !in s.exited.elems
    modifies s, s.ring, s.ring.ready, pool
    ensures s.Valid() && s.ring.Rotation() == After(old(s.ring.Rotation()), e)
    ensures s.created.elems == old(s.created.elems) && s.exited.elems == old(s.exited.elems)
    ensures forall x | x in s.ring.ready.elems :: x in pool
    ensures ran == Dispatched(old(s.ring.Rotation()), [e])
  {
    hide Scheduler.Valid, Ring.Valid, Queue.Valid, Ring.Rotation, Without;
    s.QueuesApart();
    s.RotationMembers();
    ran := [];
    match e {
      case Arrive(x) => s.InsertReady(x);
      case Leave(x) => s.RemoveReady(x);
      case Dispatch =>
        var env := s.Dispatch();
        if env != null {
          ran := [env];
        }
    }
  }

  /** The linked list and its cursor run any events as the rotation does. */
  method RunEvents(s: Scheduler, events: seq<Event<Node>>, ghost pool: set<Node>) returns (ran: seq<Node>)
    requires s.Valid() && Admissible(s.ring.Rotation(), events)
    requires forall x | x in s.ring.ready.elems :: x in pool
    requires forall e | e in events && !e.Dispatch? :: e.env in pool
    requires forall x | x in pool :: x !in s.created.elems && x !in s.exited.elems
    modifies s, s.ring, s.ring.ready, pool
    ensures s.Valid() && s.ring.Rotation() == Final(old(s.ring.Rotation()), events)
    ensures ran == Dispatched(old(s.ring.Rotation()), events)
    decreases events
  {
    hide Scheduler.Valid, Ring.Valid, Queue.Valid, Ring.Rotation, After;
    if events == [] {
      return [];
    }
    ran := RunEvent(s, events[0], pool);
    var rest := RunEvents(s, events[1..], pool);
    ran := ran + rest;
  }
}
