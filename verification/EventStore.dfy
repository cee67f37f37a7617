/**
  * The tables of src/lib/base/EventQueue.cpp and what they stand for. Events wait
  * in a table under recycled ids and only the ids travel through the buffer; the
  * lemmas say what each operation does to the sequence of events still to come.
  */
module EventStore {
  import opened Options

  datatype Flags = Flags(deliverImmediately: bool, dontFreeData: bool)

  /** Targets and data are addresses; 0 is the null pointer. */
  datatype Event = Event(kind: nat, target: nat, data: nat, dataObject: nat, flags: Flags)

  const K_UNKNOWN := 0
  const K_QUIT := 1
  const K_SYSTEM := 2
  const K_TIMER := 3

  const NO_EVENT := Event(K_UNKNOWN, 0, 0, 0, Flags(false, false))

  function Address(a: nat): multiset<nat> {
    if a == 0 then multiset{} else multiset{a}
  }

  /** The addresses `Event::deleteData` releases. */
  function Released(e: Event): multiset<nat> {
    if e.kind in {K_UNKNOWN, K_QUIT, K_SYSTEM, K_TIMER} || e.flags.dontFreeData then multiset{}
    else Address(e.data) + Address(e.dataObject)
  }

  function ReleasedAll(es: seq<Event>): multiset<nat> {
    if es == [] then multiset{} else Released(es[0]) + ReleasedAll(es[1..])
  }

  // ----------------------------------------------------------- table and buffer

  /** `ids` are those in the buffer, oldest first; `fetched` has left the buffer
    * but its event has not been taken from the table yet. */
  datatype Queue = Queue(events: map<nat, Event>, oldIds: seq<nat>, ids: seq<nat>, fetched: Option<nat>)

  const EMPTY := Queue(map[], [], [], None)

  function NewId(q: Queue): nat {
    if q.oldIds != [] then q.oldIds[|q.oldIds| - 1] else |q.events|
  }

  /** `saveEvent`, with `NewId` as the id it returns. */
  function Save(q: Queue, e: Event): Queue {
    q.(events := q.events[NewId(q) := e], oldIds := if q.oldIds != [] then q.oldIds[..|q.oldIds| - 1] else [])
  }

  function Lookup(events: map<nat, Event>, id: nat): Event {
    if id in events then events[id] else NO_EVENT
  }

  /** `removeEvent`, which returns `Lookup(q.events, id)`. */
  function Remove(q: Queue, id: nat): Queue {
    if id in q.events then q.(events := q.events - {id}, oldIds := q.oldIds + [id]) else q
  }

  /** `addEventToBuffer`; `accepted` is the answer of the buffer. */
  function Post(q: Queue, e: Event, accepted: bool): Queue {
    var id := NewId(q);
    var saved := Save(q, e);
    if accepted then saved.(ids := saved.ids + [id]) else Remove(saved, id)
  }

  function Fetch(q: Queue): Queue
    requires q.ids != []
  {
    q.(ids := q.ids[1..], fetched := Some(q.ids[0]))
  }

  function Take(q: Queue): Queue
    requires q.fetched.Some?
  {
    Remove(q, q.fetched.value).(fetched := None)
  }

  /** `adoptBuffer`: the table, the free list and the old buffer go. */
  function Adopt(q: Queue): Queue {
    q.(events := map[], oldIds := [], ids := [])
  }

  /** The ids with an event to come, in delivery order. */
  function Order(q: Queue): seq<nat> {
    (if q.fetched.Some? then [q.fetched.value] else []) + q.ids
  }

  function LookupAll(events: map<nat, Event>, ids: seq<nat>): (es: seq<Event>)
    ensures |es| == |ids|
  {
    if ids == [] then [] else [Lookup(events, ids[0])] + LookupAll(events, ids[1..])
  }

  /** What the queue stands for: the accepted, undelivered events in order. */
  function Contents(q: Queue): (es: seq<Event>) {
    LookupAll(q.events, Order(q))
  }

  ghost predicate Distinct(s: seq<nat>) {
    forall i, j :: 0 <= i < j < |s| ==> s[i] != s[j]
  }

  /** The id allocator: ids in use and free ids are distinct and together 0..k-1. */
  ghost predicate Allocated(q: Queue) {
    && Distinct(q.oldIds)
    && (forall id :: id in q.oldIds ==> id !in q.events)
    && (forall id :: 0 <= id < |q.events| + |q.oldIds| <==> id in q.events || id in q.oldIds)
  }

  /** Every id on its way has an event, once, and every event has an id on its way. */
  ghost predicate Linked(events: map<nat, Event>, order: seq<nat>) {
    && Distinct(order)
    && (forall id :: id in events <==> id in order)
  }

  ghost predicate WellFormed(q: Queue) {
    Allocated(q) && Linked(q.events, Order(q))
  }

  // -------------------------------------------------- one operation at a time

  /** What is released of one event, address by address: nothing of the four built-in kinds and
    * nothing that its sender keeps, and otherwise its data and its data object unless null. */
  lemma ReleasedOf(e: Event, a: nat)
    ensures Released(e)[a] ==
      if e.kind in {0, 1, 2, 3} || e.flags.dontFreeData || a == 0 then 0
      else (if e.data == a then 1 else 0) + (if e.dataObject == a then 1 else 0)
  {
  }

  /** The id given back last is the next to be given out; without one to reuse it is the number
    * of events. */
  lemma IdsAreRecycledLastFirst(q: Queue, id: nat, e: Event)
    ensures id in q.events ==> NewId(Remove(q, id)) == id
    ensures q.oldIds == [] ==> NewId(q) == |q.events|
    ensures Save(q, e).events == q.events[NewId(q) := e]
    ensures id in q.events ==>
      Save(Remove(q, id), e).oldIds == q.oldIds && Save(Remove(q, id), e).events == q.events[id := e]
  {
    if id in q.events {
      assert (q.events - {id})[id := e] == q.events[id := e];
    }
  }

  /** An id handed out by `saveEvent` is never the id of a live event. */
  lemma NewIdIsFree(q: Queue)
    requires Allocated(q)
    ensures NewId(q) !in q.events
  {
  }

  lemma SaveKeeps(q: Queue, e: Event)
    requires Allocated(q)
    ensures Allocated(Save(q, e))
    ensures |Save(q, e).events| == |q.events| + 1
  {
    hide Allocated, Save, NewId;
    if q.oldIds == [] {
      NewIdKeeps(q, e);
    } else {
      OldIdKeeps(q, e);
    }
  }

  lemma NewIdKeeps(q: Queue, e: Event)
    requires Allocated(q) && q.oldIds == []
    ensures Allocated(Save(q, e)) && |Save(q, e).events| == |q.events| + 1
  {
    assert Save(q, e).events.Keys == q.events.Keys + {|q.events|};
  }

  lemma OldIdKeeps(q: Queue, e: Event)
    requires Allocated(q) && q.oldIds != []
    ensures Allocated(Save(q, e)) && |Save(q, e).events| == |q.events| + 1
  {
    hide Distinct;
    var id, rest := q.oldIds[|q.oldIds| - 1], q.oldIds[..|q.oldIds| - 1];
    assert q.oldIds == rest + [id];
    LastIsAlone(rest, id);
    var r := Save(q, e);
    assert r.events.Keys == q.events.Keys + {id};
    assert |r.events| + |r.oldIds| == |q.events| + |q.oldIds|;
    forall x | x in r.events || x in r.oldIds ensures 0 <= x < |r.events| + |r.oldIds| {
      assert x in q.events || x in q.oldIds;
    }
    forall x | 0 <= x < |r.events| + |r.oldIds| ensures x in r.events || x in r.oldIds {
      assert x in q.events || x in q.oldIds;
    }
  }

  lemma LastIsAlone(s: seq<nat>, x: nat)
    requires Distinct(s + [x])
    ensures Distinct(s) && x !in s && forall y :: y in s + [x] <==> y in s || y == x
  {
    var t := s + [x];
    assert forall i :: 0 <= i < |s| ==> t[i] == s[i];
    assert t[|s|] == x;
  }

  lemma RemoveKeeps(q: Queue, id: nat)
    requires Allocated(q)
    ensures Allocated(Remove(q, id))
  {
    if id in q.events {
      var r := Remove(q, id);
      assert q.events.Keys == r.events.Keys + {id};
    }
  }

  lemma {:induction false} LookupAllFrame(events: map<nat, Event>, events': map<nat, Event>, ids: seq<nat>)
    requires forall id :: id in ids ==> Lookup(events, id) == Lookup(events', id)
    ensures LookupAll(events, ids) == LookupAll(events', ids)
  {
    if ids != [] {
      LookupAllFrame(events, events', ids[1..]);
    }
  }

  lemma LookupAllCons(events: map<nat, Event>, id: nat, ids: seq<nat>)
    ensures LookupAll(events, [id] + ids) == [Lookup(events, id)] + LookupAll(events, ids)
  {
  }

  lemma {:induction false} LookupAllAppend(events: map<nat, Event>, ids: seq<nat>, id: nat)
    ensures LookupAll(events, ids + [id]) == LookupAll(events, ids) + [Lookup(events, id)]
  {
    if ids == [] {
      assert ids + [id] == [id];
    } else {
      LookupAllAppend(events, ids[1..], id);
      assert (ids + [id])[1..] == ids[1..] + [id];
    }
  }

  lemma PostKeepsAllocated(q: Queue, e: Event, accepted: bool)
    requires Allocated(q)
    ensures Allocated(Post(q, e, accepted))
  {
    hide Allocated, Save, Remove;
    SaveKeeps(q, e);
    RemoveKeeps(Save(q, e), NewId(q));
    if accepted {
      AllocatedIgnoresBuffer(Save(q, e), Post(q, e, accepted));
    }
  }

  lemma AllocatedIgnoresBuffer(q: Queue, r: Queue)
    requires r.events == q.events && r.oldIds == q.oldIds
    ensures Allocated(q) <==> Allocated(r)
  {
  }

  lemma LinkLast(events: map<nat, Event>, order: seq<nat>, id: nat, e: Event)
    requires Linked(events, order) && id !in events
    ensures Linked(events[id := e], order + [id])
    ensures LookupAll(events[id := e], order + [id]) == LookupAll(events, order) + [e]
  {
    hide LookupAll;
    LookupAllFrame(events, events[id := e], order);
    LookupAllAppend(events[id := e], order, id);
  }

  lemma FirstIsAlone(x: nat, s: seq<nat>)
    requires Distinct([x] + s)
    ensures Distinct(s) && x !in s && forall y :: y in [x] + s <==> y == x || y in s
  {
    var t := [x] + s;
    assert forall i :: 0 <= i < |s| ==> t[i + 1] == s[i];
    assert t[0] == x;
  }

  lemma UnlinkFirst(events: map<nat, Event>, id: nat, order: seq<nat>)
    requires Linked(events, [id] + order)
    ensures id in events && Linked(events - {id}, order)
    ensures LookupAll(events, [id] + order) == [events[id]] + LookupAll(events - {id}, order)
  {
    hide LookupAll;
    LookupAllCons(events, id, order);
    FirstIsAlone(id, order);
    LookupAllFrame(events, events - {id}, order);
  }

  /** Posting appends to the FIFO, or leaves it alone when the buffer refuses. */
  lemma PostAppends(q: Queue, e: Event, accepted: bool)
    requires WellFormed(q)
    ensures WellFormed(Post(q, e, accepted))
    ensures Contents(Post(q, e, accepted)) == Contents(q) + if accepted then [e] else []
  {
    hide Allocated, Linked, LookupAll;
    PostKeepsAllocated(q, e, accepted);
    NewIdIsFree(q);
    if accepted {
      LinkLast(q.events, Order(q), NewId(q), e);
      assert Order(Post(q, e, true)) == Order(q) + [NewId(q)];
    } else {
      assert Post(q, e, false).events == q.events;
    }
  }

  /** Fetching an id changes nothing yet. */
  lemma FetchKeeps(q: Queue)
    requires WellFormed(q) && q.fetched.None? && q.ids != []
    ensures WellFormed(Fetch(q)) && Contents(Fetch(q)) == Contents(q)
  {
    assert Order(Fetch(q)) == Order(q);
  }

  lemma TakeKeepsAllocated(q: Queue)
    requires Allocated(q) && q.fetched.Some?
    ensures Allocated(Take(q))
  {
    hide Allocated, Remove;
    RemoveKeeps(q, q.fetched.value);
    AllocatedIgnoresBuffer(Remove(q, q.fetched.value), Take(q));
  }

  /** The fetched id is found in the table, its event is the oldest, and it alone leaves. */
  lemma TakePops(q: Queue)
    requires WellFormed(q) && q.fetched.Some?
    ensures q.fetched.value in q.events && WellFormed(Take(q))
    ensures Contents(q) == [q.events[q.fetched.value]] + Contents(Take(q))
  {
    hide Allocated, Linked, LookupAll;
    TakeKeepsAllocated(q);
    UnlinkFirst(q.events, q.fetched.value, q.ids);
    assert Order(Take(q)) == q.ids;
  }

  /** Which events of a table hold an address that is theirs to release. */
  ghost function DataHolders(events: map<nat, Event>, a: nat): set<nat> {
    set id | id in events && events[id].kind !in {0, 1, 2, 3} && !events[id].flags.dontFreeData && events[id].data == a
  }

  ghost function ObjectHolders(events: map<nat, Event>, a: nat): set<nat> {
    set id | id in events && events[id].kind !in {0, 1, 2, 3} && !events[id].flags.dontFreeData
      && events[id].dataObject == a
  }

  lemma HoldersAre(events: map<nat, Event>, a: nat, id: nat)
    ensures id in DataHolders(events, a) <==>
      id in events && events[id].kind > 3 && !events[id].flags.dontFreeData && events[id].data == a
    ensures id in ObjectHolders(events, a) <==>
      id in events && events[id].kind > 3 && !events[id].flags.dontFreeData && events[id].dataObject == a
  {
  }

  lemma DataHoldersStep(events: map<nat, Event>, id: nat, a: nat)
    requires id in events
    ensures |DataHolders(events, a)| ==
      |DataHolders(events - {id}, a)| + if id in DataHolders(events, a) then 1 else 0
  {
    assert DataHolders(events - {id}, a) == DataHolders(events, a) - {id};
  }

  lemma ObjectHoldersStep(events: map<nat, Event>, id: nat, a: nat)
    requires id in events
    ensures |ObjectHolders(events, a)| ==
      |ObjectHolders(events - {id}, a)| + if id in ObjectHolders(events, a) then 1 else 0
  {
    assert ObjectHolders(events - {id}, a) == ObjectHolders(events, a) - {id};
  }

  lemma HoldersStep(events: map<nat, Event>, id: nat, a: nat)
    requires id in events
    ensures a != 0 ==>
      |DataHolders(events, a)| + |ObjectHolders(events, a)| ==
        |DataHolders(events - {id}, a)| + |ObjectHolders(events - {id}, a)| + Released(events[id])[a]
  {
    hide Released, DataHolders, ObjectHolders;
    ReleasedOf(events[id], a);
    HoldersAre(events, a, id);
    DataHoldersStep(events, id, a);
    ObjectHoldersStep(events, id, a);
  }

  /** Releasing all that a table holds, address by address. */
  lemma {:induction false} ReleasedOfTable(events: map<nat, Event>, order: seq<nat>, a: nat)
    requires Linked(events, order)
    ensures ReleasedAll(LookupAll(events, order))[a] ==
      if a == 0 then 0 else |DataHolders(events, a)| + |ObjectHolders(events, a)|
    decreases |order|
  {
    hide Released, Linked;
    if order == [] {
      NothingHeld(events, a);
    } else {
      var id, rest := order[0], order[1..];
      assert order == [id] + rest;
      UnlinkFirst(events, id, rest);
      ReleasedOfTable(events - {id}, rest, a);
      HoldersStep(events, id, a);
      ReleasedOf(events[id], a);
      assert ([events[id]] + LookupAll(events - {id}, rest))[1..] == LookupAll(events - {id}, rest);
    }
  }

  lemma NothingHeld(events: map<nat, Event>, a: nat)
    requires Linked(events, [])
    ensures DataHolders(events, a) == {} && ObjectHolders(events, a) == {}
  {
  }
}
