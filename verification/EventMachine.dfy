/**
  * Runs of the event queue as a state machine over atomic steps: each locked
  * section is one step, so runs cover every interleaving of the threads that add
  * events with the one thread that gets and dispatches them, and handlers that
  * add events or change the buffer while an event is being dispatched.
  */
module EventMachine {
  import opened Options
  import opened EventStore

  /** `running` holds the events being dispatched, the latest first. `given`, `posted` and
    * `delivered` record the run: addresses handed over to the queue, events accepted by
    * the present buffer, and those among them taken out again. */
  datatype World = World(
    queue: Queue, ready: bool, pending: seq<Event>, running: seq<Event>, freed: multiset<nat>,
    given: multiset<nat>, posted: seq<Event>, delivered: seq<Event>)

  const INITIAL := World(EMPTY, false, [], [], multiset{}, multiset{}, [], [])

  datatype Step =
    | AddEvent(event: Event, accepted: bool)  // by any thread, inside or outside a handler
    | MakeReady                               // loop(): the ready flag is set ...
    | DrainPending(accepted: bool)            // ... and then one parked event is moved
    | FetchId                                 // getEvent(): an id leaves the buffer ...
    | TakeEvent                               // ... and then its event leaves the table
    | FireTimer(event: Event)                 // getEvent(): a timer event instead
    | Dispatched(which: nat)                  // a handler has returned, deleteData follows
    | AdoptBuffer

  predicate Bogus(e: Event) {
    e.kind in {K_UNKNOWN, K_SYSTEM, K_TIMER}
  }

  /** What the single consumer and the program order of `loop` allow. */
  predicate Enabled(w: World, step: Step) {
    match step
    case AddEvent(_, _) => true
    case MakeReady => !w.ready
    case DrainPending(_) => w.ready && w.pending != []
    case FetchId => w.queue.ids != [] && w.queue.fetched.None?
    case TakeEvent => w.queue.fetched.Some?
    case FireTimer(e) => e.kind == K_TIMER
    case Dispatched(which) => which < |w.running|
    case AdoptBuffer => w.queue.fetched.None?
  }

  function Posting(w: World, e: Event, accepted: bool): World {
    w.(queue := Post(w.queue, e, accepted),
       posted := w.posted + if accepted then [e] else [],
       freed := w.freed + if accepted then multiset{} else Released(e))
  }

  function Without(es: seq<Event>, i: nat): seq<Event>
    requires i < |es|
  {
    es[..i] + es[i + 1..]
  }

  function Next(w: World, step: Step): World
    requires Enabled(w, step)
  {
    match step
    case AddEvent(e, accepted) =>
      if Bogus(e) then w
      else
        var g := w.(given := w.given + Released(e));
        if e.flags.deliverImmediately then g.(running := [e] + g.running)
        else if !g.ready then g.(pending := g.pending + [e])
        else Posting(g, e, accepted)
    case MakeReady => w.(ready := true)
    case DrainPending(accepted) => Posting(w, w.pending[0], accepted).(pending := w.pending[1..])
    case FetchId => w.(queue := Fetch(w.queue))
    case TakeEvent =>
      var e := Lookup(w.queue.events, w.queue.fetched.value);
      w.(queue := Take(w.queue), running := [e] + w.running, delivered := w.delivered + [e])
    case FireTimer(e) => w.(running := [e] + w.running)
    case Dispatched(which) =>
      w.(running := Without(w.running, which), freed := w.freed + Released(w.running[which]))
    case AdoptBuffer =>
      w.(queue := Adopt(w.queue), freed := w.freed + ReleasedAll(Contents(w.queue)), posted := w.delivered)
  }

  // ------------------------------------------------- the steps, one outcome at a time

  /** Where an added event goes. Events of kind kUnknown, kSystem and kTimer, which are 0, 2 and
    * 3, change nothing. */
  lemma AddEventOutcome(w: World, e: Event, accepted: bool)
    ensures var n := Next(w, AddEvent(e, accepted));
      && (e.kind in {0, 2, 3} ==> n == w)
      && (e.kind !in {0, 2, 3} && e.flags.deliverImmediately ==>
           n == w.(given := n.given, running := [e] + w.running))
      && (e.kind !in {0, 2, 3} && !e.flags.deliverImmediately && !w.ready ==>
           n == w.(given := n.given, pending := w.pending + [e]))
      && (e.kind !in {0, 2, 3} && !e.flags.deliverImmediately && w.ready ==>
           && n.pending == w.pending && n.running == w.running && n.delivered == w.delivered && n.ready
           && if accepted then
                && n.posted == w.posted + [e] && n.freed == w.freed
                && |n.queue.ids| == |w.queue.ids| + 1 && n.queue.ids[..|w.queue.ids|] == w.queue.ids
                && Lookup(n.queue.events, n.queue.ids[|w.queue.ids|]) == e
              else
                && n.posted == w.posted && n.queue.ids == w.queue.ids
                && forall a: nat ::
                     n.freed[a] == w.freed[a] +
                       (if e.kind == 1 || e.flags.dontFreeData || a == 0 then 0
                        else (if e.data == a then 1 else 0) + (if e.dataObject == a then 1 else 0)))
  {
    forall a: nat {
      ReleasedOf(e, a);
    }
  }

  /** What is released when a handler has returned, and that only its event leaves. */
  lemma DispatchedOutcome(w: World, which: nat)
    requires which < |w.running|
    ensures var n, e := Next(w, Dispatched(which)), w.running[which];
      && n == w.(running := w.running[..which] + w.running[which + 1..], freed := n.freed)
      && forall a: nat ::
           n.freed[a] == w.freed[a] +
             (if e.kind in {0, 1, 2, 3} || e.flags.dontFreeData || a == 0 then 0
              else (if e.data == a then 1 else 0) + (if e.dataObject == a then 1 else 0))
  {
    forall a: nat {
      ReleasedOf(w.running[which], a);
    }
  }

  /** The other steps: the loop gets ready, the first parked event is posted, the oldest id leaves
    * the buffer, its event leaves the table for its handler, and a timer event starts. */
  lemma StepOutcomes(w: World, accepted: bool, e: Event)
    ensures !w.ready ==> Next(w, MakeReady) == w.(ready := true)
    ensures w.ready && w.pending != [] ==>
      var n := Next(w, DrainPending(accepted));
      n.pending == w.pending[1..] && n.running == w.running
      && n.posted == w.posted + if accepted then [w.pending[0]] else []
    ensures w.queue.ids != [] && w.queue.fetched.None? ==>
      Next(w, FetchId) == w.(queue := w.queue.(ids := w.queue.ids[1..], fetched := Some(w.queue.ids[0])))
    ensures w.queue.fetched.Some? && w.queue.fetched.value in w.queue.events ==>
      var id := w.queue.fetched.value;
      var n := Next(w, TakeEvent);
      && n.running == [w.queue.events[id]] + w.running && n.delivered == w.delivered + [w.queue.events[id]]
      && n.queue.events == w.queue.events - {id} && n.queue.fetched == None && n.queue.ids == w.queue.ids
    ensures e.kind == 3 ==> Next(w, FireTimer(e)) == w.(running := [e] + w.running)
  {
  }

  predicate CanRun(w: World, steps: seq<Step>)
    decreases |steps|
  {
    steps == [] || (Enabled(w, steps[0]) && CanRun(Next(w, steps[0]), steps[1..]))
  }

  function Run(w: World, steps: seq<Step>): World
    requires CanRun(w, steps)
    decreases |steps|
  {
    if steps == [] then w else Run(Next(w, steps[0]), steps[1..])
  }

  // ------------------------------------------------------------------ invariant

  ghost predicate Fifo(w: World) {
    WellFormed(w.queue) && w.posted == w.delivered + Contents(w.queue)
  }

  /** All that was handed over is parked, in the table, being dispatched or freed. */
  ghost predicate Balanced(given: multiset<nat>, parked: multiset<nat>, stored: multiset<nat>, running: multiset<nat>,
                           freed: multiset<nat>)
  {
    given == parked + stored + running + freed
  }

  ghost predicate Conserved(w: World) {
    Balanced(w.given, ReleasedAll(w.pending), ReleasedAll(Contents(w.queue)), ReleasedAll(w.running), w.freed)
  }

  lemma {:induction false} ReleasedAllAppend(es: seq<Event>, e: Event)
    ensures ReleasedAll(es + [e]) == ReleasedAll(es) + Released(e)
    ensures ReleasedAll([e] + es) == Released(e) + ReleasedAll(es)
  {
    hide Released;
    assert ([e] + es)[1..] == es;
    if es == [] {
      assert es + [e] == [e] && [e][1..] == [];
    } else {
      ReleasedAllAppend(es[1..], e);
      assert (es + [e])[1..] == es[1..] + [e];
    }
  }

  lemma PostingConserves(w: World, e: Event, accepted: bool)
    requires Fifo(w)
    ensures var p := Posting(w, e, accepted);
      ReleasedAll(Contents(p.queue)) + p.freed == ReleasedAll(Contents(w.queue)) + w.freed + Released(e)
  {
    hide WellFormed, Released, Post, Contents, ReleasedAll;
    PostAppends(w.queue, e, accepted);
    ReleasedAllAppend(Contents(w.queue), e);
    assert Contents(w.queue) + [] == Contents(w.queue);
  }

  lemma PostingKeepsFifo(w: World, e: Event, accepted: bool)
    requires Fifo(w)
    ensures Fifo(Posting(w, e, accepted))
  {
    hide WellFormed, Released, Post, Contents;
    PostAppends(w.queue, e, accepted);
  }

  lemma NextKeepsFifo(w: World, step: Step)
    requires Fifo(w) && Enabled(w, step)
    ensures Fifo(Next(w, step))
  {
    hide Post, Take, Fetch, Adopt, Released, Contents, ReleasedAll, WellFormed;
    match step
    case AddEvent(e, accepted) =>
      PostingKeepsFifo(w.(given := w.given + Released(e)), e, accepted);
    case DrainPending(accepted) =>
      PostingKeepsFifo(w, w.pending[0], accepted);
    case FetchId =>
      FetchKeeps(w.queue);
    case TakeEvent =>
      TakePops(w.queue);
    case AdoptBuffer =>
      AdoptEmpties(w.queue);
    case _ =>
  }

  lemma AdoptEmpties(q: Queue)
    requires q.fetched.None?
    ensures WellFormed(Adopt(q)) && Contents(Adopt(q)) == []
  {
  }

  /** Addresses `x` come in, and are parked, run at once, or stored or freed. */
  lemma ComeIn(g: multiset<nat>, p: multiset<nat>, c: multiset<nat>, r: multiset<nat>, f: multiset<nat>,
               x: multiset<nat>)
    requires Balanced(g, p, c, r, f)
    ensures Balanced(g + x, p + x, c, r, f)
    ensures Balanced(g + x, p, c, x + r, f)
    ensures Balanced(g + x, x + p, c, r, f)
  {
  }

  /** Addresses `x` go on from one place to the next. */
  lemma MoveOn(g: multiset<nat>, p: multiset<nat>, c: multiset<nat>, r: multiset<nat>, f: multiset<nat>,
               x: multiset<nat>)
    ensures Balanced(g, p, x + c, r, f) ==> Balanced(g, p, c, x + r, f)
    ensures Balanced(g, p, c, x + r, f) ==> Balanced(g, p, c, r, f + x)
    ensures Balanced(g, p, x, r, f) ==> Balanced(g, p, multiset{}, r, f + x)
  {
  }

  /** Parked addresses `x` are stored or freed. */
  lemma MoveIn(g: multiset<nat>, p: multiset<nat>, c: multiset<nat>, r: multiset<nat>, f: multiset<nat>,
               x: multiset<nat>, c': multiset<nat>, f': multiset<nat>)
    requires Balanced(g, x + p, c, r, f) && c' + f' == c + f + x
    ensures Balanced(g, p, c', r, f')
  {
    assert p + c' + r + f' == p + r + (c' + f');
  }

  lemma {:induction false} ReleasedAllWithout(es: seq<Event>, i: nat)
    requires i < |es|
    ensures ReleasedAll(es) == Released(es[i]) + ReleasedAll(Without(es, i))
  {
    hide Released;
    if i == 0 {
      assert Without(es, 0) == es[1..];
    } else {
      ReleasedAllWithout(es[1..], i - 1);
      assert Without(es, i) == [es[0]] + Without(es[1..], i - 1);
      ReleasedAllAppend(Without(es[1..], i - 1), es[0]);
    }
  }

  lemma AddConserves(w: World, e: Event, accepted: bool)
    requires Fifo(w) && Conserved(w)
    ensures Conserved(Next(w, AddEvent(e, accepted)))
  {
    hide Fifo, Balanced, Posting, Released, Contents, ReleasedAll;
    var x := Released(e);
    var p, c, r := ReleasedAll(w.pending), ReleasedAll(Contents(w.queue)), ReleasedAll(w.running);
    ComeIn(w.given, p, c, r, w.freed, x);
    ReleasedAllAppend(w.pending, e);
    ReleasedAllAppend(w.running, e);
    if !Bogus(e) && !e.flags.deliverImmediately && w.ready {
      var g := w.(given := w.given + x);
      GivenIgnored(w, g);
      PostingConserves(g, e, accepted);
      PostingMovesIn(g, e, accepted, p);
    }
  }

  lemma GivenIgnored(w: World, g: World)
    requires g.queue == w.queue && g.posted == w.posted && g.delivered == w.delivered
    ensures Fifo(w) <==> Fifo(g)
  {
  }

  /** Posting an event whose data is still counted among the parked. */
  lemma PostingMovesIn(w: World, e: Event, accepted: bool, p: multiset<nat>)
    requires Fifo(w)
    requires Balanced(w.given, Released(e) + p, ReleasedAll(Contents(w.queue)), ReleasedAll(w.running), w.freed)
    ensures var w' := Posting(w, e, accepted);
      && Balanced(w'.given, p, ReleasedAll(Contents(w'.queue)), ReleasedAll(w'.running), w'.freed)
      && w'.pending == w.pending
  {
    hide Fifo, Balanced, Post, Released, Contents, ReleasedAll;
    var w' := Posting(w, e, accepted);
    PostingConserves(w, e, accepted);
    MoveIn(w.given, p, ReleasedAll(Contents(w.queue)), ReleasedAll(w.running), w.freed, Released(e),
           ReleasedAll(Contents(w'.queue)), w'.freed);
  }

  lemma DrainConserves(w: World, accepted: bool)
    requires Fifo(w) && Conserved(w) && w.ready && w.pending != []
    ensures Conserved(Next(w, DrainPending(accepted)))
  {
    hide Fifo, Balanced, Posting, Released, Contents, ReleasedAll;
    var e, rest := w.pending[0], w.pending[1..];
    assert w.pending == [e] + rest;
    ReleasedAllAppend(rest, e);
    PostingMovesIn(w, e, accepted, ReleasedAll(rest));
  }

  lemma TakeConserves(w: World)
    requires Fifo(w) && Conserved(w) && w.queue.fetched.Some?
    ensures Conserved(Next(w, TakeEvent))
  {
    hide Balanced, Released, Contents, ReleasedAll, WellFormed;
    TakePops(w.queue);
    var e, rest := Lookup(w.queue.events, w.queue.fetched.value), Contents(Take(w.queue));
    ReleasedAllAppend(rest, e);
    ReleasedAllAppend(w.running, e);
    MoveOn(w.given, ReleasedAll(w.pending), ReleasedAll(rest), ReleasedAll(w.running), w.freed, Released(e));
  }

  lemma TimerConserves(w: World, e: Event)
    requires Conserved(w) && e.kind == K_TIMER
    ensures Conserved(Next(w, FireTimer(e)))
  {
    hide Balanced, Contents, ReleasedAll, Released;
    ReleasedAllAppend(w.running, e);
    TimerReleasesNothing(e);
    assert multiset{} + ReleasedAll(w.running) == ReleasedAll(w.running);
  }

  lemma DispatchedConserves(w: World, which: nat)
    requires Conserved(w) && which < |w.running|
    ensures Conserved(Next(w, Dispatched(which)))
  {
    hide Balanced, Contents, ReleasedAll, Released, Without;
    ReleasedAllWithout(w.running, which);
    MoveOn(w.given, ReleasedAll(w.pending), ReleasedAll(Contents(w.queue)), ReleasedAll(Without(w.running, which)),
           w.freed, Released(w.running[which]));
  }

  lemma AdoptConserves(w: World)
    requires Conserved(w) && w.queue.fetched.None?
    ensures Conserved(Next(w, AdoptBuffer))
  {
    hide Balanced, Contents, ReleasedAll, Released, Adopt, WellFormed;
    AdoptEmpties(w.queue);
    NothingReleased();
    MoveOn(w.given, ReleasedAll(w.pending), multiset{}, ReleasedAll(w.running), w.freed,
           ReleasedAll(Contents(w.queue)));
  }

  lemma FetchConserves(w: World)
    requires Fifo(w) && Conserved(w) && Enabled(w, FetchId)
    ensures Conserved(Next(w, FetchId))
  {
    hide Balanced, Contents, ReleasedAll, WellFormed;
    FetchKeeps(w.queue);
  }

  lemma NextKeepsConserved(w: World, step: Step)
    requires Fifo(w) && Conserved(w) && Enabled(w, step)
    ensures Conserved(Next(w, step))
  {
    hide Fifo, Balanced, Contents, ReleasedAll;
    match step
    case AddEvent(e, accepted) => AddConserves(w, e, accepted);
    case MakeReady =>
    case DrainPending(accepted) => DrainConserves(w, accepted);
    case FetchId => FetchConserves(w);
    case TakeEvent => TakeConserves(w);
    case FireTimer(e) => TimerConserves(w, e);
    case Dispatched(which) => DispatchedConserves(w, which);
    case AdoptBuffer => AdoptConserves(w);
  }

  lemma TimerReleasesNothing(e: Event)
    requires e.kind == K_TIMER
    ensures Released(e) == multiset{}
  {
  }

  lemma NothingReleased()
    ensures ReleasedAll([]) == multiset{}
  {
  }

  /** Adopting a buffer releases, of each event in the table, what is its own to release, and
    * nothing else. */
  lemma AdoptOutcome(w: World, a: nat)
    requires Fifo(w) && w.queue.fetched.None?
    ensures var n, t := Next(w, AdoptBuffer), w.queue.events;
      && n.queue == Queue(map[], [], [], None) && n.pending == w.pending && n.running == w.running
      && n.posted == w.delivered && n.delivered == w.delivered
      && n.freed[a] == w.freed[a] +
           (if a == 0 then 0 else |DataHolders(t, a)| + |ObjectHolders(t, a)|)
  {
    hide ReleasedAll, LookupAll, Linked, Allocated;
    assert Order(w.queue) == w.queue.ids;
    ReleasedOfTable(w.queue.events, w.queue.ids, a);
  }

  lemma {:induction false} RunKeeps(w: World, steps: seq<Step>)
    requires Fifo(w) && Conserved(w) && CanRun(w, steps)
    ensures Fifo(Run(w, steps)) && Conserved(Run(w, steps))
    decreases |steps|
  {
    hide Fifo, Conserved, Next;
    if steps != [] {
      NextKeepsFifo(w, steps[0]);
      NextKeepsConserved(w, steps[0]);
      RunKeeps(Next(w, steps[0]), steps[1..]);
    }
  }

  /** In every run the events delivered are the first of the events accepted, in the same
    * order, what is still to come is the rest, every fetched id has its event, and the id
    * the next event would get is free. */
  lemma RunsAreFifo(steps: seq<Step>)
    requires CanRun(INITIAL, steps)
    ensures var w := Run(INITIAL, steps);
      && w.posted == w.delivered + Contents(w.queue)
      && (w.queue.fetched.Some? ==> w.queue.fetched.value in w.queue.events)
      && NewId(w.queue) !in w.queue.events
      && Allocated(w.queue)
  {
    InitialIsGood();
    RunKeeps(INITIAL, steps);
    var w := Run(INITIAL, steps);
    NewIdIsFree(w.queue);
    if w.queue.fetched.Some? {
      TakePops(w.queue);
    }
  }

  lemma InitialIsGood()
    ensures Fifo(INITIAL) && Conserved(INITIAL)
  {
  }

  /** In every run in which no address is handed over twice, each address handed over is at
    * any time in exactly one place (parked, in the table, being dispatched, released), so
    * it is released at most once; and nothing is released that was not handed over. */
  lemma RunsReleaseOnce(steps: seq<Step>, address: nat)
    requires CanRun(INITIAL, steps)
    requires Run(INITIAL, steps).given[address] <= 1
    ensures var w := Run(INITIAL, steps);
      ReleasedAll(w.pending)[address] + ReleasedAll(Contents(w.queue))[address] + ReleasedAll(w.running)[address]
        + w.freed[address] == w.given[address]
    ensures Run(INITIAL, steps).freed[address] <= 1
  {
    InitialIsGood();
    RunKeeps(INITIAL, steps);
  }

  // ------------------------------------------------ where the order is not kept

  /** An event added while parked ones wait for the drain overtakes them: the order of the
    * calls survives exactly when the parked events are all equal to it. */
  lemma OvertakesParked(w: World, e: Event)
    requires w.ready && !Bogus(e) && !e.flags.deliverImmediately
    ensures var w' := Next(w, AddEvent(e, true));
      w'.posted + w'.pending == (w.posted + w.pending) + [e] <==> forall i :: 0 <= i < |w.pending| ==> w.pending[i] == e
  {
    var w' := Next(w, AddEvent(e, true));
    var before, after := w.posted + w.pending + [e], w'.posted + w'.pending;
    assert after == w.posted + ([e] + w.pending) && before == w.posted + (w.pending + [e]);
    if before == after {
      assert after[|w.posted|..] == [e] + w.pending && before[|w.posted|..] == w.pending + [e];
      AllEqual(w.pending, e);
    } else {
      assert [e] + w.pending != w.pending + [e];
    }
  }

  lemma {:induction false} AllEqual(s: seq<Event>, e: Event)
    requires [e] + s == s + [e]
    ensures forall i :: 0 <= i < |s| ==> s[i] == e
  {
    if s != [] {
      assert e == ([e] + s)[0] == (s + [e])[0] == s[0];
      assert ([e] + s)[1..] == s == [e] + s[1..] && (s + [e])[1..] == s[1..] + [e];
      AllEqual(s[1..], e);
    }
  }

  /** Adopting a buffer keeps the queue sound exactly when no fetched id waits for its event. */
  lemma AdoptIsSafeIff(q: Queue)
    requires WellFormed(q)
    ensures WellFormed(Adopt(q)) <==> q.fetched.None?
  {
    if q.fetched.Some? {
      assert Order(Adopt(q))[0] in Order(Adopt(q));
    }
  }

  /** A buffer adopted between the two halves of `getEvent` would break the queue: the next
    * event gets the fetched id, is delivered in place of the discarded one, and its own id
    * stays behind in the buffer without an event. The consumer thread must adopt. */
  lemma AdoptInsideGetBreaks(e: Event, f: Event)
    requires e != f
    ensures var fetched := Fetch(Post(EMPTY, e, true));
      var reused := Post(Adopt(fetched), f, true);
      && Lookup(reused.events, fetched.fetched.value) == f
      && Take(reused).ids == [0] && Take(reused).events == map[]
  {
  }
}
