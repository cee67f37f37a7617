/**
  * src/lib/base/EventQueue.cpp and src/lib/base/SimpleEventQueueBuffer.cpp as
  * classes. The event methods are proved to be steps of `EventMachine`, the timer
  * methods to be steps of `TimerMachine`; clock readings are parameters.
  */
module EventQueues {
  import opened Options
  import opened EventStore
  import opened EventMachine
  import opened TimerMachine
  import opened PriorityQueues
  import opened Stopwatches

  ghost predicate Stepped(w: World, step: Step, w': World) {
    Enabled(w, step) && w' == Next(w, step)
  }

  function Reverse(s: seq<nat>): (r: seq<nat>)
    ensures |r| == |s|
    ensures forall i :: 0 <= i < |s| ==> r[i] == s[|s| - 1 - i]
  {
    if s == [] then [] else Reverse(s[1..]) + [s[0]]
  }

  /** The deque of ids. `accepts` is what the platform answers when an id is posted;
    * the simple buffer takes everything. */
  class SimpleEventQueueBuffer {
    var queue: seq<nat>
    var queueReady: bool
    const accepts: nat -> bool

    constructor ()
      ensures Valid() && queue == [] && accepts == (id => true)
    {
      queue := [];
      queueReady := false;
      accepts := id => true;
    }

    ghost predicate Valid()
      reads this
    {
      queueReady <==> queue != []
    }

    method IsEmpty() returns (empty: bool)
      requires Valid()
      ensures empty <==> queue == []
    {
      empty := !queueReady;
    }

    method AddEvent(id: nat) returns (ok: bool)
      requires Valid()
      modifies this
      ensures Valid() && ok == accepts(id)
      ensures queue == if ok then [id] + old(queue) else old(queue)
    {
      ok := accepts(id);
      if ok {
        queue := [id] + queue;
        if !queueReady {
          queueReady := true;
        }
      }
    }

    method GetEvent() returns (id: Option<nat>)
      requires Valid()
      modifies this
      ensures Valid()
      ensures old(queue) == [] ==> id == None && queue == []
      ensures old(queue) != [] ==> id.Some? && old(queue) == queue + [id.value]
    {
      if !queueReady {
        return None;
      }
      id := Some(queue[|queue| - 1]);
      queue := queue[..|queue| - 1];
      queueReady := queue != [];
    }
  }

  /** `EventQueue::Timer`, an entry of the heap: `time` is what remained at the last check. */
  datatype Timer = Timer(timer: nat, timeout: real, target: nat, oneShot: bool, time: real)

  /** The heap entry a countdown should have when time was last taken at `mark`. */
  function EntryOf(id: nat, t: Countdown, mark: real): Timer {
    Timer(id, t.timeout, t.target, t.oneShot, t.Deadline() - mark)
  }

  /** The heap holds one entry for every armed countdown, and nothing else. */
  ghost predicate Tracks(entries: multiset<Timer>, mark: real, m: Timers) {
    && (forall e :: e in entries ==>
         entries[e] == 1 && e.timer in m && m[e.timer].armed && e == EntryOf(e.timer, m[e.timer], mark))
    && (forall id :: id in m && m[id].armed ==> EntryOf(id, m[id], mark) in entries)
    && (forall id :: id in m ==> m[id].timeout > 0.0 && (m[id].armed || m[id].oneShot))
  }

  /** The entry `newTimer` makes: what is left of the duration, counted from the last check. */
  lemma TracksNew(entries: multiset<Timer>, mark: real, m: Timers,
                  id: nat, duration: real, target: nat, oneShot: bool, now: real)
    requires Tracks(entries, mark, m) && id !in m && duration > 0.0
    ensures var t := if target == 0 then id else target;
      && Tracks(entries + multiset{Timer(id, duration, t, oneShot, duration + (now - mark))},
                mark, m[id := Countdown(duration, t, oneShot, now, true)])
      && StepTo(m, TimerMachine.NewTimer(id, duration, target, oneShot, now),
                m[id := Countdown(duration, t, oneShot, now, true)])
  {
  }

  lemma EntryKnowsTimer(id: nat, t: Countdown, mark: real)
    ensures EntryOf(id, t, mark).timer == id
  {
  }

  lemma DeleteIsStep(m: Timers, id: nat)
    ensures StepTo(m, TimerMachine.DeleteTimer(id), m - {id})
  {
  }

  lemma TracksDelete(entries: multiset<Timer>, mark: real, m: Timers, id: nat)
    requires Tracks(entries, mark, m)
    ensures id in m && m[id].armed ==> Tracks(entries - multiset{EntryOf(id, m[id], mark)}, mark, m - {id})
    ensures !(id in m && m[id].armed) ==> Tracks(entries, mark, m - {id})
  {
  }

  lemma TracksDisarm(entries: multiset<Timer>, mark: real, m: Timers, id: nat)
    requires Tracks(entries, mark, m) && id in m && m[id].armed && m[id].oneShot
    ensures Tracks(entries - multiset{EntryOf(id, m[id], mark)}, mark, m[id := m[id].(armed := false)])
  {
  }

  lemma TracksRestart(entries: multiset<Timer>, mark: real, m: Timers, id: nat, t: Countdown)
    requires Tracks(entries, mark, m) && id in m && m[id].armed && t.armed && t.timeout > 0.0
    ensures Tracks(entries - multiset{EntryOf(id, m[id], mark)} + multiset{EntryOf(id, t, mark)}, mark, m[id := t])
  {
  }

  lemma TwiceIsTwo(s: seq<Timer>, i: nat, j: nat)
    requires i < j < |s| && s[i] == s[j]
    ensures multiset(s)[s[i]] >= 2
  {
    assert s == s[..j] + s[j..];
    assert s[i] == s[..j][i] && s[j] == s[j..][0];
  }

  lemma {:induction false} DistinctIsOnce(s: seq<Timer>)
    requires forall i, j :: 0 <= i < j < |s| ==> s[i] != s[j]
    ensures forall e :: e in multiset(s) ==> multiset(s)[e] == 1
  {
    if s != [] {
      var last, rest := s[|s| - 1], s[..|s| - 1];
      assert s == rest + [last];
      DistinctIsOnce(rest);
      assert last !in rest;
    }
  }

  ghost predicate CountedDown(c: seq<Timer>, c': seq<Timer>, dt: real) {
    |c'| == |c| && forall i :: 0 <= i < |c| ==> c'[i] == c[i].(time := c[i].time - dt)
  }

  lemma CountdownKeepsDistinct(c: seq<Timer>, c': seq<Timer>, dt: real)
    requires CountedDown(c, c', dt)
    requires forall e :: e in multiset(c) ==> multiset(c)[e] == 1
    ensures forall e :: e in multiset(c') ==> multiset(c')[e] == 1
  {
    forall i, j | 0 <= i < j < |c'| ensures c'[i] != c'[j] {
      if c'[i] == c'[j] {
        assert c[i] in multiset(c);
        assert c[i] == c[i].(time := c'[i].time + dt) && c[j] == c[j].(time := c'[j].time + dt);
        TwiceIsTwo(c, i, j);
      }
    }
    DistinctIsOnce(c');
  }

  lemma EntryCountsDown(c: seq<Timer>, c': seq<Timer>, mark: real, dt: real, m: Timers, i: nat)
    requires Tracks(multiset(c), mark, m) && CountedDown(c, c', dt) && i < |c|
    ensures c'[i].timer in m && m[c'[i].timer].armed && c'[i] == EntryOf(c'[i].timer, m[c'[i].timer], mark + dt)
  {
    assert c[i] in multiset(c);
  }

  lemma EntryFound(c: seq<Timer>, c': seq<Timer>, mark: real, dt: real, m: Timers, id: nat)
    requires Tracks(multiset(c), mark, m) && CountedDown(c, c', dt) && id in m && m[id].armed
    ensures EntryOf(id, m[id], mark + dt) in multiset(c')
  {
    var e := EntryOf(id, m[id], mark);
    assert e in multiset(c) && e in c;
    var i :| 0 <= i < |c| && c[i] == e;
    EntryCountsDown(c, c', mark, dt, m, i);
    assert c'[i] in c';
  }

  /** Subtracting the elapsed time from every entry moves the mark, not the deadlines. */
  lemma TracksCountdown(c: seq<Timer>, c': seq<Timer>, mark: real, dt: real, m: Timers)
    requires Tracks(multiset(c), mark, m) && CountedDown(c, c', dt)
    ensures Tracks(multiset(c'), mark + dt, m)
  {
    hide CountedDown, EntryOf;
    CountdownKeepsDistinct(c, c', dt);
    forall e | e in multiset(c')
      ensures e.timer in m && m[e.timer].armed && e == EntryOf(e.timer, m[e.timer], mark + dt)
    {
      var i :| 0 <= i < |c'| && c'[i] == e;
      CountedDownLength(c, c', dt);
      EntryCountsDown(c, c', mark, dt, m, i);
    }
    forall id | id in m && m[id].armed ensures EntryOf(id, m[id], mark + dt) in multiset(c') {
      EntryFound(c, c', mark, dt, m, id);
    }
  }

  lemma CountedDownLength(c: seq<Timer>, c': seq<Timer>, dt: real)
    requires CountedDown(c, c', dt)
    ensures |c'| == |c|
  {
  }

  /** The entry `deleteTimer` looks for, and that it is the only one. */
  lemma EntryOfTimer(c: seq<Timer>, mark: real, m: Timers, i: nat)
    requires Tracks(multiset(c), mark, m) && i < |c|
    ensures c[i].timer in m && m[c[i].timer].armed && c[i] == EntryOf(c[i].timer, m[c[i].timer], mark)
  {
    assert c[i] in multiset(c);
  }

  lemma ArmedHasEntry(c: seq<Timer>, mark: real, m: Timers, id: nat)
    requires Tracks(multiset(c), mark, m) && id in m && m[id].armed
    ensures exists i :: 0 <= i < |c| && c[i] == EntryOf(id, m[id], mark)
  {
    assert EntryOf(id, m[id], mark) in multiset(c);
  }

  /** No timer has two entries, a deleted one has none, and a recurring one that is not deleted
    * always has one. */
  lemma OneEntryPerTimer(c: seq<Timer>, mark: real, m: Timers)
    requires Tracks(multiset(c), mark, m)
    ensures forall i, j :: 0 <= i < j < |c| ==> c[i].timer != c[j].timer
    ensures forall i :: 0 <= i < |c| ==> c[i].timer in m
    ensures forall id :: id in m && !m[id].oneShot ==> exists i :: 0 <= i < |c| && c[i].timer == id
  {
    forall i, j | 0 <= i < j < |c| ensures c[i].timer != c[j].timer {
      EntryOfTimer(c, mark, m, i);
      EntryOfTimer(c, mark, m, j);
      if c[i].timer == c[j].timer {
        TwiceIsTwo(c, i, j);
      }
    }
    forall i | 0 <= i < |c| ensures c[i].timer in m {
      EntryOfTimer(c, mark, m, i);
    }
    forall id | id in m && !m[id].oneShot ensures exists i :: 0 <= i < |c| && c[i].timer == id {
      ArmedHasEntry(c, mark, m, id);
    }
  }

  ghost predicate LeastTime(c: seq<Timer>, top: Timer) {
    top in c && forall e :: e in c ==> top.time <= e.time
  }

  /** The least remaining time is that of the earliest deadline. */
  lemma TopIsEarliest(c: seq<Timer>, mark: real, m: Timers, top: Timer)
    requires Tracks(multiset(c), mark, m) && LeastTime(c, top)
    ensures Earliest(m, top.timer) && top == EntryOf(top.timer, m[top.timer], mark)
    ensures m[top.timer].timeout > 0.0
  {
    assert top in multiset(c);
    forall id | id in m && m[id].armed ensures m[top.timer].Deadline() <= m[id].Deadline() {
      var e := EntryOf(id, m[id], mark);
      assert e in multiset(c) && e in c;
    }
  }

  /** The count of a timer event, `(m_timeout - m_time) / m_timeout` cut down to an integer. */
  function Periods(timeout: real, time: real): int
    requires timeout > 0.0
  {
    ((timeout - time) / timeout).Floor
  }

  /** It is how often the period fits into the time since the countdown began. */
  lemma PeriodsFit(timeout: real, time: real)
    requires timeout > 0.0
    ensures var n := Periods(timeout, time);
      n as real * timeout <= timeout - time < (n + 1) as real * timeout
  {
    var q := (timeout - time) / timeout;
    assert q * timeout == timeout - time;
    ScaleBounds(q, Periods(timeout, time), timeout, timeout - time);
  }

  lemma ScaleBounds(q: real, n: int, x: real, y: real)
    requires n as real <= q < (n + 1) as real && x > 0.0 && q * x == y
    ensures n as real * x <= y < (n + 1) as real * x
  {
    Scale(n as real, q, x);
    Scale(q - (n + 1) as real, 0.0, x);
  }

  lemma Scale(a: real, b: real, x: real)
    requires x > 0.0
    ensures a <= b ==> a * x <= b * x
    ensures a < b ==> a * x < b * x
  {
  }

  /** When nothing has expired, nothing is due. */
  lemma NothingExpired(c: seq<Timer>, now: real, m: Timers)
    requires Tracks(multiset(c), now, m) && forall e :: e in c ==> e.time > 0.0
    ensures StepTo(m, Check(now, None), m)
  {
    forall id | id in m && m[id].armed ensures now < m[id].Deadline() {
      ArmedHasEntry(c, now, m, id);
    }
  }

  /** Removing the expired entry and putting it back with its full period, unless it is a
    * one-shot, fires the timer that was due first. */
  lemma TopFires(c: seq<Timer>, now: real, m: Timers, top: Timer)
    requires Tracks(multiset(c), now, m) && LeastTime(c, top) && top.time <= 0.0
    ensures top.timer in m && top.timeout > 0.0
    ensures StepTo(m, Check(now, Some(Fired(top.timer, top.target, Periods(top.timeout, top.time)))),
                   m[top.timer := Restarted(m[top.timer], now)])
    ensures top.oneShot ==> Tracks(multiset(c) - multiset{top}, now, m[top.timer := Restarted(m[top.timer], now)])
    ensures !top.oneShot ==>
      Tracks(multiset(c) - multiset{top} + multiset{top.(time := top.timeout)},
             now, m[top.timer := Restarted(m[top.timer], now)])
  {
    hide Tracks, Earliest, Periods;
    TopIsEarliest(c, now, m, top);
    PeriodsFit(top.timeout, top.time);
    TopIsArmed(m, top.timer);
    if top.oneShot {
      TracksDisarm(multiset(c), now, m, top.timer);
    } else {
      TracksRestart(multiset(c), now, m, top.timer, Restarted(m[top.timer], now));
    }
  }

  lemma TopIsArmed(m: Timers, id: nat)
    requires Earliest(m, id)
    ensures id in m && m[id].armed
  {
  }

  ghost function DrainAll(w: World, accepts: nat -> bool): World
    requires w.ready
    decreases |w.pending|
  {
    if w.pending == [] then w
    else DrainAll(Next(w, DrainPending(accepts(NewId(w.queue)))), accepts)
  }

  /** A drain is a run of the machine. */
  lemma {:induction false} DrainAllIsRun(w: World, accepts: nat -> bool) returns (steps: seq<Step>)
    requires w.ready
    ensures CanRun(w, steps) && DrainAll(w, accepts) == Run(w, steps)
    ensures forall i :: 0 <= i < |steps| ==> steps[i].DrainPending?
    ensures |steps| == |w.pending|
    decreases |w.pending|
  {
    hide Post;
    steps := [];
    if w.pending != [] {
      var step := DrainPending(accepts(NewId(w.queue)));
      var rest := DrainAllIsRun(Next(w, step), accepts);
      steps := [step] + rest;
      assert steps[1..] == rest;
    }
  }

  /** When the buffer takes everything, exactly the parked events are posted, in order. */
  lemma {:induction false} DrainAllPosts(w: World, accepts: nat -> bool)
    requires w.ready && forall id: nat :: accepts(id)
    ensures DrainAll(w, accepts).posted == w.posted + w.pending
    ensures DrainAll(w, accepts).pending == []
    decreases |w.pending|
  {
    hide Post;
    if w.pending != [] {
      assert w.pending == [w.pending[0]] + w.pending[1..];
      DrainAllPosts(Next(w, DrainPending(true)), accepts);
    }
  }

  ghost predicate AnyArmed(m: Timers) {
    exists id :: id in m && m[id].armed
  }

  /** Waiting for `t` from `now` on is exactly right: forever when neither the caller (who has
    * `left` to wait) nor a timer sets an end, or else until the first of the two. */
  ghost predicate WaitsFor(m: Timers, now: real, left: Option<real>, t: real) {
    && (t < 0.0 <==> left.None? && !AnyArmed(m))
    && (t >= 0.0 ==>
         && (forall id :: id in m && m[id].armed ==> now + t <= m[id].Deadline())
         && (left.Some? ==> t <= left.value)
         && (left == Some(t) || exists id :: id in m && m[id].armed && now + t == m[id].Deadline()))
  }

  /** The wait is reckoned from `now`, the check of the timers. Begun at `start` it ends at most the
    * delay past the earliest deadline, and when a timer sets its end, exactly that much. */
  lemma WaitEndsLate(m: Timers, now: real, start: real, left: Option<real>, t: real, id: nat)
    requires WaitsFor(m, now, left, t) && t >= 0.0 && now <= start && Earliest(m, id)
    ensures start + t - m[id].Deadline() <= start - now
    ensures left != Some(t) ==> start + t - m[id].Deadline() == start - now
    ensures left != Some(t) ==> (start + t <= m[id].Deadline() <==> start == now)
  {
  }

  lemma NobodyArmed(now: real, m: Timers)
    requires Tracks(multiset([]), now, m)
    ensures !AnyArmed(m)
  {
  }

  lemma WaitsForTop(c: seq<Timer>, now: real, m: Timers, top: Timer, left: Option<real>, t: real)
    requires Tracks(multiset(c), now, m) && LeastTime(c, top) && top.time > 0.0
    requires t == if left.Some? && left.value <= top.time then left.value else top.time
    requires left.Some? ==> left.value > 0.0
    ensures WaitsFor(m, now, left, t)
  {
    hide Tracks, LeastTime;
    TopIsEarliest(c, now, m, top);
    assert m[top.timer].Deadline() == now + top.time;
  }

  lemma ReverseCons(id: nat, s: seq<nat>)
    ensures Reverse([id] + s) == Reverse(s) + [id]
  {
  }

  lemma DrainAllStep(w: World, accepts: nat -> bool)
    requires w.ready
    ensures w.pending == [] ==> DrainAll(w, accepts) == w
    ensures w.pending != [] ==>
      var w' := Next(w, DrainPending(accepts(NewId(w.queue))));
      w'.ready && |w'.pending| == |w.pending| - 1 && DrainAll(w, accepts) == DrainAll(w', accepts)
  {
  }

  lemma ReadyKeeps(w: World)
    requires Fifo(w) && Conserved(w)
    ensures Fifo(w.(ready := true)) && Conserved(w.(ready := true))
  {
  }

  lemma TakeFromFifo(w: World)
    requires Fifo(w) && w.queue.fetched.Some?
    ensures w.queue.fetched.value in w.queue.events
    ensures Contents(w.queue) == [w.queue.events[w.queue.fetched.value]] + Contents(Take(w.queue))
  {
    TakePops(w.queue);
  }

  lemma NothingToExpire(mark: real, now: real, m: Timers)
    requires Tracks(multiset([]), mark, m)
    ensures StepTo(m, Check(now, None), m)
  {
  }

  lemma {:induction false} ReverseLast(s: seq<nat>, id: nat)
    ensures Reverse(s + [id]) == [id] + Reverse(s)
  {
    var r := Reverse(s + [id]);
    assert r[0] == id;
    assert r[1..] == Reverse(s);
  }

  lemma NothingFired(m: Timers, m': Timers, now: real)
    requires StepTo(m, Check(now, None), m')
    ensures m' == m && NothingDue(m, now)
  {
  }

  lemma WaitsWithoutTimers(now: real, m: Timers, left: Option<real>, t: real)
    requires Tracks(multiset([]), now, m)
    requires t == if left.Some? then left.value else -1.0
    requires left.Some? ==> left.value > 0.0
    ensures WaitsFor(m, now, left, t)
  {
    NobodyArmed(now, m);
  }

  lemma FifoIsLinked(w: World)
    requires Fifo(w) && w.queue.fetched.None?
    ensures Linked(w.queue.events, w.queue.ids)
    ensures Contents(w.queue) == LookupAll(w.queue.events, w.queue.ids)
  {
    assert Order(w.queue) == w.queue.ids;
  }

  lemma NothingLinked(order: seq<nat>)
    requires Linked(map[], order)
    ensures ReleasedAll(LookupAll(map[], order)) == multiset{}
  {
    assert forall id :: id !in order;
  }

  lemma {:induction false} ReleaseOne(events: map<nat, Event>, order: seq<nat>, i: nat)
    requires i < |order|
    ensures ReleasedAll(LookupAll(events, order)) ==
      Released(Lookup(events, order[i])) + ReleasedAll(LookupAll(events, order[..i] + order[i + 1..]))
  {
    hide Released, Lookup;
    if i == 0 {
      assert order[..0] + order[1..] == order[1..];
    } else {
      var rest := order[..i] + order[i + 1..];
      ReleaseOne(events, order[1..], i - 1);
      assert rest[1..] == order[1..][..i - 1] + order[1..][i..];
    }
  }

  /** Any event can leave the table: the rest stays linked, in the same order. */
  lemma UnlinkAny(events: map<nat, Event>, order: seq<nat>, id: nat) returns (rest: seq<nat>)
    requires Linked(events, order) && id in events
    ensures Linked(events - {id}, rest)
    ensures ReleasedAll(LookupAll(events, order)) == Released(events[id]) + ReleasedAll(LookupAll(events - {id}, rest))
  {
    hide Released, ReleasedAll, LookupAll;
    var i :| 0 <= i < |order| && order[i] == id;
    rest := order[..i] + order[i + 1..];
    ReleaseOne(events, order, i);
    assert forall k :: 0 <= k < |rest| ==> rest[k] == order[if k < i then k else k + 1];
    forall k | k in events - {id} ensures k in rest {
      var j :| 0 <= j < |order| && order[j] == k;
      assert rest[if j < i then j else j - 1] == k;
    }
    LookupAllFrame(events, events - {id}, rest);
  }

  lemma DrainAllPostsAll(w: World, accepts: nat -> bool)
    requires w.ready
    ensures (forall id: nat :: accepts(id)) ==> DrainAll(w, accepts).posted == w.posted + w.pending
  {
    if forall id: nat :: accepts(id) {
      DrainAllPosts(w, accepts);
    }
  }

  type Job = nat
  const NULL := 0

  /** The address of the queue's own `m_timerEvent`. */
  const TIMER_EVENT := 1

  datatype Poll =
    | UserEvent(id: nat)
    | TimerEvent(event: Event, fired: Fired)
    | TimedOut
    | Wait(time: real)

  /** One turn of `getEvent`: a waiting event goes first, even before a timer that is due,
    * then a due timer, then the end of the timeout, and else the queue waits. */
  ghost predicate Polled(w: World, m: Timers, now: real, mark: real, timeout: real, elapsed: real,
                         p: Poll, w': World, m': Timers)
  {
    && (p.UserEvent? <==> w.queue.ids != [])
    && match p
      case UserEvent(id) =>
        && w.queue.fetched.None?
        && w' == Next(w, FetchId) && w'.queue.fetched == Some(id) && m' == m
      case TimerEvent(event, fired) =>
        && event == Event(K_TIMER, fired.target, TIMER_EVENT, 0, Flags(false, false))
        && w' == Next(w, FireTimer(event))
        && StepTo(m, Check(now, Some(fired)), m')
      case TimedOut =>
        w' == w && m' == m && NothingDue(m, now) && 0.0 <= timeout <= elapsed
      case Wait(t) =>
        && w' == w && m' == m && NothingDue(m, now) && (timeout < 0.0 || elapsed < timeout)
        && (AnyArmed(m) ==> mark == now)
        && WaitsFor(m, mark, if timeout < 0.0 then None else Some(timeout - elapsed), t)
  }

  /** The outcomes of a turn: the oldest id comes if there is one, whatever is due; a timer event
    * carries the queue's own data and goes to the target of a timer that is due; the caller's time
    * is up only when nothing is due; and the wait never passes the caller's time or a deadline. */
  lemma PollOutcome(w: World, m: Timers, now: real, mark: real, timeout: real, elapsed: real,
                    p: Poll, w': World, m': Timers)
    requires Polled(w, m, now, mark, timeout, elapsed, p, w', m')
    ensures w.queue.ids != [] ==>
      p == UserEvent(w.queue.ids[0]) && m' == m
      && w' == w.(queue := w.queue.(ids := w.queue.ids[1..], fetched := Some(w.queue.ids[0])))
    ensures w.queue.ids == [] ==> !p.UserEvent? && w'.queue == w.queue
    ensures p.TimerEvent? ==>
      && p.event == Event(3, p.fired.target, 1, 0, Flags(false, false)) && w' == w.(running := [p.event] + w.running)
      && p.fired.timer in m && m[p.fired.timer].started + m[p.fired.timer].timeout <= now
      && p.fired.target == m[p.fired.timer].target
    ensures p.TimedOut? || p.Wait? ==>
      w' == w && m' == m && forall id :: id in m && m[id].armed ==> now < m[id].started + m[id].timeout
    ensures p.TimedOut? ==> 0.0 <= timeout <= elapsed
    ensures p.Wait? ==>
      && (timeout < 0.0 || elapsed < timeout)
      && (p.time < 0.0 <==> timeout < 0.0 && forall id :: id in m ==> !m[id].armed)
      && (p.time >= 0.0 && timeout >= 0.0 ==> p.time <= timeout - elapsed)
      && (p.time >= 0.0 ==> forall id :: id in m && m[id].armed ==> now + p.time <= m[id].started + m[id].timeout)
      && (p.time >= 0.0 && p.time != timeout - elapsed ==>
           exists id :: id in m && m[id].armed && now + p.time == m[id].started + m[id].timeout)
  {
  }

  class EventQueue {
    var events: map<nat, Event>
    var oldEventIDs: seq<nat>
    var buffer: SimpleEventQueueBuffer
    var ready: bool
    var pending: seq<Event>
    var handlers: map<nat, map<nat, Job>>
    var timers: set<nat>
    const timerQueue: PriorityQueue<Timer>
    const clock: Stopwatch
    ghost var fetched: Option<nat>
    ghost var running: seq<Event>
    ghost var freed: multiset<nat>
    ghost var given: multiset<nat>
    ghost var posted: seq<Event>
    ghost var delivered: seq<Event>
    ghost var countdowns: Timers

    /** The state of the event machine these fields stand for. */
    ghost function State(): World
      reads this, buffer
    {
      World(Queue(events, oldEventIDs, Reverse(buffer.queue), fetched),
            ready, pending, running, freed, given, posted, delivered)
    }

    ghost predicate EventsValid()
      reads this, buffer
    {
      buffer.Valid() && Fifo(State()) && Conserved(State())
    }

    /** The heap of remaining times stands for the map of deadlines. */
    ghost predicate TimersValid()
      reads this, timerQueue, clock
    {
      && timerQueue.Valid() && clock.Valid() && !clock.stopped
      && (forall t: Timer :: timerQueue.key(t) == t.time)
      && Tracks(multiset(timerQueue.c), clock.mark, countdowns)
      && timers == countdowns.Keys
    }

    constructor (now: real)
      ensures EventsValid() && State() == INITIAL
      ensures TimersValid() && countdowns == map[]
      ensures fresh(buffer) && fresh(timerQueue) && fresh(clock) && handlers == map[]
      ensures forall id: nat :: buffer.accepts(id)
    {
      events, oldEventIDs, ready, pending := map[], [], false, [];
      handlers, timers, countdowns := map[], {}, map[];
      fetched, running, freed, given, posted, delivered := None, [], multiset{}, multiset{}, [], [];
      buffer := new SimpleEventQueueBuffer();
      timerQueue := new PriorityQueue<Timer>((t: Timer) => t.time);
      clock := new Stopwatch(false, now);
      new;
      InitialIsGood();
    }

    // ------------------------------------------------------------------ events

    method SaveEvent(event: Event) returns (id: nat)
      modifies this`events, this`oldEventIDs
      ensures id == NewId(old(State()).queue)
      ensures State() == old(State()).(queue := Save(old(State()).queue, event))
    {
      if oldEventIDs != [] {
        id := oldEventIDs[|oldEventIDs| - 1];
        oldEventIDs := oldEventIDs[..|oldEventIDs| - 1];
      } else {
        id := |events|;
      }
      events := events[id := event];
    }

    method RemoveEvent(id: nat) returns (event: Event)
      modifies this`events, this`oldEventIDs
      ensures event == Lookup(old(events), id)
      ensures State() == old(State()).(queue := Remove(old(State()).queue, id))
    {
      if id !in events {
        return NO_EVENT;
      }
      event := events[id];
      events := events - {id};
      oldEventIDs := oldEventIDs + [id];
    }

    method AddEventToBuffer(event: Event)
      requires buffer.Valid()
      modifies this`events, this`oldEventIDs, this`posted, this`freed, buffer
      ensures buffer.Valid()
      ensures State() == Posting(old(State()), event, buffer.accepts(NewId(old(State()).queue)))
    {
      hide Remove, Save, NewId;
      var id := SaveEvent(event);
      var ok := buffer.AddEvent(id);
      if ok {
        posted := posted + [event];
        ReverseCons(id, old(buffer.queue));
      } else {
        var _ := RemoveEvent(id);
        freed := freed + Released(event);
      }
    }

    /** `addEvent`: when the event is to be delivered at once, the job to run on it now. */
    method AddEvent(event: Event) returns (job: Option<Job>)
      requires EventsValid()
      modifies this`events, this`oldEventIDs, this`pending
      modifies this`posted, this`freed, this`given, this`running, buffer
      ensures EventsValid()
      ensures Stepped(old(State()), EventMachine.AddEvent(event, buffer.accepts(NewId(old(State()).queue))), State())
      ensures event.kind in {0, 2, 3} ==> State() == old(State()) && job == None
      ensures event.kind !in {0, 2, 3} && event.flags.deliverImmediately ==>
        running == [event] + old(running) && pending == old(pending) && posted == old(posted) && freed == old(freed)
        && job == Some(HandlerFor(event))
      ensures event.kind !in {0, 2, 3} && !event.flags.deliverImmediately ==> running == old(running) && job == None
      ensures event.kind !in {0, 2, 3} && !event.flags.deliverImmediately && !ready ==>
        pending == old(pending) + [event] && posted == old(posted) && freed == old(freed)
      ensures event.kind !in {0, 2, 3} && !event.flags.deliverImmediately && ready ==>
        && pending == old(pending)
        && if buffer.accepts(NewId(old(State()).queue)) then
             posted == old(posted) + [event] && freed == old(freed)
           else
             && posted == old(posted)
             && forall a: nat ::
                  freed[a] == old(freed)[a] +
                    (if event.kind == 1 || event.flags.dontFreeData || a == 0 then 0
                     else (if event.data == a then 1 else 0) + (if event.dataObject == a then 1 else 0))
    {
      hide Fifo, Conserved, Released, Post;
      AddEventOutcome(State(), event, buffer.accepts(NewId(State().queue)));
      ghost var was, step := State(), EventMachine.AddEvent(event, buffer.accepts(NewId(State().queue)));
      job := None;
      if Bogus(event) {
        return;
      }
      given := given + Released(event);
      if event.flags.deliverImmediately {
        running := [event] + running;
        var found := FindJob(event);
        job := Some(found);
      } else if !ready {
        pending := pending + [event];
      } else {
        AddEventToBuffer(event);
      }
      NextKeepsFifo(was, step);
      NextKeepsConserved(was, step);
    }

    /** The start of `loop`: the queue becomes ready, then the parked events are posted. */
    method BeginLoop()
      requires EventsValid()
      modifies this`events, this`oldEventIDs, this`pending, this`ready, this`posted, this`freed, buffer
      ensures EventsValid() && pending == []
      ensures State() == DrainAll(old(State()).(ready := true), buffer.accepts)
      ensures (forall id: nat :: buffer.accepts(id)) ==> posted == old(posted) + old(pending)
      ensures ready
    {
      hide Fifo, Conserved, Next, Reverse, DrainAll;
      ready := true;
      DrainAllPostsAll(State(), buffer.accepts);
      ReadyKeeps(old(State()));
      while pending != []
        invariant EventsValid() && ready
        invariant DrainAll(State(), buffer.accepts) == DrainAll(old(State()).(ready := true), buffer.accepts)
        decreases |pending|
      {
        DrainAllStep(State(), buffer.accepts);
        DrainOne();
      }
      DrainAllStep(State(), buffer.accepts);
    }

    method DrainOne()
      requires EventsValid() && ready && pending != []
      modifies this`events, this`oldEventIDs, this`pending, this`posted, this`freed, buffer
      ensures EventsValid()
      ensures Stepped(old(State()), DrainPending(buffer.accepts(NewId(old(State()).queue))), State())
    {
      hide Fifo, Conserved, Released, Post;
      ghost var was, step := State(), DrainPending(buffer.accepts(NewId(State().queue)));
      AddEventToBuffer(pending[0]);
      pending := pending[1..];
      NextKeepsFifo(was, step);
      NextKeepsConserved(was, step);
    }

    /** The second half of `getEvent`: the id has its event, and it is the oldest. */
    method TakeEvent(id: nat) returns (event: Event)
      requires EventsValid() && fetched == Some(id)
      modifies this`events, this`oldEventIDs, this`fetched, this`running, this`delivered
      ensures EventsValid() && Stepped(old(State()), EventMachine.TakeEvent, State())
      ensures id in old(events) && event == old(events)[id]
      ensures events == old(events) - {id} && fetched == None
      ensures running == [event] + old(running) && delivered == old(delivered) + [event]
      ensures Contents(old(State()).queue) == [event] + Contents(State().queue)
    {
      hide Fifo, Conserved, Contents, Allocated, Linked;
      ghost var was := State();
      TakeFromFifo(was);
      NextKeepsFifo(was, EventMachine.TakeEvent);
      NextKeepsConserved(was, EventMachine.TakeEvent);
      event := RemoveEvent(id);
      fetched := None;
      running := [event] + running;
      delivered := delivered + [event];
    }

    /** `adoptBuffer`: the old buffer goes, and with it every event in the table. */
    method AdoptBuffer(newBuffer: SimpleEventQueueBuffer?)
      requires EventsValid() && fetched.None?
      requires newBuffer != null ==> newBuffer.Valid() && newBuffer.queue == []
      modifies this`events, this`oldEventIDs, this`buffer, this`freed, this`posted
      ensures EventsValid() && Stepped(old(State()), EventMachine.AdoptBuffer, State())
      ensures events == map[] && buffer.queue == [] && pending == old(pending) && running == old(running)
      ensures forall a: nat ::
        freed[a] == old(freed)[a] +
          (if a == 0 then 0 else |DataHolders(old(events), a)| + |ObjectHolders(old(events), a)|)
      ensures if newBuffer != null then buffer == newBuffer else fresh(buffer)
    {
      hide Fifo, Conserved, Released, ReleasedAll, Contents, Allocated, Linked, DataHolders, ObjectHolders;
      ghost var was := State();
      NextKeepsFifo(was, EventMachine.AdoptBuffer);
      NextKeepsConserved(was, EventMachine.AdoptBuffer);
      DiscardEvents();
      posted := delivered;
      if newBuffer == null {
        buffer := new SimpleEventQueueBuffer();
      } else {
        buffer := newBuffer;
      }
      assert State() == Next(was, EventMachine.AdoptBuffer);
    }

    /** The events still in the table are deleted one by one, in whatever order. */
    method DiscardEvents()
      requires Fifo(State()) && fetched.None?
      modifies this`events, this`oldEventIDs, this`freed
      ensures events == map[] && oldEventIDs == []
      ensures freed == old(freed) + ReleasedAll(Contents(old(State()).queue))
      ensures forall a: nat ::
        freed[a] == old(freed)[a] +
          (if a == 0 then 0 else |DataHolders(old(events), a)| + |ObjectHolders(old(events), a)|)
    {
      hide Fifo, Linked, Released, ReleasedAll, LookupAll, Contents, DataHolders, ObjectHolders;
      FifoIsLinked(State());
      ghost var order := State().queue.ids;
      ghost var total := freed + ReleasedAll(LookupAll(events, order));
      forall a: nat {
        ReleasedOfTable(events, order, a);
      }
      while events != map[]
        invariant Linked(events, order) && total == freed + ReleasedAll(LookupAll(events, order))
        modifies this`events, this`freed
        decreases |events|
      {
        var id :| id in events;
        order := UnlinkAny(events, order, id);
        freed := freed + Released(events[id]);
        events := events - {id};
      }
      NothingLinked(order);
      oldEventIDs := [];
    }

    /** After a handler returns, `Event::deleteData`. Events delivered at once on several threads
      * may end in any order. */
    method FinishDispatch(event: Event, ghost which: nat)
      requires EventsValid() && which < |running| && running[which] == event
      modifies this`running, this`freed
      ensures EventsValid() && Stepped(old(State()), Dispatched(which), State())
      ensures forall a: nat ::
        freed[a] == old(freed)[a] +
          (if event.kind in {0, 1, 2, 3} || event.flags.dontFreeData || a == 0 then 0
           else (if event.data == a then 1 else 0) + (if event.dataObject == a then 1 else 0))
      ensures running == old(running)[..which] + old(running)[which + 1..]
    {
      hide Fifo, Conserved, Contents, Allocated, Linked;
      forall a: nat {
        ReleasedOf(event, a);
      }
      ghost var was := State();
      NextKeepsFifo(was, Dispatched(which));
      NextKeepsConserved(was, Dispatched(which));
      freed := freed + Released(event);
      running := Without(running, which);
    }

    // ---------------------------------------------------------------- handlers

    function Handler(kind: nat, target: nat): Job
      reads this`handlers
    {
      if target in handlers && kind in handlers[target] then handlers[target][kind] else NULL
    }

    /** The job for exactly this kind, or else the one for every kind. */
    function HandlerFor(event: Event): Job
      reads this`handlers
    {
      if Handler(event.kind, event.target) != NULL then Handler(event.kind, event.target)
      else Handler(K_UNKNOWN, event.target)
    }

    /** The lookups of `dispatchEvent`. */
    method FindJob(event: Event) returns (job: Job)
      ensures job == HandlerFor(event)
    {
      job := Handler(event.kind, event.target);
      if job == NULL {
        job := Handler(K_UNKNOWN, event.target);
      }
    }

    /** Adopting replaces one entry; the job that was there is deleted. The new job is found for
      * events of its kind and, if it is for every kind, for those that had no job of their own. */
    method AdoptHandler(kind: nat, target: nat, job: Job) returns (deleted: Job)
      modifies this`handlers
      ensures forall e :: job != NULL ==>
        HandlerFor(e) ==
          (if e.target == target && (e.kind == kind || (kind == K_UNKNOWN && old(Handler(e.kind, target)) == NULL))
           then job else old(HandlerFor(e)))
      ensures deleted == old(Handler(kind, target)) && Handler(kind, target) == job
      ensures forall k: nat, t: nat :: (k, t) != (kind, target) ==> Handler(k, t) == old(Handler(k, t))
    {
      deleted := Handler(kind, target);
      var jobs := if target in handlers then handlers[target] else map[];
      handlers := handlers[target := jobs[kind := job]];
    }

    /** Events of the kind fall back on the job for every kind, if there is one left. */
    method RemoveHandler(kind: nat, target: nat) returns (deleted: Job)
      modifies this`handlers
      ensures forall e ::
        HandlerFor(e) ==
          (if e.target == target && e.kind == kind then
             if kind == K_UNKNOWN then NULL else old(Handler(K_UNKNOWN, target))
           else if e.target == target && kind == K_UNKNOWN then old(Handler(e.kind, target))
           else old(HandlerFor(e)))
      ensures deleted == old(Handler(kind, target)) && Handler(kind, target) == NULL
      ensures forall k: nat, t: nat :: (k, t) != (kind, target) ==> Handler(k, t) == old(Handler(k, t))
    {
      deleted := NULL;
      if target in handlers {
        var jobs: map<nat, Job> := handlers[target];
        if kind in jobs {
          deleted := jobs[kind];
          var kept: map<nat, Job> := jobs - {kind};
          handlers := handlers[target := kept];
        }
      }
    }

    /** Every job of the target is deleted once, whatever kinds it is for, and its events find
      * none any more. */
    method RemoveHandlers(target: nat) returns (deleted: seq<Job>, ghost kinds: seq<nat>)
      modifies this`handlers
      ensures forall e :: HandlerFor(e) == if e.target == target then NULL else old(HandlerFor(e))
      ensures Distinct(kinds) && |deleted| == |kinds|
      ensures forall k :: k in kinds <==> target in old(handlers) && k in old(handlers)[target]
      ensures forall i :: 0 <= i < |kinds| ==> deleted[i] == old(Handler(kinds[i], target))
      ensures forall k: nat, t: nat :: Handler(k, t) == if t == target then NULL else old(Handler(k, t))
    {
      deleted, kinds := [], [];
      if target in handlers {
        var rest := handlers[target];
        while rest != map[]
          invariant Distinct(kinds) && |deleted| == |kinds| && handlers == old(handlers)
          invariant forall k :: k in handlers[target] <==> k in rest || k in kinds
          invariant forall k :: k in rest ==> k !in kinds && rest[k] == handlers[target][k]
          invariant forall i :: 0 <= i < |kinds| ==> deleted[i] == Handler(kinds[i], target)
          decreases |rest|
        {
          var k :| k in rest;
          deleted, kinds := deleted + [rest[k]], kinds + [k];
          rest := rest - {k};
        }
        handlers := handlers[target := map[]];
      }
    }

    // ------------------------------------------------------------------ timers

    /** `newTimer` and `newOneShotTimer`; `id` is the address of the new timer. */
    method NewTimer(duration: real, target: nat, oneShot: bool, id: nat, now: real)
      requires TimersValid() && duration > 0.0 && id !in timers
      modifies this`timers, this`countdowns, timerQueue, clock
      ensures TimersValid()
      ensures StepTo(old(countdowns), TimerMachine.NewTimer(id, duration, target, oneShot, now), countdowns)
      ensures timers == old(timers) + {id}
    {
      hide RunningTime, Heap, Tracks, StepTo;
      TracksNew(multiset(timerQueue.c), clock.mark, countdowns, id, duration, target, oneShot, now);
      var t := if target == 0 then id else target;
      timers := timers + {id};
      var elapsed := ReadClock(now);
      timerQueue.Push(Timer(id, duration, t, oneShot, duration + elapsed));
      countdowns := countdowns[id := Countdown(duration, t, oneShot, now, true)];
    }

    /** `m_time.getTime()`: the time since the last check. */
    method ReadClock(now: real) returns (elapsed: real)
      requires clock.Valid() && !clock.stopped
      modifies clock
      ensures clock.Valid() && !clock.stopped
      ensures elapsed == now - clock.mark && clock.mark == old(clock.mark)
    {
      assert clock.Elapsed(now) == RunningTime(clock.history, now);
      elapsed := clock.GetTime(now);
    }

    method DeleteTimer(id: nat)
      requires TimersValid()
      modifies this`timers, this`countdowns, timerQueue
      ensures TimersValid() && id !in timers
      ensures StepTo(old(countdowns), TimerMachine.DeleteTimer(id), countdowns)
      ensures timers == old(timers) - {id}
    {
      hide RunningTime, Heap, Tracks, StepTo, EntryOf;
      TracksDelete(multiset(timerQueue.c), clock.mark, countdowns, id);
      DeleteIsStep(countdowns, id);
      RemoveEntry(id);
      timers := timers - {id};
      countdowns := countdowns - {id};
    }

    /** The loop of `deleteTimer`: the timer's entry goes, if it has one. */
    method RemoveEntry(id: nat)
      requires TimersValid()
      modifies timerQueue
      ensures timerQueue.Valid()
      ensures id in countdowns && countdowns[id].armed ==>
        multiset(timerQueue.c) == old(multiset(timerQueue.c)) - multiset{EntryOf(id, countdowns[id], clock.mark)}
      ensures !(id in countdowns && countdowns[id].armed) ==> timerQueue.c == old(timerQueue.c)
    {
      hide RunningTime, Heap, Tracks, EntryOf;
      var index := FindEntry(id);
      if index < |timerQueue.c| {
        EntryOfTimer(timerQueue.c, clock.mark, countdowns, index);
        timerQueue.Erase(index);
      } else if id in countdowns && countdowns[id].armed {
        ArmedHasEntry(timerQueue.c, clock.mark, countdowns, id);
        EntryKnowsTimer(id, countdowns[id], clock.mark);
      }
    }

    /** The first entry of a timer, or the number of entries. */
    method FindEntry(id: nat) returns (index: nat)
      ensures index <= |timerQueue.c| && (index < |timerQueue.c| ==> timerQueue.c[index].timer == id)
      ensures forall i :: 0 <= i < index ==> timerQueue.c[i].timer != id
    {
      index := 0;
      while index < |timerQueue.c| && timerQueue.c[index].timer != id
        invariant 0 <= index <= |timerQueue.c|
        invariant forall i :: 0 <= i < index ==> timerQueue.c[i].timer != id
      {
        index := index + 1;
      }
    }

    /** The countdown of `hasTimerExpired`: every entry loses the time since the last check. */
    method CountDown(now: real)
      requires TimersValid()
      modifies timerQueue, clock
      ensures TimersValid() && clock.mark == now && |timerQueue.c| == old(|timerQueue.c|)
    {
      hide RunningTime, Tracks, Heap;
      var time := ReadClock(now);
      var _ := clock.Reset(now);
      ghost var before := timerQueue.c;
      var index := 0;
      while index < |timerQueue.c|
        invariant 0 <= index <= |timerQueue.c| == |before|
        invariant forall i :: 0 <= i < index ==> timerQueue.c[i] == before[i].(time := before[i].time - time)
        invariant forall i :: index <= i < |before| ==> timerQueue.c[i] == before[i]
        modifies timerQueue
      {
        var entry := timerQueue.c[index];
        timerQueue.c := timerQueue.c[index := entry.(time := entry.time - time)];
        index := index + 1;
      }
      ShiftKeepsHeap(before, timerQueue.c, timerQueue.key, time);
      TracksCountdown(before, timerQueue.c, old(clock.mark), time, countdowns);
    }

    method HasTimerExpired(now: real) returns (fired: Option<Fired>)
      requires TimersValid()
      modifies this`countdowns, timerQueue, clock
      ensures TimersValid()
      ensures StepTo(old(countdowns), Check(now, fired), countdowns)
      ensures fired.None? && timerQueue.c != [] ==> clock.mark == now && forall e :: e in timerQueue.c ==> e.time > 0.0
    {
      hide RunningTime, Tracks, Heap, StepTo;
      if timerQueue.c == [] {
        NothingToExpire(clock.mark, now, countdowns);
        return None;
      }
      CountDown(now);
      var timer := timerQueue.Top();
      if timer.time > 0.0 {
        NothingExpired(timerQueue.c, now, countdowns);
        return None;
      }
      var f := FireTop(timer, now);
      fired := Some(f);
    }

    method FireTop(timer: Timer, now: real) returns (fired: Fired)
      requires TimersValid() && clock.mark == now
      requires timerQueue.c != [] && timer == timerQueue.c[0] && timer.time <= 0.0
      requires forall e :: e in timerQueue.c ==> timerQueue.key(timer) <= timerQueue.key(e)
      modifies this`countdowns, timerQueue
      ensures TimersValid()
      ensures StepTo(old(countdowns), Check(now, Some(fired)), countdowns)
    {
      hide RunningTime, Tracks, Heap, StepTo, Periods;
      TopFires(timerQueue.c, now, countdowns, timer);
      timerQueue.Pop();
      fired := Fired(timer.timer, timer.target, Periods(timer.timeout, timer.time));
      if !timer.oneShot {
        timerQueue.Push(timer.(time := timer.timeout));
      }
      countdowns := countdowns[timer.timer := Restarted(countdowns[timer.timer], now)];
    }

    /** -1 without timers, 0 for a timer that has expired, or else how long the first has left. */
    method GetNextTimerTimeout() returns (time: real)
      requires TimersValid()
      ensures timerQueue.c == [] ==> time == -1.0
      ensures timerQueue.c != [] ==>
        exists e :: LeastTime(timerQueue.c, e) && time == if e.time > 0.0 then e.time else 0.0
    {
      if timerQueue.c == [] {
        return -1.0;
      }
      var top := timerQueue.Top();
      assert LeastTime(timerQueue.c, top);
      if top.time <= 0.0 {
        return 0.0;
      }
      return top.time;
    }

    /** How long `getEvent` waits when no event is there and no timer has expired. */
    method TimeToWait(timeout: real, elapsed: real) returns (timeLeft: real)
      requires TimersValid() && (timeout < 0.0 || elapsed < timeout)
      requires timerQueue.c != [] ==> forall e :: e in timerQueue.c ==> e.time > 0.0
      ensures WaitsFor(countdowns, clock.mark, if timeout < 0.0 then None else Some(timeout - elapsed), timeLeft)
    {
      hide RunningTime, Tracks, Heap, WaitsFor;
      timeLeft := timeout - elapsed;
      ghost var left := if timeout < 0.0 then None else Some(timeLeft);
      var timerTimeout := GetNextTimerTimeout();
      if timeout < 0.0 || (timerTimeout >= 0.0 && timerTimeout < timeLeft) {
        timeLeft := timerTimeout;
      }
      if timerQueue.c == [] {
        WaitsWithoutTimers(clock.mark, countdowns, left, timeLeft);
      } else {
        ghost var top :| LeastTime(timerQueue.c, top) && timerTimeout == if top.time > 0.0 then top.time else 0.0;
        WaitsForTop(timerQueue.c, clock.mark, countdowns, top, left, timeLeft);
      }
    }

    /** `getEvent` up to the point where it returns or waits. The clock is read at `now` for
      * the timers and at `later` for `watch`, which measures the caller's timeout. */
    method PollEvent(now: real, later: real, timeout: real, watch: Stopwatch) returns (p: Poll)
      requires EventsValid() && TimersValid() && fetched.None? && watch.Valid() && watch != clock
      modifies this`fetched, this`running, this`countdowns, buffer, timerQueue, clock, watch
      ensures EventsValid() && TimersValid() && watch.Valid()
      ensures Polled(old(State()), old(countdowns), now, clock.mark, timeout,
                     RunningTime(old(watch.history), later), p, State(), countdowns)
    {
      hide RunningTime, Tracks, Heap, WaitsFor, StepTo, NothingDue, AnyArmed;
      hide Fifo, Conserved, Released, Reverse, Enabled, Next;
      var empty := buffer.IsEmpty();
      if !empty {
        var id := FetchId();
        return UserEvent(id);
      }
      var fired := HasTimerExpired(now);
      if fired.Some? {
        var event := StartTimerEvent(fired.value.target);
        return TimerEvent(event, fired.value);
      }
      NothingFired(old(countdowns), countdowns, now);
      var elapsed := watch.GetTime(later);
      if timeout >= 0.0 && timeout - elapsed <= 0.0 {
        return TimedOut;
      }
      if timerQueue.c == [] {
        NobodyArmed(clock.mark, countdowns);
      }
      var timeLeft := TimeToWait(timeout, elapsed);
      return Wait(timeLeft);
    }

    method FetchId() returns (id: nat)
      requires EventsValid() && buffer.queue != [] && fetched.None?
      modifies this`fetched, buffer
      ensures EventsValid() && fetched == Some(id)
      ensures Stepped(old(State()), EventMachine.FetchId, State())
    {
      hide Fifo, Conserved;
      ghost var was := State();
      NextKeepsFifo(was, EventMachine.FetchId);
      NextKeepsConserved(was, EventMachine.FetchId);
      var got := buffer.GetEvent();
      ReverseLast(buffer.queue, got.value);
      fetched := got;
      id := got.value;
    }

    method StartTimerEvent(target: nat) returns (event: Event)
      requires EventsValid()
      modifies this`running
      ensures EventsValid() && event == Event(K_TIMER, target, TIMER_EVENT, 0, Flags(false, false))
      ensures Stepped(old(State()), FireTimer(event), State())
    {
      hide Fifo, Conserved;
      event := Event(K_TIMER, target, TIMER_EVENT, 0, Flags(false, false));
      ghost var was := State();
      NextKeepsFifo(was, FireTimer(event));
      NextKeepsConserved(was, FireTimer(event));
      running := [event] + running;
    }
  }
}
