/**
  * What the timer heap of src/lib/base/EventQueue.cpp stands for: a map from timer
  * to absolute deadline. `TimerStep` is the relation every timer operation of the
  * queue is proved to satisfy; the lemmas are about whole runs of such steps.
  */
module TimerMachine {
  import opened Options

  /** An undeleted timer. `started` is when its present countdown began; a one-shot timer
    * that has fired is no longer armed. */
  datatype Countdown = Countdown(timeout: real, target: nat, oneShot: bool, started: real, armed: bool) {
    function Deadline(): real {
      started + timeout
    }
  }

  type Timers = map<nat, Countdown>

  datatype Fired = Fired(timer: nat, target: nat, count: int)

  datatype TimerStep =
    | NewTimer(timer: nat, timeout: real, target: nat, oneShot: bool, now: real)
    | DeleteTimer(timer: nat)
    | Check(now: real, fired: Option<Fired>)

  /** The earliest deadline among the armed timers is that of `id`. */
  ghost predicate Earliest(m: Timers, id: nat) {
    && id in m && m[id].armed
    && forall other :: other in m && m[other].armed ==> m[id].Deadline() <= m[other].Deadline()
  }

  ghost predicate NothingDue(m: Timers, now: real) {
    forall id :: id in m && m[id].armed ==> now < m[id].Deadline()
  }

  function Restarted(t: Countdown, now: real): Countdown {
    if t.oneShot then t.(armed := false) else t.(started := now)
  }

  ghost predicate FiresAt(m: Timers, now: real, f: Fired) {
    && Earliest(m, f.timer) && m[f.timer].Deadline() <= now
    && f.target == m[f.timer].target
    && f.count as real * m[f.timer].timeout <= now - m[f.timer].started < (f.count + 1) as real * m[f.timer].timeout
  }

  ghost predicate StepTo(m: Timers, step: TimerStep, m': Timers) {
    match step
    case NewTimer(id, timeout, target, oneShot, now) =>
      && id !in m && timeout > 0.0
      && m' == m[id := Countdown(timeout, if target == 0 then id else target, oneShot, now, true)]
    case DeleteTimer(id) =>
      m' == m - {id}
    case Check(now, None) =>
      m' == m && NothingDue(m, now)
    case Check(now, Some(f)) =>
      && FiresAt(m, now, f)
      && m' == m[f.timer := Restarted(m[f.timer], now)]
  }

  ghost predicate TimerRun(trace: seq<Timers>, steps: seq<TimerStep>) {
    && |trace| == |steps| + 1
    && trace[0] == map[]
    && forall i :: 0 <= i < |steps| ==> StepTo(trace[i], steps[i], trace[i + 1])
  }

  /** What a check finds: if nothing fires no deadline has passed and nothing changes; what fires is
    * armed and due, no other deadline is earlier, and it alone is disarmed, if it is a one-shot, or
    * starts again now. */
  lemma CheckOutcome(m: Timers, now: real, fired: Option<Fired>, m': Timers)
    requires StepTo(m, Check(now, fired), m')
    ensures fired.None? ==> m' == m && forall id :: id in m && m[id].armed ==> now < m[id].started + m[id].timeout
    ensures fired.Some? ==>
      var f := fired.value;
      && f.timer in m && m[f.timer].armed && m[f.timer].started + m[f.timer].timeout <= now
      && (forall id :: id in m && m[id].armed ==>
           m[f.timer].started + m[f.timer].timeout <= m[id].started + m[id].timeout)
      && f.target == m[f.timer].target
      && f.count as real * m[f.timer].timeout <= now - m[f.timer].started
      && now - m[f.timer].started < (f.count + 1) as real * m[f.timer].timeout
      && m' == m[f.timer := if m[f.timer].oneShot then m[f.timer].(armed := false) else m[f.timer].(started := now)]
  {
  }

  /** A new timer counts from now, and its events go to its target, or to itself if that is null;
    * a deleted one is gone, and no other timer is touched. */
  lemma NewAndDeleteOutcomes(m: Timers, id: nat, timeout: real, target: nat, oneShot: bool, now: real, m': Timers)
    ensures StepTo(m, NewTimer(id, timeout, target, oneShot, now), m') ==>
      id !in m && m' == m[id := Countdown(timeout, if target == 0 then id else target, oneShot, now, true)]
    ensures StepTo(m, DeleteTimer(id), m') ==>
      && id !in m'
      && forall other :: other != id ==> (other in m' <==> other in m) && (other in m ==> m'[other] == m[other])
  {
  }

  // --------------------------------------------------------- histories of a timer

  predicate Creates(step: TimerStep, id: nat) {
    step.NewTimer? && step.timer == id
  }

  predicate Fires(step: TimerStep, id: nat) {
    step.Check? && step.fired.Some? && step.fired.value.timer == id
  }

  /** The record of a timer since it was last created: when that was, when it was created
    * or last fired, the sum of the counts of its events and their number. */
  datatype Tally = Tally(created: real, lastStart: real, total: int, events: nat)

  function TallyOf(steps: seq<TimerStep>, id: nat): Tally {
    if steps == [] then Tally(0.0, 0.0, 0, 0) else
      var last, before := steps[|steps| - 1], TallyOf(steps[..|steps| - 1], id);
      if Creates(last, id) then Tally(last.now, last.now, 0, 0)
      else if Fires(last, id) then
        Tally(before.created, last.now, before.total + last.fired.value.count, before.events + 1)
      else before
  }

  /** The counts reported add up to no more periods than have passed between creation and
    * last start, and to at most one period per event less. */
  ghost predicate Telling(t: Tally, timeout: real) {
    t.total as real * timeout <= t.lastStart - t.created <= (t.total + t.events) as real * timeout
  }

  lemma RunPrefix(trace: seq<Timers>, steps: seq<TimerStep>)
    requires TimerRun(trace, steps) && steps != []
    ensures |trace| == |steps| + 1
    ensures TimerRun(trace[..|steps|], steps[..|steps| - 1])
    ensures StepTo(trace[|steps| - 1], steps[|steps| - 1], trace[|steps|])
    ensures trace[..|steps|][|steps| - 1] == trace[|steps| - 1]
  {
    var t, s := trace[..|steps|], steps[..|steps| - 1];
    forall i | 0 <= i < |s| ensures StepTo(t[i], s[i], t[i + 1]) {
      assert StepTo(trace[i], steps[i], trace[i + 1]);
    }
  }

  /** Once deleted, a timer raises no event until it is created again. */
  lemma {:induction false} NoEventAfterDelete(trace: seq<Timers>, steps: seq<TimerStep>, id: nat, i: nat, j: nat)
    requires TimerRun(trace, steps) && i < j < |steps|
    requires steps[i] == DeleteTimer(id)
    requires forall k :: i < k < j ==> !Creates(steps[k], id)
    ensures id !in trace[j] && !Fires(steps[j], id)
    decreases j
  {
    if j > i + 1 {
      NoEventAfterDelete(trace, steps, id, i, j - 1);
    }
    assert StepTo(trace[j - 1], steps[j - 1], trace[j]);
    assert StepTo(trace[j], steps[j], trace[j + 1]);
  }

  /** What one step does to a timer that is armed after it. */
  lemma ArmedAfter(m: Timers, step: TimerStep, m': Timers, id: nat)
    requires StepTo(m, step, m') && id in m' && m'[id].armed
    ensures Creates(step, id) ==> m'[id].started == step.now && m'[id].timeout > 0.0
    ensures !Creates(step, id) ==> id in m && m[id].armed && m'[id].timeout == m[id].timeout
    ensures Fires(step, id) ==>
      && m'[id].started == step.now
      && step.fired.value.count as real * m[id].timeout <= step.now - m[id].started
      && step.now - m[id].started < (step.fired.value.count + 1) as real * m[id].timeout
    ensures !Creates(step, id) && !Fires(step, id) ==> m'[id] == m[id]
  {
  }

  /** A countdown that is running began when the timer was created or last fired, and the
    * counts of its events tell the time that had passed until then: they do not
    * accumulate more than that, and forget less than one period per event. */
  lemma {:induction false} CountdownTally(trace: seq<Timers>, steps: seq<TimerStep>, id: nat)
    requires TimerRun(trace, steps) && id in trace[|steps|] && trace[|steps|][id].armed
    ensures trace[|steps|][id].timeout > 0.0
    ensures trace[|steps|][id].started == TallyOf(steps, id).lastStart
    ensures Telling(TallyOf(steps, id), trace[|steps|][id].timeout)
  {
    hide StepTo, Telling;
    if steps != [] {
      RunPrefix(trace, steps);
      var last, before := steps[|steps| - 1], steps[..|steps| - 1];
      var m, m' := trace[|steps| - 1], trace[|steps|];
      ArmedAfter(m, last, m', id);
      if Creates(last, id) {
        TellingStart(last.now, m'[id].timeout);
      } else {
        CountdownTally(trace[..|steps|], before, id);
        if Fires(last, id) {
          TellingStep(TallyOf(before, id), m[id].timeout, last.fired.value.count, last.now);
        }
      }
    }
  }

  lemma TellingStart(now: real, timeout: real)
    ensures Telling(Tally(now, now, 0, 0), timeout)
  {
  }

  lemma TellingStep(t: Tally, timeout: real, count: int, now: real)
    requires Telling(t, timeout)
    requires count as real * timeout <= now - t.lastStart < (count + 1) as real * timeout
    ensures Telling(Tally(t.created, now, t.total + count, t.events + 1), timeout)
  {
    Distribute(t.total, count, timeout);
    Distribute(t.total + t.events, count + 1, timeout);
    assert t.total + count + (t.events + 1) == (t.total + t.events) + (count + 1);
  }

  lemma Distribute(a: int, b: int, x: real)
    ensures (a + b) as real * x == a as real * x + b as real * x
  {
    assert (a + b) as real == a as real + b as real;
  }

  /** No early event: firing `id` after `steps` happens at least its timeout after the last
    * start, and with a count of at least one. */
  lemma EventsAreDue(trace: seq<Timers>, steps: seq<TimerStep>, now: real, f: Fired)
    requires TimerRun(trace, steps) && FiresAt(trace[|steps|], now, f)
    ensures now >= TallyOf(steps, f.timer).lastStart + trace[|steps|][f.timer].timeout
    ensures f.count >= 1
  {
    CountdownTally(trace, steps, f.timer);
    var t := trace[|steps|][f.timer];
    CountPositive(f.count, t.timeout, now - t.started);
  }

  lemma CountPositive(n: int, timeout: real, elapsed: real)
    requires timeout > 0.0 && elapsed >= timeout && elapsed < (n + 1) as real * timeout
    ensures n >= 1
  {
    if n <= 0 {
      Multiply(n + 1, 1, timeout);
    }
  }

  lemma Multiply(a: int, b: int, x: real)
    requires a <= b && x >= 0.0
    ensures a as real * x <= b as real * x
  {
  }

  /** The documentation's "count is always 1" for a one-shot timer holds exactly when the
    * event is taken less than one timeout after its deadline. */
  lemma CountIsOneIff(m: Timers, now: real, f: Fired)
    requires FiresAt(m, now, f) && m[f.timer].timeout > 0.0
    ensures f.count == 1 <==> now < m[f.timer].Deadline() + m[f.timer].timeout
  {
    var t, n := m[f.timer], f.count;
    CountPositive(n, t.timeout, now - t.started);
    if n == 1 {
      assert (n + 1) as real == 2.0;
      assert now - t.started < 2.0 * t.timeout;
    } else {
      Multiply(2, n, t.timeout);
      assert 2 as real == 2.0;
      assert 2.0 * t.timeout <= n as real * t.timeout <= now - t.started;
    }
  }

  /** Over every run, a recurring timer is armed as long as it is not deleted, and a one-shot until
    * its event: since its creation it has at most one. */
  lemma {:induction false} ArmedUntilFired(trace: seq<Timers>, steps: seq<TimerStep>, id: nat)
    requires TimerRun(trace, steps) && id in trace[|steps|]
    ensures !trace[|steps|][id].oneShot ==> trace[|steps|][id].armed
    ensures trace[|steps|][id].oneShot ==>
      TallyOf(steps, id).events <= 1 && (trace[|steps|][id].armed <==> TallyOf(steps, id).events == 0)
  {
    if steps != [] {
      RunPrefix(trace, steps);
      if !Creates(steps[|steps| - 1], id) {
        StaysFrom(trace[|steps| - 1], steps[|steps| - 1], trace[|steps|], id);
        ArmedUntilFired(trace[..|steps|], steps[..|steps| - 1], id);
      }
    }
  }

  lemma StaysFrom(m: Timers, step: TimerStep, m': Timers, id: nat)
    requires StepTo(m, step, m') && id in m' && !Creates(step, id)
    ensures id in m && m'[id].oneShot == m[id].oneShot
    ensures m'[id].target == m[id].target && m'[id].timeout == m[id].timeout
  {
  }

  /** Over every run, a timer has the timeout, the target and the kind it was last created with. */
  lemma {:induction false} AsCreated(trace: seq<Timers>, steps: seq<TimerStep>, id: nat) returns (j: nat)
    requires TimerRun(trace, steps) && id in trace[|steps|]
    ensures j < |steps| && Creates(steps[j], id)
    ensures forall k :: j < k < |steps| ==> !Creates(steps[k], id) && steps[k] != DeleteTimer(id)
    ensures var t := trace[|steps|][id];
      && t.timeout == steps[j].timeout && t.oneShot == steps[j].oneShot
      && t.target == if steps[j].target == 0 then id else steps[j].target
  {
    RunPrefix(trace, steps);
    var n := |steps| - 1;
    if Creates(steps[n], id) {
      j := n;
    } else {
      StaysFrom(trace[n], steps[n], trace[n + 1], id);
      j := AsCreated(trace[..n + 1], steps[..n], id);
    }
  }
}
