/**
  * src/lib/base/Stopwatch.cpp. Every operation that reads the clock takes the
  * reading as `now`; the history of the watch is kept as a ghost field and says,
  * independently of `mark`, for how long the watch has run since it was reset.
  */
module Stopwatches {

  /** After the operation at time `at`: does the watch run, and was its total zeroed? */
  datatype Entry = Entry(at: real, running: bool, zeroed: bool)

  /** Total length, up to `now`, of the intervals in which the watch ran since the last zeroing. */
  ghost function RunningTime(history: seq<Entry>, now: real): real {
    if history == [] then 0.0 else
      var last := history[|history| - 1];
      (if last.running then now - last.at else 0.0)
      + (if last.zeroed then 0.0 else RunningTime(history[..|history| - 1], last.at))
  }

  lemma RunningTimeStep(history: seq<Entry>, e: Entry, now: real)
    ensures RunningTime(history + [e], now) ==
      (if e.running then now - e.at else 0.0) + (if e.zeroed then 0.0 else RunningTime(history, e.at))
  {
    assert (history + [e])[..|history|] == history;
  }

  /** Between two operations the clock only moves the total when the watch runs. */
  lemma RunningTimeLinear(history: seq<Entry>, t: real, now: real)
    requires history != []
    ensures RunningTime(history, now) ==
      RunningTime(history, t) + if history[|history| - 1].running then now - t else 0.0
  {
  }

  /** The clock never went back. */
  ghost predicate Monotone(history: seq<Entry>, now: real) {
    && (forall i :: 0 < i < |history| ==> history[i - 1].at <= history[i].at)
    && (history != [] ==> history[|history| - 1].at <= now)
  }

  /** Under such a clock the total is never negative. */
  lemma {:induction false} RunningTimeNonNegative(history: seq<Entry>, now: real)
    requires Monotone(history, now)
    ensures RunningTime(history, now) >= 0.0
  {
    if history != [] {
      RunningTimeNonNegative(history[..|history| - 1], history[|history| - 1].at);
    }
  }

  /** When the state after operation `i` ended. */
  function End(history: seq<Entry>, i: nat, now: real): real
    requires i < |history|
  {
    if i + 1 < |history| then history[i + 1].at else now
  }

  /** Nothing zeroed the total after operation `i`. */
  predicate Counts(history: seq<Entry>, i: nat)
    requires i < |history|
  {
    forall j :: i < j < |history| ==> !history[j].zeroed
  }

  /** Every interval in which the watch ran since it was last zeroed has length zero. */
  ghost predicate StoodStill(history: seq<Entry>, now: real) {
    forall i :: 0 <= i < |history| && history[i].running && Counts(history, i) ==> End(history, i, now) == history[i].at
  }

  lemma StoodStillStep(history: seq<Entry>, now: real)
    requires history != []
    ensures var last := history[|history| - 1];
      StoodStill(history, now) <==>
        (last.running ==> now == last.at) && (last.zeroed || StoodStill(history[..|history| - 1], last.at))
  {
    var n := |history| - 1;
    var last, before := history[n], history[..n];
    assert Counts(history, n);
    forall i | 0 <= i < n
      ensures Counts(history, i) <==> Counts(before, i) && !last.zeroed
      ensures End(history, i, now) == End(before, i, last.at)
    {
    }
    if StoodStill(history, now) && !last.zeroed {
      forall i | 0 <= i < n && before[i].running && Counts(before, i) ensures End(before, i, last.at) == before[i].at {
        assert Counts(history, i);
      }
    }
  }

  /** A reading is zero exactly when the watch has not run since it was last zeroed. */
  lemma {:induction false} ZeroIffStoodStill(history: seq<Entry>, now: real)
    requires Monotone(history, now)
    ensures RunningTime(history, now) == 0.0 <==> StoodStill(history, now)
  {
    hide StoodStill;
    if history != [] {
      var n := |history| - 1;
      StoodStillStep(history, now);
      ZeroIffStoodStill(history[..n], history[n].at);
      RunningTimeNonNegative(history[..n], history[n].at);
    } else {
      NothingRan(now);
    }
  }

  lemma NothingRan(now: real)
    ensures StoodStill([], now)
  {
  }

  class Stopwatch {
    var mark: real
    var triggered: bool
    var stopped: bool
    ghost var history: seq<Entry>

    /** The trigger is only set on a stopped watch; `mark` is the total of a stopped
      * watch, and the time at which a running one would have had to start. */
    ghost predicate Valid()
      reads this
    {
      && history != []
      && (triggered ==> stopped)
      && history[|history| - 1].running == !stopped
      && (forall now :: Elapsed(now) == RunningTime(history, now))
    }

    function Elapsed(now: real): real
      reads this
    {
      if stopped then mark else now - mark
    }

    constructor (triggered: bool, now: real)
      ensures Valid()
      ensures this.triggered == triggered && stopped == triggered
      ensures history == [Entry(now, !triggered, true)]
      ensures mark == if triggered then 0.0 else now
    {
      mark := 0.0;
      this.triggered := triggered;
      stopped := triggered;
      history := [Entry(now, !triggered, true)];
      if !triggered {
        mark := now;
      }
    }

    /** `reset`: returns the total so far and zeroes it; a stopped watch stays stopped,
      * a set trigger stays set. */
    method Reset(now: real) returns (dt: real)
      requires Valid()
      modifies this
      ensures Valid()
      ensures dt == RunningTime(old(history), now)
      ensures history == old(history) + [Entry(now, !stopped, true)]
      ensures stopped == old(stopped) && triggered == old(triggered)
      ensures mark == if stopped then 0.0 else now
    {
      dt := Elapsed(now);
      if stopped {
        mark := 0.0;
      } else {
        mark := now;
      }
      Log(Entry(now, !stopped, true));
    }

    method Stop(now: real)
      requires Valid()
      modifies this
      ensures Valid() && stopped && triggered == old(triggered)
      ensures history == if old(stopped) then old(history) else old(history) + [Entry(now, false, false)]
    {
      if stopped {
        return;
      }
      mark := now - mark;
      stopped := true;
      Log(Entry(now, false, false));
    }

    /** `start`: takes the trigger away even from a watch that already runs. */
    method Start(now: real)
      requires Valid()
      modifies this
      ensures Valid() && !stopped && !triggered
      ensures history == if old(stopped) then old(history) + [Entry(now, true, false)] else old(history)
    {
      triggered := false;
      if !stopped {
        return;
      }
      mark := now - mark;
      stopped := false;
      Log(Entry(now, true, false));
    }

    method SetTrigger(now: real)
      requires Valid()
      modifies this
      ensures Valid() && stopped && triggered
      ensures history == if old(stopped) then old(history) else old(history) + [Entry(now, false, false)]
    {
      Stop(now);
      triggered := true;
    }

    /** `getTime`: the total since the last reset; a set trigger starts the watch. With the
      * trigger set or not, it is zero exactly when the watch has not run since that reset. */
    method GetTime(now: real) returns (dt: real)
      requires Valid()
      modifies this
      ensures Valid() && !triggered
      ensures dt == RunningTime(old(history), now)
      ensures stopped == (old(stopped) && !old(triggered))
      ensures history == if old(triggered) then old(history) + [Entry(now, true, false)] else old(history)
      ensures !old(triggered) ==> mark == old(mark)
      ensures Monotone(old(history), now) ==> (dt == 0.0 <==> StoodStill(old(history), now))
    {
      hide StoodStill, Monotone, RunningTime;
      if Monotone(history, now) {
        ZeroIffStoodStill(history, now);
      }
      dt := Elapsed(now);
      if triggered {
        Start(now);
      }
    }

    /** `getTime() const`: the same number, nothing changes. */
    method PeekTime(now: real) returns (dt: real)
      requires Valid()
      ensures dt == RunningTime(history, now)
    {
      if stopped {
        dt := mark;
      } else {
        dt := now - mark;
      }
      assert dt == Elapsed(now);
    }

    ghost method Log(e: Entry)
      requires history != [] && e.running == !stopped && (triggered ==> stopped)
      requires forall now ::
        Elapsed(now) == (if e.running then now - e.at else 0.0) + (if e.zeroed then 0.0 else RunningTime(history, e.at))
      modifies this`history
      ensures Valid() && history == old(history) + [e]
    {
      forall now ensures Elapsed(now) == RunningTime(history + [e], now) {
        RunningTimeStep(history, e, now);
      }
      history := history + [e];
    }
  }

  /** A set trigger does not make the reading zero: a watch that ran for one second before its
    * trigger was set shows that second. */
  method TriggeredReading() returns (dt: real)
    ensures dt == 1.0
  {
    var w := new Stopwatch(false, 0.0);
    w.SetTrigger(1.0);
    assert w.triggered;
    dt := w.GetTime(2.0);
    RunningTimeStep([], Entry(0.0, true, true), 1.0);
    RunningTimeStep([Entry(0.0, true, true)], Entry(1.0, false, false), 2.0);
    assert [] + [Entry(0.0, true, true)] == [Entry(0.0, true, true)];
  }
}
