/**
  * src/lib/client/Client.cpp: the connection and the clipboards of a client.
  *
  * Everything happens in handlers that run only while they are registered, so the
  * assertions in the source rest on the table of registered handlers. That table is
  * kept here next to a ghost `view` that says what is in it, and `Valid` ties both
  * to the phase of the connection.
  */
module Clients {
  import opened Options
  import opened ClientMachine
  import History = ClipboardHistory

  datatype Kind =
    | PlainConnected | SecureConnected | ConnectionFailed
    | SocketDisconnected | InputReady | OutputError | InputShutdown | OutputShutdown | StopRetry
    | ShapeChanged | ClipboardGrabbed | SuspendScreen | ResumeScreen | TimerExpired

  datatype Target = Screen | Stream(id: nat) | TimerOf(id: nat)

  datatype Key = Key(kind: Kind, target: Target)

  datatype Job =
    | HandleConnected | HandleConnectionFailed | HandleConnectTimeout | HandleOutputError | HandleDisconnected
    | HandleHello | HandleData | HandleStopRetry
    | HandleShapeChanged | HandleClipboardGrabbed | HandleSuspend | HandleResume

  /** Which groups of handlers are registered. `input` is the handler for input on the
    * stream; `secured` are the streams with a handler for a secure connection, which is
    * never removed. */
  datatype View = View(
    crypto: bool, stream: Option<nat>, timer: Option<nat>, secured: set<nat>,
    connecting: bool, connection: bool, input: Option<Job>, screen: bool)

  function JobFor(v: View, k: Key): Option<Job> {
    var here := v.stream.Some? && k.target == Stream(v.stream.value);
    match k.kind
    case PlainConnected => if here && v.connecting && !v.crypto then Some(HandleConnected) else None
    case SecureConnected => if k.target.Stream? && k.target.id in v.secured then Some(HandleConnected) else None
    case ConnectionFailed => if here && v.connecting then Some(HandleConnectionFailed) else None
    case SocketDisconnected => if here && v.connection then Some(HandleDisconnected) else None
    case InputReady => if here then v.input else None
    case OutputError => if here && v.connection then Some(HandleOutputError) else None
    case InputShutdown => if here && v.connection then Some(HandleDisconnected) else None
    case OutputShutdown => if here && v.connection then Some(HandleDisconnected) else None
    case StopRetry => if here && v.connection then Some(HandleStopRetry) else None
    case ShapeChanged => if k.target == Screen && v.screen then Some(HandleShapeChanged) else None
    case ClipboardGrabbed => if k.target == Screen && v.screen then Some(HandleClipboardGrabbed) else None
    case SuspendScreen => if k.target == Screen then Some(HandleSuspend) else None
    case ResumeScreen => if k.target == Screen then Some(HandleResume) else None
    case TimerExpired =>
      if v.timer.Some? && k.target == TimerOf(v.timer.value) then Some(HandleConnectTimeout) else None
  }

  ghost predicate Fits(handlers: map<Key, Job>, v: View) {
    forall k :: if k in handlers then JobFor(v, k) == Some(handlers[k]) else JobFor(v, k) == None
  }

  ghost predicate Below(addresses: set<nat>, end: nat) {
    forall a :: a in addresses ==> a < end
  }

  /** The handlers each phase has. */
  function PhaseView(v: View, phase: Phase): View {
    v.(connecting := phase == Connecting,
       connection := phase == AwaitHello || phase == Up,
       input := match phase case AwaitHello => Some(HandleHello) case Up => Some(HandleData) case _ => None,
       screen := phase == Up)
  }

  /** The handlers registered tell the phase, except that a stream whose secure connection
    * may still come looks the same. */
  lemma HandlersTellPhase(handlers: map<Key, Job>, v: View, w: View, p: Phase, q: Phase)
    requires Fits(handlers, PhaseView(v, p)) && Fits(handlers, PhaseView(w, q))
    requires v.stream.None? <==> p == Idle
    requires w.stream.None? <==> q == Idle
    ensures p == q && v.stream == w.stream
  {
    KeyOfPhase(handlers, v, p);
    KeyOfPhase(handlers, w, q);
  }

  lemma KeyOfPhase(handlers: map<Key, Job>, v: View, p: Phase)
    requires Fits(handlers, PhaseView(v, p)) && (v.stream.None? <==> p == Idle)
    ensures forall k :: k in handlers && k.kind == ConnectionFailed ==>
      p == Connecting && k.target == Stream(v.stream.value)
    ensures forall k :: k in handlers && k.kind == InputReady ==>
      k.target == Stream(v.stream.value) && (p == AwaitHello || p == Up) && PhaseView(v, p).input == Some(handlers[k])
    ensures p == Connecting ==> Key(ConnectionFailed, Stream(v.stream.value)) in handlers
    ensures p == AwaitHello || p == Up ==> Key(InputReady, Stream(v.stream.value)) in handlers
  {
  }

  /** Whatever event is delivered, its handler is called in a phase it is meant for, and the
    * assertions in it hold. The exceptions are exactly the announcements of a secure
    * connection on a client that has no stream or already has a server. */
  lemma DeliveredIsEnabled(hostMode: bool, s: Session, v: View, k: Key, job: Job, hello: Hello, attempt: Attempt)
    requires JobFor(PhaseView(v, s.phase), k) == Some(job)
    requires v.stream.None? <==> s.phase == Idle
    requires v.timer.Some? <==> !hostMode && (s.phase == Connecting || s.phase == AwaitHello)
    ensures var step := StepOf(job, hello, attempt);
      step.Some? ==>
        (Enabled(hostMode, s, step.value) <==> !(k.kind == SecureConnected && (s.phase == Idle || s.phase == Up)))
    ensures job == HandleShapeChanged || job == HandleClipboardGrabbed || job == HandleData ==> s.phase == Up
    ensures !v.crypto && v.secured == {} ==> k.kind != SecureConnected
  {
  }

  function ConnectingJobs(crypto: bool, stream: nat): map<Key, Job> {
    map[Key(if crypto then SecureConnected else PlainConnected, Stream(stream)) := HandleConnected,
        Key(ConnectionFailed, Stream(stream)) := HandleConnectionFailed]
  }

  lemma ConnectingSetUp(handlers: map<Key, Job>, v: View)
    requires Fits(handlers, v) && v.stream.Some? && !v.connecting
    ensures Fits(handlers + ConnectingJobs(v.crypto, v.stream.value),
                 v.(connecting := true, secured := v.secured + if v.crypto then {v.stream.value} else {}))
  {
    FitsAdopted(handlers, v, ConnectingJobs(v.crypto, v.stream.value),
                v.(connecting := true, secured := v.secured + if v.crypto then {v.stream.value} else {}));
  }

  function ConnectionJobs(stream: nat): map<Key, Job> {
    map[Key(SocketDisconnected, Stream(stream)) := HandleDisconnected,
        Key(InputReady, Stream(stream)) := HandleHello,
        Key(OutputError, Stream(stream)) := HandleOutputError,
        Key(InputShutdown, Stream(stream)) := HandleDisconnected,
        Key(OutputShutdown, Stream(stream)) := HandleDisconnected,
        Key(StopRetry, Stream(stream)) := HandleStopRetry]
  }

  function ScreenJobs(stream: nat): map<Key, Job> {
    map[Key(InputReady, Stream(stream)) := HandleData,
        Key(ShapeChanged, Screen) := HandleShapeChanged,
        Key(ClipboardGrabbed, Screen) := HandleClipboardGrabbed]
  }

  lemma FitsAdopted(handlers: map<Key, Job>, v: View, jobs: map<Key, Job>, v': View)
    requires Fits(handlers, v)
    requires forall k :: JobFor(v', k) == if k in jobs then Some(jobs[k]) else JobFor(v, k)
    ensures Fits(handlers + jobs, v')
  {
    hide JobFor;
  }

  lemma FitsRemoved(handlers: map<Key, Job>, v: View, keys: set<Key>, v': View)
    requires Fits(handlers, v)
    requires forall k :: JobFor(v', k) == if k in keys then None else JobFor(v, k)
    ensures Fits(handlers - keys, v')
  {
    hide JobFor;
  }

  lemma ConnectionSetUp(handlers: map<Key, Job>, v: View)
    requires Fits(handlers, v) && v.stream.Some?
    ensures Fits(handlers + ConnectionJobs(v.stream.value), v.(connection := true, input := Some(HandleHello)))
  {
    FitsAdopted(handlers, v, ConnectionJobs(v.stream.value), v.(connection := true, input := Some(HandleHello)));
  }

  lemma AdoptOneByOne(handlers: map<Key, Job>, s: nat)
    ensures handlers[Key(SocketDisconnected, Stream(s)) := HandleDisconnected]
                    [Key(InputReady, Stream(s)) := HandleHello]
                    [Key(OutputError, Stream(s)) := HandleOutputError]
                    [Key(InputShutdown, Stream(s)) := HandleDisconnected]
                    [Key(OutputShutdown, Stream(s)) := HandleDisconnected]
                    [Key(StopRetry, Stream(s)) := HandleStopRetry]
            == handlers + ConnectionJobs(s)
  {
  }

  lemma ConnectionCleanedUp(handlers: map<Key, Job>, v: View)
    requires Fits(handlers, v) && v.stream.Some?
    ensures Fits(handlers - ConnectionJobs(v.stream.value).Keys, v.(connection := false, input := None))
  {
    FitsRemoved(handlers, v, ConnectionJobs(v.stream.value).Keys, v.(connection := false, input := None));
  }

  lemma RemoveOneByOne(handlers: map<Key, Job>, s: nat)
    ensures handlers - {Key(InputReady, Stream(s))} - {Key(OutputError, Stream(s))} - {Key(InputShutdown, Stream(s))}
            - {Key(OutputShutdown, Stream(s))} - {Key(SocketDisconnected, Stream(s))} - {Key(StopRetry, Stream(s))}
            == handlers - ConnectionJobs(s).Keys
  {
  }

  lemma ScreenSetUp(handlers: map<Key, Job>, v: View)
    requires Fits(handlers, v) && v.stream.Some?
    ensures Fits(handlers + ScreenJobs(v.stream.value), v.(input := Some(HandleData), screen := true))
  {
    FitsAdopted(handlers, v, ScreenJobs(v.stream.value), v.(input := Some(HandleData), screen := true));
  }

  lemma ScreenCleanedUp(handlers: map<Key, Job>, v: View)
    requires Fits(handlers, v) && v.stream.Some?
    ensures Fits(handlers - ScreenJobs(v.stream.value).Keys, v.(input := None, screen := false))
  {
    FitsRemoved(handlers, v, ScreenJobs(v.stream.value).Keys, v.(input := None, screen := false));
  }

  /** The step a handler takes, when it is one of the connection machine. */
  function StepOf(job: Job, hello: Hello, attempt: Attempt): Option<Step> {
    match job
    case HandleConnected => Some(SocketConnected)
    case HandleConnectionFailed => Some(SocketFailed)
    case HandleConnectTimeout => Some(Timeout)
    case HandleOutputError => Some(ConnectionLost)
    case HandleDisconnected => Some(ConnectionLost)
    case HandleHello => Some(HelloArrived(hello))
    case HandleSuspend => Some(Suspend)
    case HandleResume => Some(Resume(attempt))
    case HandleData => None
    case HandleStopRetry => None
    case HandleShapeChanged => None
    case HandleClipboardGrabbed => None
  }

  lemma NewStreamFits(handlers: map<Key, Job>, v: View, stream: nat)
    requires Fits(handlers, v) && v.stream.None? && v == PhaseView(v, Idle)
    ensures Fits(handlers, v.(stream := Some(stream)))
  {
  }

  lemma HelloIsNext(handlers: map<Key, Job>, v: View)
    requires Fits(handlers, v) && v.stream.Some? && v.input == Some(HandleHello) && !v.connecting
    ensures Key(InputReady, Stream(v.stream.value)) in handlers
    ensures handlers[Key(InputReady, Stream(v.stream.value))] == HandleHello
    ensures Key(ConnectionFailed, Stream(v.stream.value)) !in handlers
  {
    assert JobFor(v, Key(ConnectionFailed, Stream(v.stream.value))) == None;
    assert JobFor(v, Key(InputReady, Stream(v.stream.value))) == Some(HandleHello);
  }

  /** The handler for a secure connection stays for every stream that ever had it. */
  lemma SecureStays(handlers: map<Key, Job>, v: View)
    requires Fits(handlers, v)
    ensures forall a :: a in v.secured ==>
      Key(SecureConnected, Stream(a)) in handlers && handlers[Key(SecureConnected, Stream(a))] == HandleConnected
  {
    forall a | a in v.secured
      ensures Key(SecureConnected, Stream(a)) in handlers
      ensures handlers[Key(SecureConnected, Stream(a))] == HandleConnected
    {
      assert JobFor(v, Key(SecureConnected, Stream(a))) == Some(HandleConnected);
    }
  }

  /** What the screen has on a clipboard, in marshalled form, and since when. */
  datatype Snapshot = Snapshot(time: nat, data: string)

  class Client {
    const hostMode: bool
    const crypto: bool
    var stream: Option<nat>
    var timer: Option<nat>
    var server: bool
    var ready: bool
    var suspended: bool
    var connectOnResume: bool
    var restartable: bool
    var handlers: map<Key, Job>
    var nextAddress: nat
    var active: bool
    const ownClipboard: array<bool>
    const sentClipboard: array<bool>
    const timeClipboard: array<nat>
    const dataClipboard: array<string>
    var enableClipboard: bool
    var maximumClipboardSize: nat
    ghost var phase: Phase
    ghost var view: View
    ghost var notices: seq<Notice>
    ghost var log: seq<History.Entry>

    ghost function State(): Session
      reads this
    {
      Session(phase, ready, suspended, connectOnResume, notices)
    }

    /** The table of handlers is what `view` says, in and between all operations. */
    ghost predicate Linked()
      reads this
    {
      && Fits(handlers, view)
      && view.crypto == crypto && view.stream == stream && view.timer == timer && view.screen == server
      && (stream.Some? ==> stream.value < nextAddress)
      && (timer.Some? ==> timer.value < nextAddress)
      && Below(view.secured, nextAddress)
    }

    /** Between operations: the phase decides everything else. */
    ghost predicate Valid()
      reads this
    {
      && Linked() && Inv(State())
      && view == PhaseView(view, phase)
      && (stream.None? <==> phase == Idle)
      && (timer.Some? <==> !hostMode && (phase == Connecting || phase == AwaitHello))
      && (crypto && stream.Some? ==> stream.value in view.secured)
      && (!crypto ==> view.secured == {})
    }

    /** The clipboard flags and the saved data summarise the history since the first
      * connection; before that they hold whatever was in memory. */
    ghost predicate ClipsValid()
      reads this, ownClipboard, sentClipboard, timeClipboard, dataClipboard
    {
      && ownClipboard.Length == sentClipboard.Length == timeClipboard.Length == dataClipboard.Length
      && ownClipboard.Length == History.CLIPBOARD_END
      && ownClipboard != sentClipboard
      && (enableClipboard ==> maximumClipboardSize > 0)
      && History.Proper(log)
      && (phase == AwaitHello || phase == Up ==> log != [])
      && (log != [] ==> forall id: nat :: id < History.CLIPBOARD_END ==> Summarises(id))
    }

    ghost predicate Summarises(id: nat)
      requires id < ownClipboard.Length == sentClipboard.Length == dataClipboard.Length
      reads this`log, ownClipboard, sentClipboard, dataClipboard
    {
      && ownClipboard[id] == History.Owns(log, id)
      && History.Known(log, id) == if sentClipboard[id] then Some(dataClipboard[id]) else None
    }

    constructor (hostMode: bool, crypto: bool)
      ensures Valid() && State() == START && ClipsValid() && log == []
      ensures State() == Session(Idle, false, false, false, [])
      ensures enableClipboard && maximumClipboardSize == 0x7FFF_FFFF && restartable
      ensures handlers == map[Key(SuspendScreen, Screen) := HandleSuspend, Key(ResumeScreen, Screen) := HandleResume]
      ensures fresh(ownClipboard) && fresh(sentClipboard) && fresh(timeClipboard) && fresh(dataClipboard)
      ensures this.hostMode == hostMode && this.crypto == crypto
    {
      this.hostMode, this.crypto := hostMode, crypto;
      stream, timer, server, ready, suspended, connectOnResume := None, None, false, false, false, false;
      restartable := true;
      nextAddress := 1;
      handlers := map[Key(SuspendScreen, Screen) := HandleSuspend, Key(ResumeScreen, Screen) := HandleResume];
      active, enableClipboard, maximumClipboardSize := false, true, 0x7FFF_FFFF;
      ownClipboard := new bool[History.CLIPBOARD_END];
      sentClipboard := new bool[History.CLIPBOARD_END];
      timeClipboard := new nat[History.CLIPBOARD_END];
      dataClipboard := new string[History.CLIPBOARD_END];
      phase, notices, log := Idle, [], [];
      view := View(crypto, None, None, {}, false, false, None, false);
    }

    // ------------------------------------------------------- setting up, cleaning up

    method SetupConnecting()
      requires Linked() && stream.Some? && !view.connecting
      modifies this`handlers, this`view
      ensures Linked()
      ensures view == old(view).(
        connecting := true, secured := old(view).secured + if crypto then {stream.value} else {})
    {
      hide Fits, JobFor;
      assert stream.Some?;
      ConnectingSetUp(handlers, view);
      var target := Stream(stream.value);
      if crypto {
        handlers := handlers[Key(SecureConnected, target) := HandleConnected];
      } else {
        handlers := handlers[Key(PlainConnected, target) := HandleConnected];
      }
      handlers := handlers[Key(ConnectionFailed, target) := HandleConnectionFailed];
      assert handlers == old(handlers) + ConnectingJobs(crypto, stream.value);
      view := view.(connecting := true, secured := view.secured + if crypto then {stream.value} else {});
    }

    method SetupConnection()
      requires Linked() && stream.Some?
      modifies this`handlers, this`view
      ensures Linked() && view == old(view).(connection := true, input := Some(HandleHello))
    {
      hide Fits, ConnectionJobs;
      assert stream.Some?;
      ConnectionSetUp(handlers, view);
      AdoptOneByOne(handlers, stream.value);
      var target := Stream(stream.value);
      handlers := handlers[Key(SocketDisconnected, target) := HandleDisconnected];
      handlers := handlers[Key(InputReady, target) := HandleHello];
      handlers := handlers[Key(OutputError, target) := HandleOutputError];
      handlers := handlers[Key(InputShutdown, target) := HandleDisconnected];
      handlers := handlers[Key(OutputShutdown, target) := HandleDisconnected];
      handlers := handlers[Key(StopRetry, target) := HandleStopRetry];
      view := view.(connection := true, input := Some(HandleHello));
    }

    /** The server proxy takes the input of the stream over when it is made. */
    method SetupScreen()
      requires Linked() && stream.Some? && !server
      modifies this`handlers, this`view, this`server, this`ready
      ensures Linked() && server && !ready
      ensures view == old(view).(input := Some(HandleData), screen := true)
    {
      hide Fits;
      assert !server;
      ScreenSetUp(handlers, view);
      ready := false;
      server := true;
      handlers := handlers[Key(InputReady, Stream(stream.value)) := HandleData];
      handlers := handlers[Key(ShapeChanged, Screen) := HandleShapeChanged];
      handlers := handlers[Key(ClipboardGrabbed, Screen) := HandleClipboardGrabbed];
      assert handlers == old(handlers) + ScreenJobs(stream.value);
      view := view.(input := Some(HandleData), screen := true);
    }

    method SetupTimer()
      requires Linked() && timer.None?
      modifies this`handlers, this`view, this`timer, this`nextAddress
      ensures Linked() && (timer.Some? <==> !hostMode)
      ensures view == old(view).(timer := timer)
    {
      assert timer.None?;
      if !hostMode {
        timer := Some(nextAddress);
        nextAddress := nextAddress + 1;
        handlers := handlers[Key(TimerExpired, TimerOf(timer.value)) := HandleConnectTimeout];
        view := view.(timer := timer);
      }
    }

    method CleanupConnecting()
      requires Linked()
      modifies this`handlers, this`view
      ensures Linked() && view == old(view).(connecting := stream.None? && old(view).connecting)
      ensures stream.None? ==> handlers == old(handlers)
    {
      if stream.Some? {
        var target := Stream(stream.value);
        handlers := handlers - {Key(PlainConnected, target)};
        handlers := handlers - {Key(ConnectionFailed, target)};
        view := view.(connecting := false);
      }
    }

    method CleanupConnection()
      requires Linked() && !view.connecting
      modifies this`handlers, this`view, this`stream
      ensures Linked() && stream.None?
      ensures view == if old(stream).None? then old(view)
                      else old(view).(connection := false, input := None, stream := None)
    {
      hide Fits, ConnectionJobs, JobFor, Below;
      if stream.Some? {
        ConnectionCleanedUp(handlers, view);
        RemoveOneByOne(handlers, stream.value);
        var target := Stream(stream.value);
        handlers := handlers - {Key(InputReady, target)};
        handlers := handlers - {Key(OutputError, target)};
        handlers := handlers - {Key(InputShutdown, target)};
        handlers := handlers - {Key(OutputShutdown, target)};
        handlers := handlers - {Key(SocketDisconnected, target)};
        handlers := handlers - {Key(StopRetry, target)};
        view := view.(connection := false, input := None);
        CleanupStream();
      }
    }

    /** Deleting the server proxy also removes its handler for input. */
    method CleanupScreen()
      requires Linked() && (server ==> stream.Some?)
      modifies this`handlers, this`view, this`server, this`ready
      ensures Linked() && !server && ready == (old(ready) && !old(server))
      ensures view == if old(server) then old(view).(screen := false, input := None) else old(view)
    {
      hide Fits;
      if server {
        if ready {
          ready := false;
        }
        ScreenCleanedUp(handlers, view);
        handlers := handlers - {Key(ShapeChanged, Screen)};
        handlers := handlers - {Key(ClipboardGrabbed, Screen)};
        server := false;
        handlers := handlers - {Key(InputReady, Stream(stream.value))};
        assert handlers == old(handlers) - ScreenJobs(stream.value).Keys;
        view := view.(screen := false, input := None);
      }
    }

    method CleanupTimer()
      requires Linked()
      modifies this`handlers, this`view, this`timer
      ensures Linked() && timer.None? && view == old(view).(timer := None)
    {
      if timer.Some? {
        handlers := handlers - {Key(TimerExpired, TimerOf(timer.value))};
        timer := None;
        view := view.(timer := None);
      }
    }

    /** How every disconnection begins. */
    method CleanupTimerAndScreen()
      requires Linked() && (server ==> stream.Some?)
      modifies this`handlers, this`view, this`timer, this`server, this`ready
      ensures Linked() && timer.None? && !server && ready == (old(ready) && !old(server))
      ensures view == old(view).(timer := None, screen := false, input := if old(server) then None else old(view).input)
    {
      hide Fits, JobFor, Below;
      CleanupTimer();
      CleanupScreen();
    }

    method CleanupStream()
      requires Linked() && !view.connecting && !view.connection && view.input.None?
      modifies this`view, this`stream
      ensures Linked() && stream.None? && view == old(view).(stream := None)
    {
      stream := None;
      view := view.(stream := None);
    }
  
    // ------------------------------------------------------------ calls on the client

    method Connect(attempt: Attempt)
      requires Valid()
      modifies this`stream, this`timer, this`connectOnResume, this`handlers, this`nextAddress
      modifies this`phase, this`view, this`notices
      ensures Valid() && State() == Next(old(State()), Step.Connect(attempt))
      ensures old(view).secured <= view.secured
      ensures old(stream).None? && stream.Some? ==> stream.value >= old(nextAddress)
    {
      hide Fits, JobFor;
      if stream.Some? {
        return;
      }
      if suspended {
        connectOnResume := true;
        return;
      }
      if attempt != NoSocket {
        StartAttempt();
      }
      if attempt != Started {
        AbandonAttempt();
        notices := notices + [Failed];
      }
    }

    method StartAttempt()
      requires Valid() && phase == Idle && !suspended
      modifies this`stream, this`timer, this`handlers, this`nextAddress, this`phase, this`view
      ensures Valid() && State() == old(State()).(phase := Connecting)
      ensures old(view).secured <= view.secured && stream == Some(old(nextAddress))
    {
      hide Fits, JobFor;
      stream := Some(nextAddress);
      nextAddress := nextAddress + 1;
      NewStreamFits(handlers, view, stream.value);
      view := view.(stream := stream);
      SetupConnecting();
      SetupTimer();
      phase := Connecting;
    }

    method AbandonAttempt()
      requires Valid() && (phase == Idle || phase == Connecting)
      modifies this`stream, this`timer, this`handlers, this`phase, this`view
      ensures Valid() && State() == old(State()).(phase := Idle)
      ensures view.secured == old(view).secured
    {
      hide Fits, JobFor, Below;
      CleanupTimer();
      CleanupConnecting();
      CleanupStream();
      phase := Idle;
    }

    method Cleanup()
      requires Valid()
      modifies this`stream, this`timer, this`server, this`ready, this`connectOnResume, this`handlers
      modifies this`phase, this`view
      ensures Valid() && State() == old(State()).(phase := Idle, ready := false, reconnect := false)
      ensures view.secured == old(view).secured
    {
      hide Fits, JobFor, Below;
      connectOnResume := false;
      CleanupTimerAndScreen();
      CleanupConnecting();
      CleanupConnection();
      phase := Idle;
    }

    method Disconnect(message: bool)
      requires Valid()
      modifies this`stream, this`timer, this`server, this`ready, this`connectOnResume, this`handlers
      modifies this`phase, this`view
      modifies this`notices
      ensures Valid() && State() == Next(old(State()), Step.Disconnect(message))
      ensures view.secured == old(view).secured
    {
      hide Fits, JobFor;
      Cleanup();
      if message {
        notices := notices + [Failed];
      } else {
        notices := notices + [Disconnected];
      }
    }

    method RefuseConnection(message: bool)
      requires Valid()
      modifies this`stream, this`timer, this`server, this`ready, this`connectOnResume, this`handlers
      modifies this`phase, this`view
      modifies this`notices
      ensures Valid() && State() == Next(old(State()), Refuse(message))
    {
      hide Fits, JobFor;
      Cleanup();
      if message {
        notices := notices + [Refused];
      }
    }

    /** Called by the server proxy. */
    method CompleteHandshake()
      requires Valid() && server
      modifies this`ready, this`notices
      ensures Valid() && State() == Next(old(State()), HandshakeComplete)
    {
      hide Fits, JobFor;
      ready := true;
      notices := notices + [Connected];
    }

    // ------------------------------------------------------------------- handlers

    /** The one handler that may come out of turn. `ok` is whether the assertion of
      * `setupConnection`, which asks for a stream and nothing else, holds; where it does not,
      * nothing has been changed. Beside a server the input goes back to the hello handler. */
    method OnConnected() returns (ok: bool)
      requires Valid() && ClipsValid()
      modifies this`handlers, this`view, this`phase, this`log
      modifies ownClipboard, sentClipboard, timeClipboard
      ensures ok <==> old(phase) != Idle
      ensures view.secured == old(view).secured && stream == old(stream)
      ensures !ok ==> Valid() && State() == old(State()) && log == old(log) && handlers == old(handlers)
      ensures Linked() && ClipsValid()
      ensures old(phase) == Connecting || old(phase) == AwaitHello ==>
        Valid() && State() == Next(old(State()), SocketConnected)
      ensures ok ==>
        && stream.Some? && Key(InputReady, Stream(stream.value)) in handlers
        && handlers[Key(InputReady, Stream(stream.value))] == HandleHello
        && Key(ConnectionFailed, Stream(stream.value)) !in handlers
        && !view.connecting && log == old(log) + [History.Connected]
      ensures ok ==> forall k: nat :: k < History.CLIPBOARD_END ==>
        !ownClipboard[k] && !sentClipboard[k] && timeClipboard[k] == 0
    {
      hide Fits, JobFor, Below;
      ghost var was := phase;
      ok := GoOnToHello();
      if !ok {
        return;
      }
      ResetClipboards();
      phase := if was == Up then Up else AwaitHello;
    }

    /** The connecting handlers give way to those of a connection. */
    method GoOnToHello() returns (ok: bool)
      requires Linked()
      modifies this`handlers, this`view
      ensures Linked() && (ok <==> stream.Some?)
      ensures !ok ==> handlers == old(handlers) && view == old(view)
      ensures ok ==>
        && view == old(view).(connecting := false, connection := true, input := Some(HandleHello))
        && Key(InputReady, Stream(stream.value)) in handlers
        && handlers[Key(InputReady, Stream(stream.value))] == HandleHello
        && Key(ConnectionFailed, Stream(stream.value)) !in handlers
    {
      hide Fits, JobFor, Below;
      CleanupConnecting();
      if stream.None? {
        return false;
      }
      SetupConnection();
      HelloIsNext(handlers, view);
      return true;
    }

    method ResetClipboards()
      requires ClipsValid()
      modifies this`log, ownClipboard, sentClipboard, timeClipboard
      ensures ClipsValid() && log == old(log) + [History.Connected]
      ensures forall k: nat :: k < History.CLIPBOARD_END ==>
        !ownClipboard[k] && !sentClipboard[k] && timeClipboard[k] == 0
    {
      log := log + [History.Connected];
      History.ProperStep(old(log), History.Connected);
      var id := 0;
      while id < History.CLIPBOARD_END
        invariant 0 <= id <= History.CLIPBOARD_END
        invariant forall k :: 0 <= k < id ==> !ownClipboard[k] && !sentClipboard[k] && timeClipboard[k] == 0
        modifies ownClipboard, sentClipboard, timeClipboard
      {
        ownClipboard[id] := false;
        sentClipboard[id] := false;
        timeClipboard[id] := 0;
        id := id + 1;
      }
      forall k: nat | k < History.CLIPBOARD_END ensures Summarises(k) {
        History.Append(old(log), History.Connected, k);
      }
    }

    method OnConnectionFailed()
      requires Valid() && phase == Connecting
      modifies this`stream, this`timer, this`handlers, this`phase, this`view, this`notices
      ensures Valid() && State() == Next(old(State()), SocketFailed)
    {
      hide Fits, JobFor, Below;
      AbandonAttempt();
      notices := notices + [Failed];
    }

    method OnConnectTimeout()
      requires Valid() && (phase == Connecting || phase == AwaitHello)
      modifies this`stream, this`timer, this`handlers, this`phase, this`view, this`notices
      ensures Valid() && State() == Next(old(State()), Timeout)
    {
      hide Fits, JobFor, Below;
      CleanupTimer();
      CleanupConnecting();
      CleanupConnection();
      CleanupStream();
      notices := notices + [Failed];
      phase := Idle;
    }

    /** `handleOutputError` and `handleDisconnected`, which do the same. */
    method OnConnectionLost()
      requires Valid() && (phase == AwaitHello || phase == Up)
      modifies this`stream, this`timer, this`server, this`ready, this`handlers, this`phase, this`view, this`notices
      ensures Valid() && State() == Next(old(State()), ConnectionLost)
    {
      hide Fits, JobFor, Below;
      CleanupTimerAndScreen();
      CleanupConnection();
      notices := notices + [Disconnected];
      phase := Idle;
    }

    /** `ok` is whether the assertion of `setupScreen` holds, that there is no server yet. */
    method OnHello(hello: Hello) returns (ok: bool)
      requires Linked() && stream.Some? && !view.connecting
      modifies this`stream, this`timer, this`server, this`ready, this`handlers, this`phase, this`view, this`notices
      ensures ok <==> hello != Accepted || !old(server)
      ensures Linked()
      ensures old(Valid() && phase == AwaitHello) ==> Valid() && State() == Next(old(State()), HelloArrived(hello))
      ensures hello != Accepted ==> stream.None? && server == old(server) && notices == old(notices) + [Failed]
    {
      hide Fits, JobFor, Below;
      if hello != Accepted {
        notices := notices + [Failed];
        CleanupTimer();
        CleanupConnection();
        phase := Idle;
        return true;
      }
      if server {
        return false;
      }
      SetupScreen();
      CleanupTimer();
      phase := Up;
      return true;
    }

    method OnSuspend()
      requires Valid()
      modifies this`stream, this`timer, this`server, this`ready, this`connectOnResume, this`handlers
      modifies this`phase, this`view
      modifies this`notices, this`suspended
      ensures Valid() && State() == Next(old(State()), Suspend)
      ensures view.secured == old(view).secured
    {
      hide Fits, JobFor, Below;
      if !suspended {
        var wasConnected := server;
        Disconnect(false);
        suspended := true;
        connectOnResume := wasConnected;
      }
    }

    method OnResume(attempt: Attempt)
      requires Valid()
      modifies this`stream, this`timer, this`connectOnResume, this`handlers, this`nextAddress
      modifies this`phase, this`view, this`notices, this`suspended
      ensures Valid() && State() == Next(old(State()), Resume(attempt))
      ensures old(view).secured <= view.secured
      ensures old(stream).None? && stream.Some? ==> stream.value >= old(nextAddress)
    {
      hide Fits, JobFor, Below;
      if suspended {
        suspended := false;
        if connectOnResume {
          connectOnResume := false;
          Connect(attempt);
        }
      }
    }

    method OnStopRetry()
      modifies this`restartable
      ensures !restartable
    {
      restartable := false;
    }

    // ------------------------------------------------------------------ clipboards

    method Enter()
      modifies this`active
      ensures active
    {
      active := true;
    }

    /** `setClipboard` and `grabClipboard`, called by the server proxy. */
    method TakeClipboard(id: nat)
      requires Valid() && ClipsValid() && server && id < History.CLIPBOARD_END
      modifies this`log, ownClipboard, sentClipboard
      ensures Valid() && ClipsValid() && log == old(log) + [History.Taken(id)]
      ensures !ownClipboard[id] && !sentClipboard[id]
      ensures forall k: nat :: k < History.CLIPBOARD_END && k != id ==>
        ownClipboard[k] == old(ownClipboard[k]) && sentClipboard[k] == old(sentClipboard[k])
    {
      hide History.Proper, History.Known, History.Owns;
      History.ProperStep(log, History.Taken(id));
      ownClipboard[id] := false;
      sentClipboard[id] := false;
      log := log + [History.Taken(id)];
      forall k: nat | k < History.CLIPBOARD_END ensures Summarises(k) {
        assert old(Summarises(k));
        History.Append(old(log), History.Taken(id), k);
      }
    }

    /** Are the contents new, and do they fit? */
    predicate Changed(id: nat, clip: Snapshot)
      requires id < timeClipboard.Length
      reads this`maximumClipboardSize, timeClipboard
    {
      (timeClipboard[id] == 0 || clip.time != timeClipboard[id]) && |clip.data| < maximumClipboardSize * 1024
    }

    /** Is there anything to send: new contents, that fit, that the server does not have? */
    predicate ToSend(id: nat, clip: Snapshot)
      requires id < sentClipboard.Length == timeClipboard.Length == dataClipboard.Length
      reads this`maximumClipboardSize, sentClipboard, timeClipboard, dataClipboard
    {
      Changed(id, clip) && (!sentClipboard[id] || clip.data != dataClipboard[id])
    }

    /** What is sent of clipboard `id` when the screen is left. */
    function Due(id: nat, clip: Snapshot): seq<History.Entry>
      requires id < ownClipboard.Length == sentClipboard.Length == timeClipboard.Length == dataClipboard.Length
      reads this`maximumClipboardSize, ownClipboard, sentClipboard, timeClipboard, dataClipboard
    {
      if ownClipboard[id] && ToSend(id, clip) then [History.Sent(id, clip.data, maximumClipboardSize * 1024)] else []
    }

    lemma DueIs(id: nat, clip: Snapshot)
      requires id < ownClipboard.Length == sentClipboard.Length == timeClipboard.Length == dataClipboard.Length
      ensures Due(id, clip) ==
        if ownClipboard[id]
           && (timeClipboard[id] == 0 || clip.time != timeClipboard[id])
           && |clip.data| < maximumClipboardSize * 1024
           && (!sentClipboard[id] || clip.data != dataClipboard[id])
        then [History.Sent(id, clip.data, maximumClipboardSize * 1024)] else []
    {
    }

    /** What is sent of the first `n` clipboards, in order. */
    function DueUpTo(n: nat, clips: seq<Snapshot>): seq<History.Entry>
      requires n <= ownClipboard.Length == sentClipboard.Length == timeClipboard.Length == dataClipboard.Length
      requires n <= |clips|
      reads this`maximumClipboardSize, ownClipboard, sentClipboard, timeClipboard, dataClipboard
    {
      if n == 0 then [] else DueUpTo(n - 1, clips) + Due(n - 1, clips[n - 1])
    }

    method SendClipboard(id: nat, clip: Snapshot)
      requires ClipsValid() && id < History.CLIPBOARD_END && log != [] && ownClipboard[id] && server
      modifies this`log, sentClipboard, timeClipboard, dataClipboard
      ensures ClipsValid()
      ensures log == old(log) + old(Due(id, clip))
      ensures log == old(log) +
        (if (old(timeClipboard[id]) == 0 || clip.time != old(timeClipboard[id]))
             && |clip.data| < maximumClipboardSize * 1024
             && (!old(sentClipboard[id]) || clip.data != old(dataClipboard[id]))
         then [History.Sent(id, clip.data, maximumClipboardSize * 1024)] else [])
      ensures log != old(log) ==> sentClipboard[id] && dataClipboard[id] == clip.data
      ensures log == old(log) ==>
        sentClipboard[id] == old(sentClipboard[id]) && dataClipboard[id] == old(dataClipboard[id])
      ensures timeClipboard[id] ==
        if (old(timeClipboard[id]) == 0 || clip.time != old(timeClipboard[id]))
           && |clip.data| < maximumClipboardSize * 1024 then clip.time else old(timeClipboard[id])
      ensures !ToSend(id, clip)
      ensures forall k: nat :: k < History.CLIPBOARD_END && k != id ==>
        && sentClipboard[k] == old(sentClipboard[k])
        && timeClipboard[k] == old(timeClipboard[k])
        && dataClipboard[k] == old(dataClipboard[k])
    {
      hide History.Proper, History.Known, History.Owns;
      assert server;
      if timeClipboard[id] == 0 || clip.time != timeClipboard[id] {
        if |clip.data| >= maximumClipboardSize * 1024 {
          return;
        }
        timeClipboard[id] := clip.time;
        if !sentClipboard[id] || clip.data != dataClipboard[id] {
          assert Summarises(id);
          ghost var entry := History.Sent(id, clip.data, maximumClipboardSize * 1024);
          History.ProperStep(log, entry);
          sentClipboard[id] := true;
          dataClipboard[id] := clip.data;
          log := log + [entry];
          forall k: nat | k < History.CLIPBOARD_END ensures Summarises(k) {
            assert old(Summarises(k));
            History.Append(old(log), entry, k);
          }
        }
      }
    }

    /** Leaving the screen sends every clipboard that is owned and has something to send, in
      * order, each once. */
    method Leave(clips: seq<Snapshot>)
      requires Valid() && ClipsValid() && server && |clips| == History.CLIPBOARD_END
      modifies this`active, this`log, sentClipboard, timeClipboard, dataClipboard
      ensures Valid() && ClipsValid() && !active
      ensures log == old(log) + if enableClipboard then old(Due(0, clips[0])) + old(Due(1, clips[1])) else []
      ensures forall id: nat :: id < History.CLIPBOARD_END ==>
        old(Due(id, clips[id])) ==
          if ownClipboard[id]
             && (old(timeClipboard[id]) == 0 || clips[id].time != old(timeClipboard[id]))
             && |clips[id].data| < maximumClipboardSize * 1024
             && (!old(sentClipboard[id]) || clips[id].data != old(dataClipboard[id]))
          then [History.Sent(id, clips[id].data, maximumClipboardSize * 1024)] else []
      ensures forall id: nat :: id < History.CLIPBOARD_END ==>
        timeClipboard[id] ==
          if enableClipboard && ownClipboard[id] && old(Changed(id, clips[id])) then clips[id].time
          else old(timeClipboard[id])
      ensures enableClipboard ==>
        forall id: nat :: id < History.CLIPBOARD_END && ownClipboard[id] ==> !ToSend(id, clips[id])
    {
      hide Fits, JobFor, Below, History.Proper, History.Known, History.Owns, Due, Changed, ToSend, Inv, Summarises;
      forall id: nat | id < History.CLIPBOARD_END {
        DueIs(id, clips[id]);
      }
      assert DueUpTo(1, clips) == Due(0, clips[0]);
      assert DueUpTo(History.CLIPBOARD_END, clips) == Due(0, clips[0]) + Due(1, clips[1]);
      active := false;
      if enableClipboard {
        SendOwned(clips);
      }
    }

    method SendOwned(clips: seq<Snapshot>)
      requires ClipsValid() && server && log != [] && |clips| == History.CLIPBOARD_END
      modifies this`log, sentClipboard, timeClipboard, dataClipboard
      ensures ClipsValid()
      ensures log == old(log) + old(DueUpTo(History.CLIPBOARD_END, clips))
      ensures forall id: nat :: id < History.CLIPBOARD_END ==>
        timeClipboard[id] ==
          if ownClipboard[id] && old(Changed(id, clips[id])) then clips[id].time else old(timeClipboard[id])
      ensures forall id: nat :: id < History.CLIPBOARD_END && ownClipboard[id] ==> !ToSend(id, clips[id])
    {
      hide History.Proper, History.Known, History.Owns, Summarises, Due, Changed, ToSend;
      var id := 0;
      while id < History.CLIPBOARD_END
        invariant 0 <= id <= History.CLIPBOARD_END
        invariant ClipsValid() && log != []
        invariant log == old(log) + old(DueUpTo(id, clips))
        invariant forall k: nat :: k < id && ownClipboard[k] ==> !ToSend(k, clips[k])
        invariant forall k: nat :: k < id ==>
          timeClipboard[k] ==
            if ownClipboard[k] && old(Changed(k, clips[k])) then clips[k].time else old(timeClipboard[k])
        invariant forall k: nat :: id <= k < History.CLIPBOARD_END ==>
          && Due(k, clips[k]) == old(Due(k, clips[k])) && Changed(k, clips[k]) == old(Changed(k, clips[k]))
          && timeClipboard[k] == old(timeClipboard[k])
        modifies this`log, sentClipboard, timeClipboard, dataClipboard
      {
        SendIfOwned(id, clips[id]);
        id := id + 1;
      }
    }

    /** One turn of that loop, which leaves every other clipboard alone. */
    method SendIfOwned(id: nat, clip: Snapshot)
      requires ClipsValid() && server && log != [] && id < History.CLIPBOARD_END
      modifies this`log, sentClipboard, timeClipboard, dataClipboard
      ensures ClipsValid() && log == old(log) + old(Due(id, clip))
      ensures ownClipboard[id] ==> !ToSend(id, clip)
      ensures timeClipboard[id] ==
        if ownClipboard[id] && old(Changed(id, clip)) then clip.time else old(timeClipboard[id])
      ensures forall k: nat, c :: k < History.CLIPBOARD_END && k != id ==>
        && Due(k, c) == old(Due(k, c)) && Changed(k, c) == old(Changed(k, c)) && ToSend(k, c) == old(ToSend(k, c))
      ensures forall k: nat :: k < History.CLIPBOARD_END && k != id ==> timeClipboard[k] == old(timeClipboard[k])
    {
      hide History.Proper, History.Known, History.Owns, Summarises;
      if ownClipboard[id] {
        SendClipboard(id, clip);
      }
    }

    /** This screen has grabbed the clipboard; the server is told, and sent the contents at
      * once when the pointer is elsewhere. */
    method OnClipboardGrabbed(id: nat, clip: Snapshot)
      requires Valid() && ClipsValid() && server && id < History.CLIPBOARD_END
      modifies this`log, ownClipboard, sentClipboard, timeClipboard, dataClipboard
      ensures Valid() && ClipsValid()
      ensures log == old(log) +
        (if !enableClipboard then []
         else [History.Grabbed(id)] +
              if !active && |clip.data| < maximumClipboardSize * 1024
              then [History.Sent(id, clip.data, maximumClipboardSize * 1024)] else [])
      ensures enableClipboard ==>
        ownClipboard[id] && (sentClipboard[id] <==> !active && |clip.data| < maximumClipboardSize * 1024)
      ensures forall k: nat :: k < History.CLIPBOARD_END && (k != id || !enableClipboard) ==>
        && ownClipboard[k] == old(ownClipboard[k]) && sentClipboard[k] == old(sentClipboard[k])
        && timeClipboard[k] == old(timeClipboard[k]) && dataClipboard[k] == old(dataClipboard[k])
    {
      hide History.Proper, History.Known, History.Owns;
      if !enableClipboard || maximumClipboardSize == 0 {
        return;
      }
      assert server;
      History.ProperStep(log, History.Grabbed(id));
      ownClipboard[id] := true;
      sentClipboard[id] := false;
      timeClipboard[id] := 0;
      log := log + [History.Grabbed(id)];
      forall k: nat | k < History.CLIPBOARD_END ensures Summarises(k) {
        assert old(Summarises(k));
        History.Append(old(log), History.Grabbed(id), k);
      }
      if !active {
        SendClipboard(id, clip);
      }
    }

    /** What a grab here adds to the history. */
    function LoggedGrab(id: nat, clip: Snapshot): seq<History.Entry>
      reads this`enableClipboard, this`active, this`maximumClipboardSize
    {
      if !enableClipboard then []
      else [History.Grabbed(id)] +
           if !active && |clip.data| < maximumClipboardSize * 1024
           then [History.Sent(id, clip.data, maximumClipboardSize * 1024)] else []
    }

    /** `setOptions`. `inside` is whether the scan stays in the list: when a clipboard option
      * comes last as a key, the loop steps over the end, and what follows is undefined. */
    method SetOptions(options: seq<nat>) returns (inside: bool)
      requires ClipsValid()
      modifies this`enableClipboard, this`maximumClipboardSize
      ensures inside <==> History.TrailingRun(options) % 2 == 0
      ensures inside ==> ClipsValid()
      ensures inside ==>
        var s := History.Scanned(options, History.Sharing(old(enableClipboard), old(maximumClipboardSize)));
        s.Some? && maximumClipboardSize == s.value.size && enableClipboard == (s.value.enabled && s.value.size != 0)
    {
      hide History.TrailingRun;
      History.ScanPassesEndIff(options, History.Sharing(enableClipboard, maximumClipboardSize));
      var index := 0;
      while index < |options|
        invariant 0 <= index <= |options|
        invariant History.Scanned(options[index..], History.Sharing(enableClipboard, maximumClipboardSize))
          == old(History.Scanned(options, History.Sharing(enableClipboard, maximumClipboardSize)))
      {
        var id := options[index];
        if id == History.OPTION_CLIPBOARD_SHARING {
          index := index + 1;
          if index == |options| {
            return false;
          }
          enableClipboard := options[index] != 0;
        } else if id == History.OPTION_CLIPBOARD_SHARING_SIZE {
          index := index + 1;
          if index == |options| {
            return false;
          }
          maximumClipboardSize := options[index];
        }
        index := index + 1;
      }
      if enableClipboard && maximumClipboardSize == 0 {
        enableClipboard := false;
      }
      return true;
    }

    // ------------------------------------------------------------------- dispatch

    /** The queue delivers any event that has a handler here; the other parameters are what
      * the outside world answers. `ok` is whether every assertion on the way holds. Without
      * encryption it is, and all is well afterwards. With encryption a secure connection
      * announced to an idle client fails an assertion, and one announced beside a server
      * leaves the hello handler in place of the proxy's. It counts for the present stream,
      * whose failure has no handler any more, whichever stream `k` says it is about. */
    method Dispatch(k: Key, hello: Hello, attempt: Attempt, id: nat, clip: Snapshot) returns (ok: bool)
      requires Valid() && ClipsValid() && k in handlers && id < History.CLIPBOARD_END
      modifies this, ownClipboard, sentClipboard, timeClipboard, dataClipboard
      ensures match k.kind
        case PlainConnected => old(phase) == Connecting && State() == Next(old(State()), SocketConnected)
        case SecureConnected => crypto &&
          (old(phase) == Connecting || old(phase) == AwaitHello ==> State() == Next(old(State()), SocketConnected))
        case ConnectionFailed => old(phase) == Connecting && State() == Next(old(State()), SocketFailed)
        case SocketDisconnected => State() == Next(old(State()), ConnectionLost)
        case InputReady =>
          if old(phase) == Up then State() == old(State()) else State() == Next(old(State()), HelloArrived(hello))
        case OutputError => State() == Next(old(State()), ConnectionLost)
        case InputShutdown => State() == Next(old(State()), ConnectionLost)
        case OutputShutdown => State() == Next(old(State()), ConnectionLost)
        case StopRetry => State() == old(State()) && !restartable
        case ShapeChanged => old(phase) == Up && State() == old(State())
        case ClipboardGrabbed => old(phase) == Up && State() == old(State())
        case SuspendScreen => State() == Next(old(State()), Suspend)
        case ResumeScreen => State() == Next(old(State()), Resume(attempt))
        case TimerExpired => State() == Next(old(State()), Timeout)
      ensures k.kind != StopRetry ==> restartable == old(restartable)
      ensures log == old(log) +
        if k.kind == ClipboardGrabbed then
          if !old(enableClipboard) then []
          else [History.Grabbed(id)] +
               if !old(active) && |clip.data| < old(maximumClipboardSize) * 1024
               then [History.Sent(id, clip.data, old(maximumClipboardSize) * 1024)] else []
        else if ok && (k.kind == PlainConnected || k.kind == SecureConnected) then [History.Connected]
        else []
      ensures ok <==> !(k.kind == SecureConnected && old(phase) == Idle)
      ensures !(k.kind == SecureConnected && old(phase) in {Idle, Up}) ==>
        && Valid()
        && match StepOf(old(handlers)[k], hello, attempt)
           case Some(step) => Enabled(hostMode, old(State()), step) && State() == Next(old(State()), step)
           case None => State() == old(State())
      ensures !ok ==> Valid() && State() == old(State())
      ensures k.kind == SecureConnected && old(phase) == Up ==> server && HelloBesideServer()
      ensures k.kind == SecureConnected && ok ==>
        stream.Some? && stream == old(stream) && Key(ConnectionFailed, Stream(stream.value)) !in handlers
      ensures ClipsValid()
    {
      hide Fits, PhaseView, JobFor, Below, Inv, Next, Enabled, History.Proper, History.Known, History.Owns;
      hide Valid, Linked, ClipsValid, Summarises;
      var job := HandlerOf(k, hello, attempt);
      if job == HandleConnected {
        ok := OnConnected();
      } else {
        ok := true;
        if StepOf(job, hello, attempt).Some? {
          RunJob(job, hello, attempt);
        } else {
          ServeJob(job, id, clip);
        }
      }
    }

    /** The next input would be taken for a hello although there is a server. */
    ghost predicate HelloBesideServer()
      reads this
    {
      && Linked() && server && stream.Some? && !view.connecting
      && Key(InputReady, Stream(stream.value)) in handlers
      && handlers[Key(InputReady, Stream(stream.value))] == HandleHello
    }

    /** The other handlers; each but one needs the server. */
    method ServeJob(job: Job, id: nat, clip: Snapshot)
      requires Valid() && ClipsValid() && id < History.CLIPBOARD_END
      requires job in {HandleStopRetry, HandleClipboardGrabbed, HandleShapeChanged, HandleData}
      requires job == HandleStopRetry || server
      modifies this`restartable, this`log, ownClipboard, sentClipboard, timeClipboard, dataClipboard
      ensures Valid() && ClipsValid() && State() == old(State())
      ensures old(log) <= log
      ensures job == HandleStopRetry ==> !restartable
      ensures job != HandleStopRetry ==> restartable == old(restartable)
      ensures log == old(log) + if job == HandleClipboardGrabbed then old(LoggedGrab(id, clip)) else []
    {
      hide Fits, PhaseView, JobFor, Below, Inv, History.Proper, History.Known, History.Owns;
      match job
      case HandleStopRetry => OnStopRetry();
      case HandleClipboardGrabbed => OnClipboardGrabbed(id, clip);
      case HandleShapeChanged => assert server;
      case HandleData => assert server;
    }

    /** The handlers that move the connection. */
    method RunJob(job: Job, hello: Hello, attempt: Attempt)
      requires Valid() && ClipsValid()
      requires StepOf(job, hello, attempt).Some? && Enabled(hostMode, State(), StepOf(job, hello, attempt).value)
      requires job != HandleConnected
      modifies this`stream, this`timer, this`server, this`ready, this`suspended, this`connectOnResume, this`handlers
      modifies this`nextAddress, this`phase, this`view, this`notices
      ensures Valid() && ClipsValid()
      ensures State() == Next(old(State()), StepOf(job, hello, attempt).value)
    {
      hide Fits, JobFor, Below, History.Proper, History.Known, History.Owns;
      match job
      case HandleConnectionFailed => OnConnectionFailed();
      case HandleConnectTimeout => OnConnectTimeout();
      case HandleOutputError => OnConnectionLost();
      case HandleDisconnected => OnConnectionLost();
      case HandleHello => var _ := OnHello(hello);
      case HandleSuspend => OnSuspend();
      case HandleResume => OnResume(attempt);
    }

    method HandlerOf(k: Key, hello: Hello, attempt: Attempt) returns (job: Job)
      requires Valid() && k in handlers
      ensures job == handlers[k] && (k.kind == SecureConnected ==> crypto && job == HandleConnected)
      ensures !(k.kind == SecureConnected && phase in {Idle, Up}) ==>
        match StepOf(job, hello, attempt)
        case Some(step) => Enabled(hostMode, State(), step)
        case None => job == HandleStopRetry || server
      ensures phase == Up ==> server && stream.Some?
      ensures match k.kind
        case PlainConnected => job == HandleConnected && phase == Connecting
        case SecureConnected => job == HandleConnected
        case ConnectionFailed => job == HandleConnectionFailed && phase == Connecting
        case SocketDisconnected => job == HandleDisconnected
        case InputReady => job == if phase == Up then HandleData else HandleHello
        case OutputError => job == HandleOutputError
        case InputShutdown => job == HandleDisconnected
        case OutputShutdown => job == HandleDisconnected
        case StopRetry => job == HandleStopRetry
        case ShapeChanged => job == HandleShapeChanged && phase == Up
        case ClipboardGrabbed => job == HandleClipboardGrabbed && phase == Up
        case SuspendScreen => job == HandleSuspend
        case ResumeScreen => job == HandleResume
        case TimerExpired => job == HandleConnectTimeout
    {
      job := handlers[k];
      DeliveredIsEnabled(hostMode, State(), view, k, job, hello, attempt);
    }
  }

  /** Which events have a handler: suspend and resume always; those of an attempt while it goes on,
    * and the timeout until the hello unless the client waits to be called; six of a connection from
    * the socket's answer on; the screen's with a server. A secure connection keeps its handler. */
  lemma Registered(c: Client, k: Key)
    requires c.Valid()
    ensures var own := c.stream.Some? && k.target == Stream(c.stream.value);
      k in c.handlers <==>
        match k.kind
        case PlainConnected => own && c.phase == Connecting && !c.crypto
        case SecureConnected => k.target.Stream? && k.target.id in c.view.secured
        case ConnectionFailed => own && c.phase == Connecting
        case SocketDisconnected => own && (c.phase == AwaitHello || c.phase == Up)
        case InputReady => own && (c.phase == AwaitHello || c.phase == Up)
        case OutputError => own && (c.phase == AwaitHello || c.phase == Up)
        case InputShutdown => own && (c.phase == AwaitHello || c.phase == Up)
        case OutputShutdown => own && (c.phase == AwaitHello || c.phase == Up)
        case StopRetry => own && (c.phase == AwaitHello || c.phase == Up)
        case ShapeChanged => k.target == Screen && c.phase == Up
        case ClipboardGrabbed => k.target == Screen && c.phase == Up
        case SuspendScreen => k.target == Screen
        case ResumeScreen => k.target == Screen
        case TimerExpired => c.timer.Some? && k.target == TimerOf(c.timer.value)
    ensures c.timer.Some? <==> !c.hostMode && (c.phase == Connecting || c.phase == AwaitHello)
    ensures c.crypto && c.stream.Some? ==> c.stream.value in c.view.secured
    ensures !c.crypto ==> c.view.secured == {}
  {
    assert k in c.handlers <==> JobFor(c.view, k).Some?;
  }

  /** With encryption the handler for the secure connection stays. On any client that is up a
    * second announcement is delivered. After it, a hello fails the assertion that there is no
    * server, and any other input deletes the stream under the server. */
  method SecondAnnouncement(c: Client, hello: Hello) returns (ok: bool)
    requires c.Valid() && c.ClipsValid() && c.crypto && c.phase == Up
    modifies c, c.ownClipboard, c.sentClipboard, c.timeClipboard
    ensures var secured := Key(SecureConnected, Stream(old(c.stream).value));
      secured in old(c.handlers) && old(c.handlers)[secured] == HandleConnected
    ensures ok <==> hello != Accepted
    ensures hello != Accepted ==> c.server && c.stream.None? && !c.Valid()
  {
    hide Fits, JobFor, Below, History.Proper, History.Known, History.Owns;
    SecureStays(c.handlers, c.view);
    ok := c.OnConnected();
    ok := c.OnHello(hello);
  }

  /** An announcement that waits behind a suspend still finds its handler, and fails the
    * assertion that there is a stream, whatever the phase of the client was. */
  method LateAnnouncement(c: Client) returns (ok: bool)
    requires c.Valid() && c.ClipsValid() && c.crypto && c.phase != Idle
    modifies c, c.ownClipboard, c.sentClipboard, c.timeClipboard
    ensures !ok && c.suspended && c.phase == Idle
    ensures var secured := Key(SecureConnected, Stream(old(c.stream).value));
      secured in c.handlers && c.handlers[secured] == HandleConnected
  {
    hide Fits, JobFor, Below, History.Proper, History.Known, History.Owns;
    c.OnSuspend();
    SecureStays(c.handlers, c.view);
    ok := c.OnConnected();
  }

  /** A connection that was suspended and resumed has a new stream, and the handler for a secure
    * connection of the old one is still there. */
  method ResumedBesideOldStream(c: Client) returns (before: nat)
    requires c.Valid() && c.ClipsValid() && c.crypto && c.phase == Up
    modifies c
    ensures c.Valid() && c.ClipsValid() && c.phase == Connecting
    ensures before == old(c.stream).value && before in c.view.secured
    ensures c.stream.Some? && c.stream.value != before
  {
    hide Fits, JobFor, Below, History.Proper, History.Known, History.Owns;
    before := c.stream.value;
    c.OnSuspend();
    c.OnResume(Started);
  }

  /** An announcement is about the present attempt if and only if its target is the present stream;
    * one about an older stream is delivered all the same and taken for it. The attempt then waits
    * for a hello, and its failure has no handler any more. */
  method StaleAnnouncement(c: Client, before: nat) returns (ok: bool)
    requires c.Valid() && c.ClipsValid() && c.phase == Connecting
    requires before in c.view.secured && Stream(before) != Stream(c.stream.value)
    modifies c, c.ownClipboard, c.sentClipboard, c.timeClipboard
    ensures ok && c.Valid() && c.phase == AwaitHello && c.stream.Some? && c.stream == old(c.stream)
    ensures var stale, failed := Key(SecureConnected, Stream(before)), Key(ConnectionFailed, Stream(c.stream.value));
      && stale in old(c.handlers) && old(c.handlers)[stale] == HandleConnected
      && failed in old(c.handlers) && failed !in c.handlers
  {
    hide JobFor, Below, History.Proper, History.Known, History.Owns;
    SecureStays(c.handlers, c.view);
    FailureIsHandled(c.handlers, c.view);
    ok := c.OnConnected();
  }

  lemma FailureIsHandled(handlers: map<Key, Job>, v: View)
    requires Fits(handlers, v) && v.stream.Some? && v.connecting
    ensures Key(ConnectionFailed, Stream(v.stream.value)) in handlers
  {
    assert JobFor(v, Key(ConnectionFailed, Stream(v.stream.value))) == Some(HandleConnectionFailed);
  }
}
