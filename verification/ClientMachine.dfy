/**
  * The life of a client connection, src/lib/client/Client.cpp, as a state machine
  * over the calls made on the client and the events delivered to it. The class in
  * module Clients is proved to take exactly these steps.
  */
module ClientMachine {
  datatype Phase = Idle | Connecting | AwaitHello | Up

  /** What the client tells the application. */
  datatype Notice = Connected | Disconnected | Failed | Refused

  /** `reconnect` is connect-on-resume. */
  datatype Session = Session(phase: Phase, ready: bool, suspended: bool, reconnect: bool, notices: seq<Notice>)

  const START := Session(Idle, false, false, false, [])

  /** How an attempt to connect goes: it starts, it fails before there is a stream, or
    * it fails when everything has been set up for it. */
  datatype Attempt = Started | NoSocket | Unreachable

  /** Accepted covers the downgrade of the protocol version. */
  datatype Hello = Accepted | NotHello | Incompatible

  datatype Step =
    | Connect(attempt: Attempt)
    | Disconnect(message: bool)
    | Refuse(message: bool)
    | HandshakeComplete
    | SocketConnected
    | SocketFailed
    | Timeout
    | ConnectionLost
    | HelloArrived(hello: Hello)
    | Suspend
    | Resume(attempt: Attempt)

  /** When the server proxy may call, and when each event has a handler. */
  predicate Enabled(hostMode: bool, s: Session, step: Step) {
    match step
    case HandshakeComplete => s.phase == Up
    case SocketConnected => s.phase == Connecting || s.phase == AwaitHello
    case SocketFailed => s.phase == Connecting
    case Timeout => !hostMode && (s.phase == Connecting || s.phase == AwaitHello)
    case ConnectionLost => s.phase == AwaitHello || s.phase == Up
    case HelloArrived(_) => s.phase == AwaitHello
    case _ => true
  }

  function Dropped(s: Session, told: seq<Notice>): Session {
    s.(phase := Idle, ready := false, notices := s.notices + told)
  }

  function Attempted(s: Session, attempt: Attempt): Session {
    if s.phase != Idle then s
    else if s.suspended then s.(reconnect := true)
    else if attempt == Started then s.(phase := Connecting)
    else s.(notices := s.notices + [Failed])
  }

  function Next(s: Session, step: Step): Session {
    match step
    case Connect(attempt) => Attempted(s, attempt)
    case Disconnect(message) => Dropped(s.(reconnect := false), [if message then Failed else Disconnected])
    case Refuse(message) => Dropped(s.(reconnect := false), if message then [Refused] else [])
    case HandshakeComplete => s.(ready := true, notices := s.notices + [Connected])
    case SocketConnected => s.(phase := AwaitHello)
    case SocketFailed => Dropped(s, [Failed])
    case Timeout => Dropped(s, [Failed])
    case ConnectionLost => Dropped(s, [Disconnected])
    case HelloArrived(hello) => if hello == Accepted then s.(phase := Up, ready := false) else Dropped(s, [Failed])
    case Suspend =>
      if s.suspended then s
      else Dropped(s, [Disconnected]).(suspended := true, reconnect := s.phase == Up)
    case Resume(attempt) =>
      if !s.suspended then s
      else if s.reconnect then Attempted(s.(suspended := false, reconnect := false), attempt)
      else s.(suspended := false)
  }

  /** What each call does, and what the application is told. */
  lemma CallOutcomes(s: Session, attempt: Attempt)
    ensures Next(s, Connect(attempt)) ==
      if s.phase != Idle then s
      else if s.suspended then s.(reconnect := true)
      else if attempt == Started then s.(phase := Connecting)
      else s.(notices := s.notices + [Failed])
    ensures Next(s, Disconnect(true)) == Session(Idle, false, s.suspended, false, s.notices + [Failed])
    ensures Next(s, Disconnect(false)) == Session(Idle, false, s.suspended, false, s.notices + [Disconnected])
    ensures Next(s, Refuse(true)) == Session(Idle, false, s.suspended, false, s.notices + [Refused])
    ensures Next(s, Refuse(false)) == Session(Idle, false, s.suspended, false, s.notices)
    ensures Next(s, HandshakeComplete) == s.(ready := true, notices := s.notices + [Connected])
  {
  }

  /** The same for the events of the connection. */
  lemma EventOutcomes(s: Session, hello: Hello)
    ensures Next(s, SocketConnected) == s.(phase := AwaitHello)
    ensures Next(s, SocketFailed) == Session(Idle, false, s.suspended, s.reconnect, s.notices + [Failed])
    ensures Next(s, Timeout) == Session(Idle, false, s.suspended, s.reconnect, s.notices + [Failed])
    ensures Next(s, ConnectionLost) == Session(Idle, false, s.suspended, s.reconnect, s.notices + [Disconnected])
    ensures Next(s, HelloArrived(hello)) ==
      if hello == Accepted then Session(Up, false, s.suspended, s.reconnect, s.notices)
      else Session(Idle, false, s.suspended, s.reconnect, s.notices + [Failed])
  {
  }

  /** And for suspend and resume. */
  lemma SuspendOutcomes(s: Session, attempt: Attempt)
    ensures Next(s, Suspend) ==
      if s.suspended then s else Session(Idle, false, true, s.phase == Up, s.notices + [Disconnected])
    ensures Next(s, Resume(attempt)) ==
      if !s.suspended then s
      else if !s.reconnect then s.(suspended := false)
      else Next(s.(suspended := false, reconnect := false), Connect(attempt))
  {
  }

  predicate CanRun(hostMode: bool, s: Session, steps: seq<Step>)
    decreases |steps|
  {
    steps == [] ||
    var last, before := steps[|steps| - 1], steps[..|steps| - 1];
    CanRun(hostMode, s, before) && Enabled(hostMode, Run(s, before), last)
  }

  function Run(s: Session, steps: seq<Step>): Session
    decreases |steps|
  {
    if steps == [] then s else Next(Run(s, steps[..|steps| - 1]), steps[|steps| - 1])
  }

  /** Nothing but the server keeps the client ready, a suspended client has no connection,
    * and only a suspended client is to be connected on resume. */
  ghost predicate Inv(s: Session) {
    && (s.ready ==> s.phase == Up)
    && (s.suspended ==> s.phase == Idle)
    && (s.reconnect ==> s.suspended)
  }

  lemma {:induction false} RunKeepsInv(hostMode: bool, s: Session, steps: seq<Step>)
    requires Inv(s) && CanRun(hostMode, s, steps)
    ensures Inv(Run(s, steps))
    decreases |steps|
  {
    if steps != [] {
      RunKeepsInv(hostMode, s, steps[..|steps| - 1]);
    }
  }

  // ------------------------------------------------------------ suspend and resume

  /** The wish to be connected after `steps`, when `was` is the wish before them: `connect`
    * asks for it, `disconnect` and `refuseConnection` take it back. */
  predicate Wants(steps: seq<Step>, was: bool)
    decreases |steps|
  {
    if steps == [] then was else
      var last := steps[|steps| - 1];
      if last.Connect? then true
      else if last.Disconnect? || last.Refuse? then false
      else Wants(steps[..|steps| - 1], was)
  }

  lemma {:induction false} WhileSuspended(hostMode: bool, s: Session, steps: seq<Step>)
    requires s.suspended && s.phase == Idle && CanRun(hostMode, s, steps)
    requires forall i :: 0 <= i < |steps| ==> !steps[i].Resume?
    ensures var r := Run(s, steps);
      r.suspended && r.phase == Idle && r.reconnect == Wants(steps, s.reconnect)
    decreases |steps|
  {
    if steps != [] {
      WhileSuspended(hostMode, s, steps[..|steps| - 1]);
    }
  }

  /** A resume connects exactly when the client had a server at the suspend or `connect` was
    * called since then, and no later `disconnect` or `refuseConnection` took that back. An
    * attempt still under way at the suspend does not count. */
  lemma ResumeReconnectsIff(hostMode: bool, steps: seq<Step>, between: seq<Step>)
    requires CanRun(hostMode, START, steps) && !Run(START, steps).suspended
    requires CanRun(hostMode, Next(Run(START, steps), Suspend), between)
    requires forall i :: 0 <= i < |between| ==> !between[i].Resume?
    ensures var s := Run(START, steps);
      var resumed := Next(Run(Next(s, Suspend), between), Resume(Started));
      resumed.phase == (if Wants(between, s.phase == Up) then Connecting else Idle) && !resumed.suspended
  {
    WhileSuspended(hostMode, Next(Run(START, steps), Suspend), between);
  }

  // ------------------------------------------------------------------- reporting

  predicate Silent(step: Step) {
    step == Refuse(false)
  }

  /** Each step from a connection, or an attempt at one, to idle raises exactly one notice
    * saying so, unless it is a refusal without a message, which raises none. */
  lemma DropIsReported(hostMode: bool, s: Session, step: Step)
    requires Enabled(hostMode, s, step) && s.phase != Idle && Next(s, step).phase == Idle
    ensures Silent(step) <==> Next(s, step).notices == s.notices
    ensures !Silent(step) ==>
      exists n :: n in {Disconnected, Failed, Refused} && Next(s, step).notices == s.notices + [n]
  {
    if !Silent(step) {
      var told := Next(s, step).notices;
      var n := told[|told| - 1];
      assert n in {Disconnected, Failed, Refused} && told == s.notices + [n];
    }
  }

  predicate LastIs(notices: seq<Notice>, n: Notice) {
    notices != [] && notices[|notices| - 1] == n
  }

  /** In every run the last notice tells whether the client is ready, as long as no silent
    * refusal comes; a ready client has always told so. */
  lemma {:induction false} LastNoticeTells(hostMode: bool, steps: seq<Step>)
    requires CanRun(hostMode, START, steps)
    ensures Run(START, steps).ready ==> LastIs(Run(START, steps).notices, Connected)
    ensures (forall i :: 0 <= i < |steps| ==> !Silent(steps[i])) ==>
      (LastIs(Run(START, steps).notices, Connected) ==> Run(START, steps).ready)
    decreases |steps|
  {
    if steps != [] {
      var before := steps[..|steps| - 1];
      RunKeepsInv(hostMode, START, before);
      LastNoticeTells(hostMode, before);
    }
  }

  /** A refusal without a message leaves the application believing in the connection. */
  lemma SilentRefusalMisleads(s: Session)
    requires LastIs(s.notices, Connected)
    ensures !Next(s, Refuse(false)).ready && LastIs(Next(s, Refuse(false)).notices, Connected)
  {
    assert Next(s, Refuse(false)).notices == s.notices;
  }
}
