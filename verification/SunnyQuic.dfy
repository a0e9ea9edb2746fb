/** The per-connection authentication of the SunnyQUIC server as a transition
    system: any number of stream goroutines, the timeout goroutine, the peer and the
    QUIC stack take turns in any order, and selects choose freely among the cases
    that are ready. */
module SunnyQuic {
  import opened Bytes

  type Hash = seq<int>
  type StreamId = nat

  /** Where a stream goroutine stands. */
  datatype Pc =
    | Start           // accepted, command not read yet
    | ReadingHash     // auth command: reading and comparing the hash
    | HashOk          // hash compared equal, authOnce.Do is next
    | InOnce          // inside the function given to authOnce.Do
    | AuthFailed      // handleAuthCommand returned an error, close is next
    | Cancelled       // c.cancel() done, CloseWithError is next
    | WaitAuth        // first select of waitForAuthAndHandshake
    | WaitHandshake   // second select
    | ReadingAddress  // waiting is over: the TCP connect handler has been reached
    | Checking        // ForwardTCP's check of the context is next
    | Dialing         // the check found the context alive
    | Ended

  datatype OnceState = Unused | Running(owner: StreamId) | Done

  /** Where the timeout goroutine stands; `due` tells that its time is up while it
      waits in its select. */
  datatype TimerPc = Waiting(due: bool) | TimedOut | TimerCancelled | Gone

  datatype State = State(
    streams: map<StreamId, Pc>,
    timer: TimerPc,
    ctxDone: bool,       // c.ctx is cancelled
    quicDone: bool,      // the QUIC connection is closed
    handshake: bool,     // HandshakeComplete() is closed
    authCloses: nat,     // how often close(c.authDone) ran
    once: OnceState)

  const INITIAL := State(map[], Waiting(false), false, false, false, 0, Unused)

  datatype Command = AuthCommand | TcpConnect | Unsupported

  datatype Event =
    | Accept(s: StreamId)
    | ReadCommand(s: StreamId, command: Command)
    | PresentHash(s: StreamId, hash: Hash)
    | EnterOnce(s: StreamId)
    | CloseAuthDone(s: StreamId)
    | SkipOnce(s: StreamId)
    | CancelContext(s: StreamId)
    | CloseConnection(s: StreamId)
    | SeeAuthDone(s: StreamId)
    | SeeCancelled(s: StreamId)
    | SeeHandshake(s: StreamId)
    | SeeClosed(s: StreamId)
    | ReadAddress(s: StreamId)
    | CheckContext(s: StreamId)
    | ReadFails(s: StreamId)
    | TimerElapses
    | TimerFires
    | TimerCancels
    | TimerCloses
    | TimerStops
    | ParentCancels
    | PeerCloses
    | HandshakeCompletes

  predicate Has(st: State, s: StreamId, pc: Pc)
  {
    s in st.streams && st.streams[s] == pc
  }

  /** Whether the event can happen; a select case is ready as soon as its channel is. */
  predicate Enabled(secret: Hash, st: State, e: Event)
  {
    match e
    case Accept(s) => s !in st.streams && !st.quicDone
    case ReadCommand(s, _) => Has(st, s, Start)
    case PresentHash(s, _) => Has(st, s, ReadingHash)
    case EnterOnce(s) => Has(st, s, HashOk) && st.once == Unused
    case CloseAuthDone(s) => Has(st, s, InOnce)
    case SkipOnce(s) => Has(st, s, HashOk) && st.once == Done
    case CancelContext(s) => Has(st, s, AuthFailed)
    case CloseConnection(s) => Has(st, s, Cancelled)
    case SeeAuthDone(s) => Has(st, s, WaitAuth) && st.authCloses > 0
    case SeeCancelled(s) => Has(st, s, WaitAuth) && st.ctxDone
    case SeeHandshake(s) => Has(st, s, WaitHandshake) && st.handshake
    case SeeClosed(s) => Has(st, s, WaitHandshake) && st.quicDone
    case ReadAddress(s) => Has(st, s, ReadingAddress)
    case CheckContext(s) => Has(st, s, Checking)
    case ReadFails(s) => Has(st, s, Start) || Has(st, s, ReadingHash) || Has(st, s, ReadingAddress)
    case TimerElapses => st.timer == Waiting(false)
    case TimerFires => st.timer == Waiting(true)
    case TimerCancels => st.timer == TimedOut
    case TimerCloses => st.timer == TimerCancelled
    case TimerStops => st.timer.Waiting? && (st.ctxDone || st.authCloses > 0)
    case ParentCancels => true
    case PeerCloses => true
    case HandshakeCompletes => !st.quicDone
  }

  function Goto(st: State, s: StreamId, pc: Pc): (st': State)
  {
    st.(streams := st.streams[s := pc])
  }

  function Apply(secret: Hash, st: State, e: Event): (st': State)
  {
    match e
    case Accept(s) => Goto(st, s, Start)
    case ReadCommand(s, AuthCommand) => Goto(st, s, ReadingHash)
    case ReadCommand(s, TcpConnect) => Goto(st, s, WaitAuth)
    case ReadCommand(s, Unsupported) => Goto(st, s, Ended)
    case PresentHash(s, hash) => Goto(st, s, if hash == secret then HashOk else AuthFailed)
    case EnterOnce(s) => Goto(st, s, InOnce).(once := Running(s))
    case CloseAuthDone(s) => Goto(st, s, Ended).(once := Done, authCloses := st.authCloses + 1)
    case SkipOnce(s) => Goto(st, s, Ended)
    case CancelContext(s) => Goto(st, s, Cancelled).(ctxDone := true)
    case CloseConnection(s) => Goto(st, s, Ended).(quicDone := true)
    case SeeAuthDone(s) => Goto(st, s, WaitHandshake)
    case SeeCancelled(s) => Goto(st, s, Ended)
    case SeeHandshake(s) => Goto(st, s, ReadingAddress)
    case SeeClosed(s) => Goto(st, s, Ended)
    case ReadAddress(s) => Goto(st, s, Checking)
    case CheckContext(s) => Goto(st, s, if st.ctxDone then Ended else Dialing)
    case ReadFails(s) => Goto(st, s, if Has(st, s, ReadingHash) then AuthFailed else Ended)
    case TimerElapses => st.(timer := Waiting(true))
    case TimerFires => st.(timer := TimedOut)
    case TimerCancels => st.(timer := TimerCancelled, ctxDone := true)
    case TimerCloses => st.(timer := Gone, quicDone := true)
    case TimerStops => st.(timer := Gone)
    case ParentCancels => st.(ctxDone := true)
    case PeerCloses => st.(quicDone := true)
    case HandshakeCompletes => st.(handshake := true)
  }

  // ------------------------------------------------------------------
  // Runs

  function After(secret: Hash, events: seq<Event>, n: nat): (st: State)
    requires n <= |events|
  {
    if n == 0 then INITIAL else Apply(secret, After(secret, events, n - 1), events[n - 1])
  }

  ghost predicate IsRun(secret: Hash, events: seq<Event>)
  {
    forall n :: StepOk(secret, events, n)
  }

  ghost predicate StepOk(secret: Hash, events: seq<Event>, n: int)
  {
    0 <= n < |events| ==> Enabled(secret, After(secret, events, n), events[n])
  }

  predicate Cancels(e: Event)
  {
    e.CancelContext? || e == TimerCancels || e == ParentCancels
  }

  predicate Closes(e: Event)
  {
    e.CloseConnection? || e == TimerCloses || e == PeerCloses
  }

  /** Event `j` lets its stream dial the target. */
  predicate Dials(secret: Hash, events: seq<Event>, j: nat)
    requires j < |events|
  {
    events[j].CheckContext? && !After(secret, events, j).ctxDone
  }

  ghost predicate HashSeen(secret: Hash, events: seq<Event>, n: nat)
    requires n <= |events|
  {
    exists i :: 0 <= i < n && events[i].PresentHash? && events[i].hash == secret
  }

  ghost predicate HandshakeSeen(events: seq<Event>, n: nat)
    requires n <= |events|
  {
    exists i :: 0 <= i < n && events[i] == HandshakeCompletes
  }

  ghost predicate CancelSeen(events: seq<Event>, n: nat)
    requires n <= |events|
  {
    exists i :: 0 <= i < n && Cancels(events[i])
  }

  ghost predicate CloseSeen(events: seq<Event>, n: nat)
    requires n <= |events|
  {
    exists i :: 0 <= i < n && Closes(events[i])
  }

  /** What a stream's position tells. */
  predicate PcOk(st: State, s: StreamId, authorized: bool)
  {
    s in st.streams ==>
      match st.streams[s]
      case HashOk => authorized
      case InOnce => authorized && st.once == Running(s)
      case WaitHandshake => st.authCloses > 0
      case ReadingAddress => st.authCloses > 0 && st.handshake
      case Checking => st.authCloses > 0 && st.handshake
      case Dialing => st.authCloses > 0 && st.handshake
      case _ => true
  }

  /** Holds in every reachable state; `authorized` tells whether the right hash has
      been presented. */
  ghost predicate Safe(st: State, authorized: bool)
  {
    (forall s :: PcOk(st, s, authorized)) && OnceOk(st, authorized)
  }

  predicate OnceOk(st: State, authorized: bool)
  {
    && (st.authCloses > 0 ==> authorized)
    && (st.once.Running? ==> Has(st, st.once.owner, InOnce))
    && st.authCloses == if st.once == Done then 1 else 0
  }

  /** The one way into each guarded position. */
  predicate EntersBy(secret: Hash, s: StreamId, pc: Pc, e: Event)
  {
    match pc
    case HashOk => e == PresentHash(s, secret)
    case InOnce => e == EnterOnce(s)
    case WaitHandshake => e == SeeAuthDone(s)
    case ReadingAddress => e == SeeHandshake(s)
    case Checking => e == ReadAddress(s)
    case Dialing => e == CheckContext(s)
    case _ => true
  }

  /** What the stream of a step of an authentication does. */
  predicate Authenticating(e: Event)
  {
    || e.Accept? || e.ReadCommand? || e.PresentHash? || e.EnterOnce? || e.CloseAuthDone? || e.SkipOnce?
    || e.CancelContext? || e.CloseConnection?
  }

  /** What a stream does that wants to connect, or fails. */
  predicate Connecting(e: Event)
  {
    || e.SeeAuthDone? || e.SeeCancelled? || e.SeeHandshake? || e.SeeClosed? || e.ReadAddress? || e.CheckContext?
    || e.ReadFails?
  }

  lemma AuthStep(secret: Hash, st: State, e: Event, s: StreamId)
    requires Authenticating(e) && s in Apply(secret, st, e).streams
    requires s !in st.streams || st.streams[s] != Apply(secret, st, e).streams[s]
    ensures EntersBy(secret, s, Apply(secret, st, e).streams[s], e)
  {
  }

  lemma ConnectStep(secret: Hash, st: State, e: Event, s: StreamId)
    requires Connecting(e) && s in Apply(secret, st, e).streams
    requires s !in st.streams || st.streams[s] != Apply(secret, st, e).streams[s]
    ensures EntersBy(secret, s, Apply(secret, st, e).streams[s], e)
  {
  }

  lemma OtherEvents(secret: Hash, st: State, e: Event)
    requires !Authenticating(e) && !Connecting(e)
    ensures Apply(secret, st, e).streams == st.streams
  {
  }

  /** Each guarded position has one way in. */
  lemma OneWayIn(secret: Hash, st: State, e: Event, s: StreamId)
    requires s in Apply(secret, st, e).streams
    requires s !in st.streams || st.streams[s] != Apply(secret, st, e).streams[s]
    ensures EntersBy(secret, s, Apply(secret, st, e).streams[s], e)
  {
    if Authenticating(e) {
      AuthStep(secret, st, e, s);
    } else if Connecting(e) {
      ConnectStep(secret, st, e, s);
    } else {
      OtherEvents(secret, st, e);
    }
  }

  /** The stream that takes a step keeps its place in order, ... */
  lemma OwnStep(secret: Hash, st: State, e: Event, s: StreamId, authorized: bool)
    requires PcOk(st, s, authorized) && Enabled(secret, st, e)
    requires s in Apply(secret, st, e).streams
    requires s !in st.streams || st.streams[s] != Apply(secret, st, e).streams[s]
    ensures PcOk(Apply(secret, st, e), s, authorized || (e.PresentHash? && e.hash == secret))
  {
    OneWayIn(secret, st, e, s);
  }

  /** ... and so does every other one, since nothing they rely on is taken back. */
  lemma OtherStep(secret: Hash, st: State, e: Event, s: StreamId, authorized: bool)
    requires PcOk(st, s, authorized) && Enabled(secret, st, e)
    requires e.CloseAuthDone? ==> st.once == Running(e.s)
    requires s in Apply(secret, st, e).streams ==> s in st.streams && Apply(secret, st, e).streams[s] == st.streams[s]
    ensures PcOk(Apply(secret, st, e), s, authorized || (e.PresentHash? && e.hash == secret))
  {
  }

  lemma OnceStep(secret: Hash, st: State, e: Event, authorized: bool)
    requires OnceOk(st, authorized) && Enabled(secret, st, e)
    requires e.CloseAuthDone? ==> authorized && st.once == Running(e.s)
    ensures OnceOk(Apply(secret, st, e), authorized || (e.PresentHash? && e.hash == secret))
  {
    OnceMoves(secret, st, e);
  }

  /** Nothing but the once's own events touches it and what it guards. */
  lemma OnceMoves(secret: Hash, st: State, e: Event)
    requires Enabled(secret, st, e)
    ensures var st' := Apply(secret, st, e);
            if e.EnterOnce? then st'.once == Running(e.s) && Has(st', e.s, InOnce) && st'.authCloses == st.authCloses
            else if e.CloseAuthDone? then st'.once == Done && st'.authCloses == st.authCloses + 1
            else && st'.once == st.once && st'.authCloses == st.authCloses
                 && forall s :: Has(st, s, InOnce) ==> Has(st', s, InOnce)
  {
  }

  lemma StepKeepsSafe(secret: Hash, st: State, e: Event, authorized: bool)
    requires Safe(st, authorized) && Enabled(secret, st, e)
    ensures Safe(Apply(secret, st, e), authorized || (e.PresentHash? && e.hash == secret))
  {
    var st', now := Apply(secret, st, e), authorized || (e.PresentHash? && e.hash == secret);
    assert e.CloseAuthDone? ==> PcOk(st, e.s, authorized);
    OnceStep(secret, st, e, authorized);
    forall s
      ensures PcOk(st', s, now)
    {
      assert PcOk(st, s, authorized);
      if s in st'.streams && (s !in st.streams || st.streams[s] != st'.streams[s]) {
        OwnStep(secret, st, e, s, authorized);
      } else {
        OtherStep(secret, st, e, s, authorized);
      }
    }
  }

  lemma {:induction false} RunIsSafe(secret: Hash, events: seq<Event>, n: nat)
    requires IsRun(secret, events) && n <= |events|
    ensures Safe(After(secret, events, n), HashSeen(secret, events, n))
  {
    if n > 0 {
      RunIsSafe(secret, events, n - 1);
      assert StepOk(secret, events, n - 1);
      StepKeepsSafe(secret, After(secret, events, n - 1), events[n - 1], HashSeen(secret, events, n - 1));
      HashSeenStep(secret, events, n);
    }
  }

  lemma HashSeenStep(secret: Hash, events: seq<Event>, n: nat)
    requires 0 < n <= |events|
    ensures HashSeen(secret, events, n)
       <==> HashSeen(secret, events, n - 1) || (events[n - 1].PresentHash? && events[n - 1].hash == secret)
  {
  }

  /** The context is done exactly when something cancelled it, the connection when
      something closed it, and the handshake channel is closed exactly when the handshake
      completed. */
  lemma {:induction false} FlagsRecordHistory(secret: Hash, events: seq<Event>, n: nat)
    requires n <= |events|
    ensures After(secret, events, n).ctxDone <==> CancelSeen(events, n)
    ensures After(secret, events, n).quicDone <==> CloseSeen(events, n)
    ensures After(secret, events, n).handshake <==> HandshakeSeen(events, n)
  {
    if n > 0 {
      FlagsRecordHistory(secret, events, n - 1);
      FlagsStep(secret, After(secret, events, n - 1), events[n - 1]);
      assert CancelSeen(events, n) <==> CancelSeen(events, n - 1) || Cancels(events[n - 1]);
      assert CloseSeen(events, n) <==> CloseSeen(events, n - 1) || Closes(events[n - 1]);
      assert HandshakeSeen(events, n) <==> HandshakeSeen(events, n - 1) || events[n - 1] == HandshakeCompletes;
    }
  }

  lemma FlagsStep(secret: Hash, st: State, e: Event)
    ensures Apply(secret, st, e).ctxDone <==> st.ctxDone || Cancels(e)
    ensures Apply(secret, st, e).quicDone <==> st.quicDone || Closes(e)
    ensures Apply(secret, st, e).handshake <==> st.handshake || e == HandshakeCompletes
  {
  }

  // ------------------------------------------------------------------
  // Safety over all interleavings

  /** No stream gets to the TCP connect handler before the right hash was presented
      on some stream and the handshake completed. */
  lemma {:induction false} HandlerNeedsAuth(secret: Hash, events: seq<Event>, n: nat, s: StreamId)
    requires IsRun(secret, events) && n <= |events|
    requires var st := After(secret, events, n);
             Has(st, s, ReadingAddress) || Has(st, s, Checking) || Has(st, s, Dialing)
    ensures HashSeen(secret, events, n) && HandshakeSeen(events, n)
  {
    RunIsSafe(secret, events, n);
    FlagsRecordHistory(secret, events, n);
    assert PcOk(After(secret, events, n), s, HashSeen(secret, events, n));
  }

  /** A stream dials exactly when nothing had cancelled the context before its
      check - not even if its selects chose the other ready case. */
  lemma {:induction false} DialsExactly(secret: Hash, events: seq<Event>, j: nat)
    requires IsRun(secret, events) && j < |events| && events[j].CheckContext?
    ensures Dials(secret, events, j) <==> !CancelSeen(events, j)
    ensures Dials(secret, events, j) <==> Has(After(secret, events, j + 1), events[j].s, Dialing)
    ensures HashSeen(secret, events, j) && HandshakeSeen(events, j)
  {
    FlagsRecordHistory(secret, events, j);
    assert StepOk(secret, events, j);
    HandlerNeedsAuth(secret, events, j, events[j].s);
  }

  /** authDone is closed at most once, so closing it never panics. */
  lemma AuthDoneClosedOnce(secret: Hash, events: seq<Event>, i: nat, j: nat)
    requires IsRun(secret, events) && i < j < |events|
    ensures !(events[i].CloseAuthDone? && events[j].CloseAuthDone?)
  {
    if events[i].CloseAuthDone? {
      OnceStaysDone(secret, events, i + 1, j);
      RunIsSafe(secret, events, j);
      assert StepOk(secret, events, j);
      NoSecondClose(After(secret, events, j), events[j], HashSeen(secret, events, j), secret);
    }
  }

  lemma NoSecondClose(st: State, e: Event, authorized: bool, secret: Hash)
    requires Safe(st, authorized) && st.once == Done && Enabled(secret, st, e)
    ensures !e.CloseAuthDone?
  {
    assert e.CloseAuthDone? ==> PcOk(st, e.s, authorized);
  }

  lemma {:induction false} OnceStaysDone(secret: Hash, events: seq<Event>, i: nat, j: nat)
    requires IsRun(secret, events) && i <= j <= |events| && After(secret, events, i).once == Done
    ensures After(secret, events, j).once == Done
  {
    if i < j {
      OnceStaysDone(secret, events, i, j - 1);
      assert StepOk(secret, events, j - 1);
      OnceDoneStep(secret, After(secret, events, j - 1), events[j - 1]);
    }
  }

  lemma OnceDoneStep(secret: Hash, st: State, e: Event)
    requires st.once == Done && Enabled(secret, st, e)
    ensures Apply(secret, st, e).once == Done
  {
    OnceMoves(secret, st, e);
  }

  // ------------------------------------------------------------------
  // What cancels a connection

  /** Stream `s` failed to authenticate: a wrong hash, or one cut short. */
  ghost predicate FailureSeen(secret: Hash, events: seq<Event>, n: nat, s: StreamId)
    requires n <= |events|
  {
    exists i :: 0 <= i < n && FailsAt(secret, events, i, s)
  }

  predicate FailsAt(secret: Hash, events: seq<Event>, i: int, s: StreamId)
  {
    0 <= i < |events| && FailsAuth(secret, After(secret, events, i), events[i], s)
  }

  predicate FailsAuth(secret: Hash, st: State, e: Event, s: StreamId)
  {
    match e
    case PresentHash(t, hash) => t == s && hash != secret
    case ReadFails(t) => t == s && Has(st, s, ReadingHash)
    case _ => false
  }

  lemma FailureStep(secret: Hash, st: State, e: Event, s: StreamId)
    requires Enabled(secret, st, e)
    requires Has(Apply(secret, st, e), s, AuthFailed)
    ensures Has(st, s, AuthFailed) || FailsAuth(secret, st, e, s)
  {
  }

  lemma {:induction false} FailedMeansFailure(secret: Hash, events: seq<Event>, n: nat, s: StreamId)
    requires IsRun(secret, events) && n <= |events| && Has(After(secret, events, n), s, AuthFailed)
    ensures FailureSeen(secret, events, n, s)
  {
    if n > 0 {
      assert StepOk(secret, events, n - 1);
      FailureStep(secret, After(secret, events, n - 1), events[n - 1], s);
      if Has(After(secret, events, n - 1), s, AuthFailed) {
        FailedMeansFailure(secret, events, n - 1, s);
      } else {
        assert FailsAt(secret, events, n - 1, s);
      }
    }
  }

  /** A stream cancels the context only after failing to authenticate itself. */
  lemma CancelHasCause(secret: Hash, events: seq<Event>, j: nat)
    requires IsRun(secret, events) && j < |events| && events[j].CancelContext?
    ensures FailureSeen(secret, events, j, events[j].s)
  {
    assert StepOk(secret, events, j);
    FailedMeansFailure(secret, events, j, events[j].s);
  }

  /** A stream that failed to authenticate does not end before it has cancelled the
      context and closed the connection. */
  lemma {:induction false} FailureCloses(secret: Hash, events: seq<Event>, n: nat, s: StreamId)
    requires IsRun(secret, events) && n <= |events| && FailureSeen(secret, events, n, s)
    ensures HasFailed(After(secret, events, n), s)
  {
    FailureSeenStep(secret, events, n, s);
    assert StepOk(secret, events, n - 1);
    if FailureSeen(secret, events, n - 1, s) {
      FailureCloses(secret, events, n - 1, s);
    }
    FailedStep(secret, After(secret, events, n - 1), events[n - 1], s);
  }

  lemma FailureSeenStep(secret: Hash, events: seq<Event>, n: nat, s: StreamId)
    requires n <= |events| && FailureSeen(secret, events, n, s)
    ensures n > 0
    ensures FailureSeen(secret, events, n - 1, s) || FailsAt(secret, events, n - 1, s)
  {
  }

  /** The stream is about to cancel the context, to close the connection, or has done both. */
  predicate HasFailed(st: State, s: StreamId)
  {
    || Has(st, s, AuthFailed) || (Has(st, s, Cancelled) && st.ctxDone)
    || (Has(st, s, Ended) && st.ctxDone && st.quicDone)
  }

  lemma FailingStep(secret: Hash, st: State, e: Event, s: StreamId)
    requires Enabled(secret, st, e) && FailsAuth(secret, st, e, s)
    ensures HasFailed(Apply(secret, st, e), s)
  {
  }

  lemma FailedStep(secret: Hash, st: State, e: Event, s: StreamId)
    requires Enabled(secret, st, e) && (HasFailed(st, s) || FailsAuth(secret, st, e, s))
    ensures HasFailed(Apply(secret, st, e), s)
  {
    FlagsStep(secret, st, e);
    if FailsAuth(secret, st, e, s) {
      FailingStep(secret, st, e, s);
    } else if Has(st, s, Ended) {
      EndedStays(secret, st, e, s);
    } else if Has(st, s, Cancelled) {
      CancelledMoves(secret, st, e, s);
    } else {
      FailedMoves(secret, st, e, s);
    }
  }

  lemma EndedStays(secret: Hash, st: State, e: Event, s: StreamId)
    requires Enabled(secret, st, e) && Has(st, s, Ended)
    ensures Has(Apply(secret, st, e), s, Ended)
  {
  }

  lemma CancelledMoves(secret: Hash, st: State, e: Event, s: StreamId)
    requires Enabled(secret, st, e) && Has(st, s, Cancelled)
    ensures Has(Apply(secret, st, e), s, if e == CloseConnection(s) then Ended else Cancelled)
  {
  }

  lemma FailedMoves(secret: Hash, st: State, e: Event, s: StreamId)
    requires Enabled(secret, st, e) && Has(st, s, AuthFailed)
    ensures Has(Apply(secret, st, e), s, if e == CancelContext(s) then Cancelled else AuthFailed)
  {
  }

  // ------------------------------------------------------------------
  // Who may still be served

  /** Some other stream may still authenticate the connection, if none has. */
  ghost predicate MayAuthenticate(st: State, s: StreamId)
  {
    || st.authCloses > 0 || st.once.Running? || !st.quicDone
    || exists t :: t != s && OnWayToAuth(st, t)
  }

  predicate OnWayToAuth(st: State, t: StreamId)
  {
    Has(st, t, Start) || Has(st, t, ReadingHash) || Has(st, t, HashOk)
  }

  /** What it takes for a stream to dial one day: a context that is alive; for a stream
      that has not been accepted, an open connection; for one that waits for the
      handshake, a handshake that is complete or can be; and for one before that, an
      authentication as well. */
  ghost predicate CanDial(st: State, s: StreamId)
  {
    !st.ctxDone &&
    if s !in st.streams then !st.quicDone
    else
      match st.streams[s]
      case Start => (st.handshake || !st.quicDone) && MayAuthenticate(st, s)
      case WaitAuth => (st.handshake || !st.quicDone) && MayAuthenticate(st, s)
      case WaitHandshake => st.handshake || !st.quicDone
      case ReadingAddress => true
      case Checking => true
      case _ => false
  }

  /** The run can go on in such a way that stream `s` dials. */
  ghost predicate MayDial(secret: Hash, events: seq<Event>, s: StreamId)
  {
    exists more :: events <= more && DialsIn(secret, more, |events|, s)
  }

  ghost predicate DialsIn(secret: Hash, more: seq<Event>, n: nat, s: StreamId)
  {
    IsRun(secret, more) && exists j :: n <= j < |more| && more[j] == CheckContext(s) && Dials(secret, more, j)
  }

  /** After any run, exactly these streams may still be served. */
  lemma MayDialExactly(secret: Hash, events: seq<Event>, s: StreamId)
    requires IsRun(secret, events)
    ensures MayDial(secret, events, s) <==> CanDial(After(secret, events, |events|), s)
  {
    if CanDial(After(secret, events, |events|), s) {
      var more := DialOn(secret, events, s);
      assert DialsIn(secret, more, |events|, s);
    } else if more :| events <= more && DialsIn(secret, more, |events|, s) {
      AfterIsLocal(secret, events, more, |events|);
      NeverDials(secret, more, |events|, s);
    }
  }

  /** So at the start every stream may be. */
  lemma AnyoneMayDial(secret: Hash, s: StreamId)
    ensures MayDial(secret, [], s)
  {
    assert IsRun(secret, []);
    MayDialExactly(secret, [], s);
  }

  lemma {:induction false} NeverDials(secret: Hash, more: seq<Event>, n: nat, s: StreamId)
    requires IsRun(secret, more) && n <= |more| && !CanDial(After(secret, more, n), s)
    ensures !DialsIn(secret, more, n, s)
  {
    forall j | n <= j < |more| && more[j] == CheckContext(s)
      ensures !Dials(secret, more, j)
    {
      StaysUnable(secret, more, n, j, s);
      assert StepOk(secret, more, j);
    }
  }

  lemma {:induction false} StaysUnable(secret: Hash, events: seq<Event>, i: nat, j: nat, s: StreamId)
    requires IsRun(secret, events) && i <= j <= |events| && !CanDial(After(secret, events, i), s)
    ensures !CanDial(After(secret, events, j), s)
  {
    if i < j {
      StaysUnable(secret, events, i, j - 1, s);
      assert StepOk(secret, events, j - 1);
      RunIsSafe(secret, events, j - 1);
      UnableStep(secret, After(secret, events, j - 1), events[j - 1], s, HashSeen(secret, events, j - 1));
    }
  }

  /** Nothing makes a stream able to dial that is not. */
  lemma UnableStep(secret: Hash, st: State, e: Event, s: StreamId, authorized: bool)
    requires Safe(st, authorized) && Enabled(secret, st, e) && !CanDial(st, s)
    ensures !CanDial(Apply(secret, st, e), s)
  {
    var st' := Apply(secret, st, e);
    FlagsStep(secret, st, e);
    if s in st'.streams && (s !in st.streams || st.streams[s] != st'.streams[s]) {
      OneWayIn(secret, st, e, s);
    }
    if !MayAuthenticate(st, s) && (s in st.streams ==> !OnWayToAuth(st, s) || Has(st, s, Start)) {
      HopelessStep(secret, st, e, s, authorized);
    }
  }

  /** If nobody is left to authenticate a closed connection, nobody ever does. */
  lemma HopelessStep(secret: Hash, st: State, e: Event, s: StreamId, authorized: bool)
    requires Safe(st, authorized) && Enabled(secret, st, e) && !MayAuthenticate(st, s)
    requires !Has(st, s, HashOk)
    ensures !MayAuthenticate(Apply(secret, st, e), s)
  {
    var st' := Apply(secret, st, e);
    FlagsStep(secret, st, e);
    OnceMoves(secret, st, e);
    assert e.CloseAuthDone? ==> PcOk(st, e.s, authorized);
    assert e.EnterOnce? ==> OnWayToAuth(st, e.s);
    NobodyNew(secret, st, e);
  }

  lemma NobodyNew(secret: Hash, st: State, e: Event)
    requires Enabled(secret, st, e)
    ensures forall t :: OnWayToAuth(Apply(secret, st, e), t) ==> OnWayToAuth(st, t) || (e == Accept(t) && !st.quicDone)
  {
    forall t | OnWayToAuth(Apply(secret, st, e), t)
      ensures OnWayToAuth(st, t) || (e == Accept(t) && !st.quicDone)
    {
      OnWayStep(secret, st, e, t);
    }
  }

  lemma OnWayStep(secret: Hash, st: State, e: Event, t: StreamId)
    requires Enabled(secret, st, e) && OnWayToAuth(Apply(secret, st, e), t)
    ensures OnWayToAuth(st, t) || (e == Accept(t) && !st.quicDone)
  {
    if t !in st.streams || st.streams[t] != Apply(secret, st, e).streams[t] {
      OnWayMoves(secret, st, e, t);
    }
  }

  lemma OnWayMoves(secret: Hash, st: State, e: Event, t: StreamId)
    requires Enabled(secret, st, e) && OnWayToAuth(Apply(secret, st, e), t)
    requires t !in st.streams || st.streams[t] != Apply(secret, st, e).streams[t]
    ensures e == Accept(t) || e == ReadCommand(t, AuthCommand) || e == PresentHash(t, secret)
  {
  }

  /** Lets a stream that can dial go on until it does. */
  lemma DialOn(secret: Hash, events: seq<Event>, s: StreamId) returns (more: seq<Event>)
    requires IsRun(secret, events) && CanDial(After(secret, events, |events|), s)
    ensures events <= more && DialsIn(secret, more, |events|, s)
  {
    more := GetWaiting(secret, events, s);
    more := GetAuthenticated(secret, more, s);
    more := GetShaken(secret, more, s);
    if Has(After(secret, more, |more|), s, ReadingAddress) {
      more := Extend(secret, more, ReadAddress(s));
    }
    var checked := Extend(secret, more, CheckContext(s));
    AfterIsLocal(secret, more, checked, |more|);
    assert checked[|more|] == CheckContext(s) && Dials(secret, checked, |more|);
    more := checked;
  }

  /** From acceptance to the first wait. */
  lemma GetWaiting(secret: Hash, events: seq<Event>, s: StreamId) returns (more: seq<Event>)
    requires IsRun(secret, events) && CanDial(After(secret, events, |events|), s)
    ensures events <= more && IsRun(secret, more)
    ensures var st := After(secret, more, |more|);
            CanDial(st, s) && s in st.streams && st.streams[s] != Start
  {
    more := events;
    if s !in After(secret, more, |more|).streams {
      more := Extend(secret, more, Accept(s));
    }
    if After(secret, more, |more|).streams[s] == Start {
      var st := After(secret, more, |more|);
      more := Extend(secret, more, ReadCommand(s, TcpConnect));
      StillAuthenticable(st, After(secret, more, |more|), s);
    }
  }

  lemma StillAuthenticable(st: State, st': State, s: StreamId)
    requires MayAuthenticate(st, s) && st' == Goto(st, s, WaitAuth)
    ensures MayAuthenticate(st', s)
  {
    if t :| t != s && OnWayToAuth(st, t) {
      assert OnWayToAuth(st', t);
    }
  }

  /** Through the first wait. */
  lemma GetAuthenticated(secret: Hash, events: seq<Event>, s: StreamId) returns (more: seq<Event>)
    requires IsRun(secret, events)
    requires var st := After(secret, events, |events|); CanDial(st, s) && s in st.streams && st.streams[s] != Start
    ensures events <= more && IsRun(secret, more)
    ensures var st := After(secret, more, |more|);
            CanDial(st, s) && s in st.streams && st.streams[s] in {WaitHandshake, ReadingAddress, Checking}
  {
    more := events;
    if Has(After(secret, more, |more|), s, WaitAuth) {
      if After(secret, more, |more|).authCloses == 0 {
        more := Authenticate(secret, more, s);
      }
      more := Extend(secret, more, SeeAuthDone(s));
    }
  }

  /** Through the second. */
  lemma GetShaken(secret: Hash, events: seq<Event>, s: StreamId) returns (more: seq<Event>)
    requires IsRun(secret, events)
    requires var st := After(secret, events, |events|);
             CanDial(st, s) && s in st.streams && st.streams[s] in {WaitHandshake, ReadingAddress, Checking}
    ensures events <= more && IsRun(secret, more)
    ensures var st := After(secret, more, |more|);
            CanDial(st, s) && s in st.streams && st.streams[s] in {ReadingAddress, Checking}
  {
    more := events;
    if Has(After(secret, more, |more|), s, WaitHandshake) {
      if !After(secret, more, |more|).handshake {
        more := Extend(secret, more, HandshakeCompletes);
      }
      more := Extend(secret, more, SeeHandshake(s));
    }
  }

  /** Another stream authenticates the connection; nothing else changes for `s`. */
  lemma Authenticate(secret: Hash, events: seq<Event>, s: StreamId) returns (more: seq<Event>)
    requires IsRun(secret, events)
    requires var st := After(secret, events, |events|);
             Has(st, s, WaitAuth) && MayAuthenticate(st, s) && st.authCloses == 0
    ensures events <= more && IsRun(secret, more)
    ensures SameBut(After(secret, events, |events|), After(secret, more, |more|), s)
    ensures After(secret, more, |more|).authCloses > 0
  {
    var t;
    more, t := Candidate(secret, events, s);
    if !Has(After(secret, more, |more|), t, InOnce) {
      more := PresentRight(secret, more, s, t);
      more := Extend(secret, more, EnterOnce(t));
    }
    more := Extend(secret, more, CloseAuthDone(t));
  }

  /** A stream on its way presents the right hash. */
  lemma PresentRight(secret: Hash, events: seq<Event>, s: StreamId, t: StreamId) returns (more: seq<Event>)
    requires IsRun(secret, events) && t != s
    requires var st := After(secret, events, |events|);
             Has(st, s, WaitAuth) && st.once == Unused && OnWayToAuth(st, t)
    ensures events <= more && IsRun(secret, more)
    ensures var st := After(secret, more, |more|);
            SameBut(After(secret, events, |events|), st, s) && st.once == Unused && Has(st, t, HashOk)
  {
    more := events;
    if Has(After(secret, more, |more|), t, Start) {
      more := Extend(secret, more, ReadCommand(t, AuthCommand));
    }
    if Has(After(secret, more, |more|), t, ReadingHash) {
      more := Extend(secret, more, PresentHash(t, secret));
    }
  }

  /** As far as `s` is concerned, only the authentication may differ. */
  predicate SameBut(st: State, st': State, s: StreamId)
  {
    && Has(st, s, WaitAuth) && Has(st', s, WaitAuth)
    && st'.ctxDone == st.ctxDone && st'.quicDone == st.quicDone && st'.handshake == st.handshake
  }

  /** A stream that can authenticate: whoever is inside the once, somebody on the way, or
      a new stream. */
  lemma Candidate(secret: Hash, events: seq<Event>, s: StreamId) returns (more: seq<Event>, t: StreamId)
    requires IsRun(secret, events)
    requires var st := After(secret, events, |events|);
             Has(st, s, WaitAuth) && MayAuthenticate(st, s) && st.authCloses == 0
    ensures events <= more && IsRun(secret, more) && t != s
    ensures var st := After(secret, more, |more|);
            && SameBut(After(secret, events, |events|), st, s)
            && (Has(st, t, InOnce) || (st.once == Unused && OnWayToAuth(st, t)))
  {
    more := events;
    var st := After(secret, more, |more|);
    RunIsSafe(secret, events, |events|);
    assert OnceOk(st, HashSeen(secret, events, |events|));
    if st.once.Running? {
      t := st.once.owner;
    } else if !st.quicDone {
      t := FreshId(st.streams);
      more := Extend(secret, more, Accept(t));
    } else {
      t :| t != s && OnWayToAuth(st, t);
    }
  }

  /** Stream numbers never run out. */
  lemma FreshId(streams: map<StreamId, Pc>) returns (t: StreamId)
    ensures t !in streams
  {
    t := Above(streams.Keys);
  }

  lemma {:induction false} Above(ids: set<StreamId>) returns (t: StreamId)
    ensures forall s :: s in ids ==> s < t
  {
    if ids == {} {
      t := 0;
    } else {
      var s :| s in ids;
      var rest := Above(ids - {s});
      t := if rest > s then rest else s + 1;
      assert forall x :: x in ids ==> x == s || x in ids - {s};
    }
  }

  // ------------------------------------------------------------------
  // Who is stuck

  /** The stream whose step an event is. */
  function StepOf(e: Event): (s: Option<StreamId>)
  {
    match e
    case Accept(s) => Some(s)
    case ReadCommand(s, _) => Some(s)
    case PresentHash(s, _) => Some(s)
    case EnterOnce(s) => Some(s)
    case CloseAuthDone(s) => Some(s)
    case SkipOnce(s) => Some(s)
    case CancelContext(s) => Some(s)
    case CloseConnection(s) => Some(s)
    case SeeAuthDone(s) => Some(s)
    case SeeCancelled(s) => Some(s)
    case SeeHandshake(s) => Some(s)
    case SeeClosed(s) => Some(s)
    case ReadAddress(s) => Some(s)
    case CheckContext(s) => Some(s)
    case ReadFails(s) => Some(s)
    case _ => None
  }

  ghost predicate CanStep(secret: Hash, st: State, s: StreamId)
  {
    exists e :: StepOf(e) == Some(s) && Enabled(secret, st, e)
  }

  /** An accepted stream has a step to take, unless it is through, waits for one of its
      channels, or for another one that is inside the once. */
  lemma StuckExactly(secret: Hash, st: State, s: StreamId)
    requires s in st.streams
    ensures !CanStep(secret, st, s) <==>
      || Has(st, s, Ended) || Has(st, s, Dialing)
      || (Has(st, s, WaitAuth) && st.authCloses == 0 && !st.ctxDone)
      || (Has(st, s, WaitHandshake) && !st.handshake && !st.quicDone)
      || (Has(st, s, HashOk) && st.once.Running?)
  {
    var e := NextStep(secret, st, s);
    assert Enabled(secret, st, e) ==> CanStep(secret, st, s);
  }

  /** A step that the stream may take where it stands. */
  function NextStep(secret: Hash, st: State, s: StreamId): (e: Event)
    requires s in st.streams
    ensures StepOf(e) == Some(s)
  {
    match st.streams[s]
    case Start => ReadCommand(s, Unsupported)
    case ReadingHash => PresentHash(s, secret)
    case HashOk => if st.once == Unused then EnterOnce(s) else SkipOnce(s)
    case InOnce => CloseAuthDone(s)
    case AuthFailed => CancelContext(s)
    case Cancelled => CloseConnection(s)
    case WaitAuth => if st.ctxDone then SeeCancelled(s) else SeeAuthDone(s)
    case WaitHandshake => if st.quicDone then SeeClosed(s) else SeeHandshake(s)
    case ReadingAddress => ReadAddress(s)
    case Checking => CheckContext(s)
    case Dialing => CheckContext(s)
    case Ended => CheckContext(s)
  }

  /** How many steps of its own a stream has before it at most. */
  function StepsLeft(pc: Pc): (n: nat)
    ensures n <= 6
  {
    match pc
    case Start => 6
    case ReadingHash => 5
    case HashOk => 2
    case InOnce => 1
    case AuthFailed => 2
    case Cancelled => 1
    case WaitAuth => 5
    case WaitHandshake => 4
    case ReadingAddress => 3
    case Checking => 2
    case Dialing => 0
    case Ended => 0
  }

  /** Each of its steps brings a stream nearer to its end. */
  lemma StepsEnd(secret: Hash, st: State, e: Event, s: StreamId)
    requires Enabled(secret, st, e) && StepOf(e) == Some(s) && s in st.streams
    ensures var st' := Apply(secret, st, e);
            s in st'.streams && StepsLeft(st'.streams[s]) < StepsLeft(st.streams[s])
  {
    if Authenticating(e) {
      AuthStepsEnd(secret, st, e, s);
    }
  }

  lemma AuthStepsEnd(secret: Hash, st: State, e: Event, s: StreamId)
    requires Enabled(secret, st, e) && StepOf(e) == Some(s) && s in st.streams && Authenticating(e)
    ensures var st' := Apply(secret, st, e);
            s in st'.streams && StepsLeft(st'.streams[s]) < StepsLeft(st.streams[s])
  {
  }

  // ------------------------------------------------------------------
  // The timeout

  ghost predicate Seen(events: seq<Event>, n: nat, e: Event)
    requires n <= |events|
  {
    exists i :: 0 <= i < n && events[i] == e
  }

  lemma SeenStep(events: seq<Event>, n: nat, e: Event)
    requires 0 < n <= |events|
    ensures Seen(events, n, e) <==> Seen(events, n - 1, e) || events[n - 1] == e
  {
  }

  /** The position of the timeout goroutine tells what it did, in this order. */
  ghost predicate TimerOk(st: State, elapsed: bool, fired: bool, cancelled: bool, closed: bool, stopped: bool)
  {
    && (st.timer.Waiting? <==> !fired && !stopped) && (st.timer.Waiting? ==> st.timer.due == elapsed)
    && (st.timer == TimedOut <==> fired && !cancelled)
    && (st.timer == TimerCancelled <==> cancelled && !closed)
    && (st.timer == Gone <==> closed || stopped)
    && (fired ==> elapsed && !stopped) && (cancelled ==> fired) && (closed ==> cancelled)
  }

  lemma TimerStep(secret: Hash, st: State, e: Event, elapsed: bool, fired: bool, cancelled: bool, closed: bool,
                  stopped: bool)
    requires Enabled(secret, st, e) && TimerOk(st, elapsed, fired, cancelled, closed, stopped)
    ensures TimerOk(Apply(secret, st, e), elapsed || e == TimerElapses, fired || e == TimerFires,
                    cancelled || e == TimerCancels, closed || e == TimerCloses, stopped || e == TimerStops)
  {
  }

  /** In every run: the timeout closes only after cancelling, cancels only after
      firing, fires only after its time is up, and never both fires and stops. */
  lemma {:induction false} TimerRecordsHistory(secret: Hash, events: seq<Event>, n: nat)
    requires IsRun(secret, events) && n <= |events|
    ensures TimerOk(After(secret, events, n), Seen(events, n, TimerElapses), Seen(events, n, TimerFires),
                    Seen(events, n, TimerCancels), Seen(events, n, TimerCloses), Seen(events, n, TimerStops))
  {
    if n > 0 {
      TimerRecordsHistory(secret, events, n - 1);
      assert StepOk(secret, events, n - 1);
      TimerStep(secret, After(secret, events, n - 1), events[n - 1],
                Seen(events, n - 1, TimerElapses), Seen(events, n - 1, TimerFires),
                Seen(events, n - 1, TimerCancels), Seen(events, n - 1, TimerCloses), Seen(events, n - 1, TimerStops));
      SeenStep(events, n, TimerElapses);
      SeenStep(events, n, TimerFires);
      SeenStep(events, n, TimerCancels);
      SeenStep(events, n, TimerCloses);
      SeenStep(events, n, TimerStops);
    }
  }

  /** A timeout that fires on an authenticated connection had both cases of its select
      ready, and one that fires on any other had not. */
  lemma {:induction false} FiringIsARace(secret: Hash, events: seq<Event>, j: nat)
    requires IsRun(secret, events) && j < |events| && events[j] == TimerFires
    ensures Seen(events, j, TimerElapses)
    ensures var st := After(secret, events, j);
            Enabled(secret, st, TimerStops) <==> st.authCloses > 0 || st.ctxDone
  {
    assert StepOk(secret, events, j);
    TimerRecordsHistory(secret, events, j);
  }

  /** The run can go on in such a way that the timeout closes the connection. */
  ghost predicate MayTimeOut(secret: Hash, events: seq<Event>)
  {
    exists more :: events <= more && TimesOutIn(secret, more, |events|)
  }

  ghost predicate TimesOutIn(secret: Hash, more: seq<Event>, n: nat)
  {
    IsRun(secret, more) && exists j :: n <= j < |more| && more[j] == TimerCloses
  }

  /** Exactly when a connection, authenticated or not, can still be closed by its
      timeout: as long as the goroutine has neither stopped nor closed it already. */
  lemma MayTimeOutExactly(secret: Hash, events: seq<Event>)
    requires IsRun(secret, events)
    ensures MayTimeOut(secret, events) <==> !Seen(events, |events|, TimerStops) && !Seen(events, |events|, TimerCloses)
  {
    TimerRecordsHistory(secret, events, |events|);
    if After(secret, events, |events|).timer != Gone {
      var more := TimeOut(secret, events);
      assert TimesOutIn(secret, more, |events|);
    } else if more :| events <= more && TimesOutIn(secret, more, |events|) {
      AfterIsLocal(secret, events, more, |events|);
      GoneClosesNothing(secret, more, |events|);
    }
  }

  lemma {:induction false} GoneClosesNothing(secret: Hash, more: seq<Event>, n: nat)
    requires IsRun(secret, more) && n <= |more| && After(secret, more, n).timer == Gone
    ensures !TimesOutIn(secret, more, n)
  {
    forall j | n <= j < |more|
      ensures more[j] != TimerCloses
    {
      GoneStaysGone(secret, more, n, j);
      assert StepOk(secret, more, j);
    }
  }

  lemma {:induction false} GoneStaysGone(secret: Hash, events: seq<Event>, i: nat, j: nat)
    requires IsRun(secret, events) && i <= j <= |events| && After(secret, events, i).timer == Gone
    ensures After(secret, events, j).timer == Gone
  {
    if i < j {
      GoneStaysGone(secret, events, i, j - 1);
      assert StepOk(secret, events, j - 1);
      GoneStep(secret, After(secret, events, j - 1), events[j - 1]);
    }
  }

  lemma GoneStep(secret: Hash, st: State, e: Event)
    requires Enabled(secret, st, e) && st.timer == Gone
    ensures Apply(secret, st, e).timer == Gone
  {
  }

  /** Lets the timeout run to its end. */
  lemma TimeOut(secret: Hash, events: seq<Event>) returns (more: seq<Event>)
    requires IsRun(secret, events) && After(secret, events, |events|).timer != Gone
    ensures events <= more && IsRun(secret, more) && |more| > |events| && more[|more| - 1] == TimerCloses
    ensures After(secret, more, |more|).authCloses == After(secret, events, |events|).authCloses
    ensures After(secret, more, |more|).quicDone
  {
    more := events;
    if After(secret, more, |more|).timer.Waiting? {
      more := Fire(secret, more);
    }
    if After(secret, more, |more|).timer == TimedOut {
      more := Extend(secret, more, TimerCancels);
    }
    more := Extend(secret, more, TimerCloses);
  }

  /** Lets the time pass and the timeout fire. */
  lemma Fire(secret: Hash, events: seq<Event>) returns (more: seq<Event>)
    requires IsRun(secret, events) && After(secret, events, |events|).timer.Waiting?
    ensures events <= more && IsRun(secret, more)
    ensures After(secret, more, |more|) == After(secret, events, |events|).(timer := TimedOut)
  {
    more := events;
    if !After(secret, more, |more|).timer.due {
      more := Extend(secret, more, TimerElapses);
    }
    more := Extend(secret, more, TimerFires);
  }

  /** A run that authenticates the connection and does nothing else. */
  lemma AuthenticatingRun(secret: Hash) returns (events: seq<Event>)
    ensures IsRun(secret, events)
    ensures var st := After(secret, events, |events|);
            st.authCloses == 1 && st.timer == Waiting(false) && !st.ctxDone && !st.quicDone
  {
    events := [];
    assert IsRun(secret, events);
    events := Extend(secret, events, Accept(0));
    events := Extend(secret, events, ReadCommand(0, AuthCommand));
    events := Extend(secret, events, PresentHash(0, secret));
    events := Extend(secret, events, EnterOnce(0));
    events := Extend(secret, events, CloseAuthDone(0));
  }

  /** So the timeout may close a connection that is authenticated when its time is up:
      both cases of the select are ready, and it may take the other one. */
  lemma TimeoutMayCloseAuthenticated(secret: Hash) returns (events: seq<Event>, race: nat)
    ensures IsRun(secret, events) && race < |events| && events[race] == TimerFires
    ensures var st := After(secret, events, race);
            st.authCloses == 1 && !st.ctxDone && Enabled(secret, st, TimerStops) && Enabled(secret, st, TimerFires)
    ensures After(secret, events, |events|).authCloses == 1 && After(secret, events, |events|).quicDone
  {
    var before := RaceRun(secret);
    race := |before|;
    var fired := Extend(secret, before, TimerFires);
    events := TimeOut(secret, fired);
    AfterIsLocal(secret, before, events, race);
    assert events[race] == fired[race];
  }

  /** Authenticates, and lets the time run out before the timeout's goroutine looks. */
  lemma RaceRun(secret: Hash) returns (events: seq<Event>)
    ensures IsRun(secret, events)
    ensures var st := After(secret, events, |events|);
            st.authCloses == 1 && !st.ctxDone && st.timer == Waiting(true)
  {
    events := AuthenticatingRun(secret);
    events := Extend(secret, events, TimerElapses);
  }

  lemma Extend(secret: Hash, events: seq<Event>, e: Event) returns (more: seq<Event>)
    requires IsRun(secret, events) && Enabled(secret, After(secret, events, |events|), e)
    ensures more == events + [e] && IsRun(secret, more)
    ensures After(secret, more, |more|) == Apply(secret, After(secret, events, |events|), e)
  {
    more := events + [e];
    forall n
      ensures StepOk(secret, more, n)
    {
      if 0 <= n <= |events| {
        AfterIsLocal(secret, events, more, n);
        assert StepOk(secret, events, n);
      }
    }
    AfterIsLocal(secret, events, more, |events|);
  }

  lemma {:induction false} AfterIsLocal(secret: Hash, events: seq<Event>, more: seq<Event>, n: nat)
    requires n <= |events| && events <= more
    ensures After(secret, more, n) == After(secret, events, n)
  {
    if n > 0 {
      AfterIsLocal(secret, events, more, n - 1);
    }
  }
}
