/** How an external feed client shuts down: internal/feed/client.go runs Start and Listen as two processes that
    share readyState, the Feed channel and the unbuffered closeConn channel, beside the hub that closes Feed. */
module ClientFeed {

  /** Where Start is: in its select loop; a ping failed but readyState is not written yet; about to unregister;
      running its deferred exit; connection closed; finished. */
  datatype StartPc = Looping | PingFailed | Unregistering | Exiting | ConnClosed | StartDone

  /** Where Listen is: receiving on Feed; blocked sending on closeConn; finished. */
  datatype ListenPc = Receiving | WaitingToClose | ListenDone

  datatype State = State(
    start: StartPc,
    listen: ListenPc,
    open: bool,          // readyState is OPEN
    wasRegistered: bool,
    registered: bool,
    feedCloses: nat,
    closedByHub: bool,
    connCloses: nat
  )

  datatype Event =
    | HubRegisters
    | HubCloses
    | PingFails
    | NoteClosed
    | Unregister
    | SeeClosed
    | Rendezvous
    | CloseConn
    | FinishStart

  function Initial(): State {
    State(Looping, Receiving, true, false, false, 0, false, 0)
  }

  predicate Enabled(s: State, e: Event) {
    match e
    case HubRegisters => !s.wasRegistered
    case HubCloses => s.registered
    case PingFails => s.start.Looping?
    case NoteClosed => s.start.PingFailed?
    case Unregister => s.start.Unregistering?
    case SeeClosed => s.listen.Receiving? && s.feedCloses > 0
    case Rendezvous => s.start.Looping? && s.listen.WaitingToClose?
    case CloseConn => s.start.Exiting?
    case FinishStart => s.start.ConnClosed?
  }

  function Step(s: State, e: Event): State {
    match e
    case HubRegisters => s.(wasRegistered := true, registered := true)
    case HubCloses => s.(registered := false, feedCloses := s.feedCloses + 1, closedByHub := true)
    case PingFails => s.(start := PingFailed)
    case NoteClosed => s.(start := Unregistering, open := false)
    case Unregister =>
      if s.registered then s.(start := Exiting, registered := false, feedCloses := s.feedCloses + 1)
      else s.(start := Exiting)
    case SeeClosed => s.(listen := if s.open then WaitingToClose else ListenDone)
    case Rendezvous => s.(start := Exiting, listen := ListenDone)
    case CloseConn => s.(start := ConnClosed, connCloses := s.connCloses + 1)
    case FinishStart => s.(start := StartDone, open := false)
  }

  datatype Trace = Trace(events: seq<Event>, states: seq<State>)

  predicate Next(s: State, e: Event, s': State) {
    Enabled(s, e) && s' == Step(s, e)
  }

  /** Any interleaving of the two processes with the hub. */
  predicate IsRun(t: Trace) {
    && |t.states| == |t.events| + 1
    && t.states[0] == Initial()
    && forall n :: 0 <= n < |t.events| ==> Next(t.states[n], t.events[n], t.states[n + 1])
  }

  /** Listen waits on closeConn although Start left the loop that receives from it. */
  predicate Stuck(s: State) {
    s.listen.WaitingToClose? && !s.start.Looping?
  }

  /** The two ways to miss each other: a ping fails while Listen waits, or Listen reads readyState between a
      ping failure and the write that records it. */
  predicate Misses(s: State, e: Event) {
    || (e.PingFails? && s.listen.WaitingToClose?)
    || (e.SeeClosed? && s.start.PingFailed?)
  }

  predicate Consistent(s: State) {
    && s.feedCloses <= 1
    && (s.registered ==> s.wasRegistered && s.feedCloses == 0)
    && (s.closedByHub ==> s.feedCloses == 1)
    && (!s.wasRegistered ==> s.feedCloses == 0)
    && (s.feedCloses > 0 && (s.start.Looping? || s.start.PingFailed? || s.start.Unregistering?) ==> s.closedByHub)
    && (s.open ==> s.start.Looping? || s.start.PingFailed? || s.listen.ListenDone?)
    && (s.start.Looping? || s.start.PingFailed? ==> s.open)
    && (!s.listen.Receiving? ==> s.feedCloses > 0)
    && (s.start.Looping? ==> !s.listen.ListenDone?)
    && s.connCloses == (if s.start.ConnClosed? || s.start.StartDone? then 1 else 0)
  }

  /** In every interleaving the Feed is closed at most once, and the connection exactly once: when Start ends. */
  lemma {:induction false} AlwaysConsistent(t: Trace, n: nat)
    requires IsRun(t) && n <= |t.events|
    ensures Consistent(t.states[n])
  {
    if n > 0 {
      AlwaysConsistent(t, n - 1);
      assert Next(t.states[n - 1], t.events[n - 1], t.states[n]);
    }
  }

  lemma StuckStep(s: State, e: Event, s': State)
    requires Consistent(s) && Next(s, e, s')
    ensures Stuck(s') <==> Stuck(s) || Misses(s, e)
  {
  }

  /** Exactly: a run ends with Listen waiting for a Start that left its loop if and only if the two missed each
      other at some step. */
  lemma {:induction false} StuckExactly(t: Trace, n: nat)
    requires IsRun(t) && n <= |t.events|
    ensures Stuck(t.states[n]) <==> exists k :: 0 <= k < n && Misses(t.states[k], t.events[k])
  {
    if n > 0 {
      StuckExactly(t, n - 1);
      AlwaysConsistent(t, n - 1);
      assert Next(t.states[n - 1], t.events[n - 1], t.states[n]);
      StuckStep(t.states[n - 1], t.events[n - 1], t.states[n]);
    }
  }

  /** If no ping fails after the hub closed the Feed, and the hub does not close it between a ping failure and
      its record, then Listen never waits for a Start that is gone. */
  lemma ShutsDownCleanly(t: Trace, n: nat)
    requires IsRun(t) && n <= |t.events|
    requires forall k :: 0 <= k < n && t.events[k].PingFails? ==> !t.states[k].closedByHub
    requires forall k :: 0 <= k < n && t.events[k].HubCloses? ==> !t.states[k].start.PingFailed?
    ensures !Stuck(t.states[n])
  {
    StuckExactly(t, n);
    forall k | 0 <= k < n
      ensures !Misses(t.states[k], t.events[k])
    {
      AlwaysConsistent(t, k);
      NotClosedWhileFailing(t, k, n);
      assert Next(t.states[k], t.events[k], t.states[k + 1]);
    }
  }

  /** Under those two conditions the Feed is still open while a ping failure goes unrecorded. */
  lemma {:induction false} NotClosedWhileFailing(t: Trace, k: nat, n: nat)
    requires IsRun(t) && k <= n <= |t.events|
    requires forall i :: 0 <= i < n && t.events[i].PingFails? ==> !t.states[i].closedByHub
    requires forall i :: 0 <= i < n && t.events[i].HubCloses? ==> !t.states[i].start.PingFailed?
    ensures t.states[k].start.PingFailed? ==> t.states[k].feedCloses == 0
    decreases k
  {
    if k > 0 {
      NotClosedWhileFailing(t, k - 1, n);
      AlwaysConsistent(t, k - 1);
      assert Next(t.states[k - 1], t.events[k - 1], t.states[k]);
    }
  }

  /** The hub closes the Feed, Listen sees readyState open and waits, and a ping fails before Start receives. */
  function LatePing(): Trace {
    var s0 := Initial();
    var s1 := Step(s0, HubRegisters);
    var s2 := Step(s1, HubCloses);
    var s3 := Step(s2, SeeClosed);
    var s4 := Step(s3, PingFails);
    var s5 := Step(s4, NoteClosed);
    var s6 := Step(s5, Unregister);
    var s7 := Step(s6, CloseConn);
    var s8 := Step(s7, FinishStart);
    Trace([HubRegisters, HubCloses, SeeClosed, PingFails, NoteClosed, Unregister, CloseConn, FinishStart],
          [s0, s1, s2, s3, s4, s5, s6, s7, s8])
  }

  /** Without those conditions shutdown can hang: here Start has finished and Listen still waits. */
  lemma LatePingHangs()
    ensures IsRun(LatePing())
    ensures var last := LatePing().states[8]; Stuck(last) && last.start.StartDone?
  {
    assert LatePing().states[3].listen.WaitingToClose?;
  }

  /** And it hangs for good: no step releases a stuck Listen. */
  lemma {:induction false} StuckForGood(t: Trace, m: nat, n: nat)
    requires IsRun(t) && m <= n <= |t.events| && Stuck(t.states[m])
    ensures Stuck(t.states[n])
  {
    if m < n {
      StuckForGood(t, m, n - 1);
      assert Next(t.states[n - 1], t.events[n - 1], t.states[n]);
    }
  }

  // ---------- Leaving the hub ----------

  /** Where Start's unregistering leaves the client, exactly: out of the hub with its Feed closed, if it was ever
      registered; else a client registered only later stays until the hub closes its Feed. */
  lemma {:induction false} AfterUnregistering(t: Trace, k: nat, n: nat)
    requires IsRun(t) && k < n <= |t.events| && t.events[k].Unregister?
    ensures var s := t.states[n];
      if t.states[k].wasRegistered then !s.registered && s.feedCloses == 1
      else (s.registered <==> s.wasRegistered && !s.closedByHub) && s.feedCloses == (if s.closedByHub then 1 else 0)
    ensures !t.states[n].start.Looping? && !t.states[n].start.PingFailed? && !t.states[n].start.Unregistering?
  {
    AlwaysConsistent(t, n - 1);
    assert Next(t.states[n - 1], t.events[n - 1], t.states[n]);
    RegisteredUntilClosed(t, n - 1);
    if k + 1 < n {
      AfterUnregistering(t, k, n - 1);
    }
  }

  lemma {:induction false} RegisteredUntilClosed(t: Trace, n: nat)
    requires IsRun(t) && n <= |t.events|
    ensures t.states[n].wasRegistered ==> (t.states[n].registered <==> t.states[n].feedCloses == 0)
  {
    if n > 0 {
      RegisteredUntilClosed(t, n - 1);
      AlwaysConsistent(t, n - 1);
      assert Next(t.states[n - 1], t.events[n - 1], t.states[n]);
    }
  }

  /** A Start whose ping failed does not end without unregistering. */
  lemma {:induction false} UnregistersAfterPing(t: Trace, j: nat, n: nat) returns (k: nat)
    requires IsRun(t) && j < n <= |t.events| && t.events[j].PingFails?
    requires !t.states[n].start.PingFailed? && !t.states[n].start.Unregistering?
    ensures j < k < n && t.events[k].Unregister?
  {
    assert Next(t.states[n - 1], t.events[n - 1], t.states[n]);
    if t.events[n - 1].Unregister? {
      k := n - 1;
    } else {
      k := UnregistersAfterPing(t, j, n - 1);
    }
  }

  /** A registered client whose ping fails leaves the hub, with its Feed closed, before Start is done. */
  lemma PingFailureLeavesHub(t: Trace, j: nat, n: nat)
    requires IsRun(t) && j < n <= |t.events| && t.events[j].PingFails? && t.states[j].wasRegistered
    requires t.states[n].start.StartDone?
    ensures !t.states[n].registered && t.states[n].feedCloses == 1
  {
    var k := UnregistersAfterPing(t, j, n);
    StaysRegisteredOnce(t, j, k);
    AfterUnregistering(t, k, n);
  }

  lemma {:induction false} StaysRegisteredOnce(t: Trace, j: nat, k: nat)
    requires IsRun(t) && j <= k <= |t.events| && t.states[j].wasRegistered
    ensures t.states[k].wasRegistered
  {
    if j < k {
      StaysRegisteredOnce(t, j, k - 1);
      assert Next(t.states[k - 1], t.events[k - 1], t.states[k]);
    }
  }

  /** A client whose ping fails before it is registered is registered all the same, and stays. */
  function LateRegistration(): Trace {
    var s0 := Initial();
    var s1 := Step(s0, PingFails);
    var s2 := Step(s1, NoteClosed);
    var s3 := Step(s2, Unregister);
    var s4 := Step(s3, CloseConn);
    var s5 := Step(s4, FinishStart);
    var s6 := Step(s5, HubRegisters);
    Trace([PingFails, NoteClosed, Unregister, CloseConn, FinishStart, HubRegisters], [s0, s1, s2, s3, s4, s5, s6])
  }

  lemma LateRegistrationStays()
    ensures IsRun(LateRegistration())
    ensures var last := LateRegistration().states[6]; last.start.StartDone? && last.registered && last.feedCloses == 0
  {
    assert LateRegistration().states[3].start.Exiting?;
  }

  /** When the hub closes the Feed of a client whose pings succeed, both processes end and the connection is closed. */
  lemma CanEnd(t: Trace) returns (t': Trace)
    requires IsRun(t)
    requires var s := t.states[|t.events|]; s.registered && s.start.Looping? && s.listen.Receiving?
    ensures IsRun(t') && t'.events == t.events + [HubCloses, SeeClosed, Rendezvous, CloseConn, FinishStart]
    ensures var s := t'.states[|t'.events|];
      s.start.StartDone? && s.listen.ListenDone? && !s.registered && s.feedCloses == 1 && s.connCloses == 1 && !s.open
  {
    AlwaysConsistent(t, |t.events|);
    t' := Continue(t, HubCloses);
    t' := Continue(t', SeeClosed);
    t' := Continue(t', Rendezvous);
    t' := Continue(t', CloseConn);
    t' := Continue(t', FinishStart);
  }

  lemma Continue(t: Trace, e: Event) returns (t': Trace)
    requires IsRun(t) && Enabled(t.states[|t.events|], e)
    ensures IsRun(t') && t'.events == t.events + [e]
    ensures t'.states[|t'.events|] == Step(t.states[|t.events|], e)
  {
    t' := Trace(t.events + [e], t.states + [Step(t.states[|t.events|], e)]);
    forall n | 0 <= n < |t'.events|
      ensures Next(t'.states[n], t'.events[n], t'.states[n + 1])
    {
      if n < |t.events| {
        assert Next(t.states[n], t.events[n], t.states[n + 1]);
      }
    }
  }
}
