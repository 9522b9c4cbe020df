/** The websocket source: connecting with retries, and the pipeline from the websocket over a one-slot
    channel to the hub's loop. */
module FeedSource {
  import opened Bits
  import opened ByteStrings
  import opened MessageCache
  import opened FeedHub

  datatype ReadyState = Closed | Connecting | Open

  class Clock {
    var now: int

    constructor (now: int)
      ensures this.now == now
    {
      this.now := now;
    }

    method Advance(delta: nat)
      modifies this
      ensures now == old(now) + delta
    {
      now := now + delta;
    }
  }

  /** What the n-th dial meets: whether it succeeds, and how long it and the overshoot of the sleep after it take. */
  datatype Network = Network(succeeds: nat -> bool, takes: nat -> nat)

  /** How many whole intervals start before the limit is reached. */
  function DialLimit(limit: int, interval: int): nat
    requires interval > 0
  {
    if limit <= 0 then 0 else (limit + interval - 1) / interval
  }

  class WebsocketSource {
    const reconnectIntervalMax: int
    const reconnectInterval: int
    var readyState: ReadyState
    var shouldReconnect: bool
    var dials: nat

    constructor (reconnectIntervalMax: int, reconnectInterval: int)
      ensures this.reconnectIntervalMax == reconnectIntervalMax && this.reconnectInterval == reconnectInterval
      ensures readyState == Closed && shouldReconnect && dials == 0
    {
      this.reconnectIntervalMax, this.reconnectInterval := reconnectIntervalMax, reconnectInterval;
      readyState, shouldReconnect, dials := Closed, true, 0;
    }

    method Dial(net: Network, clock: Clock) returns (ok: bool)
      modifies this`readyState, this`dials, clock
      ensures dials == old(dials) + 1 && ok == net.succeeds(old(dials))
      ensures readyState == if ok then Open else old(readyState)
      ensures clock.now == old(clock.now) + net.takes(old(dials))
    {
      ok := net.succeeds(dials);
      clock.Advance(net.takes(dials));
      dials := dials + 1;
      if ok {
        readyState := Open;
      }
    }

    /** Without a concurrent disconnect: true exactly when the state is left open, closed otherwise. Every dial
        but the last fails; there are at most DialLimit of them, and exactly that many when none of them
        succeeds or takes time. */
    method Connect(net: Network, clock: Clock) returns (connected: bool)
      requires reconnectInterval > 0
      modifies this`readyState, this`dials, clock
      ensures readyState == if connected then Open else Closed
      ensures old(dials) <= dials <= old(dials) + DialLimit(reconnectIntervalMax, reconnectInterval)
      ensures forall k :: old(dials) <= k < dials ==> (net.succeeds(k) <==> connected && k == dials - 1)
      ensures connected ==> dials > old(dials)
      ensures !connected ==> clock.now - old(clock.now) >= reconnectIntervalMax
      ensures (forall k :: k >= old(dials) ==> !net.succeeds(k) && net.takes(k) == 0) ==>
        dials == old(dials) + DialLimit(reconnectIntervalMax, reconnectInterval)
    {
      readyState := Connecting;
      var startTime := clock.now;
      ghost var tried: nat := 0;
      while clock.now - startTime < reconnectIntervalMax
        invariant dials == old(dials) + tried
        invariant tried * reconnectInterval <= clock.now - startTime
        invariant tried <= DialLimit(reconnectIntervalMax, reconnectInterval)
        invariant forall k :: old(dials) <= k < dials ==> !net.succeeds(k)
        invariant (forall k :: k >= old(dials) ==> net.takes(k) == 0) ==> clock.now - startTime == tried * reconnectInterval
        decreases reconnectIntervalMax - (clock.now - startTime)
      {
        CeilingBound(reconnectIntervalMax, reconnectInterval, tried);
        var ok := Dial(net, clock);
        if ok {
          return true;
        }
        clock.Advance(reconnectInterval);
        tried := tried + 1;
        assert tried * reconnectInterval == (tried - 1) * reconnectInterval + reconnectInterval;
      }
      readyState := Closed;
      if reconnectIntervalMax > 0 {
        CeilingBound(reconnectIntervalMax, reconnectInterval, tried);
      }
      return false;
    }

    method Disconnect()
      modifies this`readyState, this`shouldReconnect
      ensures !shouldReconnect && readyState == Closed
    {
      shouldReconnect := false;
      readyState := Closed;
    }
  }

  // ---------- The pipeline ----------

  /** Where the source's listening loop is. */
  datatype Listener = NotStarted | Reading | Holding(message: Bytes) | Reconnecting | Ended

  datatype Pipeline = Pipeline(
    listener: Listener,
    readyState: ReadyState,
    shouldReconnect: bool,
    channel: seq<Bytes>,
    closes: nat,
    hub: Phase,
    read: seq<Bytes>,
    handled: seq<Bytes>,
    panicked: bool
  )

  datatype PipeEvent =
    | Start(connected: bool)
    | Read(message: Bytes)
    | ReadError
    | DialAgain(ok: bool)
    | GiveUp
    | Push
    | Take
    | HubEnds
    | DisconnectRequest

  function NewPipeline(): Pipeline {
    Pipeline(NotStarted, Closed, true, [], 0, NotRun, [], [], false)
  }

  /** The deferred end of the listening loop closes the channel. */
  function EndListening(p: Pipeline): Pipeline {
    p.(listener := Ended, closes := p.closes + 1, panicked := p.panicked || p.closes > 0)
  }

  predicate PipeEnabled(p: Pipeline, e: PipeEvent) {
    match e
    case Start(_) => p.hub.NotRun?
    case Read(_) => p.listener.Reading?
    case ReadError => p.listener.Reading?
    case DialAgain(_) => p.listener.Reconnecting?
    case GiveUp => p.listener.Reconnecting?
    case Push => p.listener.Holding? && |p.channel| < 1
    case Take => p.hub.Running? && p.channel != []
    case HubEnds => p.hub.Running? && p.channel == [] && p.closes > 0
    case DisconnectRequest => !p.listener.NotStarted?
  }

  function PipeStep(p: Pipeline, e: PipeEvent): Pipeline {
    match e
    case Start(connected) =>
      if connected then p.(listener := Reading, readyState := Open, hub := Running)
      else p.(readyState := Closed, hub := Failed)
    case Read(m) => p.(listener := Holding(m), read := p.read + [m])
    case ReadError =>
      if p.shouldReconnect then p.(listener := Reconnecting, readyState := Connecting) else EndListening(p)
    case DialAgain(ok) => if ok then p.(listener := Reading, readyState := Open) else p
    case GiveUp => EndListening(p.(readyState := Closed))
    case Push =>
      if p.listener.Holding? then
        p.(listener := Reading, channel := p.channel + [p.listener.message], panicked := p.panicked || p.closes > 0)
      else p
    case Take => if p.channel == [] then p else p.(channel := p.channel[1..], handled := p.handled + [p.channel[0]])
    case HubEnds => p.(hub := Stopped)
    case DisconnectRequest => p.(shouldReconnect := false, readyState := Closed)
  }

  datatype PipeTrace = PipeTrace(events: seq<PipeEvent>, states: seq<Pipeline>)

  predicate PipeNext(p: Pipeline, e: PipeEvent, p': Pipeline) {
    PipeEnabled(p, e) && p' == PipeStep(p, e)
  }

  predicate IsPipeRun(t: PipeTrace) {
    && |t.states| == |t.events| + 1
    && t.states[0] == NewPipeline()
    && forall n :: 0 <= n < |t.events| ==> PipeNext(t.states[n], t.events[n], t.states[n + 1])
  }

  function Held(p: Pipeline): seq<Bytes> {
    if p.listener.Holding? then [p.listener.message] else []
  }

  /** Nothing read is lost, duplicated or reordered on the way to the hub. */
  predicate Conserves(p: Pipeline) {
    && !p.panicked
    && p.read == p.handled + p.channel + Held(p)
    && |p.channel| <= 1
    && p.closes == (if p.listener.Ended? then 1 else 0)
    && (p.listener.NotStarted? <==> p.hub.NotRun? || p.hub.Failed?)
    && (p.hub.Stopped? ==> p.listener.Ended? && p.channel == [])
    && (p.shouldReconnect ==> (p.readyState.Open? <==> p.listener.Reading? || p.listener.Holding?))
  }

  lemma ConservesStep(p: Pipeline, e: PipeEvent, p': Pipeline)
    requires Conserves(p) && PipeNext(p, e, p')
    ensures Conserves(p')
  {
    match e
    case Push => assert p'.read == p.handled + (p.channel + [p.listener.message]);
    case Take => assert p.channel == [p.channel[0]] + p.channel[1..];
    case _ =>
  }

  /** Conservation: across any number of reconnects, the messages read are those the hub handled, then at most
      one in the channel, then at most one the listener still holds; the channel is closed once, when listening
      ends; and once the hub's loop has ended it has handled everything that was read. */
  lemma {:induction false} Conservation(t: PipeTrace, n: nat)
    requires IsPipeRun(t) && n <= |t.events|
    ensures Conserves(t.states[n])
    ensures t.states[n].hub.Stopped? ==> t.states[n].handled == t.states[n].read
  {
    if n > 0 {
      Conservation(t, n - 1);
      ConservesStep(t.states[n - 1], t.events[n - 1], t.states[n]);
    }
  }

  /** shouldReconnect never returns to true. */
  lemma {:induction false} NoReconnectStays(t: PipeTrace, m: nat, n: nat)
    requires IsPipeRun(t) && m <= n <= |t.events| && !t.states[m].shouldReconnect
    ensures !t.states[n].shouldReconnect
  {
    if m < n {
      NoReconnectStays(t, m, n - 1);
      assert PipeNext(t.states[n - 1], t.events[n - 1], t.states[n]);
    }
  }

  /** Once reconnecting is off, a read error ends listening for good, without a dial. */
  lemma {:induction false} ReadErrorEnds(t: PipeTrace, m: nat, n: nat)
    requires IsPipeRun(t) && m < n <= |t.events|
    requires t.events[m].ReadError? && !t.states[m].shouldReconnect
    ensures t.states[n].listener.Ended? && (n < |t.events| ==> !t.events[n].DialAgain?)
  {
    if n < |t.events| {
      assert PipeNext(t.states[n], t.events[n], t.states[n + 1]);
    }
    assert PipeNext(t.states[n - 1], t.events[n - 1], t.states[n]);
    if m + 1 < n {
      ReadErrorEnds(t, m, n - 1);
      Conservation(t, n - 1);
    }
  }

  /** The panic flag, exactly: from any state, a step panics if and only if it sends on the channel when that is
      closed, or closes it again. */
  lemma PipePanicsExactly(p: Pipeline, e: PipeEvent, p': Pipeline)
    requires PipeNext(p, e, p')
    ensures p'.panicked <==> p.panicked || (p.closes > 0 && (p'.closes > p.closes || |p'.channel| > |p.channel|))
  {
  }

  // ---------- When listening ends ----------

  predicate EndsListening(p: Pipeline, e: PipeEvent) {
    e.GiveUp? || (e.ReadError? && !p.shouldReconnect)
  }

  /** Listening ends, exactly, when a read fails with reconnecting off, or reconnecting was given up. */
  lemma {:induction false} EndsExactly(t: PipeTrace, n: nat)
    requires IsPipeRun(t) && n <= |t.events|
    ensures t.states[n].listener.Ended? <==> exists k :: 0 <= k < n && EndsListening(t.states[k], t.events[k])
  {
    if n > 0 {
      EndsExactly(t, n - 1);
      Conservation(t, n - 1);
      assert PipeNext(t.states[n - 1], t.events[n - 1], t.states[n]);
    }
  }

  /** Reconnecting is off exactly after a request to disconnect. */
  lemma {:induction false} ReconnectOffExactly(t: PipeTrace, n: nat)
    requires IsPipeRun(t) && n <= |t.events|
    ensures !t.states[n].shouldReconnect <==> exists k :: 0 <= k < n && t.events[k].DisconnectRequest?
  {
    if n > 0 {
      ReconnectOffExactly(t, n - 1);
      assert PipeNext(t.states[n - 1], t.events[n - 1], t.states[n]);
    }
  }

  /** A request to disconnect closes the source, until a reconnect already under way succeeds. */
  lemma {:induction false} DisconnectedStaysClosed(t: PipeTrace, m: nat, n: nat)
    requires IsPipeRun(t) && m < n <= |t.events| && t.events[m].DisconnectRequest?
    requires forall k :: m < k < n ==> t.events[k] != DialAgain(true)
    ensures t.states[n].readyState.Closed? && !t.states[n].listener.NotStarted?
  {
    assert PipeNext(t.states[n - 1], t.events[n - 1], t.states[n]);
    if m + 1 < n {
      DisconnectedStaysClosed(t, m, n - 1);
      NoReconnectStays(t, m + 1, n - 1);
      assert PipeNext(t.states[m], t.events[m], t.states[m + 1]);
      Conservation(t, n - 1);
    } else {
      assert PipeNext(t.states[m], t.events[m], t.states[m + 1]);
    }
  }

  // ---------- What stays possible ----------

  predicate RunsTo(t: PipeTrace, last: Pipeline) {
    IsPipeRun(t) && t.states[|t.events|] == last
  }

  lemma Continue(t: PipeTrace, last: Pipeline, e: PipeEvent, last': Pipeline) returns (t': PipeTrace)
    requires RunsTo(t, last) && PipeNext(last, e, last')
    ensures RunsTo(t', last') && t'.events == t.events + [e]
  {
    t' := PipeTrace(t.events + [e], t.states + [last']);
    forall n | 0 <= n < |t'.events|
      ensures PipeNext(t'.states[n], t'.events[n], t'.states[n + 1])
    {
      if n < |t.events| {
        assert PipeNext(t.states[n], t.events[n], t.states[n + 1]);
      }
    }
  }

  /** The source reconnects: after a read error with reconnecting on, a successful dial brings it back to reading. */
  lemma CanReconnect(t: PipeTrace, last: Pipeline, m: Bytes) returns (t': PipeTrace, last': Pipeline)
    requires RunsTo(t, last) && last.listener.Reading? && last.shouldReconnect
    ensures RunsTo(t', last') && t'.events == t.events + [ReadError, DialAgain(true), Read(m)]
    ensures last'.listener == Holding(m) && last'.readyState.Open? && last'.read == last.read + [m]
    ensures last'.channel == last.channel && last'.closes == last.closes
  {
    var lost := PipeStep(last, ReadError);
    var t1 := Continue(t, last, ReadError, lost);
    var back := PipeStep(lost, DialAgain(true));
    var t2 := Continue(t1, lost, DialAgain(true), back);
    last' := PipeStep(back, Read(m));
    t' := Continue(t2, back, Read(m), last');
  }

  /** Or it gives up: the channel is closed for good, and the source too. */
  lemma CanGiveUp(t: PipeTrace, last: Pipeline) returns (t': PipeTrace, last': Pipeline)
    requires RunsTo(t, last) && last.listener.Reading? && last.shouldReconnect
    ensures RunsTo(t', last') && t'.events == t.events + [ReadError, DialAgain(false), GiveUp]
    ensures last'.listener.Ended? && last'.readyState.Closed? && last'.closes == 1
  {
    var lost := PipeStep(last, ReadError);
    var t1 := Continue(t, last, ReadError, lost);
    var t2 := Continue(t1, lost, DialAgain(false), lost);
    last' := PipeStep(lost, GiveUp);
    t' := Continue(t2, lost, GiveUp, last');
    Conservation(t', |t'.events|);
  }

  /** While the hub runs, what is in the channel can be handled. */
  lemma CanDrain(t: PipeTrace, last: Pipeline) returns (t': PipeTrace, last': Pipeline)
    requires RunsTo(t, last) && last.hub.Running?
    ensures RunsTo(t', last') && last'.channel == [] && last'.handled == last.handled + last.channel
    ensures last' == last.(channel := [], handled := last'.handled)
    ensures |t.events| <= |t'.events| && t.events == t'.events[..|t.events|]
  {
    Conservation(t, |t.events|);
    t', last' := t, last;
    if last.channel != [] {
      last' := PipeStep(last, Take);
      t' := Continue(t, last, Take, last');
      assert last.channel == [last.channel[0]];
    }
  }

  /** While the hub runs, a message the listener holds can be delivered, and then everything read is handled. */
  lemma CanDeliver(t: PipeTrace, last: Pipeline) returns (t': PipeTrace, last': Pipeline)
    requires RunsTo(t, last) && last.hub.Running? && last.listener.Holding?
    ensures RunsTo(t', last') && last'.handled == last'.read == last.read && last'.listener.Reading?
  {
    var t1, empty := CanDrain(t, last);
    var pushed := PipeStep(empty, Push);
    var t2 := Continue(t1, empty, Push, pushed);
    t', last' := CanDrain(t2, pushed);
    Conservation(t', |t'.events|);
  }

  /** Once listening ended, the hub can handle what is left and stop. */
  lemma CanStop(t: PipeTrace, last: Pipeline) returns (t': PipeTrace, last': Pipeline)
    requires RunsTo(t, last) && last.hub.Running? && last.listener.Ended?
    ensures RunsTo(t', last') && last'.hub.Stopped? && last'.handled == last'.read == last.read
  {
    var t1, empty := CanDrain(t, last);
    Conservation(t1, |t1.events|);
    last' := PipeStep(empty, HubEnds);
    t' := Continue(t1, empty, HubEnds, last');
    Conservation(t', |t'.events|);
  }
}
