/** The whole feed as one machine: the websocket source, the one-slot channel and the hub with its clients. What the
    hub's loop takes from the channel is what it broadcasts. */
module FeedAgent {
  import opened ByteStrings
  import opened MessageCache
  import opened FeedHub
  import opened FeedDelivery
  import opened FeedSource

  datatype Agent<!C(==)> = Agent(pipe: Pipeline, hub: Hub<C>)

  datatype AgentEvent<C> =
    | Run(connected: bool)
    | Handle(message: Bytes, now: int)    // the hub's loop takes a message and broadcasts it
    | End                                 // the loop finds the channel closed and empty, and cleans up
    | OfSource(source: PipeEvent)
    | OfClients(clients: Event<C>)

  /** What an event is to the source and its channel. */
  function PipePart<C>(e: AgentEvent<C>): Option<PipeEvent> {
    match e
    case Run(connected) => Some(Start(connected))
    case Handle(_, _) => Some(Take)
    case End => Some(HubEnds)
    case OfSource(source) => Some(source)
    case OfClients(_) => None
  }

  /** What an event is to the hub. */
  function HubPart<C>(e: AgentEvent<C>): Option<Event<C>> {
    match e
    case Run(connected) => Some(if connected then RunSucceeds else RunFails)
    case Handle(message, now) => Some(Broadcast(message, now))
    case End => Some(CleanUp)
    case OfSource(_) => None
    case OfClients(clients) => Some(clients)
  }

  /** Each part takes its own step; starting, handling and ending are steps of both. */
  ghost predicate AgentNext<C>(parse: Parser, approver: C, s: Agent<C>, e: AgentEvent<C>, s': Agent<C>) {
    && (e.OfSource? ==> !e.source.Start? && !e.source.Take? && !e.source.HubEnds?)
    && (e.OfClients? ==>
          e.clients.Register? || e.clients.Unregister? || e.clients.Remove? || e.clients.StopApprover?)
    && (e.Handle? ==> s.pipe.channel != [] && e.message == s.pipe.channel[0])
    && (if PipePart(e).Some? then PipeNext(s.pipe, PipePart(e).value, s'.pipe) else s'.pipe == s.pipe)
    && (if HubPart(e).Some? then Next(parse, approver, s.hub, HubPart(e).value, s'.hub) else s'.hub == s.hub)
  }

  datatype AgentTrace<!C(==)> = AgentTrace(events: seq<AgentEvent<C>>, states: seq<Agent<C>>)

  ghost predicate IsAgentRun<C>(parse: Parser, caching: bool, approver: C, t: AgentTrace<C>) {
    && |t.states| == |t.events| + 1
    && t.states[0] == Agent(NewPipeline(), NewHub(caching))
    && forall n :: 0 <= n < |t.events| ==> AgentNext(parse, approver, t.states[n], t.events[n], t.states[n + 1])
  }

  /** The hub's events among the first n. */
  function HubEvents<C>(events: seq<AgentEvent<C>>, n: nat): seq<Event<C>>
    requires n <= |events|
  {
    if n == 0 then []
    else HubEvents(events, n - 1) + if HubPart(events[n - 1]).Some? then [HubPart(events[n - 1]).value] else []
  }

  // ---------- The two sides of a run ----------

  /** Seen from the hub a run of the agent is a run of the hub. */
  lemma {:induction false} HubSide<C>(parse: Parser, caching: bool, approver: C, t: AgentTrace<C>, n: nat)
    returns (h: Trace<C>)
    requires IsAgentRun(parse, caching, approver, t) && n <= |t.events|
    ensures HubRunsTo(parse, caching, approver, h, HubEvents(t.events, n), t.states[n].hub)
  {
    if n == 0 {
      h := Trace([], [NewHub(caching)]);
    } else {
      h := HubSide(parse, caching, approver, t, n - 1);
      var e := t.events[n - 1];
      assert AgentNext(parse, approver, t.states[n - 1], e, t.states[n]);
      if HubPart(e).Some? {
        h := ContinueHub(parse, caching, approver, h, HubEvents(t.events, n - 1), t.states[n - 1].hub,
                           HubPart(e).value, t.states[n].hub);
      }
    }
  }

  /** Seen from the source it is a run of the pipeline. */
  lemma {:induction false} PipeSide<C>(parse: Parser, caching: bool, approver: C, t: AgentTrace<C>, n: nat)
    returns (p: PipeTrace)
    requires IsAgentRun(parse, caching, approver, t) && n <= |t.events|
    ensures RunsTo(p, t.states[n].pipe)
  {
    if n == 0 {
      p := PipeTrace([], [NewPipeline()]);
    } else {
      p := PipeSide(parse, caching, approver, t, n - 1);
      var e := t.events[n - 1];
      assert AgentNext(parse, approver, t.states[n - 1], e, t.states[n]);
      if PipePart(e).Some? {
        p := Continue(p, t.states[n - 1].pipe, PipePart(e).value, t.states[n].pipe);
      }
    }
  }

  /** Both sides agree on where the hub is. */
  lemma {:induction false} PhasesMatch<C>(parse: Parser, caching: bool, approver: C, t: AgentTrace<C>, n: nat)
    requires IsAgentRun(parse, caching, approver, t) && n <= |t.events|
    ensures t.states[n].pipe.hub == t.states[n].hub.phase
  {
    if n > 0 {
      PhasesMatch(parse, caching, approver, t, n - 1);
      assert AgentNext(parse, approver, t.states[n - 1], t.events[n - 1], t.states[n]);
    }
  }

  /** The messages the hub handled are the messages it broadcast. */
  lemma {:induction false} HandledIsBroadcast<C>(parse: Parser, caching: bool, approver: C, t: AgentTrace<C>, n: nat,
                                                events: seq<Event<C>>)
    requires IsAgentRun(parse, caching, approver, t) && n <= |t.events| && events == HubEvents(t.events, n)
    ensures t.states[n].pipe.handled == Broadcasts(events, 0, |events|)
  {
    if n > 0 {
      var before, e := HubEvents(t.events, n - 1), t.events[n - 1];
      HandledIsBroadcast(parse, caching, approver, t, n - 1, before);
      assert AgentNext(parse, approver, t.states[n - 1], e, t.states[n]);
      if HubPart(e).Some? {
        BroadcastsNext(before, HubPart(e).value);
      } else {
        assert events == before;
      }
    }
  }

  lemma BroadcastsNext<C>(events: seq<Event<C>>, e: Event<C>)
    ensures var longer := events + [e];
      Broadcasts(longer, 0, |longer|) == Broadcasts(events, 0, |events|) + if e.Broadcast? then [e.message] else []
  {
    BroadcastsPrefix(events, e, |events|);
  }

  lemma {:induction false} BroadcastsPrefix<C>(events: seq<Event<C>>, e: Event<C>, n: nat)
    requires n <= |events|
    ensures Broadcasts(events + [e], 0, n) == Broadcasts(events, 0, n)
  {
    if n > 0 {
      BroadcastsPrefix(events, e, n - 1);
    }
  }

  // ---------- From the websocket to a client ----------

  lemma {:induction false} BroadcastsAppend<C>(events: seq<Event<C>>, lo: nat, mid: nat, hi: nat)
    requires lo <= mid <= hi <= |events|
    ensures Broadcasts(events, lo, hi) == Broadcasts(events, lo, mid) + Broadcasts(events, mid, hi)
    decreases hi
  {
    if mid < hi {
      BroadcastsAppend(events, lo, mid, hi - 1);
    }
  }

  /** After clean-up the hub broadcasts nothing. */
  lemma {:induction false} SilentAfterCleanUp<C>(parse: Parser, caching: bool, approver: C, t: Trace<C>, e: nat, n: nat)
    requires IsRun(parse, caching, approver, t) && e < n <= |t.events| && t.events[e].CleanUp?
    ensures t.states[n].phase.Stopped? && Broadcasts(t.events, e, n) == []
    decreases n
  {
    assert Next(parse, approver, t.states[n - 1], t.events[n - 1], t.states[n]);
    if e + 1 < n {
      SilentAfterCleanUp(parse, caching, approver, t, e, n - 1);
    }
  }

  /** End to end: when the hub has stopped, a client that was registered and never unregistered has been sent its
      snapshot followed by every message read from the websocket that was not broadcast before it registered. */
  lemma EndToEnd<C>(parse: Parser, caching: bool, approver: C, t: AgentTrace<C>, c: C, events: seq<Event<C>>, last: Agent<C>,
                    j: nat, e: nat)
    requires IsAgentRun(parse, caching, approver, t)
    requires events == HubEvents(t.events, |t.events|) && last == t.states[|t.events|]
    requires last.pipe.hub.Stopped?
    requires Stays(events, c, j, e) && (e == |events| || events[e].CleanUp?)
    ensures last.pipe.read == Broadcasts(events, 0, j) + Broadcasts(events, j + 1, e)
    ensures FeedOf(last.hub, c).sent == events[j].snapshot + Broadcasts(events, j + 1, e)
  {
    var n := |t.events|;
    var h := HubSide(parse, caching, approver, t, n);
    var p := PipeSide(parse, caching, approver, t, n);
    HandledIsBroadcast(parse, caching, approver, t, n, events);
    Conservation(p, |p.events|);
    Delivery(parse, caching, approver, h, c, j, e);
    BroadcastsAppend(events, 0, e, |events|);
    if e < |events| {
      SilentAfterCleanUp(parse, caching, approver, h, e, |events|);
    }
    BroadcastsAppend(events, 0, j + 1, e);
  }

  // ---------- What stays possible ----------

  ghost predicate AgentRunsTo<C>(parse: Parser, caching: bool, approver: C, t: AgentTrace<C>, last: Agent<C>) {
    IsAgentRun(parse, caching, approver, t) && t.states[|t.events|] == last
  }

  lemma AgentContinue<C>(parse: Parser, caching: bool, approver: C, t: AgentTrace<C>, last: Agent<C>, e: AgentEvent<C>,
                         last': Agent<C>)
    returns (t': AgentTrace<C>)
    requires AgentRunsTo(parse, caching, approver, t, last) && AgentNext(parse, approver, last, e, last')
    ensures AgentRunsTo(parse, caching, approver, t', last') && t'.events == t.events + [e]
  {
    t' := AgentTrace(t.events + [e], t.states + [last']);
    forall n | 0 <= n < |t'.events|
      ensures AgentNext(parse, approver, t'.states[n], t'.events[n], t'.states[n + 1])
    {
      if n < |t.events| {
        assert AgentNext(parse, approver, t.states[n], t.events[n], t.states[n + 1]);
      }
    }
  }

  /** A step of the source alone. */
  lemma SourceMoves<C>(parse: Parser, caching: bool, approver: C, t: AgentTrace<C>, last: Agent<C>, e: PipeEvent)
    returns (t': AgentTrace<C>, last': Agent<C>)
    requires AgentRunsTo(parse, caching, approver, t, last) && PipeEnabled(last.pipe, e)
    requires !e.Start? && !e.Take? && !e.HubEnds?
    ensures AgentRunsTo(parse, caching, approver, t', last') && t'.events == t.events + [OfSource(e)]
    ensures last'.pipe == PipeStep(last.pipe, e) && last'.hub == last.hub
  {
    last' := Agent(PipeStep(last.pipe, e), last.hub);
    t' := AgentContinue(parse, caching, approver, t, last, OfSource(e), last');
  }

  /** The hub's loop handles the message in the channel. */
  lemma HubHandles<C>(parse: Parser, caching: bool, approver: C, t: AgentTrace<C>, last: Agent<C>, m: Bytes, now: int)
    returns (t': AgentTrace<C>, last': Agent<C>)
    requires AgentRunsTo(parse, caching, approver, t, last) && last.pipe.hub.Running? && last.hub.phase.Running?
    requires last.pipe.channel == [m]
    ensures AgentRunsTo(parse, caching, approver, t', last') && t'.events == t.events + [Handle(m, now)]
    ensures last'.pipe == PipeStep(last.pipe, Take) && last'.hub.clients == last.hub.clients
    ensures forall c :: c in last.hub.clients ==> FeedOf(last'.hub, c).sent == FeedOf(last.hub, c).sent + [m]
  {
    last' := Agent(PipeStep(last.pipe, Take), Step(parse, approver, last.hub, Broadcast(m, now)));
    t' := AgentContinue(parse, caching, approver, t, last, Handle(m, now), last');
  }

  /** Whenever the source reads and nothing is on its way, the next message can get to every client there is. */
  lemma CanPassOn<C>(parse: Parser, caching: bool, approver: C, t: AgentTrace<C>, last: Agent<C>, m: Bytes, now: int)
    returns (t': AgentTrace<C>, last': Agent<C>)
    requires AgentRunsTo(parse, caching, approver, t, last) && last.hub.phase.Running?
    requires last.pipe.listener.Reading? && last.pipe.channel == []
    ensures AgentRunsTo(parse, caching, approver, t', last')
    ensures t'.events == t.events + [OfSource(Read(m)), OfSource(Push), Handle(m, now)]
    ensures last'.hub.clients == last.hub.clients
    ensures forall c :: c in last.hub.clients ==> FeedOf(last'.hub, c).sent == FeedOf(last.hub, c).sent + [m]
  {
    PhasesMatch(parse, caching, approver, t, |t.events|);
    var t1, held := SourceMoves(parse, caching, approver, t, last, Read(m));
    var t2, pushed := SourceMoves(parse, caching, approver, t1, held, Push);
    t', last' := HubHandles(parse, caching, approver, t2, pushed, m, now);
  }

  /** And then the agent can be stopped: the source disconnects, the hub ends, and every client sees its Feed closed. */
  lemma CanShutDown<C>(parse: Parser, caching: bool, approver: C, t: AgentTrace<C>, last: Agent<C>)
    returns (t': AgentTrace<C>, last': Agent<C>)
    requires AgentRunsTo(parse, caching, approver, t, last) && last.hub.phase.Running?
    requires last.pipe.listener.Reading? && last.pipe.channel == []
    ensures AgentRunsTo(parse, caching, approver, t', last')
    ensures t'.events == t.events + [OfSource(DisconnectRequest), OfSource(ReadError), End]
    ensures last'.hub.phase.Stopped? && last'.hub.clients == {} && last'.pipe.handled == last'.pipe.read
    ensures forall c :: c in last.hub.clients ==>
      FeedOf(last'.hub, c).sent == FeedOf(last.hub, c).sent && FeedOf(last'.hub, c).closes == 1
  {
    PhasesMatch(parse, caching, approver, t, |t.events|);
    var t1, asked := SourceMoves(parse, caching, approver, t, last, DisconnectRequest);
    var t2, ended := SourceMoves(parse, caching, approver, t1, asked, ReadError);
    var p := PipeSide(parse, caching, approver, t2, |t2.events|);
    Conservation(p, |p.events|);
    t', last' := HubEndsAndCleans(parse, caching, approver, t2, ended);
  }

  lemma HubEndsAndCleans<C>(parse: Parser, caching: bool, approver: C, t: AgentTrace<C>, last: Agent<C>)
    returns (t': AgentTrace<C>, last': Agent<C>)
    requires AgentRunsTo(parse, caching, approver, t, last) && last.hub.phase.Running?
    requires PipeEnabled(last.pipe, HubEnds)
    ensures AgentRunsTo(parse, caching, approver, t', last') && t'.events == t.events + [End]
    ensures last'.pipe == PipeStep(last.pipe, HubEnds) && last'.hub.phase.Stopped? && last'.hub.clients == {}
    ensures forall c :: c in last.hub.clients ==>
      FeedOf(last'.hub, c).sent == FeedOf(last.hub, c).sent && FeedOf(last'.hub, c).closes == 1
  {
    last' := Agent(PipeStep(last.pipe, HubEnds), Step(parse, approver, last.hub, CleanUp));
    t' := AgentContinue(parse, caching, approver, t, last, End, last');
    var h := HubSide(parse, caching, approver, t, |t.events|);
    ChannelDiscipline(parse, caching, approver, h, |h.events|);
  }
}
