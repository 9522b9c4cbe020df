/** The feed hub as a machine whose atomic steps are the critical sections of internal/hub/feed_hub.go,
    together with the start-up and shutdown of its clients, and what every run of it keeps. */
module FeedHub {
  import opened ByteStrings
  import opened MessageCache

  /** A client's channel: what has been sent on it, and how often it was closed. */
  datatype Feed = Feed(sent: seq<Bytes>, closes: nat)

  datatype Phase = NotRun | Failed | Running | Stopped

  /** The hub, its cache, and the feed of every client. A send on a closed channel or a second close panics. */
  datatype Hub<!C(==)> = Hub(
    caching: bool,
    phase: Phase,
    clients: set<C>,
    registered: set<C>,
    feeds: map<C, Feed>,
    messages: map<string, Bytes>,
    approverStopped: bool,
    panicked: bool
  )

  datatype Event<C> =
    | RunSucceeds
    | RunFails
    | StopApprover
    | Register(client: C, now: int, snapshot: seq<Bytes>, ids: seq<string>)
    | Unregister(client: C)
    | Broadcast(message: Bytes, now: int)
    | Remove(id: string, now: int)
    | CleanUp

  /** A hub with a cache, or without one when actions are approved automatically. */
  function NewHub<C>(caching: bool): Hub<C> {
    Hub(caching, NotRun, {}, {}, map[], map[], false, false)
  }

  /** Every client starts with an open channel on which nothing was sent. */
  function FeedOf<C>(h: Hub<C>, c: C): Feed {
    if c in h.feeds then h.feeds[c] else Feed([], 0)
  }

  function Send<C>(h: Hub<C>, to: set<C>, messages: seq<Bytes>): Hub<C> {
    h.(feeds := map c | c in h.feeds.Keys + to ::
         if c in to then FeedOf(h, c).(sent := FeedOf(h, c).sent + messages) else h.feeds[c],
       panicked := h.panicked || (messages != [] && exists c :: c in to && FeedOf(h, c).closes > 0))
  }

  function Close<C>(h: Hub<C>, which: set<C>): Hub<C> {
    h.(feeds := map c | c in h.feeds.Keys + which ::
         if c in which then FeedOf(h, c).(closes := FeedOf(h, c).closes + 1) else h.feeds[c],
       panicked := h.panicked || exists c :: c in which && FeedOf(h, c).closes > 0)
  }

  function Registered<C>(parse: Parser, h: Hub<C>, c: C, now: int, snapshot: seq<Bytes>): Hub<C> {
    Send(h, {c}, snapshot).(clients := h.clients + {c}, registered := h.registered + {c},
                            messages := LocalPrune(parse, h.messages, now))
  }

  function Unregistered<C>(h: Hub<C>, c: C): Hub<C> {
    if c in h.clients then Close(h, {c}).(clients := h.clients - {c}) else h
  }

  function Delivered<C>(parse: Parser, h: Hub<C>, m: Bytes, now: int): Hub<C> {
    Send(h, h.clients, [m]).(messages := if h.caching then LocalAdd(parse, h.messages, m, now) else h.messages)
  }

  function CleanedUp<C>(h: Hub<C>): Hub<C> {
    Close(h, h.clients).(clients := {}, phase := Stopped)
  }

  /** One critical section. */
  function Step<C>(parse: Parser, approver: C, h: Hub<C>, e: Event<C>): Hub<C> {
    match e
    case RunSucceeds => h.(phase := Running)
    case RunFails => h.(phase := Failed)
    case StopApprover => Close(h, {approver}).(approverStopped := true)
    case Register(c, now, snapshot, _) => Registered(parse, h, c, now, snapshot)
    case Unregister(c) => Unregistered(h, c)
    case Broadcast(m, now) => Delivered(parse, h, m, now)
    case Remove(id, _) => h.(messages := h.messages - {id})
    case CleanUp => CleanedUp(h)
  }

  /** When a step can happen. The hub runs at most once; a client is registered at most once; the service
      registers the auto-approver only after the hub ran, and stops it itself only when the hub failed to run. */
  ghost predicate Enabled<C>(parse: Parser, approver: C, h: Hub<C>, e: Event<C>) {
    match e
    case RunSucceeds => h.phase.NotRun?
    case RunFails => h.phase.NotRun?
    case StopApprover => h.phase.Failed? && !h.approverStopped
    case Register(c, now, snapshot, ids) =>
      && c !in h.registered
      && (c == approver ==> h.phase.Running? || h.phase.Stopped?)
      && IsListing(snapshot, ids, LocalView(parse, h.messages, now))
    case Unregister(c) => true
    case Broadcast(_, _) => h.phase.Running?
    case Remove(_, _) => true
    case CleanUp => h.phase.Running?
  }

  /** A run: the events, and the states before, between and after them. */
  datatype Trace<!C(==)> = Trace(events: seq<Event<C>>, states: seq<Hub<C>>)

  ghost predicate Next<C>(parse: Parser, approver: C, h: Hub<C>, e: Event<C>, h': Hub<C>) {
    Enabled(parse, approver, h, e) && h' == Step(parse, approver, h, e)
  }

  ghost predicate IsRun<C>(parse: Parser, caching: bool, approver: C, t: Trace<C>) {
    && |t.states| == |t.events| + 1
    && t.states[0] == NewHub(caching)
    && forall n :: 0 <= n < |t.events| ==> Next(parse, approver, t.states[n], t.events[n], t.states[n + 1])
  }

  // ---------- Channel discipline ----------

  ghost predicate Disciplined<C>(approver: C, h: Hub<C>) {
    && !h.panicked
    && h.clients <= h.registered
    && (forall c :: c in h.feeds ==> h.feeds[c].closes <= 1)
    && (forall c :: c in h.clients ==> FeedOf(h, c).closes == 0)
    && (forall c :: c in h.feeds && c !in h.registered && c != approver ==> h.feeds[c].closes == 0)
    && (FeedOf(h, approver).closes > 0 ==> h.approverStopped || approver in h.registered)
    && (h.approverStopped ==> h.phase.Failed?)
    && (approver in h.registered ==> h.phase.Running? || h.phase.Stopped?)
  }

  lemma DisciplineKept<C>(parse: Parser, approver: C, h: Hub<C>, e: Event<C>, h': Hub<C>)
    requires Disciplined(approver, h) && Next(parse, approver, h, e, h')
    ensures Disciplined(approver, h')
  {
  }

  /** In every run nothing is sent on a closed channel and no channel is closed twice. */
  lemma {:induction false} ChannelDiscipline<C>(parse: Parser, caching: bool, approver: C, t: Trace<C>, n: nat)
    requires IsRun(parse, caching, approver, t) && n <= |t.events|
    ensures Disciplined(approver, t.states[n])
  {
    if n > 0 {
      ChannelDiscipline(parse, caching, approver, t, n - 1);
      DisciplineKept(parse, approver, t.states[n - 1], t.events[n - 1], t.states[n]);
    }
  }

  /** How often a client's Feed was closed: once if it was registered and is no more, or if it is the auto-approver's and
      was stopped without ever being registered; not otherwise. */
  predicate ClosedOnceGone<C(==)>(approver: C, h: Hub<C>, c: C) {
    FeedOf(h, c).closes ==
      if c in h.registered then (if c in h.clients then 0 else 1)
      else if c == approver && h.approverStopped then 1 else 0
  }

  lemma ClosingStep<C>(parse: Parser, approver: C, h: Hub<C>, e: Event<C>, h': Hub<C>, c: C)
    requires Disciplined(approver, h) && Next(parse, approver, h, e, h') && ClosedOnceGone(approver, h, c)
    ensures ClosedOnceGone(approver, h', c)
  {
  }

  /** Whoever leaves the hub is told so: in every run a registered client's Feed is open while it is registered and
      closed, once, from then on. */
  lemma {:induction false} FeedsCloseExactly<C>(parse: Parser, caching: bool, approver: C, t: Trace<C>, c: C, n: nat)
    requires IsRun(parse, caching, approver, t) && n <= |t.events|
    ensures ClosedOnceGone(approver, t.states[n], c)
  {
    if n > 0 {
      FeedsCloseExactly(parse, caching, approver, t, c, n - 1);
      ChannelDiscipline(parse, caching, approver, t, n - 1);
      ClosingStep(parse, approver, t.states[n - 1], t.events[n - 1], t.states[n], c);
    }
  }

  /** Said without the panic flag: whatever is sent on a Feed is sent while it is open, and what was sent stays. */
  lemma SentWhileOpen<C>(parse: Parser, caching: bool, approver: C, t: Trace<C>, c: C, n: nat)
    requires IsRun(parse, caching, approver, t) && n < |t.events|
    ensures FeedOf(t.states[n], c).sent <= FeedOf(t.states[n + 1], c).sent
    ensures FeedOf(t.states[n + 1], c).sent != FeedOf(t.states[n], c).sent ==> FeedOf(t.states[n], c).closes == 0
    ensures FeedOf(t.states[n], c).closes <= FeedOf(t.states[n + 1], c).closes <= 1
  {
    ChannelDiscipline(parse, caching, approver, t, n);
    ChannelDiscipline(parse, caching, approver, t, n + 1);
    FeedsCloseExactly(parse, caching, approver, t, c, n);
    assert Next(parse, approver, t.states[n], t.events[n], t.states[n + 1]);
  }

  /** The panic flag, exactly: from any state, a step panics if and only if it sends on a Feed that is closed or closes
      one again. */
  lemma PanicsExactly<C>(parse: Parser, approver: C, h: Hub<C>, e: Event<C>, h': Hub<C>)
    requires h' == Step(parse, approver, h, e)
    ensures h'.panicked <==>
      h.panicked || exists c :: c in h.feeds && h.feeds[c].closes > 0 && c in h'.feeds && h'.feeds[c] != h.feeds[c]
  {
    if e.Register? && e.snapshot != [] && FeedOf(h, e.client).closes > 0 {
      assert h'.feeds[e.client].sent == h.feeds[e.client].sent + e.snapshot;
      assert |h'.feeds[e.client].sent| > |h.feeds[e.client].sent|;
    }
    if e.Broadcast? && h'.panicked && !h.panicked {
      var c :| c in h.clients && FeedOf(h, c).closes > 0;
      assert h'.feeds[c].sent == h.feeds[c].sent + [e.message];
      assert |h'.feeds[c].sent| > |h.feeds[c].sent|;
    }
  }

  /** Where the hub is, exactly, in terms of the events so far. */
  lemma {:induction false} PhaseExactly<C>(parse: Parser, caching: bool, approver: C, t: Trace<C>, n: nat)
    requires IsRun(parse, caching, approver, t) && n <= |t.events|
    ensures t.states[n].phase.NotRun? <==> forall k :: 0 <= k < n ==> !t.events[k].RunSucceeds? && !t.events[k].RunFails?
    ensures t.states[n].phase.Failed? <==> exists k :: 0 <= k < n && t.events[k].RunFails?
    ensures t.states[n].phase.Stopped? <==> exists k :: 0 <= k < n && t.events[k].CleanUp?
    ensures t.states[n].phase.Running? ==> exists k :: 0 <= k < n && t.events[k].RunSucceeds?
  {
    if n > 0 {
      PhaseExactly(parse, caching, approver, t, n - 1);
      assert Next(parse, approver, t.states[n - 1], t.events[n - 1], t.states[n]);
    }
  }

  // ---------- What stays possible ----------

  ghost predicate HubRunsTo<C>(parse: Parser, caching: bool, approver: C, h: Trace<C>, events: seq<Event<C>>, last: Hub<C>) {
    IsRun(parse, caching, approver, h) && h.events == events && h.states[|h.events|] == last
  }

  lemma ContinueHub<C>(parse: Parser, caching: bool, approver: C, h: Trace<C>, events: seq<Event<C>>, last: Hub<C>,
                       e: Event<C>, last': Hub<C>)
    returns (h': Trace<C>)
    requires HubRunsTo(parse, caching, approver, h, events, last) && Next(parse, approver, last, e, last')
    ensures HubRunsTo(parse, caching, approver, h', events + [e], last')
  {
    h' := Trace(h.events + [e], h.states + [last']);
    forall n | 0 <= n < |h'.events|
      ensures Next(parse, approver, h'.states[n], h'.events[n], h'.states[n + 1])
    {
      if n < |h.events| {
        assert Next(parse, approver, h.states[n], h.events[n], h.states[n + 1]);
      }
    }
  }

  /** Whoever is registered can leave at any time, and then finds its Feed closed. */
  lemma CanLeave<C>(parse: Parser, caching: bool, approver: C, t: Trace<C>, events: seq<Event<C>>, last: Hub<C>, c: C)
    returns (t': Trace<C>, last': Hub<C>)
    requires HubRunsTo(parse, caching, approver, t, events, last) && c in last.clients
    ensures HubRunsTo(parse, caching, approver, t', events + [Unregister(c)], last')
    ensures last'.clients == last.clients - {c} && FeedOf(last', c) == Feed(FeedOf(last, c).sent, 1)
  {
    ChannelDiscipline(parse, caching, approver, t, |t.events|);
    last' := Step(parse, approver, last, Unregister(c));
    t' := ContinueHub(parse, caching, approver, t, events, last, Unregister(c), last');
  }

  /** A handled action can be removed at any time, without touching any Feed or any other message. */
  lemma CanRemove<C>(parse: Parser, caching: bool, approver: C, t: Trace<C>, events: seq<Event<C>>, last: Hub<C>, id: string, now: int)
    returns (t': Trace<C>, last': Hub<C>)
    requires HubRunsTo(parse, caching, approver, t, events, last)
    ensures HubRunsTo(parse, caching, approver, t', events + [Event<C>.Remove(id, now)], last')
    ensures last'.messages == last.messages - {id} && last' == last.(messages := last'.messages)
  {
    last' := Step(parse, approver, last, Event<C>.Remove(id, now));
    t' := ContinueHub(parse, caching, approver, t, events, last, Event<C>.Remove(id, now), last');
  }

  /** The hub may fail to start; then the service can stop the auto-approver, which finds its Feed closed. */
  lemma CanFail<C>(parse: Parser, caching: bool, approver: C, t: Trace<C>, events: seq<Event<C>>, last: Hub<C>)
    returns (t': Trace<C>, last': Hub<C>)
    requires HubRunsTo(parse, caching, approver, t, events, last) && last.phase.NotRun?
    ensures HubRunsTo(parse, caching, approver, t', events + [RunFails] + [StopApprover], last')
    ensures last'.phase.Failed? && FeedOf(last', approver).closes == 1 && !last'.panicked
  {
    ChannelDiscipline(parse, caching, approver, t, |t.events|);
    PhaseExactly(parse, caching, approver, t, |t.events|);
    var failed := Step(parse, approver, last, RunFails);
    var t1 := ContinueHub(parse, caching, approver, t, events, last, RunFails, failed);
    last' := Step(parse, approver, failed, StopApprover);
    t' := ContinueHub(parse, caching, approver, t1, events + [RunFails], failed, StopApprover, last');
  }

  /** Some listing of the messages shown: the order of the map is arbitrary. */
  lemma SomeListing(parse: Parser, messages: map<string, Bytes>, keys: set<string>, now: int)
    returns (res: seq<Bytes>, ids: seq<string>)
    requires keys <= messages.Keys
    ensures |res| == |ids| && forall i, j :: 0 <= i < j < |ids| ==> ids[i] != ids[j]
    ensures forall id :: id in ids <==> id in keys && LocalView(parse, messages, now)(id).Some?
    ensures forall i :: 0 <= i < |ids| ==> LocalView(parse, messages, now)(ids[i]) == Some(res[i])
    decreases |keys|
  {
    res, ids := [], [];
    if keys != {} {
      var id :| id in keys;
      res, ids := SomeListing(parse, messages, keys - {id}, now);
      if LocalView(parse, messages, now)(id).Some? {
        res, ids := res + [messages[id]], ids + [id];
      }
    }
  }

  /** A fresh client can register whenever it likes. */
  lemma CanRegister<C>(parse: Parser, caching: bool, approver: C, t: Trace<C>, events: seq<Event<C>>, last: Hub<C>, c: C, now: int)
    returns (t': Trace<C>, last': Hub<C>, snapshot: seq<Bytes>, ids: seq<string>)
    requires HubRunsTo(parse, caching, approver, t, events, last) && c !in last.registered && c != approver
    ensures HubRunsTo(parse, caching, approver, t', events + [Register(c, now, snapshot, ids)], last')
    ensures last'.clients == last.clients + {c} && FeedOf(last', c) == Feed(FeedOf(last, c).sent + snapshot, 0)
  {
    snapshot, ids := SomeListing(parse, last.messages, last.messages.Keys, now);
    var e := Register(c, now, snapshot, ids);
    last' := Step(parse, approver, last, e);
    t' := ContinueHub(parse, caching, approver, t, events, last, e, last');
    FeedsCloseExactly(parse, caching, approver, t, c, |t.events|);
  }
}
