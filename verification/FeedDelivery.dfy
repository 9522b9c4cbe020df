/** What a feed client receives: the cache's current messages when it registers, then every broadcast made
    while it is registered, each exactly once and in order. */
module FeedDelivery {
  import opened ByteStrings
  import opened MessageCache
  import opened CacheAgreement
  import opened FeedHub

  /** The messages broadcast from event lo to before event hi, in order. */
  function Broadcasts<C>(events: seq<Event<C>>, lo: nat, hi: nat): seq<Bytes>
    requires hi <= |events|
    decreases hi
  {
    if hi <= lo then []
    else
      var before, last := Broadcasts(events, lo, hi - 1), events[hi - 1];
      if last.Broadcast? then before + [last.message] else before
  }

  /** The client unregisters, or the hub cleans up. */
  predicate Leaves<C(==)>(e: Event<C>, c: C) {
    e.CleanUp? || e == Unregister(c)
  }

  /** The client registers at j and is registered until just before e, where it leaves or the run ends. */
  predicate Stays<C(==)>(events: seq<Event<C>>, c: C, j: nat, e: nat) {
    && j < e <= |events|
    && events[j].Register? && events[j].client == c
    && (forall i :: j < i < e ==> !Leaves(events[i], c))
    && (e < |events| ==> Leaves(events[e], c))
  }

  /** One step, seen by one client. */
  lemma StepSeenBy<C>(parse: Parser, approver: C, h: Hub<C>, e: Event<C>, h': Hub<C>, c: C)
    requires h.clients <= h.registered && Next(parse, approver, h, e, h')
    ensures var joins := e.Register? && e.client == c;
      && h'.clients <= h'.registered
      && (joins ==> c !in h.registered)
      && (c in h'.registered <==> c in h.registered || joins)
      && (c in h'.clients <==> joins || (c in h.clients && !Leaves(e, c)))
      && FeedOf(h', c).sent == FeedOf(h, c).sent +
           if joins then e.snapshot else if e.Broadcast? && c in h.clients then [e.message] else []
  {
  }

  /** Before its registration nothing is sent to a client. */
  lemma {:induction false} NothingBefore<C>(parse: Parser, caching: bool, approver: C, t: Trace<C>, c: C, n: nat)
    requires IsRun(parse, caching, approver, t) && n <= |t.events|
    ensures var h := t.states[n]; h.clients <= h.registered && (c !in h.registered ==> FeedOf(h, c).sent == [])
  {
    if n > 0 {
      NothingBefore(parse, caching, approver, t, c, n - 1);
      StepSeenBy(parse, approver, t.states[n - 1], t.events[n - 1], t.states[n], c);
    }
  }

  /** While it is registered a client gets exactly the broadcasts. */
  lemma {:induction false} WhileRegistered<C>(parse: Parser, caching: bool, approver: C, t: Trace<C>, c: C, j: nat, n: nat)
    requires IsRun(parse, caching, approver, t) && j < n <= |t.events|
    requires t.events[j].Register? && t.events[j].client == c
    requires forall i :: j < i < n ==> !Leaves(t.events[i], c)
    ensures var h := t.states[n];
      && c in h.clients && h.clients <= h.registered
      && FeedOf(h, c).sent == t.events[j].snapshot + Broadcasts(t.events, j + 1, n)
  {
    if n == j + 1 {
      NothingBefore(parse, caching, approver, t, c, j);
    } else {
      WhileRegistered(parse, caching, approver, t, c, j, n - 1);
    }
    StepSeenBy(parse, approver, t.states[n - 1], t.events[n - 1], t.states[n], c);
  }

  /** After a client left nothing more is sent to it. */
  lemma {:induction false} AfterLeaving<C>(parse: Parser, caching: bool, approver: C, t: Trace<C>, c: C, j: nat, e: nat, n: nat)
    requires IsRun(parse, caching, approver, t) && Stays(t.events, c, j, e) && e < n <= |t.events|
    ensures var h := t.states[n];
      && c !in h.clients && h.clients <= h.registered && c in h.registered
      && FeedOf(h, c).sent == t.events[j].snapshot + Broadcasts(t.events, j + 1, e)
  {
    if n == e + 1 {
      WhileRegistered(parse, caching, approver, t, c, j, e);
    } else {
      AfterLeaving(parse, caching, approver, t, c, j, e, n - 1);
    }
    StepSeenBy(parse, approver, t.states[n - 1], t.events[n - 1], t.states[n], c);
  }

  /** Delivery: over any run, what was sent to a client is the snapshot of its registration followed by
      exactly the broadcasts made while it was registered, in order. */
  lemma Delivery<C>(parse: Parser, caching: bool, approver: C, t: Trace<C>, c: C, j: nat, e: nat)
    requires IsRun(parse, caching, approver, t) && Stays(t.events, c, j, e)
    ensures FeedOf(t.states[|t.events|], c).sent == t.events[j].snapshot + Broadcasts(t.events, j + 1, e)
  {
    if e == |t.events| {
      WhileRegistered(parse, caching, approver, t, c, j, e);
    } else {
      AfterLeaving(parse, caching, approver, t, c, j, e, |t.events|);
    }
  }

  /** Each broadcast made while a client is registered reaches it once, right after the broadcasts before it. */
  lemma LiveOnce<C>(parse: Parser, caching: bool, approver: C, t: Trace<C>, c: C, j: nat, e: nat, i: nat)
    requires IsRun(parse, caching, approver, t) && Stays(t.events, c, j, e)
    requires j < i < e && t.events[i].Broadcast?
    ensures FeedOf(t.states[|t.events|], c).sent ==
      t.events[j].snapshot + Broadcasts(t.events, j + 1, i) + [t.events[i].message] + Broadcasts(t.events, i + 1, e)
  {
    Delivery(parse, caching, approver, t, c, j, e);
    BroadcastsAround(t.events, j + 1, i, e);
  }

  lemma {:induction false} BroadcastsAround<C>(events: seq<Event<C>>, lo: nat, i: nat, e: nat)
    requires lo <= i < e <= |events| && events[i].Broadcast?
    ensures Broadcasts(events, lo, e) == Broadcasts(events, lo, i) + [events[i].message] + Broadcasts(events, i + 1, e)
    decreases e
  {
    if i + 1 < e {
      BroadcastsAround(events, lo, i, e - 1);
    }
  }

  // ---------- What the hub's cache holds ----------

  /** The cache operations in a run. */
  function CacheHistory<C>(events: seq<Event<C>>): History {
    if events == [] then []
    else
      var before, last := CacheHistory(events[..|events| - 1]), events[|events| - 1];
      match last
      case Broadcast(m, now) => before + [Timed(now, Add(m))]
      case Remove(id, now) => before + [Timed(now, Op.Remove(id))]
      case Register(_, now, _, _) => before + [Timed(now, Get)]
      case _ => before
  }

  lemma RunLocalStep(parse: Parser, h: History, last: Timed)
    ensures RunLocal(parse, h + [last]) == ApplyLocal(parse, RunLocal(parse, h), last)
  {
    assert (h + [last])[..|h|] == h;
  }

  /** What one event of a run does to the local cache. */
  function ApplyEvent<C>(parse: Parser, messages: map<string, Bytes>, e: Event<C>): map<string, Bytes> {
    match e
    case Broadcast(m, now) => LocalAdd(parse, messages, m, now)
    case Remove(id, _) => messages - {id}
    case Register(_, now, _, _) => LocalPrune(parse, messages, now)
    case _ => messages
  }

  lemma HistoryStep<C>(parse: Parser, events: seq<Event<C>>, n: nat)
    requires 0 < n <= |events|
    ensures RunLocal(parse, CacheHistory(events[..n])) ==
      ApplyEvent(parse, RunLocal(parse, CacheHistory(events[..n - 1])), events[n - 1])
  {
    var h := CacheHistory(events[..n - 1]);
    assert events[..n][..n - 1] == events[..n - 1];
    match events[n - 1]
    case Broadcast(m, now) => RunLocalStep(parse, h, Timed(now, Add(m)));
    case Remove(id, now) => RunLocalStep(parse, h, Timed(now, Op.Remove(id)));
    case Register(_, now, _, _) => RunLocalStep(parse, h, Timed(now, Get));
    case _ =>
  }

  /** The hub's cache is the local cache after the cache operations of the run. */
  lemma {:induction false} CacheContents<C>(parse: Parser, approver: C, t: Trace<C>, n: nat)
    requires IsRun(parse, true, approver, t) && n <= |t.events|
    ensures t.states[n].caching && t.states[n].messages == RunLocal(parse, CacheHistory(t.events[..n]))
  {
    if n > 0 {
      CacheContents(parse, approver, t, n - 1);
      HistoryStep(parse, t.events, n);
      assert Next(parse, approver, t.states[n - 1], t.events[n - 1], t.states[n]);
    }
  }

  /** A broadcast that is put under this ID: the time to its expiry, as computed, is positive. */
  predicate Stores<C>(parse: Parser, e: Event<C>, id: string) {
    && e.Broadcast? && !parse(e.message).Malformed? && parse(e.message).id == id
    && GetExpiration(parse(e.message).expireTime, e.now) > 0
  }

  /** An event after which a message cached under this ID is not there any more. */
  predicate Displaces<C>(parse: Parser, e: Event<C>, id: string, m: Bytes) {
    || Stores(parse, e, id)
    || (e.Remove? && e.id == id)
    || (e.Register? && !IsLive(parse, m, e.now))
  }

  /** The broadcast at i is put under the ID, and nothing before n displaces it. */
  predicate Survives<C>(parse: Parser, events: seq<Event<C>>, id: string, i: nat, n: nat)
    requires n <= |events|
  {
    && i < n && Stores(parse, events[i], id)
    && forall k :: i < k < n ==> !Displaces(parse, events[k], id, events[i].message)
  }

  /** One step, seen by one ID of the cache. */
  lemma StepInCache<C>(parse: Parser, approver: C, h: Hub<C>, e: Event<C>, h': Hub<C>, id: string)
    requires Next(parse, approver, h, e, h')
    ensures h'.caching == h.caching
    ensures h.caching && Stores(parse, e, id) ==> id in h'.messages && h'.messages[id] == e.message
    ensures !Stores(parse, e, id) && id in h'.messages ==> id in h.messages && h'.messages[id] == h.messages[id]
    ensures !Stores(parse, e, id) && id in h.messages ==>
      (id in h'.messages <==> !Displaces(parse, e, id, h.messages[id]))
  {
  }

  /** A broadcast that is not put under any ID leaves the cache as it is. */
  lemma UnstoredLeavesCache<C>(parse: Parser, approver: C, h: Hub<C>, e: Event<C>, h': Hub<C>)
    requires Next(parse, approver, h, e, h') && e.Broadcast?
    requires !parse(e.message).Malformed? ==> GetExpiration(parse(e.message).expireTime, e.now) <= 0
    ensures h'.messages == h.messages
  {
  }

  /** What survives is cached. */
  lemma {:induction false} SurvivorIsCached<C>(parse: Parser, approver: C, t: Trace<C>, id: string, i: nat, n: nat)
    requires IsRun(parse, true, approver, t) && n <= |t.events| && Survives(parse, t.events, id, i, n)
    ensures id in t.states[n].messages && t.states[n].messages[id] == t.events[i].message
    decreases n
  {
    CacheContents(parse, approver, t, n - 1);
    StepInCache(parse, approver, t.states[n - 1], t.events[n - 1], t.states[n], id);
    if i < n - 1 {
      SurvivorIsCached(parse, approver, t, id, i, n - 1);
    }
  }

  /** A hub without a cache keeps nothing. */
  lemma {:induction false} CachingStays<C>(parse: Parser, caching: bool, approver: C, t: Trace<C>, id: string, n: nat)
    requires IsRun(parse, caching, approver, t) && n <= |t.events|
    ensures t.states[n].caching == caching && (!caching ==> t.states[n].messages == map[])
  {
    if n > 0 {
      CachingStays(parse, caching, approver, t, id, n - 1);
      assert Next(parse, approver, t.states[n - 1], t.events[n - 1], t.states[n]);
    }
  }

  lemma SurvivesOn<C>(parse: Parser, events: seq<Event<C>>, id: string, i: nat, n: nat)
    requires 0 < n <= |events| && Survives(parse, events, id, i, n - 1)
    requires !Displaces(parse, events[n - 1], id, events[i].message)
    ensures Survives(parse, events, id, i, n)
  {
  }

  /** What is cached survived. */
  lemma {:induction false} CachedSurvived<C>(parse: Parser, caching: bool, approver: C, t: Trace<C>, id: string, n: nat)
    returns (i: nat)
    requires IsRun(parse, caching, approver, t) && n <= |t.events| && id in t.states[n].messages
    ensures Survives(parse, t.events, id, i, n) && t.states[n].messages[id] == t.events[i].message
  {
    CachingStays(parse, caching, approver, t, id, n);
    var h, e, h' := t.states[n - 1], t.events[n - 1], t.states[n];
    assert Next(parse, approver, h, e, h');
    StepInCache(parse, approver, h, e, h', id);
    if Stores(parse, e, id) {
      i := n - 1;
    } else {
      i := CachedSurvived(parse, caching, approver, t, id, n - 1);
      SurvivesOn(parse, t.events, id, i, n);
    }
  }

  // ---------- What the snapshot holds ----------

  /** The snapshot at a registration, exactly: it lists an ID, once, if and only if a broadcast under that ID
      survived until then and is unexpired, and then it lists that broadcast's message. */
  lemma SnapshotExactly<C>(parse: Parser, approver: C, t: Trace<C>, j: nat, after: nat, id: string)
    requires IsRun(parse, true, approver, t) && j < after == j + 1 <= |t.events| && t.events[j].Register?
    ensures |t.events[j].ids| == |t.events[j].snapshot| && Distinct(t.events[j].ids)
    ensures id in t.events[j].ids <==> exists i: nat :: Survives(parse, t.events, id, i, after)
    ensures forall i: nat, k :: Survives(parse, t.events, id, i, after) && 0 <= k < |t.events[j].ids| && t.events[j].ids[k] == id ==>
              t.events[j].snapshot[k] == t.events[i].message
  {
    var e, h := t.events[j], t.states[j];
    assert Next(parse, approver, h, e, t.states[j + 1]);
    ListedOnce(e.snapshot, e.ids, LocalView(parse, h.messages, e.now), id);
    if id in e.ids {
      var i := CachedSurvived(parse, true, approver, t, id, j);
      assert Survives(parse, t.events, id, i, after);
    }
    forall i: nat | Survives(parse, t.events, id, i, after)
      ensures LocalView(parse, h.messages, e.now)(id) == Some(t.events[i].message)
    {
      SurvivorIsCached(parse, approver, t, id, i, j);
    }
  }

  lemma ListedOnce(res: seq<Bytes>, ids: seq<string>, view: View, id: string)
    requires IsListing(res, ids, view)
    ensures Distinct(ids) && (id in ids <==> view(id).Some?)
    ensures forall k :: 0 <= k < |ids| && ids[k] == id ==> view(id) == Some(res[k])
  {
  }

  /** Against the history of the cache: while the clock does not go back and the expiries under this ID are judged
      right, the snapshot lists the latest unexpired unremoved message of the ID if it decodes as an action. */
  lemma SnapshotIsCurrent<C>(parse: Parser, approver: C, t: Trace<C>, j: nat, id: string, h: History)
    requires IsRun(parse, true, approver, t) && j < |t.events| && t.events[j].Register?
    requires h == CacheHistory(t.events[..j]) && Ordered(h, t.events[j].now) && JudgedRight(parse, h, id)
    ensures |t.events[j].ids| == |t.events[j].snapshot|
    ensures var m := Current(parse, h, t.events[j].now, id);
      && (id in t.events[j].ids <==> m.Some? && parse(m.value).Action?)
      && forall k :: 0 <= k < |t.events[j].ids| && t.events[j].ids[k] == id ==> m == Some(t.events[j].snapshot[k])
  {
    assert Next(parse, approver, t.states[j], t.events[j], t.states[j + 1]);
    CacheContents(parse, approver, t, j);
    LocalShowsCurrent(parse, h, t.events[j].now, id);
    ListedOnce(t.events[j].snapshot, t.events[j].ids, LocalView(parse, RunLocal(parse, h), t.events[j].now), id);
  }

  /** Each earlier broadcast that was cached, was neither removed nor superseded under its ID, and did not expire
      before this or an earlier registration, is in the snapshot exactly once, at the position returned. */
  lemma CachedOnce<C>(parse: Parser, approver: C, t: Trace<C>, j: nat, i: nat, id: string) returns (k: nat)
    requires IsRun(parse, true, approver, t) && i < j < |t.events| && t.events[j].Register?
    requires Stores(parse, t.events[i], id)
    requires forall n :: i < n < j ==> !Stores(parse, t.events[n], id) && !(t.events[n].Remove? && t.events[n].id == id)
    requires forall n :: i < n <= j && t.events[n].Register? ==> IsLive(parse, t.events[i].message, t.events[n].now)
    ensures k < |t.events[j].snapshot| == |t.events[j].ids| && Distinct(t.events[j].ids)
    ensures t.events[j].ids[k] == id && t.events[j].snapshot[k] == t.events[i].message
  {
    assert Survives(parse, t.events, id, i, j + 1);
    SnapshotExactly(parse, approver, t, j, j + 1, id);
    k :| 0 <= k < |t.events[j].ids| && t.events[j].ids[k] == id;
  }

  /** Until something is stored under an ID that is not in the cache, it stays out. */
  lemma {:induction false} StaysOut<C>(parse: Parser, caching: bool, approver: C, t: Trace<C>, id: string, m: nat, n: nat)
    requires IsRun(parse, caching, approver, t) && m <= n <= |t.events| && id !in t.states[m].messages
    requires forall k :: m <= k < n ==> !Stores(parse, t.events[k], id)
    ensures id !in t.states[n].messages
  {
    if m < n {
      var e := t.events[n - 1];
      StaysOut(parse, caching, approver, t, id, m, n - 1);
      assert !Stores(parse, e, id);
      StepInCache(parse, approver, t.states[n - 1], e, t.states[n], id);
    }
  }

  /** Whether a first broadcast under an ID is replayed, exactly: nothing else touching the ID in between, an action
      unexpired at every registration up to this one is in the snapshot if and only if the time to its expiry was
      positive as computed when it arrived. */
  lemma ReplayedExactly<C>(parse: Parser, approver: C, t: Trace<C>, j: nat, i: nat, id: string)
    requires IsRun(parse, true, approver, t) && i < j < |t.events| && t.events[j].Register?
    requires t.events[i].Broadcast? && parse(t.events[i].message).Action? && parse(t.events[i].message).id == id
    requires id !in t.states[i].messages
    requires forall n :: i < n < j ==> !Stores(parse, t.events[n], id) && !(t.events[n].Remove? && t.events[n].id == id)
    requires forall n :: i < n <= j && t.events[n].Register? ==> IsLive(parse, t.events[i].message, t.events[n].now)
    ensures |t.events[j].ids| == |t.events[j].snapshot|
    ensures GetExpiration(parse(t.events[i].message).expireTime, t.events[i].now) > 0 <==>
      exists k :: 0 <= k < |t.events[j].ids| && t.events[j].ids[k] == id && t.events[j].snapshot[k] == t.events[i].message
  {
    SnapshotExactly(parse, approver, t, j, j + 1, id);
    if Stores(parse, t.events[i], id) {
      var k := CachedOnce(parse, approver, t, j, i, id);
    } else {
      StaysOut(parse, true, approver, t, id, i, j);
      assert Next(parse, approver, t.states[j], t.events[j], t.states[j + 1]);
      ListedOnce(t.events[j].snapshot, t.events[j].ids, LocalView(parse, t.states[j].messages, t.events[j].now), id);
    }
  }

  /** An expiry some 295 years away wraps to the past: the unexpired broadcast is never replayed. */
  lemma FarExpiryNotReplayed<C>(parse: Parser, approver: C, c: C, m: Bytes, t0: int) returns (t: Trace<C>)
    requires parse(m).Action? && parse(m).expireTime == t0 + 9_300_000_000
    ensures IsRun(parse, true, approver, t)
    ensures t.events == [RunSucceeds, Broadcast(m, t0), Register(c, t0 + 1, [], [])]
    ensures IsLive(parse, m, t0 + 1) && FeedOf(t.states[3], c).sent == []
  {
    var events := [RunSucceeds, Broadcast(m, t0), Register(c, t0 + 1, [], [])];
    var s0: Hub<C> := NewHub(true);
    var s1 := Step(parse, approver, s0, events[0]);
    var s2 := Step(parse, approver, s1, events[1]);
    assert GetExpiration(parse(m).expireTime, t0) < 0;
    assert s2.messages == map[];
    var s3 := Step(parse, approver, s2, events[2]);
    t := Trace(events, [s0, s1, s2, s3]);
    assert Next(parse, approver, s0, events[0], s1) && Next(parse, approver, s1, events[1], s2);
    assert Next(parse, approver, s2, events[2], s3);
  }

  /** Handled actions stay gone: after an ID was removed, a client that registers later is not replayed a message
      that was, or now is, under that ID unless one was cached again in between. */
  lemma HandledStaysGone<C>(parse: Parser, caching: bool, approver: C, t: Trace<C>, j: nat, i: nat, id: string, k: nat)
    requires IsRun(parse, caching, approver, t) && i < j < |t.events| && t.events[j].Register?
    requires t.events[i].Remove? && t.events[i].id == id
    requires forall n :: i < n < j ==> !Stores(parse, t.events[n], id)
    requires k < |t.events[j].snapshot|
    ensures parse(t.events[j].snapshot[k]).Action? && parse(t.events[j].snapshot[k]).id != id
  {
    var e, h := t.events[j], t.states[j];
    assert Next(parse, approver, t.states[i], t.events[i], t.states[i + 1]);
    StaysOut(parse, caching, approver, t, id, i + 1, j);
    assert Next(parse, approver, h, e, t.states[j + 1]);
    assert LocalView(parse, h.messages, e.now)(e.ids[k]) == Some(e.snapshot[k]);
    var origin := CachedSurvived(parse, caching, approver, t, e.ids[k], j);
  }
}
