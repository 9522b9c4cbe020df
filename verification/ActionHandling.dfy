/** How one agent handles an action: the synchronizer, the service's act, and the auto-approver with its growing
    retry interval. Every request to another system is recorded in a log, with its outcome. */
module ActionHandling {
  import opened ByteStrings
  import opened MessageCache
  import opened CacheAgreement
  import ActionSync

  datatype SignCall = Approve | Reject | ApproveMessage(message: Bytes)

  datatype Effect =
    | CheckMarker(key: string, found: bool)
    | Lock(name: string, taken: bool)
    | Pause(milliseconds: int)
    | Sign(id: string, call: SignCall, ok: bool)
    | RemoveFromCache(id: string)
    | Sleep(seconds: int)
    | Unlock(name: string, ok: bool)
    | SetMarker(key: string, seconds: int)

  /** The other systems: the k-th request succeeds or not, and takes some time. */
  class World {
    const succeeds: nat -> bool
    const takes: nat -> nat
    var requests: nat
    var now: int
    ghost var log: seq<Effect>

    constructor (succeeds: nat -> bool, takes: nat -> nat, now: int)
      ensures this.succeeds == succeeds && this.takes == takes && this.now == now && requests == 0 && log == []
    {
      this.succeeds, this.takes, this.now := succeeds, takes, now;
      requests, log := 0, [];
    }

    /** One request, recorded as made(ok). */
    method Request(ghost made: bool -> Effect) returns (ok: bool)
      modifies this
      ensures requests == old(requests) + 1 && ok == succeeds(old(requests))
      ensures now == old(now) + takes(old(requests))
      ensures log == old(log) + [made(ok)]
    {
      ok := succeeds(requests);
      now := now + takes(requests);
      requests := requests + 1;
      log := log + [made(ok)];
    }

    method SleepFor(seconds: nat)
      modifies this`now, this`log
      ensures now == old(now) + seconds && log == old(log) + [Sleep(seconds)]
    {
      now := now + seconds;
      log := log + [Sleep(seconds)];
    }

    ghost method Record(e: Effect)
      modifies this`log
      ensures log == old(log) + [e]
    {
      log := log + [e];
    }
  }

  const MARKER_PREFIX: string := "action_v2:"

  function Marker(id: string): string {
    MARKER_PREFIX + id
  }

  /** Every action has its own marker. */
  lemma MarkersDiffer(a: string, b: string)
    ensures Marker(a) == Marker(b) <==> a == b
    ensures Marker(a) == "action_v2:" + a
  {
    assert Marker(a)[|MARKER_PREFIX|..] == a && Marker(b)[|MARKER_PREFIX|..] == b;
  }

  /** Writing an action's marker makes it alive for its time, for ever if that is not positive, and does nothing to
      the markers of other actions. */
  lemma MarkerWritten(entries: Entries, a: string, b: string, value: Bytes, seconds: int, t: int, now: int)
    ensures Alive(StoreSet(entries, Marker(a), value, seconds * NANOS, t), Marker(b), now) <==>
      if a == b then seconds <= 0 || now < t + seconds else Alive(entries, Marker(b), now)
  {
    MarkersDiffer(a, b);
  }

  /** The markers and the cached messages share a store without sharing a key. */
  lemma MarkersApart(a: string, b: string)
    ensures Marker(a) != Key(b)
  {
    assert Marker(a)[0] != Key(b)[0];
  }

  /** No operation of the cache writes, removes or revives a marker. */
  lemma CacheKeepsMarkers(parse: Parser, entries: Entries, t: Timed, id: string, now: int)
    ensures Marker(id) in ApplyStore(parse, entries, t) <==> Marker(id) in entries
    ensures Marker(id) in entries ==> ApplyStore(parse, entries, t)[Marker(id)] == entries[Marker(id)]
    ensures Alive(ApplyStore(parse, entries, t), Marker(id), now) == Alive(entries, Marker(id), now)
  {
    match t.op
    case Add(m) => if !parse(m).Malformed? { MarkersApart(id, parse(m).id); }
    case Remove(other) => MarkersApart(id, other);
    case Get =>
  }

  /** Writing a marker does not change what the cache shows, under any ID at any time. */
  lemma MarkersKeepCache(entries: Entries, marked: string, value: Bytes, ttl: int, t: int, now: int, id: string)
    ensures StoreView(StoreSet(entries, Marker(marked), value, ttl, t), now)(id) == StoreView(entries, now)(id)
  {
    MarkersApart(marked, id);
  }

  class Syncronizer {
    const world: World
    const onLockErrorTimeOutMs: int
    const actionIDExpirationSec: int
    var mutex: Option<string>

    constructor (world: World, onLockErrorTimeOutMs: int, actionIDExpirationSec: int)
      ensures this.world == world && mutex == None
      ensures this.onLockErrorTimeOutMs == onLockErrorTimeOutMs && this.actionIDExpirationSec == actionIDExpirationSec
    {
      this.world, this.mutex := world, None;
      this.onLockErrorTimeOutMs, this.actionIDExpirationSec := onLockErrorTimeOutMs, actionIDExpirationSec;
    }

    /** An action is to be handled unless its marker is found; then the mutex is named after it. */
    method ShouldHandleAction(id: string) returns (should: bool)
      modifies this, world
      ensures world.log == old(world.log) + [CheckMarker("action_v2:" + id, !should)]
      ensures mutex == if should then Some(id) else old(mutex)
    {
      var found := world.Request(ok => CheckMarker(Marker(id), ok));
      if found {
        return false;
      }
      mutex := Some(id);
      return true;
    }

    method AcquireLock() returns (ok: bool)
      requires mutex.Some?
      modifies world
      ensures world.log == old(world.log) +
        if ok then [Lock(mutex.value, ok)] else [Lock(mutex.value, ok), Pause(onLockErrorTimeOutMs)]
    {
      var name := mutex.value;
      ok := world.Request(taken => Lock(name, taken));
      if !ok {
        world.Record(Pause(onLockErrorTimeOutMs));
      }
    }

    /** The marker is written whatever unlocking returned. */
    method Release(id: string) returns (ok: bool)
      requires mutex.Some?
      modifies world
      ensures world.log == old(world.log) + [Unlock(mutex.value, ok), SetMarker("action_v2:" + id, actionIDExpirationSec)]
    {
      var name := mutex.value;
      ok := world.Request(released => Unlock(name, released));
      world.Record(SetMarker(Marker(id), actionIDExpirationSec));
    }
  }

  // ---------- Sessions ----------

  /** How the handling of one action under load balancing went. */
  datatype Outcome = SkippedAction | LockRefused | Ran(unlocked: bool)

  /** The requests made for one action: body is what was done to sign it. */
  ghost function SessionLog(balanced: bool, sync: Syncronizer, id: string, how: Outcome, body: seq<Effect>): seq<Effect> {
    if !balanced then body
    else match how
      case SkippedAction => [CheckMarker(Marker(id), true)]
      case LockRefused => [CheckMarker(Marker(id), false), Lock(id, false), Pause(sync.onLockErrorTimeOutMs)]
      case Ran(unlocked) =>
        [CheckMarker(Marker(id), false), Lock(id, true)] + body +
        [Unlock(id, unlocked), SetMarker(Marker(id), sync.actionIDExpirationSec)]
  }

  /** The synchronizer's part of a log, in the protocol's terms. */
  function ProtocolCalls(log: seq<Effect>): seq<ActionSync.Call> {
    if log == [] then []
    else
      var before, last := ProtocolCalls(log[..|log| - 1]), log[|log| - 1];
      match last
      case CheckMarker(_, _) => before + [ActionSync.CallCheck]
      case Lock(_, taken) => before + [ActionSync.CallLock(taken)]
      case Unlock(_, _) => before + [ActionSync.CallUnlock]
      case SetMarker(_, _) => before + [ActionSync.CallMark]
      case _ => before
  }

  predicate OnlySigns(body: seq<Effect>) {
    forall i :: 0 <= i < |body| ==> body[i].Sign? || body[i].RemoveFromCache? || body[i].Sleep?
  }

  lemma {:induction false} ProtocolCallsAppend(log: seq<Effect>, body: seq<Effect>)
    requires OnlySigns(body)
    ensures ProtocolCalls(log + body) == ProtocolCalls(log)
  {
    if body == [] {
      assert log + body == log;
    } else {
      assert (log + body)[..|log + body| - 1] == log + body[..|body| - 1];
      ProtocolCallsAppend(log, body[..|body| - 1]);
    }
  }

  lemma ProtocolCallsNext(log: seq<Effect>, e: Effect)
    ensures ProtocolCalls(log + [e]) == ProtocolCalls(log) +
      if e.CheckMarker? then [ActionSync.CallCheck]
      else if e.Lock? then [ActionSync.CallLock(e.taken)]
      else if e.Unlock? then [ActionSync.CallUnlock]
      else if e.SetMarker? then [ActionSync.CallMark]
      else []
  {
    assert (log + [e])[..|log|] == log;
  }

  /** Where the protocol leaves a session that went this way. */
  function EndOf(how: Outcome): ActionSync.Pc {
    match how
    case SkippedAction => ActionSync.Skipped
    case LockRefused => ActionSync.Refused
    case Ran(_) => ActionSync.Done
  }

  lemma RanSession(check: Effect, lock: Effect, body: seq<Effect>, unlock: Effect, mark: Effect)
    requires check.CheckMarker? && lock.Lock? && lock.taken && OnlySigns(body) && unlock.Unlock? && mark.SetMarker?
    ensures ProtocolCalls([check, lock] + body + [unlock, mark]) ==
      [ActionSync.CallCheck, ActionSync.CallLock(true), ActionSync.CallUnlock, ActionSync.CallMark]
  {
    var begun := [check, lock];
    CheckedSession(check, lock);
    ProtocolCallsAppend(begun, body);
    var signed := begun + body;
    ProtocolCallsNext(signed, unlock);
    var unlocked := signed + [unlock];
    ProtocolCallsNext(unlocked, mark);
    assert signed + [unlock, mark] == unlocked + [mark];
  }

  lemma CheckedSession(check: Effect, lock: Effect)
    requires check.CheckMarker? && lock.Lock?
    ensures ProtocolCalls([check]) == [ActionSync.CallCheck]
    ensures ProtocolCalls([check, lock]) == [ActionSync.CallCheck, ActionSync.CallLock(lock.taken)]
  {
    ProtocolCallsNext([], check);
    assert [] + [check] == [check];
    ProtocolCallsNext([check], lock);
    assert [check] + [lock] == [check, lock];
  }

  /** Handling an action under load balancing is one whole session of the protocol. */
  lemma HandlingIsSession(sync: Syncronizer, id: string, how: Outcome, body: seq<Effect>)
    requires OnlySigns(body)
    ensures ProtocolCalls(SessionLog(true, sync, id, how, body)) == ActionSync.Script(EndOf(how))
  {
    var check, lock := CheckMarker(Marker(id), how.SkippedAction?), Lock(id, how.Ran?);
    CheckedSession(check, lock);
    if how.LockRefused? {
      var pause := Pause(sync.onLockErrorTimeOutMs);
      ProtocolCallsNext([check, lock], pause);
      assert [check, lock] + [pause] == [check, lock, pause];
    } else if how.Ran? {
      RanSession(check, lock, body, Unlock(id, how.unlocked), SetMarker(Marker(id), sync.actionIDExpirationSec));
    }
  }

  // ---------- What a log contains ----------

  datatype Kind = Signing | Removing | Sleeping | Pausing

  predicate IsKind(kind: Kind, e: Effect) {
    match kind
    case Signing => e.Sign?
    case Removing => e.RemoveFromCache?
    case Sleeping => e.Sleep?
    case Pausing => e.Pause?
  }

  /** The entries of one kind, in order. */
  function Only(kind: Kind, log: seq<Effect>): seq<Effect> {
    if log == [] then []
    else
      var before, last := Only(kind, log[..|log| - 1]), log[|log| - 1];
      if IsKind(kind, last) then before + [last] else before
  }

  lemma OnlyNext(kind: Kind, log: seq<Effect>, e: Effect)
    ensures Only(kind, log + [e]) == Only(kind, log) + if IsKind(kind, e) then [e] else []
  {
    assert (log + [e])[..|log|] == log;
  }

  lemma PartsNext(log: seq<Effect>, e: Effect)
    ensures Only(Signing, log + [e]) == Only(Signing, log) + if e.Sign? then [e] else []
    ensures Only(Sleeping, log + [e]) == Only(Sleeping, log) + if e.Sleep? then [e] else []
    ensures Only(Removing, log + [e]) == Only(Removing, log) + if e.RemoveFromCache? then [e] else []
    ensures Only(Pausing, log + [e]) == Only(Pausing, log) + if e.Pause? then [e] else []
  {
    OnlyNext(Pausing, log, e);
    OnlyNext(Signing, log, e);
    OnlyNext(Sleeping, log, e);
    OnlyNext(Removing, log, e);
  }

  /** Entries of other kinds around a log do not matter. */
  lemma OnlyWithin(kind: Kind, first: Effect, second: Effect, body: seq<Effect>, third: Effect, fourth: Effect)
    requires !IsKind(kind, first) && !IsKind(kind, second) && !IsKind(kind, third) && !IsKind(kind, fourth)
    ensures Only(kind, [first, second] + body + [third, fourth]) == Only(kind, body)
  {
    var begun := [first, second];
    OnlyNext(kind, [], first);
    OnlyNext(kind, [first], second);
    assert [] + [first] == [first] && [first] + [second] == begun;
    OnlyAfter(kind, begun, body);
    OnlyNext(kind, begun + body, third);
    OnlyNext(kind, begun + body + [third], fourth);
    assert begun + body + [third, fourth] == begun + body + [third] + [fourth];
  }

  lemma {:induction false} OnlyAfter(kind: Kind, begun: seq<Effect>, body: seq<Effect>)
    requires Only(kind, begun) == []
    ensures Only(kind, begun + body) == Only(kind, body)
  {
    if body == [] {
      assert begun + body == begun;
    } else {
      var init, last := body[..|body| - 1], body[|body| - 1];
      OnlyAfter(kind, begun, init);
      OnlyNext(kind, begun + init, last);
      assert begun + body == begun + init + [last];
    }
  }

  /** A session contains what was done to sign, if it ran, and nothing else of that kind. */
  lemma OnlyInSession(kind: Kind, balanced: bool, sync: Syncronizer, id: string, how: Outcome, body: seq<Effect>)
    ensures Only(kind, SessionLog(balanced, sync, id, how, body)) ==
      if !balanced || how.Ran? then Only(kind, body)
      else if how.LockRefused? && kind.Pausing? then [Pause(sync.onLockErrorTimeOutMs)]
      else []
  {
    if balanced {
      var check, lock := CheckMarker(Marker(id), how.SkippedAction?), Lock(id, how.Ran?);
      if how.Ran? {
        OnlyWithin(kind, check, lock, body, Unlock(id, how.unlocked), SetMarker(Marker(id), sync.actionIDExpirationSec));
      } else {
        OnlyNext(kind, [], check);
        OnlyNext(kind, [check], lock);
        OnlyNext(kind, [check, lock], Pause(sync.onLockErrorTimeOutMs));
        assert [] + [check] == [check] && [check] + [lock] == [check, lock];
        assert [check, lock] + [Pause(sync.onLockErrorTimeOutMs)] == [check, lock, Pause(sync.onLockErrorTimeOutMs)];
      }
    }
  }

  /** What was added to a log. */
  function Added(before: seq<Effect>, after: seq<Effect>): seq<Effect> {
    if before <= after then after[|before|..] else []
  }

  lemma AddedIs(before: seq<Effect>, session: seq<Effect>)
    ensures before <= before + session && Added(before, before + session) == session
  {
  }

  /** Every request is about this action: its marker, its lock, its signature, its message. */
  predicate About(id: string, markerSeconds: int, log: seq<Effect>) {
    forall i :: 0 <= i < |log| ==> AboutAction(id, markerSeconds, log[i])
  }

  predicate AboutAction(id: string, markerSeconds: int, e: Effect) {
    match e
    case CheckMarker(key, _) => key == "action_v2:" + id
    case Lock(name, _) => name == id
    case Sign(signed, _, _) => signed == id
    case RemoveFromCache(removed) => removed == id
    case Unlock(name, _) => name == id
    case SetMarker(key, seconds) => key == "action_v2:" + id && seconds == markerSeconds
    case _ => true
  }

  lemma SessionAbout(balanced: bool, sync: Syncronizer, id: string, how: Outcome, body: seq<Effect>)
    requires About(id, sync.actionIDExpirationSec, body)
    ensures About(id, sync.actionIDExpirationSec, SessionLog(balanced, sync, id, how, body))
  {
  }

  lemma RanLog(start: seq<Effect>, check: Effect, lock: Effect, body: seq<Effect>, unlock: Effect, mark: Effect,
      log: seq<Effect>)
    requires log == start + [check] + [lock] + body + [unlock, mark]
    ensures log == start + ([check, lock] + body + [unlock, mark])
  {
    assert start + [check] + [lock] == start + [check, lock];
  }

  // ---------- The service ----------

  datatype ActError = LockFailed | SignFailed

  class ActionService {
    const world: World
    const sync: Syncronizer
    const loadBalancingEnabled: bool
    const hasCache: bool

    constructor (world: World, sync: Syncronizer, loadBalancingEnabled: bool, hasCache: bool)
      requires sync.world == world
      ensures this.world == world && this.sync == sync
      ensures this.loadBalancingEnabled == loadBalancingEnabled && this.hasCache == hasCache
    {
      this.world, this.sync := world, sync;
      this.loadBalancingEnabled, this.hasCache := loadBalancingEnabled, hasCache;
    }

    /** One signing request of the kind asked for; the message leaves the cache exactly if it succeeds. */
    method SignAndRemove(id: string, call: SignCall) returns (err: Option<ActError>)
      modifies world
      ensures err == None || err == Some(SignFailed)
      ensures (err == None) == world.succeeds(old(world.requests))
      ensures world.log == old(world.log) +
        ([Sign(id, call, err == None)] + if err == None && hasCache then [RemoveFromCache(id)] else [])
    {
      var ok := world.Request(signed => Sign(id, call, signed));
      if !ok {
        return Some(SignFailed);
      }
      if hasCache {
        world.Record(RemoveFromCache(id));
      }
      return None;
    }

    /** One signing request, for an approval or a rejection as asked, and a removal exactly if it succeeded. */
    ghost function SigningBody(id: string, approve: bool, ok: bool): (body: seq<Effect>)
      ensures OnlySigns(body)
    {
      [Sign(id, if approve then Approve else Reject, ok)] + if ok && hasCache then [RemoveFromCache(id)] else []
    }

    lemma SigningParts(id: string, approve: bool, ok: bool)
      ensures About(id, sync.actionIDExpirationSec, SigningBody(id, approve, ok))
      ensures Only(Signing, SigningBody(id, approve, ok)) == [Sign(id, if approve then Approve else Reject, ok)]
      ensures Only(Removing, SigningBody(id, approve, ok)) == if ok && hasCache then [RemoveFromCache(id)] else []
      ensures Only(Pausing, SigningBody(id, approve, ok)) == []
    {
      var sign := Sign(id, if approve then Approve else Reject, ok);
      assert [] + [sign] == [sign];
      PartsNext([], sign);
      PartsNext([sign], RemoveFromCache(id));
    }

    /** One whole session: it asks for the one signature it was asked for, for this action; the message leaves the cache
        exactly when that succeeded, before the lock is released; the lock is released and the marker written whether it
        succeeded or not. */
    method Act(id: string, approve: bool) returns (err: Option<ActError>, ghost how: Outcome)
      requires sync.world == world
      modifies sync, world
      ensures world.log == old(world.log) +
        SessionLog(loadBalancingEnabled, sync, id, how, SigningBody(id, approve, err == None))
      ensures loadBalancingEnabled ==> (err == Some(LockFailed) <==> how == LockRefused)
      ensures loadBalancingEnabled && how == SkippedAction ==> err == None
      ensures !loadBalancingEnabled ==> err != Some(LockFailed) && how.Ran?
      ensures old(world.log) <= world.log && About(id, sync.actionIDExpirationSec, Added(old(world.log), world.log))
      ensures Only(Signing, Added(old(world.log), world.log)) ==
        if how.Ran? then [Sign(id, if approve then Approve else Reject, err == None)] else []
      ensures Only(Removing, Added(old(world.log), world.log)) ==
        if how.Ran? && err == None && hasCache then [RemoveFromCache(id)] else []
      ensures Only(Pausing, Added(old(world.log), world.log)) ==
        if how.LockRefused? then [Pause(sync.onLockErrorTimeOutMs)] else []
    {
      err, how := ActSession(id, approve);
      ghost var body := SigningBody(id, approve, err == None);
      SigningParts(id, approve, err == None);
      AddedIs(old(world.log), SessionLog(loadBalancingEnabled, sync, id, how, body));
      SessionAbout(loadBalancingEnabled, sync, id, how, body);
      OnlyInSession(Signing, loadBalancingEnabled, sync, id, how, body);
      OnlyInSession(Removing, loadBalancingEnabled, sync, id, how, body);
      OnlyInSession(Pausing, loadBalancingEnabled, sync, id, how, body);
    }

    method ActSession(id: string, approve: bool) returns (err: Option<ActError>, ghost how: Outcome)
      requires sync.world == world
      modifies sync, world
      ensures world.log == old(world.log) +
        SessionLog(loadBalancingEnabled, sync, id, how, SigningBody(id, approve, err == None))
      ensures loadBalancingEnabled ==> (err == Some(LockFailed) <==> how == LockRefused)
      ensures loadBalancingEnabled && how == SkippedAction ==> err == None
      ensures !loadBalancingEnabled ==> err != Some(LockFailed) && how.Ran?
    {
      how := Ran(true);
      ghost var start := world.log;
      if loadBalancingEnabled {
        var should := sync.ShouldHandleAction(id);
        if !should {
          return None, SkippedAction;
        }
        var locked := sync.AcquireLock();
        if !locked {
          return Some(LockFailed), LockRefused;
        }
      }
      var call := if approve then Approve else Reject;
      err := SignAndRemove(id, call);
      if loadBalancingEnabled {
        var unlocked := sync.Release(id);
        how := Ran(unlocked);
        RanLog(start, CheckMarker(Marker(id), false), Lock(id, true), SigningBody(id, approve, err == None),
          Unlock(id, unlocked), SetMarker(Marker(id), sync.actionIDExpirationSec), world.log);
      }
    }
  }

  // ---------- The auto-approver ----------

  /** Sleeping r, 2r, ..., kr. */
  function Slept(r: nat, k: nat): nat {
    if k == 0 then 0 else Slept(r, k - 1) + k * r
  }

  /** The sum of the first k numbers. */
  function Triangle(k: nat): (t: nat)
    ensures 2 * t == k * (k + 1)
  {
    if k == 0 then 0 else Triangle(k - 1) + k
  }

  lemma {:induction false} SleptClosedForm(r: nat, k: nat)
    ensures Slept(r, k) == r * Triangle(k)
  {
    if k > 0 {
      SleptClosedForm(r, k - 1);
      Distribute(r, Triangle(k - 1), k);
    }
  }

  lemma Distribute(r: int, a: int, b: int)
    ensures r * (a + b) == r * a + b * r
  {
  }

  /** The least n of at least k such that n - 1 growing sleeps reach the limit. */
  function AttemptLimit(r: nat, limit: int, k: nat): (n: nat)
    requires r > 0 && k > 0
    ensures n >= k && Slept(r, n - 1) >= limit
    ensures n > k ==> Slept(r, n - 2) < limit
    decreases limit - Slept(r, k - 1)
  {
    if Slept(r, k - 1) >= limit then k
    else
      assert k * r > 0;
      AttemptLimit(r, limit, k + 1)
  }

  lemma {:induction false} SleptMonotone(r: nat, a: nat, b: nat)
    requires a <= b
    ensures Slept(r, a) <= Slept(r, b)
    decreases b
  {
    if a < b {
      SleptMonotone(r, a, b - 1);
      assert b * r >= 0;
    }
  }

  class RetryTimer {
    const start: int
    const timeEdge: int
    const retryInterval: int
    var baseInc: int

    constructor (retry: int, retryMax: int, now: int)
      ensures start == now && timeEdge == retryMax && retryInterval == retry && baseInc == retry
    {
      start, timeEdge, retryInterval, baseInc := now, retryMax, retry, retry;
    }

    method IsTimeOut(now: int) returns (timedOut: bool)
      ensures timedOut <==> now - start >= timeEdge
    {
      timedOut := now - start >= timeEdge;
    }

    method Retry(world: World)
      requires baseInc >= 0
      modifies this, world`now, world`log
      ensures baseInc == old(baseInc) + retryInterval
      ensures world.now == old(world.now) + old(baseInc) && world.log == old(world.log) + [Sleep(old(baseInc))]
    {
      world.SleepFor(baseInc);
      baseInc := baseInc + retryInterval;
    }
  }

  /** k attempts to approve, all but perhaps the last failed, with growing sleeps between them. */
  ghost function AttemptLog(id: string, message: Bytes, r: nat, k: nat, ok: bool): (body: seq<Effect>)
    requires k > 0
    ensures OnlySigns(body)
  {
    (if k == 1 then [] else AttemptLog(id, message, r, k - 1, false) + [Sleep((k - 1) * r)]) +
    [Sign(id, ApproveMessage(message), ok)]
  }

  /** An attempt made while the sleeps before the previous one were below the limit is within the bound. */
  lemma AttemptBound(r: nat, limit: int, attempts: nat)
    requires r > 0 && attempts > 0
    requires attempts > 1 ==> Slept(r, attempts - 2) < limit
    ensures attempts <= AttemptLimit(r, limit, 1)
    ensures Slept(r, attempts - 1) >= limit ==> attempts == AttemptLimit(r, limit, 1)
  {
    var n := AttemptLimit(r, limit, 1);
    if n < attempts {
      SleptMonotone(r, n - 1, attempts - 2);
    } else if attempts < n {
      SleptMonotone(r, attempts - 1, n - 2);
    }
  }

  /** What is slept between so many attempts is less than the limit plus the last sleep. */
  lemma TotalSleep(r: nat, limit: int, attempts: nat)
    requires r > 0 && 0 < attempts <= AttemptLimit(r, limit, 1) && limit > 0
    ensures Slept(r, attempts - 1) < limit + (attempts - 1) * r
  {
    if attempts > 1 {
      SleptMonotone(r, attempts - 2, AttemptLimit(r, limit, 1) - 2);
    }
  }

  const STATUS_PENDING: int := 1

  predicate IsPending(action: Parsed, now: int) {
    action.Action? && action.expireTime > now && action.status == 1
  }

  /** What is done to approve an action: attempts to sign its first message, nothing if it has none. */
  ghost function ApprovalBody(id: string, messages: seq<Bytes>, r: nat, k: nat, ok: bool): (body: seq<Effect>)
    requires k > 0
    ensures OnlySigns(body)
  {
    if messages == [] then [] else AttemptLog(id, messages[0], r, k, ok)
  }

  /** All k attempts sign this message for this action; only the last one succeeds, if any. */
  predicate SignsMessage(id: string, message: Bytes, k: nat, ok: bool, signs: seq<Effect>) {
    |signs| == k && forall i :: 0 <= i < k ==> signs[i] == Sign(id, ApproveMessage(message), ok && i == k - 1)
  }

  /** The sleeps grow by r, from r. */
  predicate GrowingSleeps(r: nat, k: nat, sleeps: seq<Effect>) {
    |sleeps| == k && forall i :: 0 <= i < k ==> sleeps[i] == Sleep((i + 1) * r)
  }

  lemma {:induction false} AttemptLogAbout(id: string, message: Bytes, r: nat, k: nat, ok: bool, markerSeconds: int)
    requires k > 0
    ensures About(id, markerSeconds, AttemptLog(id, message, r, k, ok))
    decreases k
  {
    if k > 1 {
      AttemptLogAbout(id, message, r, k - 1, false, markerSeconds);
    }
  }

  /** What a log of k attempts contains. */
  predicate HoldsAttempts(id: string, message: Bytes, r: nat, k: nat, ok: bool, log: seq<Effect>) {
    && SignsMessage(id, message, k, ok, Only(Signing, log))
    && GrowingSleeps(r, if k == 0 then 0 else k - 1, Only(Sleeping, log))
    && Only(Removing, log) == [] && Only(Pausing, log) == []
  }

  /** One more attempt, after a sleep if it is not the first. */
  lemma OneMoreAttempt(id: string, message: Bytes, r: nat, k: nat, log: seq<Effect>, sleep: Effect, sign: Effect, ok: bool)
    requires HoldsAttempts(id, message, r, k, false, log)
    requires sleep == Sleep(k * r) && sign == Sign(id, ApproveMessage(message), ok)
    ensures k == 0 ==> HoldsAttempts(id, message, r, 1, ok, log + [sign])
    ensures k > 0 ==> HoldsAttempts(id, message, r, k + 1, ok, log + [sleep] + [sign])
  {
    if k == 0 {
      PartsNext(log, sign);
    } else {
      PartsNext(log, sleep);
      PartsNext(log + [sleep], sign);
    }
  }

  lemma {:induction false} AttemptLogParts(id: string, message: Bytes, r: nat, k: nat, ok: bool, log: seq<Effect>)
    requires k > 0 && log == AttemptLog(id, message, r, k, ok)
    ensures HoldsAttempts(id, message, r, k, ok, log)
    decreases k
  {
    var sign, sleep := Sign(id, ApproveMessage(message), ok), Sleep((k - 1) * r);
    if k == 1 {
      OneMoreAttempt(id, message, r, 0, [], sleep, sign, ok);
      assert log == [] + [sign];
    } else {
      var earlier := AttemptLog(id, message, r, k - 1, false);
      AttemptLogParts(id, message, r, k - 1, false, earlier);
      OneMoreAttempt(id, message, r, k - 1, earlier, sleep, sign, ok);
      assert log == earlier + [sleep] + [sign];
    }
  }

  /** k failed attempts, each followed by its sleep. */
  ghost function FailedLog(id: string, message: Bytes, r: nat, k: nat): (body: seq<Effect>)
  {
    if k == 0 then [] else AttemptLog(id, message, r, k, false) + [Sleep(k * r)]
  }

  lemma AttemptLogStep(id: string, message: Bytes, r: nat, k: nat, ok: bool, before: seq<Effect>, body: seq<Effect>,
      log: seq<Effect>)
    returns (body': seq<Effect>)
    requires k > 0 && body == FailedLog(id, message, r, k - 1)
    requires log == before + body + [Sign(id, ApproveMessage(message), ok)]
    ensures body' == AttemptLog(id, message, r, k, ok) && log == before + body'
  {
    body' := body + [Sign(id, ApproveMessage(message), ok)];
  }

  lemma FailedLogStep(id: string, message: Bytes, r: nat, k: nat, seconds: nat, before: seq<Effect>, body: seq<Effect>,
      log: seq<Effect>)
    returns (body': seq<Effect>)
    requires k > 0 && seconds == k * r && body == AttemptLog(id, message, r, k, false)
    requires log == before + body + [Sleep(seconds)]
    ensures body' == FailedLog(id, message, r, k) && log == before + body'
  {
    body' := body + [Sleep(seconds)];
  }

  lemma SleptStep(r: nat, k: nat, slept: nat, step: nat) returns (slept': nat, next: nat)
    requires r > 0 && k > 0 && slept == Slept(r, k - 1) && step == k * r
    ensures slept' == Slept(r, k) == slept + step && next == (k + 1) * r == step + r && step > 0
  {
    slept', next := slept + step, step + r;
  }

  class AutoApprover {
    const world: World
    const sync: Syncronizer
    const loadBalancingEnabled: bool
    const retryInterval: int
    const retryIntervalMax: int
    const parse: Parser
    var lastError: bool

    constructor (world: World, sync: Syncronizer, loadBalancingEnabled: bool, retryInterval: int, retryIntervalMax: int, parse: Parser)
      ensures this.world == world && this.sync == sync && this.loadBalancingEnabled == loadBalancingEnabled
      ensures this.retryInterval == retryInterval && this.retryIntervalMax == retryIntervalMax && this.parse == parse
      ensures !lastError
    {
      this.world, this.sync, this.loadBalancingEnabled := world, sync, loadBalancingEnabled;
      this.retryInterval, this.retryIntervalMax, this.parse := retryInterval, retryIntervalMax, parse;
      lastError := false;
    }

    /** Ends after its first success. If every attempt fails it makes at most as many as the growing sleeps need to
        reach the limit, and exactly that many if the attempts take no time. */
    method ApproveAction(id: string, message: Bytes) returns (ghost attempts: nat, ghost approved: bool)
      requires retryInterval > 0
      modifies world
      ensures 1 <= attempts <= AttemptLimit(retryInterval, retryIntervalMax, 1)
      ensures world.log == old(world.log) + AttemptLog(id, message, retryInterval, attempts, approved)
      ensures world.requests == old(world.requests) + attempts
      ensures forall k :: old(world.requests) <= k < world.requests ==>
        (world.succeeds(k) <==> approved && k == world.requests - 1)
      ensures (forall k :: k >= old(world.requests) ==> !world.succeeds(k) && world.takes(k) == 0) ==>
        attempts == AttemptLimit(retryInterval, retryIntervalMax, 1)
    {
      var timer := new RetryTimer(retryInterval, retryIntervalMax, world.now);
      attempts := 0;
      ghost var r: nat, first, before := retryInterval, world.requests, world.log;
      ghost var slept: nat, next: nat, body := 0, r, [];
      while true
        invariant timer.start == old(world.now) && timer.timeEdge == retryIntervalMax && timer.retryInterval == r
        invariant timer.baseInc == next && next == (attempts + 1) * r && slept == Slept(r, attempts)
        invariant world.requests == first + attempts && world.log == before + body
        invariant attempts > 0 ==> Slept(r, attempts - 1) < retryIntervalMax
        invariant world.now - timer.start >= slept
        invariant (forall k :: k >= first ==> world.takes(k) == 0) ==> world.now - timer.start == slept
        invariant forall k :: first <= k < world.requests ==> !world.succeeds(k)
        invariant body == FailedLog(id, message, r, attempts)
        decreases retryIntervalMax - slept
      {
        var ok := world.Request(signed => Sign(id, ApproveMessage(message), signed));
        attempts := attempts + 1;
        AttemptBound(r, retryIntervalMax, attempts);
        body := AttemptLogStep(id, message, r, attempts, ok, before, body, world.log);
        if ok {
          approved := true;
          return;
        }
        var timedOut := timer.IsTimeOut(world.now);
        if timedOut {
          approved := false;
          return;
        }
        timer.Retry(world);
        body := FailedLogStep(id, message, r, attempts, next, before, body, world.log);
        slept, next := SleptStep(r, attempts, slept, next);
      }
    }

    method ApprovalSession(id: string, messages: seq<Bytes>)
      returns (panicked: bool, ghost how: Outcome, ghost attempts: nat, ghost approved: bool)
      requires sync.world == world && retryInterval > 0
      modifies sync, world
      ensures attempts > 0 && (!loadBalancingEnabled ==> how.Ran?)
      ensures panicked <==> how.Ran? && messages == []
      ensures world.log == old(world.log) +
        SessionLog(loadBalancingEnabled, sync, id, how, ApprovalBody(id, messages, retryInterval, attempts, approved))
    {
      panicked, how, attempts, approved := false, Ran(true), 1, false;
      ghost var start := world.log;
      if loadBalancingEnabled {
        var should := sync.ShouldHandleAction(id);
        if !should {
          how := SkippedAction;
          return;
        }
        var locked := sync.AcquireLock();
        if !locked {
          how := LockRefused;
          return;
        }
      }
      if messages == [] {
        panicked := true;
      } else {
        attempts, approved := ApproveAction(id, messages[0]);
      }
      ghost var body := ApprovalBody(id, messages, retryInterval, attempts, approved);
      if loadBalancingEnabled {
        var unlocked := sync.Release(id);
        how := Ran(unlocked);
        RanLog(start, CheckMarker(Marker(id), false), Lock(id, true), body,
          Unlock(id, unlocked), SetMarker(Marker(id), sync.actionIDExpirationSec), world.log);
      }
    }

    /** One whole session for an action, if agents share the load: it asks for signatures of the action's first message
        only, with growing sleeps between the attempts. For an action without messages the code panics once it may
        sign; the deferred release runs all the same. */
    method HandleAction(id: string, messages: seq<Bytes>)
      returns (panicked: bool, ghost how: Outcome, ghost attempts: nat, ghost approved: bool)
      requires sync.world == world && retryInterval > 0
      modifies sync, world
      ensures attempts > 0 && (!loadBalancingEnabled ==> how.Ran?)
      ensures panicked <==> how.Ran? && messages == []
      ensures world.log == old(world.log) +
        SessionLog(loadBalancingEnabled, sync, id, how, ApprovalBody(id, messages, retryInterval, attempts, approved))
      ensures old(world.log) <= world.log && About(id, sync.actionIDExpirationSec, Added(old(world.log), world.log))
      ensures if how.Ran? && messages != []
        then SignsMessage(id, messages[0], attempts, approved, Only(Signing, Added(old(world.log), world.log)))
          && GrowingSleeps(retryInterval, attempts - 1, Only(Sleeping, Added(old(world.log), world.log)))
        else Only(Signing, Added(old(world.log), world.log)) == []
      ensures Only(Removing, Added(old(world.log), world.log)) == []
      ensures Only(Pausing, Added(old(world.log), world.log)) ==
        if how.LockRefused? then [Pause(sync.onLockErrorTimeOutMs)] else []
    {
      panicked, how, attempts, approved := ApprovalSession(id, messages);
      ghost var body := ApprovalBody(id, messages, retryInterval, attempts, approved);
      if messages != [] {
        AttemptLogParts(id, messages[0], retryInterval, attempts, approved, body);
        AttemptLogAbout(id, messages[0], retryInterval, attempts, approved, sync.actionIDExpirationSec);
      }
      AddedIs(old(world.log), SessionLog(loadBalancingEnabled, sync, id, how, body));
      SessionAbout(loadBalancingEnabled, sync, id, how, body);
      OnlyInSession(Signing, loadBalancingEnabled, sync, id, how, body);
      OnlyInSession(Sleeping, loadBalancingEnabled, sync, id, how, body);
      OnlyInSession(Removing, loadBalancingEnabled, sync, id, how, body);
      OnlyInSession(Pausing, loadBalancingEnabled, sync, id, how, body);
    }

    /** Pending, unexpired actions are approved; anything else has no effect but to note a message that does not
        parse. */
    method HandleMessage(message: Bytes)
      returns (panicked: bool, ghost how: Outcome, ghost attempts: nat, ghost approved: bool)
      requires sync.world == world && retryInterval > 0
      modifies this, sync, world
      ensures lastError <==> old(lastError) || !parse(message).Action?
      ensures !IsPending(parse(message), old(world.now)) ==>
        world.log == old(world.log) && world.now == old(world.now) && !panicked
      ensures IsPending(parse(message), old(world.now)) ==>
        attempts > 0 && (!loadBalancingEnabled ==> how.Ran?) && (panicked <==> how.Ran? && parse(message).messages == [])
      ensures IsPending(parse(message), old(world.now)) ==>
        (var body := ApprovalBody(parse(message).id, parse(message).messages, retryInterval, attempts, approved);
         world.log == old(world.log) + SessionLog(loadBalancingEnabled, sync, parse(message).id, how, body))
    {
      panicked, how, attempts, approved := false, SkippedAction, 1, false;
      var action := parse(message);
      if !action.Action? {
        lastError := true;
        return;
      }
      if action.expireTime > world.now {
        if action.status == STATUS_PENDING {
          panicked, how, attempts, approved := HandleAction(action.id, action.messages);
        }
      }
    }
  }
}
