/** What the two caches show after any history of additions, removals and reads: the latest unexpired unremoved
    message of an ID, and exactly when they show the same. */
module CacheAgreement {
  import opened ByteStrings
  import opened MessageCache

  datatype Op = Add(message: Bytes) | Remove(id: string) | Get

  /** An operation and the whole second at which it happens. */
  datatype Timed = Timed(now: int, op: Op)

  type History = seq<Timed>

  /** The clock never goes back, and now is not before the last operation. */
  predicate Ordered(h: History, now: int) {
    && (forall i, j :: 0 <= i < j < |h| ==> h[i].now <= h[j].now)
    && (forall i :: 0 <= i < |h| ==> h[i].now <= now)
  }

  /** The additions under an ID are judged expired exactly when they are. */
  predicate JudgedRight(parse: Parser, h: History, id: string) {
    forall i :: 0 <= i < |h| && AddsUnder(parse, h[i].op, id) ==>
      var expireTime := parse(h[i].op.message).expireTime;
      GetExpiration(expireTime, h[i].now) > 0 <==> expireTime > h[i].now
  }

  /** The additions under an ID leave a time to expiry that fits the nanosecond range. */
  predicate FitUnder(parse: Parser, h: History, id: string) {
    forall i :: 0 <= i < |h| && AddsUnder(parse, h[i].op, id) ==> Fits(parse(h[i].op.message).expireTime, h[i].now)
  }

  predicate AddsUnder(parse: Parser, op: Op, id: string) {
    op.Add? && !parse(op.message).Malformed? && parse(op.message).id == id
  }

  function ApplyLocal(parse: Parser, messages: map<string, Bytes>, t: Timed): map<string, Bytes> {
    match t.op
    case Add(m) => LocalAdd(parse, messages, m, t.now)
    case Remove(id) => messages - {id}
    case Get => LocalPrune(parse, messages, t.now)
  }

  function ApplyStore(parse: Parser, entries: Entries, t: Timed): Entries {
    match t.op
    case Add(m) => StoreAdd(parse, entries, m, t.now)
    case Remove(id) => entries - {Key(id)}
    case Get => entries
  }

  /** Contents of the local map after a history. */
  function RunLocal(parse: Parser, h: History): map<string, Bytes> {
    if h == [] then map[] else ApplyLocal(parse, RunLocal(parse, h[..|h| - 1]), h[|h| - 1])
  }

  /** Contents of the store after a history. */
  function RunStore(parse: Parser, h: History): Entries {
    if h == [] then map[] else ApplyStore(parse, RunStore(parse, h[..|h| - 1]), h[|h| - 1])
  }

  /** An addition at time t that puts a message under this ID: expired messages are not added. */
  predicate Accepted(parse: Parser, m: Bytes, t: int, id: string) {
    !parse(m).Malformed? && parse(m).id == id && parse(m).expireTime > t
  }

  /** Reading a history backwards: the latest message put under the ID, unless it was removed since. */
  function Latest(parse: Parser, h: History, id: string): (m: Option<Bytes>)
    ensures m.Some? ==> !parse(m.value).Malformed? && parse(m.value).id == id
  {
    if h == [] then None
    else
      var last := h[|h| - 1];
      if last.op.Add? && Accepted(parse, last.op.message, last.now, id) then Some(last.op.message)
      else if last.op == Remove(id) then None
      else Latest(parse, h[..|h| - 1], id)
  }

  /** The latest message under the ID, if it is unexpired now. */
  function Current(parse: Parser, h: History, now: int, id: string): Option<Bytes> {
    var m := Latest(parse, h, id);
    if m.Some? && parse(m.value).expireTime > now then m else None
  }

  lemma FittingExpiration(expireTime: int, now: int)
    requires Fits(expireTime, now)
    ensures GetExpiration(expireTime, now) > 0 <==> expireTime > now
    ensures GetExpiration(expireTime, now) + now * NANOS == expireTime * NANOS
  {
    ExpirationExact(expireTime, now);
  }

  /** How one operation changes what the store shows under an ID at a later time. */
  lemma StoreStep(parse: Parser, before: Entries, last: Timed, now: int, id: string)
    requires last.now <= now
    requires AddsUnder(parse, last.op, id) ==> Fits(parse(last.op.message).expireTime, last.now)
    ensures StoreView(ApplyStore(parse, before, last), now)(id) ==
      if last.op.Add? && Accepted(parse, last.op.message, last.now, id) then
        (if parse(last.op.message).expireTime > now then Some(last.op.message) else None)
      else if last.op == Remove(id) then None
      else StoreView(before, now)(id)
  {
    match last.op
    case Add(m) =>
      var info := parse(m);
      if !info.Malformed? {
        if info.id == id {
          FittingExpiration(info.expireTime, last.now);
        }
        KeyInjective(info.id, id);
      }
    case Remove(other) =>
      KeyInjective(other, id);
    case Get =>
  }

  /** The store shows exactly the current message of an ID, whatever is added under others. */
  lemma {:induction false} StoreShowsCurrent(parse: Parser, h: History, now: int, id: string)
    requires Ordered(h, now) && FitUnder(parse, h, id)
    ensures StoreView(RunStore(parse, h), now)(id) == Current(parse, h, now, id)
  {
    if h != [] {
      var last, before := h[|h| - 1], h[..|h| - 1];
      StoreShowsCurrent(parse, before, now, id);
      StoreStep(parse, RunStore(parse, before), last, now, id);
    }
  }

  /** How one operation changes what the local map shows under an ID at a later time. */
  lemma LocalStep(parse: Parser, before: map<string, Bytes>, last: Timed, now: int, id: string)
    requires last.now <= now && JudgedRight(parse, [last], id)
    ensures LocalView(parse, ApplyLocal(parse, before, last), now)(id) ==
      if last.op.Add? && Accepted(parse, last.op.message, last.now, id) then
        (if IsLive(parse, last.op.message, now) then Some(last.op.message) else None)
      else if last.op == Remove(id) then None
      else LocalView(parse, before, now)(id)
  {
    assert [last][0] == last;
  }

  /** The local map shows the current message of an ID if it decodes as a whole action, whatever is added under
      others. */
  lemma {:induction false} LocalShowsCurrent(parse: Parser, h: History, now: int, id: string)
    requires Ordered(h, now) && JudgedRight(parse, h, id)
    ensures var m := Current(parse, h, now, id);
            LocalView(parse, RunLocal(parse, h), now)(id) == if m.Some? && parse(m.value).Action? then m else None
  {
    if h != [] {
      var last, before := h[|h| - 1], h[..|h| - 1];
      LocalShowsCurrent(parse, before, now, id);
      LocalStep(parse, RunLocal(parse, before), last, now, id);
    }
  }

  /** Agreement on one ID, exactly: the caches show the same for it if and only if its current message, when there
      is one, decodes as a whole action. */
  lemma CachesAgree(parse: Parser, h: History, now: int, id: string)
    requires Ordered(h, now) && FitUnder(parse, h, id)
    ensures StoreView(RunStore(parse, h), now)(id) == Current(parse, h, now, id)
    ensures LocalView(parse, RunLocal(parse, h), now)(id) == StoreView(RunStore(parse, h), now)(id)
      <==> (Current(parse, h, now, id).Some? ==> parse(Current(parse, h, now, id).value).Action?)
  {
    forall i | 0 <= i < |h| && AddsUnder(parse, h[i].op, id)
      ensures var expireTime := parse(h[i].op.message).expireTime;
              GetExpiration(expireTime, h[i].now) > 0 <==> expireTime > h[i].now
    {
      FittingExpiration(parse(h[i].op.message).expireTime, h[i].now);
    }
    StoreShowsCurrent(parse, h, now, id);
    LocalShowsCurrent(parse, h, now, id);
  }

  // ---------- When the caches agree ----------

  /** Both caches show the same for an ID. */
  predicate ShowSame(parse: Parser, messages: map<string, Bytes>, entries: Entries, now: int, id: string) {
    LocalView(parse, messages, now)(id) == StoreView(entries, now)(id)
  }

  predicate Agree(parse: Parser, h: History, now: int, id: string) {
    ShowSame(parse, RunLocal(parse, h), RunStore(parse, h), now, id)
  }

  /** The caches agree at every instant from the last operation on. */
  ghost predicate AgreeFrom(parse: Parser, h: History) {
    forall now, id :: Ordered(h, now) ==> Agree(parse, h, now, id)
  }

  /** An addition that no cache makes, or that of a whole action whose time to expiry is computed exactly. */
  predicate Faithful(parse: Parser, m: Bytes, now: int) {
    var info := parse(m);
    info.Malformed? || GetExpiration(info.expireTime, now) <= 0 || (info.Action? && Fits(info.expireTime, now))
  }

  predicate AllFaithful(parse: Parser, h: History) {
    forall i :: 0 <= i < |h| && h[i].op.Add? ==> Faithful(parse, h[i].op.message, h[i].now)
  }

  /** Seconds after which a stored message is gone, whatever its expiry was. */
  const STORE_HORIZON: int := 9_223_372_037

  /** A time to expiry that wraps to a positive one is either not positive or beyond the horizon. */
  lemma WrappedExpiration(expireTime: int, now: int)
    requires !Fits(expireTime, now) && GetExpiration(expireTime, now) > 0
    ensures expireTime <= now || expireTime > now + STORE_HORIZON
  {
    assert Wrap64(STORE_HORIZON * NANOS) == STORE_HORIZON * NANOS - 2 * TWO_63;
  }

  /** After an unfaithful addition there is an instant at which the caches differ. */
  lemma UnfaithfulDiffers(parse: Parser, h: History, m: Bytes, t: int) returns (now: int)
    requires !Faithful(parse, m, t)
    ensures now >= t && !Agree(parse, h + [Timed(t, Add(m))], now, parse(m).id)
  {
    var info := parse(m);
    var longer := h + [Timed(t, Add(m))];
    assert longer[..|h|] == h;
    now := if info.InfoOnly? || info.expireTime <= t then t else t + STORE_HORIZON;
    if info.Action? {
      WrappedExpiration(info.expireTime, t);
    }
    assert RunLocal(parse, longer) == RunLocal(parse, h)[info.id := m];
    assert RunStore(parse, longer) == StoreSet(RunStore(parse, h), Key(info.id), m, GetExpiration(info.expireTime, t), t);
  }

  /** A faithful addition does the same to what both caches show. */
  lemma FaithfulStep(parse: Parser, messages: map<string, Bytes>, entries: Entries, m: Bytes, t: int, now: int, id: string)
    requires t <= now && Faithful(parse, m, t)
    requires ShowSame(parse, messages, entries, now, id)
    ensures ShowSame(parse, LocalAdd(parse, messages, m, t), StoreAdd(parse, entries, m, t), now, id)
  {
    var info := parse(m);
    if !info.Malformed? && GetExpiration(info.expireTime, t) > 0 {
      FittingExpiration(info.expireTime, t);
      StoreStep(parse, entries, Timed(t, Add(m)), now, id);
    }
  }

  lemma RemovalStep(parse: Parser, messages: map<string, Bytes>, entries: Entries, other: string, now: int, id: string)
    requires ShowSame(parse, messages, entries, now, id)
    ensures ShowSame(parse, messages - {other}, entries - {Key(other)}, now, id)
  {
    KeyInjective(other, id);
  }

  /** Pruning does not change what is shown later. */
  lemma PruneStep(parse: Parser, messages: map<string, Bytes>, t: int, now: int, id: string)
    requires t <= now
    ensures LocalView(parse, LocalPrune(parse, messages, t), now)(id) == LocalView(parse, messages, now)(id)
  {
  }

  lemma AgreementStep(parse: Parser, messages: map<string, Bytes>, entries: Entries, last: Timed, now: int, id: string)
    requires last.now <= now && ShowSame(parse, messages, entries, now, id)
    requires last.op.Add? ==> Faithful(parse, last.op.message, last.now)
    ensures ShowSame(parse, ApplyLocal(parse, messages, last), ApplyStore(parse, entries, last), now, id)
  {
    match last.op
    case Add(m) => FaithfulStep(parse, messages, entries, m, last.now, now, id);
    case Remove(other) => RemovalStep(parse, messages, entries, other, now, id);
    case Get => PruneStep(parse, messages, last.now, now, id);
  }

  /** For example: what decodes as a cache entry only is shown by the store and never by the local map. */
  lemma EntryOnlyBreaksAgreement(parse: Parser, m: Bytes, t: int)
    requires parse(m).InfoOnly? && parse(m).expireTime == t + 60
    ensures !Faithful(parse, m, t)
    ensures var h := [Timed(t, Add(m))];
      && LocalView(parse, RunLocal(parse, h), t + 1)(parse(m).id) == None
      && StoreView(RunStore(parse, h), t + 1)(parse(m).id) == Some(m) == Current(parse, h, t + 1, parse(m).id)
  {
    var h := [Timed(t, Add(m))];
    assert h[..0] == [];
    assert GetExpiration(parse(m).expireTime, t) == 60 * NANOS;
    assert RunStore(parse, h) == StoreAdd(parse, map[], m, t);
    assert RunLocal(parse, h) == LocalAdd(parse, map[], m, t);
  }

  /** For example: a positive fraction of a second is left of a time to expiry of 584 years, so the store forgets
      at once what the local map keeps. */
  lemma OverflowBreaksAgreement(parse: Parser, m: Bytes, t: int)
    requires parse(m).Action? && parse(m).expireTime == t + 18_446_744_074
    ensures !Faithful(parse, m, t)
    ensures var h := [Timed(t, Add(m))];
      && LocalView(parse, RunLocal(parse, h), t + 1)(parse(m).id) == Some(m) == Current(parse, h, t + 1, parse(m).id)
      && StoreView(RunStore(parse, h), t + 1)(parse(m).id) == None
  {
    var h := [Timed(t, Add(m))];
    assert h[..0] == [];
    assert GetExpiration(parse(m).expireTime, t) == 290_448_384;
    assert RunStore(parse, h) == StoreAdd(parse, map[], m, t);
    assert RunLocal(parse, h) == LocalAdd(parse, map[], m, t);
  }

  /** Faithful additions keep the caches in agreement. */
  lemma {:induction false} FaithfulAgrees(parse: Parser, h: History, now: int, id: string)
    requires Ordered(h, now) && AllFaithful(parse, h)
    ensures Agree(parse, h, now, id)
  {
    if h != [] {
      var last, before := h[|h| - 1], h[..|h| - 1];
      FaithfulAgrees(parse, before, now, id);
      AgreementStep(parse, RunLocal(parse, before), RunStore(parse, before), last, now, id);
    }
  }

  lemma FaithfulPrefix(parse: Parser, h: History, n: nat)
    requires AllFaithful(parse, h) && n <= |h|
    ensures AgreeFrom(parse, h[..n])
  {
    var prefix := h[..n];
    assert AllFaithful(parse, prefix);
    forall now, id | Ordered(prefix, now)
      ensures Agree(parse, prefix, now, id)
    {
      FaithfulAgrees(parse, prefix, now, id);
    }
  }

  /** The clock never goes back. */
  predicate InOrder(h: History) {
    forall i, j :: 0 <= i < j < |h| ==> h[i].now <= h[j].now
  }

  /** A history with an unfaithful addition breaks the agreement right after it. */
  lemma UnfaithfulBreaks(parse: Parser, h: History, i: nat)
    requires InOrder(h)
    requires i < |h| && h[i].op.Add? && !Faithful(parse, h[i].op.message, h[i].now)
    ensures !AgreeFrom(parse, h[..i + 1])
  {
    var m, t := h[i].op.message, h[i].now;
    var now := UnfaithfulDiffers(parse, h[..i], m, t);
    assert h[..i] + [Timed(t, Add(m))] == h[..i + 1];
    assert Ordered(h[..i + 1], now);
  }

  /** Agreement between the caches, exactly: all along a history, and at every instant after each of its
      operations, they show the same if and only if every addition in it is faithful. */
  lemma AgreementExactly(parse: Parser, h: History)
    requires InOrder(h)
    ensures AllFaithful(parse, h) <==> forall n :: 0 <= n <= |h| ==> AgreeFrom(parse, h[..n])
  {
    if AllFaithful(parse, h) {
      forall n | 0 <= n <= |h|
        ensures AgreeFrom(parse, h[..n])
      {
        FaithfulPrefix(parse, h, n);
      }
    } else {
      var i :| 0 <= i < |h| && h[i].op.Add? && !Faithful(parse, h[i].op.message, h[i].now);
      UnfaithfulBreaks(parse, h, i);
    }
  }

  // ---------- Equal views, equal answers ----------

  function Shown(view: View, ids: seq<string>): (res: seq<Bytes>)
    requires forall i :: 0 <= i < |ids| ==> view(ids[i]).Some?
    ensures |res| == |ids| && forall i :: 0 <= i < |ids| ==> res[i] == view(ids[i]).value
  {
    seq(|ids|, i requires 0 <= i < |ids| => view(ids[i]).value)
  }

  /** A sequence without its i-th element. */
  function Without<T>(s: seq<T>, i: nat): (rest: seq<T>)
    requires i < |s|
    ensures |rest| == |s| - 1 && forall k :: 0 <= k < |rest| ==> rest[k] == if k < i then s[k] else s[k + 1]
  {
    s[..i] + s[i + 1..]
  }

  lemma MultisetWithout<T>(s: seq<T>, i: nat)
    requires i < |s|
    ensures multiset(s) == multiset{s[i]} + multiset(Without(s, i))
  {
    assert s == s[..i] + [s[i]] + s[i + 1..];
  }

  lemma ShownWithout(view: View, ids: seq<string>, i: nat)
    requires i < |ids| && forall k :: 0 <= k < |ids| ==> view(ids[k]).Some?
    ensures multiset(Shown(view, ids)) == multiset{view(ids[i]).value} + multiset(Shown(view, Without(ids, i)))
  {
    var all, fewer := Shown(view, ids), Shown(view, Without(ids, i));
    assert fewer == Without(all, i);
    MultisetWithout(all, i);
  }

  predicate Distinct(ids: seq<string>) {
    forall i, j :: 0 <= i < j < |ids| ==> ids[i] != ids[j]
  }

  lemma DistinctWithout(ids: seq<string>, i: nat)
    requires i < |ids| && Distinct(ids)
    ensures Distinct(Without(ids, i))
    ensures forall id :: id in Without(ids, i) <==> id in ids && id != ids[i]
  {
    var rest := Without(ids, i);
    forall id
      ensures id in rest <==> id in ids && id != ids[i]
    {
      if id in ids && id != ids[i] {
        var k :| 0 <= k < |ids| && ids[k] == id;
        assert rest[if k < i then k else k - 1] == id;
      }
      if id in rest {
        var k :| 0 <= k < |rest| && rest[k] == id;
        assert id == ids[if k < i then k else k + 1];
      }
    }
  }

  /** The messages listed do not depend on the order of the IDs. */
  lemma {:induction false} OrderIrrelevant(view: View, a: seq<string>, b: seq<string>)
    requires Distinct(a) && Distinct(b)
    requires forall id :: id in a <==> id in b
    requires forall id :: id in a ==> view(id).Some?
    ensures multiset(Shown(view, a)) == multiset(Shown(view, b))
    decreases |a|
  {
    if a == [] && b == [] {
    } else {
      assert (a != [] ==> a[0] in a) && (b != [] ==> b[0] in b);
      var x :| x in a || x in b;
      assert x in a && x in b;
      var i :| 0 <= i < |a| && a[i] == x;
      var j :| 0 <= j < |b| && b[j] == x;
      DistinctWithout(a, i);
      DistinctWithout(b, j);
      OrderIrrelevant(view, Without(a, i), Without(b, j));
      ShownWithout(view, a, i);
      ShownWithout(view, b, j);
    }
  }

  /** Two listings of views that agree on every ID hold the same messages, each as often. */
  lemma SameListing(res1: seq<Bytes>, ids1: seq<string>, view1: View, res2: seq<Bytes>, ids2: seq<string>, view2: View)
    requires IsListing(res1, ids1, view1) && IsListing(res2, ids2, view2)
    requires forall id :: view1(id) == view2(id)
    ensures multiset(res1) == multiset(res2)
  {
    forall id
      ensures id in ids1 <==> view1(id).Some?
      ensures id in ids2 <==> view1(id).Some?
    {
    }
    OrderIrrelevant(view1, ids1, ids2);
    assert Shown(view1, ids1) == res1 && Shown(view1, ids2) == res2;
  }

  /** What the two GetMessages return after any history of faithful additions is the same collection. */
  lemma AnswersAgree(parse: Parser, h: History, now: int,
                     local: seq<Bytes>, localIds: seq<string>, remote: seq<Bytes>, remoteIds: seq<string>)
    requires Ordered(h, now) && AllFaithful(parse, h)
    requires IsListing(local, localIds, LocalView(parse, RunLocal(parse, h), now))
    requires IsListing(remote, remoteIds, StoreView(RunStore(parse, h), now))
    ensures multiset(local) == multiset(remote)
  {
    forall id
      ensures LocalView(parse, RunLocal(parse, h), now)(id) == StoreView(RunStore(parse, h), now)(id)
    {
      FaithfulAgrees(parse, h, now, id);
      assert Agree(parse, h, now, id);
    }
    SameListing(local, localIds, LocalView(parse, RunLocal(parse, h), now), remote, remoteIds, StoreView(RunStore(parse, h), now));
  }
}
