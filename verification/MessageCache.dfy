/** The two message caches: the lazily pruned local map and the key-value store with expiry. JSON is left
    uninterpreted: a parser says what a byte string means to each of the two struct types it is read into. */
module MessageCache {
  import opened ByteStrings

  /** What decoding a message yields. InfoOnly messages decode as a cache entry (id and expiry) but not as a
      whole action; every message that decodes as an action also decodes as a cache entry. */
  datatype Parsed =
    | Malformed
    | InfoOnly(id: string, expireTime: int)
    | Action(id: string, expireTime: int, status: int, messages: seq<Bytes>)

  type Parser = Bytes -> Parsed

  const NANOS: int := 1_000_000_000
  const TWO_63: int := 0x8000_0000_0000_0000

  /** The signed 64-bit value an integer wraps to. */
  function Wrap64(x: int): (w: int)
    ensures -TWO_63 <= w < TWO_63
    ensures -TWO_63 <= x < TWO_63 ==> w == x
  {
    (x + TWO_63) % (2 * TWO_63) - TWO_63
  }

  /** Time left until expiry, in nanoseconds, in wrapping 64-bit arithmetic. */
  function GetExpiration(expireTime: int, now: int): int {
    Wrap64(Wrap64(expireTime - now) * NANOS)
  }

  /** The time left fits the nanosecond range. */
  predicate Fits(expireTime: int, now: int) {
    -TWO_63 <= (expireTime - now) * NANOS < TWO_63
  }

  /** The wrapping arithmetic is right exactly when the time left fits. */
  lemma ExpirationExact(expireTime: int, now: int)
    ensures GetExpiration(expireTime, now) == (expireTime - now) * NANOS <==> Fits(expireTime, now)
  {
  }

  /** Messages shown for IDs, as a function of the ID. */
  type View = string -> Option<Bytes>

  /** res lists every message of a view exactly once; ids says in which order. */
  ghost predicate IsListing(res: seq<Bytes>, ids: seq<string>, view: View) {
    && |res| == |ids|
    && (forall i, j :: 0 <= i < j < |ids| ==> ids[i] != ids[j])
    && (forall i :: 0 <= i < |ids| ==> view(ids[i]) == Some(res[i]))
    && (forall id :: view(id).Some? ==> id in ids)
  }

  // ---------- Local cache ----------

  /** IsExpired, on a message that decodes as an action. */
  predicate IsLive(parse: Parser, message: Bytes, now: int) {
    parse(message).Action? && parse(message).expireTime > now
  }

  function LocalAdd(parse: Parser, messages: map<string, Bytes>, message: Bytes, now: int): map<string, Bytes> {
    var info := parse(message);
    if !info.Malformed? && GetExpiration(info.expireTime, now) > 0 then messages[info.id := message] else messages
  }

  function LocalPrune(parse: Parser, messages: map<string, Bytes>, now: int): map<string, Bytes> {
    map id | id in messages && IsLive(parse, messages[id], now) :: messages[id]
  }

  function LocalView(parse: Parser, messages: map<string, Bytes>, now: int): View {
    (id: string) => if id in messages && IsLive(parse, messages[id], now) then Some(messages[id]) else None
  }

  class LocalCache {
    const parse: Parser
    var messages: map<string, Bytes>

    constructor (parse: Parser)
      ensures this.parse == parse && messages == map[]
    {
      this.parse := parse;
      messages := map[];
    }

    method AddMessage(message: Bytes, now: int)
      modifies this
      ensures messages == LocalAdd(parse, old(messages), message, now)
    {
      var info := parse(message);
      if !info.Malformed? {
        if GetExpiration(info.expireTime, now) > 0 {
          messages := messages[info.id := message];
        }
      }
    }

    /** Returns the unexpired messages in map order, which is arbitrary, and clears out the others. */
    method GetMessages(now: int) returns (res: seq<Bytes>, ghost ids: seq<string>)
      modifies this
      ensures messages == LocalPrune(parse, old(messages), now)
      ensures IsListing(res, ids, LocalView(parse, old(messages), now))
    {
      res, ids := [], [];
      var left := messages.Keys;
      ghost var before := messages;
      while left != {}
        invariant left <= messages.Keys <= before.Keys
        invariant forall id :: id in messages ==> messages[id] == before[id]
        invariant forall id :: id in before && id !in left ==> (id in messages <==> IsLive(parse, before[id], now))
        invariant |res| == |ids| && forall id :: id in ids <==> id in messages && id !in left
        invariant forall i, j :: 0 <= i < j < |ids| ==> ids[i] != ids[j]
        invariant forall i :: 0 <= i < |ids| ==> ids[i] in messages && res[i] == messages[ids[i]]
        decreases |left|
      {
        var id :| id in left;
        var message := messages[id];
        var action := parse(message);
        left := left - {id};
        if !action.Action? || action.expireTime <= now {
          messages := messages - {id};
        } else {
          res, ids := res + [message], ids + [id];
        }
      }
    }

    method RemoveMessage(id: string)
      modifies this
      ensures messages == old(messages) - {id}
    {
      messages := messages - {id};
    }
  }

  // ---------- Key-value store and distributed cache ----------

  /** A stored value and the instant, in nanoseconds, from which it is gone; None never expires. */
  datatype Entry = Entry(value: Bytes, expiresAt: Option<int>)

  type Entries = map<string, Entry>

  predicate Alive(entries: Entries, key: string, now: int) {
    key in entries && (entries[key].expiresAt == None || now * NANOS < entries[key].expiresAt.value)
  }

  predicate HasPrefix(key: string, prefix: string) {
    |prefix| <= |key| && key[..|prefix|] == prefix
  }

  function StoreSet(entries: Entries, key: string, value: Bytes, ttl: int, now: int): Entries {
    entries[key := Entry(value, if ttl <= 0 then None else Some(now * NANOS + ttl))]
  }

  class KVStore {
    var entries: Entries

    constructor ()
      ensures entries == map[]
    {
      entries := map[];
    }

    method Get(key: string, now: int) returns (value: Option<Bytes>)
      ensures value == if Alive(entries, key, now) then Some(entries[key].value) else None
    {
      value := if Alive(entries, key, now) then Some(entries[key].value) else None;
    }

    method Set(key: string, value: Bytes, ttl: int, now: int)
      modifies this
      ensures entries == StoreSet(old(entries), key, value, ttl, now)
    {
      entries := StoreSet(entries, key, value, ttl, now);
    }

    /** The keys alive under a prefix, each once, in arbitrary order. */
    method Scan(prefix: string, now: int) returns (keys: seq<string>)
      ensures forall k :: k in keys <==> Alive(entries, k, now) && HasPrefix(k, prefix)
      ensures forall i, j :: 0 <= i < j < |keys| ==> keys[i] != keys[j]
    {
      keys := [];
      var left := set k | k in entries && Alive(entries, k, now) && HasPrefix(k, prefix);
      ghost var all := left;
      while left != {}
        invariant left <= all
        invariant forall k :: k in keys <==> k in all && k !in left
        invariant forall i, j :: 0 <= i < j < |keys| ==> keys[i] != keys[j]
        decreases |left|
      {
        var k :| k in left;
        left := left - {k};
        keys := keys + [k];
      }
    }

    method Del(key: string)
      modifies this
      ensures entries == old(entries) - {key}
    {
      entries := entries - {key};
    }
  }

  const KEY_PREFIX: string := "transaction:"

  function Key(id: string): string {
    KEY_PREFIX + id
  }

  function StoreAdd(parse: Parser, entries: Entries, message: Bytes, now: int): Entries {
    var info := parse(message);
    if info.Malformed? then entries
    else
      var expiration := GetExpiration(info.expireTime, now);
      if expiration > 0 then StoreSet(entries, Key(info.id), message, expiration, now) else entries
  }

  function StoreView(entries: Entries, now: int): View {
    (id: string) => if Alive(entries, Key(id), now) then Some(entries[Key(id)].value) else None
  }

  lemma KeyInjective(a: string, b: string)
    ensures Key(a) == Key(b) <==> a == b
    ensures Key(a) == "transaction:" + a
    ensures HasPrefix(Key(a), KEY_PREFIX) && Key(a)[|KEY_PREFIX|..] == a
  {
    assert Key(a)[|KEY_PREFIX|..] == a && Key(b)[|KEY_PREFIX|..] == b;
  }

  lemma KeyOf(key: string)
    requires HasPrefix(key, KEY_PREFIX)
    ensures Key(key[|KEY_PREFIX|..]) == key
  {
  }

  class DistributedCache {
    const parse: Parser
    const store: KVStore

    constructor (parse: Parser, store: KVStore)
      ensures this.parse == parse && this.store == store
    {
      this.parse := parse;
      this.store := store;
    }

    method AddMessage(message: Bytes, now: int)
      modifies store
      ensures store.entries == StoreAdd(parse, old(store.entries), message, now)
    {
      var info := parse(message);
      if !info.Malformed? {
        var expiration := GetExpiration(info.expireTime, now);
        if expiration > 0 {
          store.Set(Key(info.id), message, expiration, now);
        }
      }
    }

    method GetMessages(now: int) returns (messages: seq<Bytes>, ghost ids: seq<string>)
      ensures IsListing(messages, ids, StoreView(store.entries, now))
    {
      messages, ids := [], [];
      var keys := store.Scan(KEY_PREFIX, now);
      for i := 0 to |keys|
        invariant |messages| == |ids| == i
        invariant forall k :: 0 <= k < i ==> keys[k] == Key(ids[k]) && StoreView(store.entries, now)(ids[k]) == Some(messages[k])
      {
        var msg := store.Get(keys[i], now);
        assert keys[i] in keys;
        KeyOf(keys[i]);
        if msg.Some? {
          messages, ids := messages + [msg.value], ids + [keys[i][|KEY_PREFIX|..]];
        }
      }
      forall id | StoreView(store.entries, now)(id).Some?
        ensures id in ids
      {
        KeyInjective(id, id);
        assert Key(id) in keys;
        var k :| 0 <= k < |keys| && keys[k] == Key(id);
        KeyInjective(ids[k], id);
      }
    }

    method RemoveMessage(id: string)
      modifies store
      ensures store.entries == old(store.entries) - {"transaction:" + id}
    {
      store.Del(Key(id));
    }
  }
}
