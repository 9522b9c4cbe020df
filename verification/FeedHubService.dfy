/** The hub object of internal/hub/feed_hub.go. Each method is one critical section under the hub's lock; it
    meets the machine's step, and none of them sends on or closes a closed channel. */
module FeedHubService {
  import opened ByteStrings
  import opened MessageCache
  import opened FeedHub

  /** A client and its channel. */
  class FeedClient {
    const isInternal: bool
    var sent: seq<Bytes>
    var closes: nat

    constructor (isInternal: bool)
      ensures this.isInternal == isInternal && sent == [] && closes == 0
    {
      this.isInternal := isInternal;
      sent, closes := [], 0;
    }

    method Send(message: Bytes)
      requires closes == 0
      modifies this`sent
      ensures sent == old(sent) + [message]
    {
      sent := sent + [message];
    }

    method Close()
      requires closes == 0
      modifies this`closes
      ensures closes == 1
    {
      closes := 1;
    }
  }

  class Service {
    const parse: Parser
    const cache: LocalCache?
    var clients: set<FeedClient>
    var isRunning: bool
    ghost var phase: Phase
    ghost var registered: set<FeedClient>

    constructor (parse: Parser, cache: LocalCache?)
      requires cache != null ==> cache.parse == parse && cache.messages == map[]
      ensures Valid() && clients == {} && !isRunning
      ensures State({}) == NewHub(cache != null)
    {
      this.parse, this.cache := parse, cache;
      clients, isRunning := {}, false;
      phase, registered := NotRun, {};
    }

    ghost predicate Valid()
      reads this, clients
    {
      && (cache != null ==> cache.parse == parse)
      && (forall c :: c in clients ==> c.closes == 0)
      && (isRunning <==> phase.Running?)
    }

    static ghost function Feeds(known: set<FeedClient>): map<FeedClient, Feed>
      reads known
    {
      map c | c in known :: Feed(c.sent, c.closes)
    }

    /** The machine state of this hub among the clients known to exist. */
    ghost function State(known: set<FeedClient>): Hub<FeedClient>
      reads this, known, cache
    {
      Hub(cache != null, phase, clients, registered, Feeds(known),
          Cached(), false, false)
    }

    /** Sends all previously received pending messages. */
    static method Replay(client: FeedClient, messages: seq<Bytes>)
      requires client.closes == 0
      modifies client`sent
      ensures client.sent == old(client.sent) + messages
    {
      for i := 0 to |messages|
        invariant client.sent == old(client.sent) + messages[..i]
      {
        client.Send(messages[i]);
      }
    }

    /** Sends one message to every client. */
    static method SendAll(clients: set<FeedClient>, message: Bytes)
      requires forall c :: c in clients ==> c.closes == 0
      modifies set c | c in clients :: c`sent
      ensures forall c :: c in clients ==> c.sent == old(c.sent) + [message]
    {
      var left := clients;
      while left != {}
        invariant left <= clients
        invariant forall c :: c in clients ==> c.sent == old(c.sent) + if c in left then [] else [message]
        decreases |left|
      {
        var client :| client in left;
        client.Send(message);
        left := left - {client};
      }
    }

    /** The cache's contents; empty without a cache. */
    ghost function Cached(): map<string, Bytes>
      reads cache
    {
      if cache == null then map[] else cache.messages
    }

    /** The pending messages; none without a cache. */
    method Pending(now: int) returns (messages: seq<Bytes>, ghost ids: seq<string>)
      requires cache != null ==> cache.parse == parse
      modifies cache
      ensures IsListing(messages, ids, LocalView(parse, old(Cached()), now))
      ensures Cached() == LocalPrune(parse, old(Cached()), now)
    {
      messages, ids := [], [];
      if cache != null {
        messages, ids := cache.GetMessages(now);
      }
    }

    /** Replays the pending messages to a client. */
    method SendPending(client: FeedClient, now: int, ghost known: set<FeedClient>)
      returns (ghost snapshot: seq<Bytes>, ghost ids: seq<string>)
      requires (cache != null ==> cache.parse == parse) && client.closes == 0 && client in known
      modifies client`sent, cache
      ensures IsListing(snapshot, ids, LocalView(parse, old(Cached()), now))
      ensures Cached() == LocalPrune(parse, old(Cached()), now)
      ensures Feeds(known) == Send(old(State(known)), {client}, snapshot).feeds
    {
      var messages;
      messages, ids := Pending(now);
      snapshot := messages;
      Replay(client, messages);
    }

    method RegisterClient(client: FeedClient, now: int, ghost known: set<FeedClient>)
      returns (ghost snapshot: seq<Bytes>, ghost ids: seq<string>)
      requires Valid() && client.closes == 0 && client in known && clients <= known
      modifies this`clients, this`registered, client`sent, cache
      ensures Valid()
      ensures IsListing(snapshot, ids, LocalView(parse, old(State(known)).messages, now))
      ensures State(known) == Registered(parse, old(State(known)), client, now, snapshot)
      ensures client.sent == old(client.sent) + snapshot && clients == old(clients) + {client}
    {
      snapshot, ids := SendPending(client, now, known);
      clients := clients + {client};
      registered := registered + {client};
    }

    method UnregisterClient(client: FeedClient, ghost known: set<FeedClient>)
      requires Valid() && client in known && clients <= known
      modifies this`clients, client`closes
      ensures Valid()
      ensures State(known) == Unregistered(old(State(known)), client)
      ensures client.closes == if client in old(clients) then 1 else old(client.closes)
      ensures clients == old(clients) - {client}
    {
      if client in clients {
        client.Close();
        clients := clients - {client};
      }
    }

    /** The start of the hub's loop, once the source is connected. */
    method StartHub(ghost known: set<FeedClient>)
      requires Valid() && phase.NotRun?
      modifies this`isRunning, this`phase
      ensures Valid() && isRunning
      ensures State(known) == old(State(known)).(phase := Running)
    {
      isRunning, phase := true, Running;
    }

    /** One message taken from the broadcast channel by the hub's loop. */
    method Deliver(message: Bytes, now: int, ghost known: set<FeedClient>)
      requires Valid() && clients <= known
      modifies cache, set c | c in clients :: c`sent
      ensures Valid()
      ensures State(known) == Delivered(parse, old(State(known)), message, now)
      ensures forall c :: c in clients ==> c.sent == old(c.sent) + [message]
    {
      if cache != null {
        cache.AddMessage(message, now);
      }
      SendAll(clients, message);
      assert Feeds(known) == Send(old(State(known)), clients, [message]).feeds;
    }

    /** Closes every client's channel and forgets the client. */
    method CloseClients()
      requires forall c :: c in clients ==> c.closes == 0
      modifies this`clients, set c | c in clients :: c`closes
      ensures clients == {} && forall c :: c in old(clients) ==> c.closes == 1
    {
      while clients != {}
        invariant clients <= old(clients)
        invariant forall c :: c in old(clients) ==> c.closes == if c in clients then 0 else 1
        decreases |clients|
      {
        var client :| client in clients;
        client.Close();
        clients := clients - {client};
      }
    }

    /** The deferred end of the hub's loop. */
    method CleanUpClients(ghost known: set<FeedClient>)
      requires Valid() && clients <= known
      modifies this`clients, this`isRunning, this`phase, set c | c in clients :: c`closes
      ensures Valid() && clients == {} && !isRunning
      ensures State(known) == CleanedUp(old(State(known)))
      ensures forall c :: c in old(clients) ==> c.closes == 1
    {
      isRunning, phase := false, Stopped;
      CloseClients();
      assert Feeds(known) == Close(old(State(known)), old(clients)).feeds;
    }

    method GetExternalFeedClients() returns (count: nat)
      ensures count == |set c | c in clients && !c.isInternal|
    {
      count := 0;
      var left := clients;
      ghost var counted: set<FeedClient> := {};
      while left != {}
        invariant left <= clients && counted == set c | c in clients && c !in left && !c.isInternal
        invariant count == |counted|
        decreases |left|
      {
        var client :| client in left;
        left := left - {client};
        if !client.isInternal {
          count := count + 1;
          counted := counted + {client};
        }
      }
      assert counted == set c | c in clients && !c.isInternal;
    }
  }
}
