/** PlumTree broadcast (internal/gossipproto/plumtree.go): eager pushes along a tree, lazy announcements beside it. */
module GossipPlumtree {
  import opened Bytes
  import opened GossipPeers
  import opened GossipMissing
  import opened GossipDelivery

  const MAX_MISSING_PER_PEER: nat := 1024
  const MAX_MISSING: nat := 16 * 1024
  const IHAVE_MAX_SIZE: nat := 35

  // ----- output lists

  function ToAll(nodes: seq<PeerId>, message: Message): (out: seq<OutEvent>)
  {
    if nodes == [] then [] else ToAll(nodes[..|nodes| - 1], message) + [SendMessage(nodes[|nodes| - 1], message)]
  }

  lemma {:induction false} ToAllSends(nodes: seq<PeerId>, message: Message)
    ensures Sends(ToAll(nodes, message))
    decreases |nodes|
  {
    if nodes != [] {
      ToAllSends(nodes[..|nodes| - 1], message);
    }
  }

  lemma {:induction false} ToAllHolds(nodes: seq<PeerId>, message: Message, p: PeerId)
    ensures SendMessage(p, message) in ToAll(nodes, message) <==> p in nodes
    decreases |nodes|
  {
    if nodes != [] {
      ToAllHolds(nodes[..|nodes| - 1], message, p);
      assert p in nodes <==> p in nodes[..|nodes| - 1] || p == nodes[|nodes| - 1];
    }
  }

  /** The announcements to one peer, at most n to a message. */
  function Chunks(peer: PeerId, ihaves: seq<IHave>, n: nat): (out: seq<OutEvent>)
    requires n > 0
    ensures Sends(out)
    decreases |ihaves|
  {
    if ihaves == [] then []
    else
      var k := if n < |ihaves| then n else |ihaves|;
      [SendMessage(peer, IHaves(ihaves[..k]))] + Chunks(peer, ihaves[k..], n)
  }

  /** All that is announced to p, in order. */
  function AnnouncedTo(out: seq<OutEvent>, p: PeerId): (ihaves: seq<IHave>)
  {
    if out == [] then []
    else
      (if out[0].SendMessage? && out[0].to == p && out[0].message.IHaves? then out[0].message.ihaves else [])
      + AnnouncedTo(out[1..], p)
  }

  predicate ChunksFit(out: seq<OutEvent>, n: nat)
  {
    forall e :: e in out && e.SendMessage? && e.message.IHaves? ==> 0 < |e.message.ihaves| <= n
  }

  lemma {:induction false} AnnouncedJoins(a: seq<OutEvent>, b: seq<OutEvent>, p: PeerId)
    ensures AnnouncedTo(a + b, p) == AnnouncedTo(a, p) + AnnouncedTo(b, p)
    decreases |a|
  {
    if a == [] {
      assert a + b == b;
    } else {
      AnnouncedJoins(a[1..], b, p);
      assert (a + b)[1..] == a[1..] + b;
    }
  }

  /** Splitting loses and reorders nothing, and every message is within the limit. */
  lemma {:induction false} ChunksKeepAll(peer: PeerId, ihaves: seq<IHave>, n: nat, p: PeerId)
    requires n > 0
    ensures AnnouncedTo(Chunks(peer, ihaves, n), p) == if p == peer then ihaves else []
    ensures ChunksFit(Chunks(peer, ihaves, n), n)
    decreases |ihaves|
  {
    if ihaves != [] {
      var k := if n < |ihaves| then n else |ihaves|;
      ChunksKeepAll(peer, ihaves[k..], n, p);
      assert Chunks(peer, ihaves, n)[1..] == Chunks(peer, ihaves[k..], n);
      assert ihaves == ihaves[..k] + ihaves[k..];
    }
  }

  function QueueOf(queue: map<PeerId, seq<IHave>>, p: PeerId): (ihaves: seq<IHave>)
  {
    if p in queue then queue[p] else []
  }

  /** left is what remains of queue after sent. */
  ghost predicate Drained(sent: seq<OutEvent>, queue: map<PeerId, seq<IHave>>, left: map<PeerId, seq<IHave>>, n: nat)
  {
    && Sends(sent) && ChunksFit(sent, n)
    && (forall p :: p in left ==> p in queue && left[p] == queue[p])
    && (forall p :: AnnouncedTo(sent, p) == if p in left then [] else QueueOf(queue, p))
  }

  lemma DrainOne(sent: seq<OutEvent>, queue: map<PeerId, seq<IHave>>, left: map<PeerId, seq<IHave>>, n: nat,
                 peer: PeerId)
    requires n > 0 && Drained(sent, queue, left, n) && peer in left
    ensures Drained(sent + Chunks(peer, left[peer], n), queue, left - {peer}, n)
  {
    var more := Chunks(peer, left[peer], n);
    ChunksKeepAll(peer, left[peer], n, peer);
    forall p
      ensures AnnouncedTo(sent + more, p) == if p in left - {peer} then [] else QueueOf(queue, p)
    {
      DrainFor(sent, queue, left, n, peer, p);
    }
  }

  lemma DrainFor(sent: seq<OutEvent>, queue: map<PeerId, seq<IHave>>, left: map<PeerId, seq<IHave>>, n: nat,
                 peer: PeerId, p: PeerId)
    requires n > 0 && peer in left && peer in queue && left[peer] == queue[peer]
    requires AnnouncedTo(sent, p) == if p in left then [] else QueueOf(queue, p)
    ensures AnnouncedTo(sent + Chunks(peer, left[peer], n), p) == if p in left - {peer} then [] else QueueOf(queue, p)
  {
    AnnouncedJoins(sent, Chunks(peer, left[peer], n), p);
    ChunksKeepAll(peer, left[peer], n, p);
  }

  /** One more announcement for each of the peers. */
  function Enqueued(queue: map<PeerId, seq<IHave>>, peers: set<PeerId>, h: IHave): (q: map<PeerId, seq<IHave>>)
  {
    map p | p in queue.Keys + peers :: QueueOf(queue, p) + if p in peers then [h] else []
  }

  lemma EnqueuedNone(queue: map<PeerId, seq<IHave>>, h: IHave)
    ensures Enqueued(queue, {}, h) == queue
  {
    assert forall p :: p in queue ==> QueueOf(queue, p) + [] == queue[p];
  }

  lemma EnqueuedOne(queue: map<PeerId, seq<IHave>>, peers: set<PeerId>, p: PeerId, h: IHave)
    requires p !in peers
    ensures Enqueued(queue, peers + {p}, h) ==
            Enqueued(queue, peers, h)[p := QueueOf(Enqueued(queue, peers, h), p) + [h]]
  {
    assert forall q :: q != p ==> (q in peers + {p} <==> q in peers);
    assert QueueOf(Enqueued(queue, peers, h), p) == QueueOf(queue, p);
  }

  /** The announcement of the lowest round, the earliest of them. */
  predicate Best(targets: seq<Target>, k: nat)
  {
    && k < |targets|
    && (forall i :: 0 <= i < |targets| ==> targets[k].round <= targets[i].round)
    && (forall i :: 0 <= i < k ==> targets[k].round < targets[i].round)
  }

  ghost predicate Limits(nmissing: map<PeerId, nat>, ntargets: int)
  {
    ntargets <= MAX_MISSING && forall p :: p in nmissing ==> nmissing[p] <= MAX_MISSING_PER_PEER
  }

  predicate Trees(eager: set<PeerId>, lazy: set<PeerId>)
  {
    eager !! lazy
  }

  ghost predicate Books(missing: Missing, nmissing: map<PeerId, nat>, ntargets: int, graftTimers: set<MsgId>)
  {
    Accounted(missing, nmissing, ntargets) && Limits(nmissing, ntargets) && |graftTimers| <= MAX_MISSING
  }

  /** There is room to note another announcement of this peer. */
  predicate Room(missing: Missing, nmissing: map<PeerId, nat>, ntargets: int, graftTimers: set<MsgId>, p: PeerId,
                 id: MsgId)
  {
    && CountOf(nmissing, p) < MAX_MISSING_PER_PEER && ntargets < MAX_MISSING && |graftTimers| < MAX_MISSING
    && !Names(TargetsOf(missing, id), p)
  }

  datatype Ledger = Ledger(missing: Missing, nmissing: map<PeerId, nat>, ntargets: int, timers: set<MsgId>)

  /** One announcement: noted, with a timer to ask for the message, if it is news and there is room. */
  function Noted(l: Ledger, received: map<MsgId, int>, p: PeerId, h: IHave): (r: Ledger)
  {
    if h.id in received || !Room(l.missing, l.nmissing, l.ntargets, l.timers, p, h.id) then l
    else Ledger(WithTarget(l.missing, h.id, Target(p, h.round)), WithCount(l.nmissing, p), l.ntargets + 1,
                l.timers + {h.id})
  }

  function NotedAll(l: Ledger, received: map<MsgId, int>, p: PeerId, hs: seq<IHave>): (r: Ledger)
  {
    if hs == [] then l else Noted(NotedAll(l, received, p, hs[..|hs| - 1]), received, p, hs[|hs| - 1])
  }

  /** The timers set for the announcements that are noted: one for each id that had none. */
  function GraftTimers(l: Ledger, received: map<MsgId, int>, p: PeerId, hs: seq<IHave>, after: nat)
    : (out: seq<OutEvent>)
  {
    if hs == [] then []
    else
      var init, last := NotedAll(l, received, p, hs[..|hs| - 1]), hs[|hs| - 1];
      GraftTimers(l, received, p, hs[..|hs| - 1], after) + TimerFor(init, received, p, last, after)
  }

  function TimerFor(l: Ledger, received: map<MsgId, int>, p: PeerId, h: IHave, after: nat): (out: seq<OutEvent>)
  {
    if Noted(l, received, p, h).timers == l.timers then [] else [ScheduleTimer(after, SendGraft(h.id))]
  }

  lemma TimerForIs(l: Ledger, received: map<MsgId, int>, p: PeerId, h: IHave, after: nat)
    ensures TimerFor(l, received, p, h, after) ==
            if h.id in received || !Room(l.missing, l.nmissing, l.ntargets, l.timers, p, h.id) || h.id in l.timers
            then [] else [ScheduleTimer(after, SendGraft(h.id))]
  {
    assert h.id in l.timers + {h.id};
  }

  lemma NotedStep(l: Ledger, received: map<MsgId, int>, p: PeerId, hs: seq<IHave>, i: nat, after: nat)
    requires i < |hs|
    ensures NotedAll(l, received, p, hs[..i + 1]) == Noted(NotedAll(l, received, p, hs[..i]), received, p, hs[i])
    ensures GraftTimers(l, received, p, hs[..i + 1], after) ==
            GraftTimers(l, received, p, hs[..i], after) +
            TimerFor(NotedAll(l, received, p, hs[..i]), received, p, hs[i], after)
  {
    assert hs[..i + 1][..i] == hs[..i];
  }

  /** What the books say: the total length of the lists, the number of lists that name a peer, and the limits. */
  lemma BooksCount(m: Missing, n: map<PeerId, nat>, total: int, timers: set<MsgId>, p: PeerId)
    requires Books(m, n, total, timers)
    ensures total == |Slots(m)| <= MAX_MISSING
    ensures CountOf(n, p) == |Naming(m, p)| <= MAX_MISSING_PER_PEER
    ensures p in n ==> n[p] > 0
  {
    TotalLength(m);
  }

  lemma AddBooks(m: Missing, n: map<PeerId, nat>, total: int, timers: set<MsgId>, id: MsgId, t: Target)
    requires Books(m, n, total, timers) && Room(m, n, total, timers, t.peer, id)
    ensures Books(WithTarget(m, id, t), WithCount(n, t.peer), total + 1, timers + {id})
  {
    AddAccounted(m, n, total, id, t);
  }

  lemma HeadBooks(m: Missing, n: map<PeerId, nat>, total: int, timers: set<MsgId>, id: MsgId)
    requires Books(m, n, total, timers) && id in m
    ensures m[id] != [] && Books(WithoutHead(m, id), LessCount(n, m[id][0].peer), total - 1, timers - {id})
  {
    HeadAccounted(m, n, total, id);
  }

  lemma DownBooks(m: Missing, n: map<PeerId, nat>, total: int, timers: set<MsgId>, p: PeerId)
    requires Books(m, n, total, timers)
    ensures Books(WithoutPeer(m, p), n - {p}, total - CountOf(n, p), timers)
  {
    DownAccounted(m, n, total, p);
  }

  /** What is cached is remembered, for at least as long. */
  predicate CacheOk(config: Config, received: map<MsgId, int>, cache: map<MsgId, Cached>)
  {
    config.messageCacheRetention <= config.messageIdRetention ==>
      forall id :: id in cache ==> id in received && cache[id].expire <= received[id]
  }

  function UnexpiredCache(cache: map<MsgId, Cached>, now: int): (r: map<MsgId, Cached>)
  {
    map id | id in cache && cache[id].expire > now :: cache[id]
  }

  /** While announcements are queued, a dispatch timer is set. */
  predicate QueueOk(queue: map<PeerId, seq<IHave>>, scheduled: bool, timers: int)
  {
    (queue != map[] ==> scheduled) && (scheduled ==> timers >= 1) && timers >= 0
  }

  predicate DeliveryOk(config: Config, monotone: bool, history: seq<Delivery>, received: map<MsgId, int>, clock: int)
  {
    monotone ==> Apart(history, received, clock, config.messageIdRetention)
  }

  lemma LaterOk(config: Config, monotone: bool, history: seq<Delivery>, received: map<MsgId, int>, clock: int, now: int)
    requires DeliveryOk(config, monotone, history, received, clock)
    ensures DeliveryOk(config, monotone && (history == [] || clock <= now), history, received, now)
  {
    if monotone && history != [] && clock <= now {
      RememberLater(history, received, clock, now, config.messageIdRetention);
    }
  }

  predicate MayDeliver(config: Config, monotone: bool, history: seq<Delivery>, received: map<MsgId, int>, clock: int,
                       id: MsgId)
  {
    monotone ==> MayFollow(history, received, clock, config.messageIdRetention, id)
  }

  /** The records of deliveries and timers are what the outputs say. */
  predicate OutputOk(idOf: seq<Byte> -> MsgId, out: seq<OutEvent>, clock: int, history: seq<Delivery>, timers: int,
                     baseHistory: seq<Delivery>, baseTimers: int)
  {
    history == baseHistory + Deliveries(idOf, out, clock) && timers == baseTimers + Dispatches(out)
  }

  datatype Moment =
    Moment(eager: set<PeerId>, lazy: set<PeerId>, ledger: Ledger, received: map<MsgId, int>, cache: map<MsgId, Cached>)

  class PlumtreeState {
    const me: PeerId
    const config: Config
    const idOf: seq<Byte> -> MsgId
    var eager: set<PeerId>
    var lazy: set<PeerId>
    var lazyQueue: map<PeerId, seq<IHave>>
    var missing: Missing
    var nmissing: map<PeerId, nat>
    var ntargets: int
    var received: map<MsgId, int>
    var cache: map<MsgId, Cached>
    var graftTimerScheduled: set<MsgId>
    var dispatchTimerScheduled: bool
    var init: bool
    var payloadMessagesReceived: nat
    var controlMessagesReceived: nat
    var maxLastDeliveryHop: Round
    var out: seq<OutEvent>

    /** The time of the latest event that had one, and whether time never went back. */
    ghost var clock: int
    ghost var monotone: bool
    /** Every swarm delivery so far, and the dispatch timers that are set and have not expired. */
    ghost var history: seq<Delivery>
    ghost var dispatchTimers: int
    /** The events so far. */
    ghost var handled: seq<InEvent>
    /** The deliveries and timers without the outputs of the event being handled. */
    ghost var baseHistory: seq<Delivery>
    ghost var baseTimers: int

    ghost predicate Stable()
      reads this
    {
      && Trees(eager, lazy)
      && Books(missing, nmissing, ntargets, graftTimerScheduled)
      && CacheOk(config, received, cache)
      && QueueOk(lazyQueue, dispatchTimerScheduled, dispatchTimers)
      && (!init ==> received == map[] && cache == map[])
      && DeliveryOk(config, monotone, history, received, clock)
    }

    /** What every handler keeps while it works on the output of an event. */
    ghost predicate Working()
      reads this
    {
      && Trees(eager, lazy)
      && Books(missing, nmissing, ntargets, graftTimerScheduled)
      && CacheOk(config, received, cache)
      && DeliveryOk(config, monotone, history, received, clock)
      && QueueOk(lazyQueue, dispatchTimerScheduled, dispatchTimers)
      && OutputOk(idOf, out, clock, history, dispatchTimers, baseHistory, baseTimers)
    }

    constructor (me: PeerId, config: Config, idOf: seq<Byte> -> MsgId)
      ensures this.me == me && this.config == config && this.idOf == idOf
      ensures Stable() && history == [] && monotone && dispatchTimers == 0
      ensures eager == {} && lazy == {} && missing == map[] && received == map[] && cache == map[] && !init
      ensures handled == []
    {
      this.me, this.config, this.idOf := me, config, idOf;
      eager, lazy, lazyQueue, missing, nmissing, ntargets := {}, {}, map[], map[], map[], 0;
      received, cache, graftTimerScheduled, dispatchTimerScheduled, init := map[], map[], {}, false, false;
      payloadMessagesReceived, controlMessagesReceived, maxLastDeliveryHop, out := 0, 0, 0, [];
      clock, monotone, history, dispatchTimers, baseHistory, baseTimers, handled := 0, true, [], 0, [], 0, [];
    }

    // ----- outputs

    method Emit(e: OutEvent)
      requires OutputOk(idOf, out, clock, history, dispatchTimers, baseHistory, baseTimers) && !e.Received?
      requires !(e.ScheduleTimer? && e.timer.DispatchLazyPush?)
      modifies `out
      ensures OutputOk(idOf, out, clock, history, dispatchTimers, baseHistory, baseTimers) && out == old(out) + [e]
    {
      out := out + [e];
      OutputOne(idOf, old(out), e, clock);
    }

    method AddEager(peer: PeerId)
      requires Trees(eager, lazy)
      modifies `eager, `lazy
      ensures Trees(eager, lazy) && eager == old(eager) + {peer} && lazy == old(lazy) - {peer}
    {
      lazy := lazy - {peer};
      eager := eager + {peer};
    }

    method AddLazy(peer: PeerId)
      requires Trees(eager, lazy)
      modifies `eager, `lazy
      ensures Trees(eager, lazy) && eager == old(eager) - {peer} && lazy == old(lazy) + {peer}
    {
      eager := eager - {peer};
      lazy := lazy + {peer};
    }

    /** Every eager peer but this one and the sender gets the payload once. */
    method EagerPush(message: Gossip, sender: PeerId) returns (ghost order: seq<PeerId>)
      requires OutputOk(idOf, out, clock, history, dispatchTimers, baseHistory, baseTimers)
      modifies `out
      ensures OutputOk(idOf, out, clock, history, dispatchTimers, baseHistory, baseTimers)
      ensures out == old(out) + ToAll(order, GossipMessage(message))
      ensures Unique(order) && Elems(order) == eager - {me, sender}
    {
      var todo := eager;
      order := [];
      while todo != {}
        invariant todo <= eager && Unique(order) && Elems(order) == eager - todo - {me, sender}
        invariant out == old(out) + ToAll(order, GossipMessage(message))
        decreases todo
      {
        var peer :| peer in todo;
        todo := todo - {peer};
        if peer != me && peer != sender {
          assert peer !in Elems(order);
          Appended(order, peer);
          assert (order + [peer])[..|order|] == order;
          order := order + [peer];
          out := out + [SendMessage(peer, GossipMessage(message))];
        }
      }
      ToAllSends(order, GossipMessage(message));
      OutputSends(idOf, old(out), ToAll(order, GossipMessage(message)), clock);
    }

    method PushToEager(message: Gossip, sender: PeerId)
      requires OutputOk(idOf, out, clock, history, dispatchTimers, baseHistory, baseTimers)
      modifies `out
      ensures OutputOk(idOf, out, clock, history, dispatchTimers, baseHistory, baseTimers)
      ensures forall p :: p in eager && p != me && p != sender ==> SendMessage(p, GossipMessage(message)) in out
    {
      ghost var order := EagerPush(message, sender);
      forall p | p in eager && p != me && p != sender
        ensures SendMessage(p, GossipMessage(message)) in out
      {
        assert p in Elems(order);
        ToAllHolds(order, GossipMessage(message), p);
      }
    }

    /** Every lazy peer but the sender gets an announcement queued, and a dispatch timer is set. */
    method LazyPush(message: Gossip, sender: PeerId)
      requires OutputOk(idOf, out, clock, history, dispatchTimers, baseHistory, baseTimers)
      requires QueueOk(lazyQueue, dispatchTimerScheduled, dispatchTimers)
      modifies `out, `lazyQueue, `dispatchTimerScheduled, `dispatchTimers
      ensures OutputOk(idOf, out, clock, history, dispatchTimers, baseHistory, baseTimers)
      ensures QueueOk(lazyQueue, dispatchTimerScheduled, dispatchTimers)
      ensures message.scope.Neighbors? ==> unchanged(this)
      ensures message.scope.Swarm? ==>
        && lazyQueue == Enqueued(old(lazyQueue), lazy - {sender}, IHave(message.id, message.scope.round))
        && dispatchTimerScheduled
        && if old(dispatchTimerScheduled) then out == old(out)
           else out == old(out) + [ScheduleTimer(config.dispatchTimeout, DispatchLazyPush)]
    {
      if message.scope.Neighbors? {
        return;
      }
      Enqueue(IHave(message.id, message.scope.round), sender);
      if !dispatchTimerScheduled {
        out := out + [ScheduleTimer(config.dispatchTimeout, DispatchLazyPush)];
        OutputOne(idOf, old(out), ScheduleTimer(config.dispatchTimeout, DispatchLazyPush), clock);
        dispatchTimerScheduled := true;
        dispatchTimers := dispatchTimers + 1;
      }
    }

    method Enqueue(h: IHave, sender: PeerId)
      modifies `lazyQueue
      ensures lazyQueue == Enqueued(old(lazyQueue), lazy - {sender}, h)
    {
      var todo := lazy;
      ghost var done := {};
      EnqueuedNone(lazyQueue, h);
      while todo != {}
        invariant todo <= lazy && done == lazy - todo - {sender}
        invariant lazyQueue == Enqueued(old(lazyQueue), done, h)
        decreases todo
      {
        var peer :| peer in todo;
        if peer != sender {
          EnqueuedOne(old(lazyQueue), done, peer, h);
          lazyQueue := lazyQueue[peer := QueueOf(lazyQueue, peer) + [h]];
          done := done + {peer};
        }
        todo := todo - {peer};
      }
      assert done == lazy - {sender};
    }

    // ----- broadcast and delivery

    /** Remembers an id and caches its message, both from now on. */
    method Store(message: Gossip, now: int)
      requires CacheOk(config, received, cache) && DeliveryOk(config, monotone, history, received, clock)
      requires now == clock && init
      modifies `received, `cache
      ensures CacheOk(config, received, cache) && DeliveryOk(config, monotone, history, received, clock)
      ensures !init ==> received == map[] && cache == map[]
      ensures received == old(received)[message.id := now + config.messageIdRetention]
      ensures cache == old(cache)[message.id := Cached(message, now + config.messageCacheRetention)]
    {
      if monotone {
        RememberAnew(history, received, now, config.messageIdRetention, message.id);
      }
      received := received[message.id := now + config.messageIdRetention];
      cache := cache[message.id := Cached(message, now + config.messageCacheRetention)];
    }

    /** Messages in swarm scope are stored and announced. */
    method Spread(message: Gossip, sender: PeerId, now: int)
      requires CacheOk(config, received, cache) && DeliveryOk(config, monotone, history, received, clock)
      requires QueueOk(lazyQueue, dispatchTimerScheduled, dispatchTimers)
      requires OutputOk(idOf, out, clock, history, dispatchTimers, baseHistory, baseTimers) && now == clock && init
      requires message.scope.Swarm?
      modifies `out, `received, `cache, `lazyQueue, `dispatchTimerScheduled, `dispatchTimers
      ensures CacheOk(config, received, cache) && DeliveryOk(config, monotone, history, received, clock)
      ensures QueueOk(lazyQueue, dispatchTimerScheduled, dispatchTimers)
      ensures OutputOk(idOf, out, clock, history, dispatchTimers, baseHistory, baseTimers)
      ensures received == old(received)[message.id := now + config.messageIdRetention]
      ensures cache == old(cache)[message.id := Cached(message, now + config.messageCacheRetention)]
      ensures lazyQueue == Enqueued(old(lazyQueue), lazy - {sender}, IHave(message.id, message.scope.round))
    {
      Store(message, now);
      LazyPush(message, sender);
    }

    function Outgoing(content: seq<Byte>, audience: Audience): (message: Gossip)
    {
      Gossip(idOf(content), content, if audience == ToSwarm then Swarm(0) else Neighbors)
    }

    method BroadcastContent(content: seq<Byte>, audience: Audience, now: int)
      requires CacheOk(config, received, cache) && DeliveryOk(config, monotone, history, received, clock)
      requires QueueOk(lazyQueue, dispatchTimerScheduled, dispatchTimers)
      requires OutputOk(idOf, out, clock, history, dispatchTimers, baseHistory, baseTimers) && now == clock && init
      modifies `out, `received, `cache, `lazyQueue, `dispatchTimerScheduled, `dispatchTimers
      ensures CacheOk(config, received, cache) && DeliveryOk(config, monotone, history, received, clock)
      ensures QueueOk(lazyQueue, dispatchTimerScheduled, dispatchTimers)
      ensures OutputOk(idOf, out, clock, history, dispatchTimers, baseHistory, baseTimers)
      ensures audience == ToNeighbors ==>
                received == old(received) && cache == old(cache) && lazyQueue == old(lazyQueue)
      ensures audience == ToSwarm ==>
        && received == old(received)[idOf(content) := now + config.messageIdRetention]
        && cache == old(cache)[idOf(content) := Cached(Outgoing(content, audience), now + config.messageCacheRetention)]
        && lazyQueue == Enqueued(old(lazyQueue), lazy - {me}, IHave(idOf(content), 0))
      ensures forall p :: p in eager && p != me ==> SendMessage(p, GossipMessage(Outgoing(content, audience))) in out
    {
      var message := Outgoing(content, audience);
      if audience == ToSwarm {
        Spread(message, me, now);
      }
      PushToEager(message, me);
    }

    /** Forgets that one of a peer's targets is missing. */
    method ForgetMissing(peer: PeerId)
      modifies `nmissing, `ntargets
      ensures nmissing == LessCount(old(nmissing), peer) && ntargets == old(ntargets) - 1
    {
      ntargets := ntargets - 1;
      if CountOf(nmissing, peer) <= 1 {
        nmissing := nmissing - {peer};
      } else {
        nmissing := nmissing[peer := nmissing[peer] - 1];
      }
    }

    method ForgetHead(peer: PeerId, ghost m: Missing, ghost id: MsgId)
      requires Accounted(m, nmissing, ntargets) && Limits(nmissing, ntargets) && id in m && peer == m[id][0].peer
      modifies `nmissing, `ntargets
      ensures Accounted(WithoutHead(m, id), nmissing, ntargets) && Limits(nmissing, ntargets)
    {
      HeadAccounted(m, nmissing, ntargets, id);
      ForgetMissing(peer);
    }

    /** Takes a delivered message out of the accounts, target by target. */
    method Settle(id: MsgId) returns (previous: seq<Target>)
      requires Books(missing, nmissing, ntargets, graftTimerScheduled)
      modifies `missing, `nmissing, `ntargets, `graftTimerScheduled
      ensures Books(missing, nmissing, ntargets, graftTimerScheduled) && previous == TargetsOf(old(missing), id)
      ensures missing == old(missing) - {id} && graftTimerScheduled == old(graftTimerScheduled) - {id}
    {
      graftTimerScheduled := graftTimerScheduled - {id};
      previous := TargetsOf(missing, id);
      missing := missing - {id};
      assert WithRest(missing, id, previous) == old(missing);
      assert previous[0..] == previous;
      for i := 0 to |previous|
        modifies `nmissing, `ntargets
        invariant Accounted(WithRest(missing, id, previous[i..]), nmissing, ntargets) && Limits(nmissing, ntargets)
      {
        RestHead(missing, id, previous[i..]);
        ForgetHead(previous[i].peer, WithRest(missing, id, previous[i..]), id);
        assert previous[i..][1..] == previous[i + 1..];
      }
    }

    /** The sender came by a route much longer than the best announcement promised. */
    predicate Detour(targets: seq<Target>, k: nat, scope: Scope)
      requires k < |targets|
    {
      scope.Swarm? && targets[k].round < scope.round && scope.round - targets[k].round >= config.optimizationThreshold
    }

    /** A much better announcer replaces the sender in the tree. */
    method OptimizeTree(sender: PeerId, scope: Scope, ihaves: seq<Target>) returns (ghost k: nat)
      requires Trees(eager, lazy) && OutputOk(idOf, out, clock, history, dispatchTimers, baseHistory, baseTimers)
      modifies `eager, `lazy, `out
      ensures Trees(eager, lazy) && OutputOk(idOf, out, clock, history, dispatchTimers, baseHistory, baseTimers)
      ensures old(eager) + old(lazy) <= eager + lazy
      ensures ihaves != [] ==> k < |ihaves| && (scope.Swarm? ==> Best(ihaves, k))
      ensures ihaves == [] || !Detour(ihaves, k, scope) ==> eager == old(eager) && lazy == old(lazy) && out == old(out)
      ensures ihaves != [] && Detour(ihaves, k, scope) ==>
        && sender in lazy && (ihaves[k].peer != sender ==> ihaves[k].peer in eager)
        && out == old(out) +
                  (if ihaves[k].peer in old(eager) then []
                   else [SendMessage(ihaves[k].peer, Graft(None, ihaves[k].round))]) +
                  [SendMessage(sender, Prune)]
    {
      k := 0;
      if scope.Neighbors? || |ihaves| == 0 {
        return;
      }
      var best;
      best, k := FindBest(ihaves);
      if best.round < scope.round && scope.round - best.round >= config.optimizationThreshold {
        if best.peer !in eager {
          AddEager(best.peer);
          Emit(SendMessage(best.peer, Graft(None, best.round)));
        }
        AddLazy(sender);
        Emit(SendMessage(sender, Prune));
      }
    }

    method FindBest(ihaves: seq<Target>) returns (best: Target, ghost k: nat)
      requires ihaves != []
      ensures Best(ihaves, k) && best == ihaves[k]
    {
      best, k := ihaves[0], 0;
      for i := 1 to |ihaves|
        invariant k < i && best == ihaves[k]
        invariant forall j :: 0 <= j < i ==> best.round <= ihaves[j].round
        invariant forall j :: 0 <= j < k ==> best.round < ihaves[j].round
      {
        if ihaves[i].round < best.round {
          best, k := ihaves[i], i;
        }
      }
    }

    /** Hands a message to the application. */
    method Deliver(content: seq<Byte>, sender: PeerId, scope: Scope)
      requires OutputOk(idOf, out, clock, history, dispatchTimers, baseHistory, baseTimers)
      requires DeliveryOk(config, monotone, history, received, clock)
      requires scope.Swarm? ==> MayDeliver(config, monotone, history, received, clock, idOf(content))
      modifies `out, `history
      ensures OutputOk(idOf, out, clock, history, dispatchTimers, baseHistory, baseTimers)
      ensures DeliveryOk(config, monotone, history, received, clock)
      ensures out == old(out) + [Received(content, sender, scope)]
      ensures history == old(history) + if scope.Swarm? then [Delivery(idOf(content), clock)] else []
    {
      Report(content, sender, scope);
    }

    method Report(content: seq<Byte>, sender: PeerId, scope: Scope)
      requires OutputOk(idOf, out, clock, history, dispatchTimers, baseHistory, baseTimers)
      modifies `out, `history
      ensures OutputOk(idOf, out, clock, history, dispatchTimers, baseHistory, baseTimers)
      ensures out == old(out) + [Received(content, sender, scope)]
      ensures history == old(history) + if scope.Swarm? then [Delivery(idOf(content), clock)] else []
    {
      var e := Received(content, sender, scope);
      ghost var d := if scope.Swarm? then [Delivery(idOf(content), clock)] else [];
      OutputOne(idOf, out, e, clock);
      JoinAssociates(baseHistory, Deliveries(idOf, out, clock), d);
      out := out + [e];
      history := history + d;
    }

    method Forward(message: Gossip, sender: PeerId, now: int)
      requires CacheOk(config, received, cache) && DeliveryOk(config, monotone, history, received, clock)
      requires QueueOk(lazyQueue, dispatchTimerScheduled, dispatchTimers)
      requires OutputOk(idOf, out, clock, history, dispatchTimers, baseHistory, baseTimers) && now == clock && init
      requires message.scope.Swarm? && message.id !in received
      modifies `out, `received, `cache, `lazyQueue, `dispatchTimerScheduled, `dispatchTimers
      ensures CacheOk(config, received, cache) && DeliveryOk(config, monotone, history, received, clock)
      ensures QueueOk(lazyQueue, dispatchTimerScheduled, dispatchTimers)
      ensures OutputOk(idOf, out, clock, history, dispatchTimers, baseHistory, baseTimers)
      ensures MayDeliver(config, monotone, history, received, clock, message.id)
      ensures received == old(received)[message.id := now + config.messageIdRetention]
      ensures cache == old(cache)[message.id := Cached(message, now + config.messageCacheRetention)]
      ensures lazyQueue == Enqueued(old(lazyQueue), lazy - {sender}, IHave(message.id, message.scope.round))
    {
      if monotone {
        RememberDelivery(history, received, now, config.messageIdRetention, message.id);
      }
      Store(message, now);
      PushToEager(message, sender);
      LazyPush(message, sender);
    }

    /** A new message in swarm scope is remembered, forwarded, announced, settled and delivered. */
    method AcceptGossip(sender: PeerId, message: Gossip, now: int)
      requires Working() && now == clock && init
      requires message.scope.Swarm? && message.id == idOf(message.content) && message.id !in received
      modifies `out, `received, `cache, `lazyQueue, `dispatchTimerScheduled, `dispatchTimers, `history, `eager, `lazy,
               `missing, `nmissing, `ntargets, `graftTimerScheduled, `maxLastDeliveryHop
      ensures Working()
      ensures old(eager) + old(lazy) <= eager + lazy
      ensures received == old(received)[message.id := now + config.messageIdRetention]
      ensures cache == old(cache)[message.id := Cached(Forwarded(message), now + config.messageCacheRetention)]
      ensures history == old(history) + [Delivery(message.id, now)] && missing == old(missing) - {message.id}
      ensures Received(message.content, sender, message.scope) in out
    {
      Forward(Forwarded(message), sender, now);
      Conclude(sender, message);
    }

    method Conclude(sender: PeerId, message: Gossip)
      requires Trees(eager, lazy) && Books(missing, nmissing, ntargets, graftTimerScheduled)
      requires OutputOk(idOf, out, clock, history, dispatchTimers, baseHistory, baseTimers)
      requires DeliveryOk(config, monotone, history, received, clock)
      requires message.scope.Swarm? && message.id == idOf(message.content)
      requires MayDeliver(config, monotone, history, received, clock, message.id)
      modifies `out, `history, `eager, `lazy, `missing, `nmissing, `ntargets, `graftTimerScheduled, `maxLastDeliveryHop
      ensures Trees(eager, lazy) && Books(missing, nmissing, ntargets, graftTimerScheduled)
      ensures OutputOk(idOf, out, clock, history, dispatchTimers, baseHistory, baseTimers)
      ensures DeliveryOk(config, monotone, history, received, clock)
      ensures old(eager) + old(lazy) <= eager + lazy
      ensures history == old(history) + [Delivery(message.id, clock)] && missing == old(missing) - {message.id}
      ensures Received(message.content, sender, message.scope) in out
    {
      Rearrange(sender, Forwarded(message));
      NoteHop(message.scope.round);
      Deliver(message.content, sender, message.scope);
    }

    method NoteHop(round: Round)
      modifies `maxLastDeliveryHop
      ensures maxLastDeliveryHop == if round > old(maxLastDeliveryHop) then round else old(maxLastDeliveryHop)
    {
      if round > maxLastDeliveryHop {
        maxLastDeliveryHop := round;
      }
    }

    method Rearrange(sender: PeerId, forward: Gossip)
      requires Trees(eager, lazy) && Books(missing, nmissing, ntargets, graftTimerScheduled)
      requires OutputOk(idOf, out, clock, history, dispatchTimers, baseHistory, baseTimers)
      modifies `out, `eager, `lazy, `missing, `nmissing, `ntargets, `graftTimerScheduled
      ensures Trees(eager, lazy) && Books(missing, nmissing, ntargets, graftTimerScheduled)
      ensures OutputOk(idOf, out, clock, history, dispatchTimers, baseHistory, baseTimers)
      ensures old(eager) + old(lazy) <= eager + lazy && missing == old(missing) - {forward.id}
    {
      var previous := Settle(forward.id);
      ghost var k := OptimizeTree(sender, forward.scope, previous);
    }

    function Forwarded(message: Gossip): (forward: Gossip)
      requires message.scope.Swarm?
    {
      Gossip(message.id, message.content, Swarm(NextRound(message.scope.round)))
    }

    /** Forged ids are ignored, known messages prune the sender, new ones are delivered once. */
    method OnGossip(sender: PeerId, message: Gossip, now: int)
      requires Working() && now == clock && init
      modifies `out, `received, `cache, `lazyQueue, `dispatchTimerScheduled, `dispatchTimers, `history, `eager, `lazy,
               `missing, `nmissing, `ntargets, `graftTimerScheduled, `maxLastDeliveryHop
      ensures Working()
      ensures old(eager) + old(lazy) <= eager + lazy
      ensures message.id != idOf(message.content) ==> unchanged(this)
      ensures message.id == idOf(message.content) && message.id in old(received) ==>
        && sender in lazy && out == old(out) + [SendMessage(sender, Prune)] && history == old(history)
        && received == old(received) && missing == old(missing)
      ensures message.id == idOf(message.content) && message.id !in old(received) ==>
        && Received(message.content, sender, message.scope) in out
        && history == old(history) + (if message.scope.Swarm? then [Delivery(message.id, now)] else [])
        && (message.scope.Neighbors? ==> received == old(received) && missing == old(missing))
        && (message.scope.Swarm? ==> message.id in received && missing == old(missing) - {message.id})
    {
      if message.id != idOf(message.content) {
        return;
      }
      if message.id in received {
        AddLazy(sender);
        Emit(SendMessage(sender, Prune));
        return;
      }
      if message.scope.Swarm? {
        AcceptGossip(sender, message, now);
      } else {
        Deliver(message.content, sender, message.scope);
      }
    }

    // ----- announcements

    method HasGraftTarget(targets: seq<Target>, peer: PeerId) returns (found: bool)
      ensures found == Names(targets, peer)
    {
      for i := 0 to |targets|
        invariant forall j :: 0 <= j < i ==> targets[j].peer != peer
      {
        if targets[i].peer == peer {
          return true;
        }
      }
      found := false;
    }

    method HasRoom(sender: PeerId, id: MsgId) returns (room: bool)
      ensures room == Room(missing, nmissing, ntargets, graftTimerScheduled, sender, id)
    {
      var known := HasGraftTarget(TargetsOf(missing, id), sender);
      room := CountOf(nmissing, sender) < MAX_MISSING_PER_PEER && ntargets < MAX_MISSING
              && |graftTimerScheduled| < MAX_MISSING && !known;
    }

    /** Notes an announcement and sets a timer to ask for the message. */
    method Note(sender: PeerId, ihave: IHave)
      requires Books(missing, nmissing, ntargets, graftTimerScheduled)
      requires Room(missing, nmissing, ntargets, graftTimerScheduled, sender, ihave.id)
      requires OutputOk(idOf, out, clock, history, dispatchTimers, baseHistory, baseTimers)
      modifies `missing, `nmissing, `ntargets, `graftTimerScheduled, `out
      ensures Books(missing, nmissing, ntargets, graftTimerScheduled)
      ensures OutputOk(idOf, out, clock, history, dispatchTimers, baseHistory, baseTimers)
      ensures missing == WithTarget(old(missing), ihave.id, Target(sender, ihave.round))
      ensures nmissing == WithCount(old(nmissing), sender) && ntargets == old(ntargets) + 1
      ensures graftTimerScheduled == old(graftTimerScheduled) + {ihave.id}
      ensures if ihave.id in old(graftTimerScheduled) then out == old(out)
              else out == old(out) + [ScheduleTimer(config.graftTimeout1, SendGraft(ihave.id))]
    {
      AddTarget(ihave.id, Target(sender, ihave.round));
      Remind(ihave.id);
    }

    method AddTarget(id: MsgId, t: Target)
      requires Books(missing, nmissing, ntargets, graftTimerScheduled)
      requires Room(missing, nmissing, ntargets, graftTimerScheduled, t.peer, id)
      modifies `missing, `nmissing, `ntargets
      ensures Books(missing, nmissing, ntargets, graftTimerScheduled + {id})
      ensures missing == WithTarget(old(missing), id, t)
      ensures nmissing == WithCount(old(nmissing), t.peer) && ntargets == old(ntargets) + 1
    {
      AddBooks(missing, nmissing, ntargets, graftTimerScheduled, id, t);
      missing, nmissing, ntargets := WithTarget(missing, id, t), WithCount(nmissing, t.peer), ntargets + 1;
    }

    method Remind(id: MsgId)
      requires OutputOk(idOf, out, clock, history, dispatchTimers, baseHistory, baseTimers)
      modifies `graftTimerScheduled, `out
      ensures OutputOk(idOf, out, clock, history, dispatchTimers, baseHistory, baseTimers)
      ensures graftTimerScheduled == old(graftTimerScheduled) + {id}
      ensures if id in old(graftTimerScheduled) then out == old(out)
              else out == old(out) + [ScheduleTimer(config.graftTimeout1, SendGraft(id))]
    {
      if id !in graftTimerScheduled {
        graftTimerScheduled := graftTimerScheduled + {id};
        Emit(ScheduleTimer(config.graftTimeout1, SendGraft(id)));
      }
    }

    /** One announcement: noted if it is news and there is room. */
    method OnIHaveOne(sender: PeerId, ihave: IHave)
      requires Books(missing, nmissing, ntargets, graftTimerScheduled)
      requires OutputOk(idOf, out, clock, history, dispatchTimers, baseHistory, baseTimers)
      modifies `missing, `nmissing, `ntargets, `graftTimerScheduled, `out
      ensures Books(missing, nmissing, ntargets, graftTimerScheduled)
      ensures OutputOk(idOf, out, clock, history, dispatchTimers, baseHistory, baseTimers)
      ensures Ledger(missing, nmissing, ntargets, graftTimerScheduled) ==
              Noted(old(Ledger(missing, nmissing, ntargets, graftTimerScheduled)), received, sender, ihave)
      ensures out == old(out) +
                     TimerFor(old(Ledger(missing, nmissing, ntargets, graftTimerScheduled)), received, sender,
                              ihave, config.graftTimeout1)
    {
      ghost var l := Ledger(missing, nmissing, ntargets, graftTimerScheduled);
      TimerForIs(l, received, sender, ihave, config.graftTimeout1);
      if ihave.id in received {
        return;
      }
      var room := HasRoom(sender, ihave.id);
      if room {
        Note(sender, ihave);
      }
    }

    method OnIHave(sender: PeerId, ihaves: seq<IHave>)
      requires Books(missing, nmissing, ntargets, graftTimerScheduled)
      requires OutputOk(idOf, out, clock, history, dispatchTimers, baseHistory, baseTimers)
      modifies `missing, `nmissing, `ntargets, `graftTimerScheduled, `out
      ensures Books(missing, nmissing, ntargets, graftTimerScheduled)
      ensures OutputOk(idOf, out, clock, history, dispatchTimers, baseHistory, baseTimers)
      ensures Ledger(missing, nmissing, ntargets, graftTimerScheduled) ==
              NotedAll(old(Ledger(missing, nmissing, ntargets, graftTimerScheduled)), received, sender, ihaves)
      ensures out == old(out) +
                     GraftTimers(old(Ledger(missing, nmissing, ntargets, graftTimerScheduled)), received, sender,
                                 ihaves, config.graftTimeout1)
    {
      ghost var l := Ledger(missing, nmissing, ntargets, graftTimerScheduled);
      for i := 0 to |ihaves|
        invariant Books(missing, nmissing, ntargets, graftTimerScheduled)
        invariant OutputOk(idOf, out, clock, history, dispatchTimers, baseHistory, baseTimers)
        invariant Ledger(missing, nmissing, ntargets, graftTimerScheduled) == NotedAll(l, received, sender, ihaves[..i])
        invariant out == old(out) + GraftTimers(l, received, sender, ihaves[..i], config.graftTimeout1)
      {
        NotedStep(l, received, sender, ihaves, i, config.graftTimeout1);
        ghost var before, soFar := out, GraftTimers(l, received, sender, ihaves[..i], config.graftTimeout1);
        OnIHaveOne(sender, ihaves[i]);
        JoinAssociates(old(out), soFar, out[|before|..]);
      }
      assert ihaves[..|ihaves|] == ihaves;
    }

    /** Asks the first announcer, who joins the tree, and sets the timer for the next one. */
    method OnSendGraftTimer(id: MsgId)
      requires Trees(eager, lazy) && Books(missing, nmissing, ntargets, graftTimerScheduled)
      requires OutputOk(idOf, out, clock, history, dispatchTimers, baseHistory, baseTimers)
      modifies `missing, `nmissing, `ntargets, `graftTimerScheduled, `eager, `lazy, `out
      ensures Trees(eager, lazy) && Books(missing, nmissing, ntargets, graftTimerScheduled)
      ensures OutputOk(idOf, out, clock, history, dispatchTimers, baseHistory, baseTimers)
      ensures graftTimerScheduled == old(graftTimerScheduled) - {id} && old(eager) + old(lazy) <= eager + lazy
      ensures id in received || id !in old(missing) ==> missing == old(missing) && out == old(out)
      ensures id !in received && id in old(missing) ==>
        var t := old(missing)[id][0];
        && missing == WithoutHead(old(missing), id) && t.peer in eager
        && out == old(out) + [SendMessage(t.peer, Graft(Some(id), t.round)),
                              ScheduleTimer(config.graftTimeout2, SendGraft(id))]
    {
      if id in received || id !in missing {
        graftTimerScheduled := graftTimerScheduled - {id};
        return;
      }
      GraftFirst(id);
    }

    method GraftFirst(id: MsgId)
      requires Trees(eager, lazy) && Books(missing, nmissing, ntargets, graftTimerScheduled) && id in missing
      requires OutputOk(idOf, out, clock, history, dispatchTimers, baseHistory, baseTimers)
      modifies `missing, `nmissing, `ntargets, `graftTimerScheduled, `eager, `lazy, `out
      ensures Trees(eager, lazy) && Books(missing, nmissing, ntargets, graftTimerScheduled)
      ensures OutputOk(idOf, out, clock, history, dispatchTimers, baseHistory, baseTimers)
      ensures graftTimerScheduled == old(graftTimerScheduled) - {id} && old(eager) + old(lazy) <= eager + lazy
      ensures
        var t := old(missing)[id][0];
        && missing == WithoutHead(old(missing), id) && t.peer in eager
        && out == old(out) + [SendMessage(t.peer, Graft(Some(id), t.round)),
                              ScheduleTimer(config.graftTimeout2, SendGraft(id))]
    {
      var target := TakeFirst(id);
      AskFor(id, target);
    }

    method TakeFirst(id: MsgId) returns (target: Target)
      requires Books(missing, nmissing, ntargets, graftTimerScheduled) && id in missing
      modifies `missing, `nmissing, `ntargets, `graftTimerScheduled
      ensures Books(missing, nmissing, ntargets, graftTimerScheduled)
      ensures missing == WithoutHead(old(missing), id) && target == old(missing)[id][0]
      ensures graftTimerScheduled == old(graftTimerScheduled) - {id}
    {
      HeadBooks(missing, nmissing, ntargets, graftTimerScheduled, id);
      graftTimerScheduled := graftTimerScheduled - {id};
      target := missing[id][0];
      missing := if |missing[id]| == 1 then missing - {id} else missing[id := missing[id][1..]];
      ForgetMissing(target.peer);
    }

    method AskFor(id: MsgId, target: Target)
      requires Trees(eager, lazy)
      requires OutputOk(idOf, out, clock, history, dispatchTimers, baseHistory, baseTimers)
      modifies `eager, `lazy, `out
      ensures Trees(eager, lazy) && eager == old(eager) + {target.peer} && lazy == old(lazy) - {target.peer}
      ensures OutputOk(idOf, out, clock, history, dispatchTimers, baseHistory, baseTimers)
      ensures out == old(out) + [SendMessage(target.peer, Graft(Some(id), target.round)),
                                 ScheduleTimer(config.graftTimeout2, SendGraft(id))]
    {
      AddEager(target.peer);
      Emit(SendMessage(target.peer, Graft(Some(id), target.round)));
      Emit(ScheduleTimer(config.graftTimeout2, SendGraft(id)));
    }

    /** A graft puts the sender in the tree and gets the message, if it is still cached. */
    method OnGraft(sender: PeerId, id: Option<MsgId>)
      requires Trees(eager, lazy)
      requires OutputOk(idOf, out, clock, history, dispatchTimers, baseHistory, baseTimers)
      modifies `eager, `lazy, `out
      ensures Trees(eager, lazy) && eager == old(eager) + {sender} && lazy == old(lazy) - {sender}
      ensures OutputOk(idOf, out, clock, history, dispatchTimers, baseHistory, baseTimers)
      ensures if id.Some? && id.value in cache
              then out == old(out) + [SendMessage(sender, GossipMessage(cache[id.value].message))] else out == old(out)
    {
      AddEager(sender);
      if id.Some? && id.value in cache {
        Emit(SendMessage(sender, GossipMessage(cache[id.value].message)));
      }
    }

    // ----- timers and neighbours

    method RemoveGraftTargets(targets: seq<Target>, peer: PeerId) returns (rest: seq<Target>)
      ensures rest == Others(targets, peer)
    {
      rest := [];
      for i := 0 to |targets|
        invariant rest == Others(targets[..i], peer)
      {
        assert targets[..i + 1][..i] == targets[..i];
        if targets[i].peer != peer {
          rest := rest + [targets[i]];
        }
      }
      assert targets[..|targets|] == targets;
    }

    method DropTargets(peer: PeerId)
      modifies `missing
      ensures missing == WithoutPeer(old(missing), peer)
    {
      var todo := missing.Keys;
      while todo != {}
        invariant todo <= missing.Keys <= old(missing).Keys
        invariant forall id :: id in todo ==> missing[id] == old(missing)[id]
        invariant forall id :: id in old(missing) && id !in todo ==>
          && TargetsOf(missing, id) == Others(old(missing)[id], peer)
          && (id in missing <==> Others(old(missing)[id], peer) != [])
        decreases todo
      {
        var id :| id in todo;
        todo := todo - {id};
        var targets := RemoveGraftTargets(missing[id], peer);
        if |targets| == 0 {
          missing := missing - {id};
        } else {
          missing := missing[id := targets];
        }
      }
      assert missing.Keys == WithoutPeer(old(missing), peer).Keys;
    }

    /** A lost neighbour leaves both sets and all accounts. */
    method OnNeighborDown(peer: PeerId)
      requires Trees(eager, lazy) && Books(missing, nmissing, ntargets, graftTimerScheduled)
      modifies `missing, `nmissing, `ntargets, `eager, `lazy
      ensures Trees(eager, lazy) && Books(missing, nmissing, ntargets, graftTimerScheduled)
      ensures eager == old(eager) - {peer} && lazy == old(lazy) - {peer} && missing == WithoutPeer(old(missing), peer)
    {
      DownBooks(missing, nmissing, ntargets, graftTimerScheduled, peer);
      DropTargets(peer);
      ntargets := ntargets - CountOf(nmissing, peer);
      nmissing := nmissing - {peer};
      eager := eager - {peer};
      lazy := lazy - {peer};
    }

    /** Announcements to a message; a payload too small for any still takes one. */
    function ChunkLimit(): (n: nat)
      ensures n > 0
    {
      var n := (config.maxPayloadSize - 3) / IHAVE_MAX_SIZE;
      if n < 1 then 1 else n
    }

    method SendChunks(peer: PeerId, queued: seq<IHave>, chunkLen: nat)
      requires chunkLen > 0
      modifies `out
      ensures out == old(out) + Chunks(peer, queued, chunkLen)
    {
      var ihaves := queued;
      while |ihaves| > 0
        invariant out + Chunks(peer, ihaves, chunkLen) == old(out) + Chunks(peer, queued, chunkLen)
        decreases |ihaves|
      {
        var n := if chunkLen < |ihaves| then chunkLen else |ihaves|;
        ghost var before, rest := out, Chunks(peer, ihaves[n..], chunkLen);
        out := out + [SendMessage(peer, IHaves(ihaves[..n]))];
        assert out + rest == before + ([SendMessage(peer, IHaves(ihaves[..n]))] + rest);
        ihaves := ihaves[n..];
      }
    }

    /** Everything queued for a peer is sent to it, in order and within the limit, to no one else, and only once. */
    method SendQueues(chunkLen: nat) returns (ghost sent: seq<OutEvent>)
      requires chunkLen > 0
      modifies `lazyQueue, `out
      ensures lazyQueue == map[] && out == old(out) + sent && Drained(sent, old(lazyQueue), map[], chunkLen)
    {
      sent := [];
      while lazyQueue != map[]
        invariant out == old(out) + sent && Drained(sent, old(lazyQueue), lazyQueue, chunkLen)
        decreases lazyQueue.Keys
      {
        assert lazyQueue.Keys != {};
        var peer :| peer in lazyQueue;
        ghost var more := Chunks(peer, lazyQueue[peer], chunkLen);
        DrainOne(sent, old(lazyQueue), lazyQueue, chunkLen, peer);
        SendChunks(peer, lazyQueue[peer], chunkLen);
        JoinAssociates(old(out), sent, more);
        sent := sent + more;
        lazyQueue := lazyQueue - {peer};
      }
    }

    method OnDispatchTimer() returns (ghost sent: seq<OutEvent>)
      requires QueueOk(lazyQueue, dispatchTimerScheduled, dispatchTimers)
      requires OutputOk(idOf, out, clock, history, dispatchTimers, baseHistory, baseTimers)
      modifies `lazyQueue, `dispatchTimerScheduled, `out, `dispatchTimers, `baseTimers
      ensures QueueOk(lazyQueue, dispatchTimerScheduled, dispatchTimers)
      ensures OutputOk(idOf, out, clock, history, dispatchTimers, baseHistory, baseTimers)
      ensures !dispatchTimerScheduled && lazyQueue == map[]
      ensures out == old(out) + sent && ChunksFit(sent, ChunkLimit())
      ensures forall p :: AnnouncedTo(sent, p) == QueueOf(old(lazyQueue), p)
      ensures dispatchTimers == if old(dispatchTimers) > 0 then old(dispatchTimers) - 1 else 0
      ensures dispatchTimers - baseTimers == old(dispatchTimers) - old(baseTimers)
    {
      sent := SendQueues(ChunkLimit());
      OutputSends(idOf, old(out), sent, clock);
      dispatchTimerScheduled := false;
      if dispatchTimers > 0 {
        dispatchTimers, baseTimers := dispatchTimers - 1, baseTimers - 1;
      }
    }

    // ----- forgetting

    method EvictReceived(now: int)
      modifies `received
      ensures received == Unexpired(old(received), now)
    {
      var todo := received.Keys;
      while todo != {}
        invariant todo <= received.Keys <= old(received).Keys
        invariant forall id :: id in received ==> received[id] == old(received)[id]
        invariant forall id :: id in old(received) && id !in todo ==> (id in received <==> old(received)[id] > now)
        decreases todo
      {
        var id :| id in todo;
        todo := todo - {id};
        if !(received[id] > now) {
          received := received - {id};
        }
      }
    }

    method EvictCached(now: int)
      modifies `cache
      ensures cache == UnexpiredCache(old(cache), now)
    {
      var todo := cache.Keys;
      while todo != {}
        invariant todo <= cache.Keys <= old(cache).Keys
        invariant forall id :: id in cache ==> cache[id] == old(cache)[id]
        invariant forall id :: id in old(cache) && id !in todo ==> (id in cache <==> old(cache)[id].expire > now)
        decreases todo
      {
        var id :| id in todo;
        todo := todo - {id};
        if !(cache[id].expire > now) {
          cache := cache - {id};
        }
      }
    }

    method OnEvictCacheTimer(now: int)
      requires CacheOk(config, received, cache) && DeliveryOk(config, monotone, history, received, clock)
      requires OutputOk(idOf, out, clock, history, dispatchTimers, baseHistory, baseTimers)
      requires now == clock || (received == map[] && cache == map[])
      modifies `received, `cache, `out
      ensures CacheOk(config, received, cache) && DeliveryOk(config, monotone, history, received, clock)
      ensures OutputOk(idOf, out, clock, history, dispatchTimers, baseHistory, baseTimers)
      ensures received == Unexpired(old(received), now)
      ensures cache == UnexpiredCache(old(cache), now)
      ensures out == old(out) + [ScheduleTimer(config.cacheEvictInterval, EvictCache)]
    {
      if monotone && now == clock {
        RememberEvicted(history, received, now, config.messageIdRetention);
      }
      EvictReceived(now);
      EvictCached(now);
      Emit(ScheduleTimer(config.cacheEvictInterval, EvictCache));
    }

    // ----- events

    /** What the handlers can look back on. */
    ghost function Now(): (m: Moment)
      reads this
    {
      Moment(eager, lazy, Ledger(missing, nmissing, ntargets, graftTimerScheduled), received, cache)
    }

    /** What a message brings about. */
    ghost predicate Obeys(sender: PeerId, message: Message, was: Moment)
      reads this
    {
      match message
      case Prune => eager == was.eager - {sender} && lazy == was.lazy + {sender}
      case Graft(_, _) => eager == was.eager + {sender} && lazy == was.lazy - {sender}
      case IHaves(hs) =>
        && Ledger(missing, nmissing, ntargets, graftTimerScheduled) == NotedAll(was.ledger, was.received, sender, hs)
        && EndsWith(out, GraftTimers(was.ledger, was.received, sender, hs, config.graftTimeout1))
      case GossipMessage(g) =>
        g.id == idOf(g.content) ==>
          if g.id in was.received then sender in lazy
          else Received(g.content, sender, g.scope) in out && (g.scope.Swarm? ==> g.id in received)
    }

    /** What a timer brings about. */
    ghost predicate Elapsed(timer: Timer, now: int, was: Moment)
      reads this
    {
      match timer
      case DispatchLazyPush => lazyQueue == map[] && !dispatchTimerScheduled
      case EvictCache => received == Unexpired(was.received, now) && cache == UnexpiredCache(was.cache, now)
      case SendGraft(id) =>
        && graftTimerScheduled == was.ledger.timers - {id}
        && (id !in was.received && id in was.ledger.missing && was.ledger.missing[id] != [] ==>
              missing == WithoutHead(was.ledger.missing, id) && was.ledger.missing[id][0].peer in eager)
    }

    /** What a broadcast brings about. */
    ghost predicate Spreads(content: seq<Byte>, audience: Audience, now: int)
      reads this
    {
      && (forall p :: p in eager && p != me ==> SendMessage(p, GossipMessage(Outgoing(content, audience))) in out)
      && (audience == ToSwarm ==>
            && idOf(content) in received && received[idOf(content)] == now + config.messageIdRetention
            && idOf(content) in cache
            && cache[idOf(content)] == Cached(Outgoing(content, audience), now + config.messageCacheRetention))
    }

    ghost predicate Effect(ev: InEvent, was: Moment)
      reads this
    {
      match ev
      case RecvMessage(from, message, _) => Obeys(from, message, was)
      case Broadcast(content, audience, now) => Spreads(content, audience, now)
      case TimerExpired(timer, now) => Elapsed(timer, now, was)
      case NeighborUp(peer) => eager == was.eager + {peer} && lazy == was.lazy - {peer}
      case NeighborDown(peer) => eager == was.eager - {peer} && lazy == was.lazy - {peer}
    }

    method CountMessage(payload: bool)
      modifies `payloadMessagesReceived, `controlMessagesReceived
      ensures payloadMessagesReceived == old(payloadMessagesReceived) + if payload then 1 else 0
      ensures controlMessagesReceived == old(controlMessagesReceived) + if payload then 0 else 1
    {
      if payload {
        payloadMessagesReceived := payloadMessagesReceived + 1;
      } else {
        controlMessagesReceived := controlMessagesReceived + 1;
      }
    }

    method Route(sender: PeerId, message: Message, now: int)
      requires Working() && init
      requires now == clock
      modifies `out, `received, `cache, `lazyQueue, `dispatchTimerScheduled, `dispatchTimers, `history, `eager, `lazy,
               `missing, `nmissing, `ntargets, `graftTimerScheduled, `maxLastDeliveryHop
      ensures Working()
      ensures old(eager) + old(lazy) <= eager + lazy && Obeys(sender, message, old(Now()))
    {
      match message {
        case GossipMessage(gossip) => OnGossip(sender, gossip, now);
        case Prune => AddLazy(sender);
        case IHaves(ihaves) => NoteAll(sender, ihaves);
        case Graft(id, _) => Rejoin(sender, id, message);
      }
    }

    method NoteAll(sender: PeerId, ihaves: seq<IHave>)
      requires Working()
      modifies `missing, `nmissing, `ntargets, `graftTimerScheduled, `out
      ensures Working() && Obeys(sender, IHaves(ihaves), old(Now()))
    {
      OnIHave(sender, ihaves);
    }

    method Rejoin(sender: PeerId, id: Option<MsgId>, ghost message: Message)
      requires Working() && message.Graft?
      modifies `eager, `lazy, `out
      ensures Working() && Obeys(sender, message, old(Now())) && old(eager) + old(lazy) <= eager + lazy
    {
      OnGraft(sender, id);
    }

    method HandleMessage(sender: PeerId, message: Message, now: int)
      requires Working() && init
      requires now == clock
      modifies `out, `received, `cache, `lazyQueue, `dispatchTimerScheduled, `dispatchTimers, `history, `eager, `lazy,
               `missing, `nmissing, `ntargets, `graftTimerScheduled, `maxLastDeliveryHop,
               `payloadMessagesReceived, `controlMessagesReceived
      ensures Working()
      ensures old(eager) + old(lazy) <= eager + lazy && Obeys(sender, message, old(Now()))
    {
      CountMessage(message.GossipMessage?);
      Route(sender, message, now);
    }

    method HandleTimer(timer: Timer, now: int)
      requires Working() && init
      requires now == clock
      modifies `out, `received, `cache, `lazyQueue, `dispatchTimerScheduled, `dispatchTimers, `baseTimers, `eager,
               `lazy, `missing, `nmissing, `ntargets, `graftTimerScheduled
      ensures Working()
      ensures old(eager) + old(lazy) <= eager + lazy && Elapsed(timer, now, old(Now()))
      ensures baseTimers == old(baseTimers) - if timer.DispatchLazyPush? && old(dispatchTimers) > 0 then 1 else 0
    {
      match timer {
        case DispatchLazyPush => ghost var sent := OnDispatchTimer();
        case SendGraft(id) => AskNext(id);
        case EvictCache => Evict(now);
      }
    }

    method AskNext(id: MsgId)
      requires Working()
      modifies `missing, `nmissing, `ntargets, `graftTimerScheduled, `eager, `lazy, `out
      ensures Working() && old(eager) + old(lazy) <= eager + lazy
      ensures forall now :: Elapsed(SendGraft(id), now, old(Now()))
    {
      OnSendGraftTimer(id);
    }

    method Evict(now: int)
      requires Working() && now == clock
      modifies `received, `cache, `out
      ensures Working() && Elapsed(EvictCache, now, old(Now()))
    {
      OnEvictCacheTimer(now);
    }

    method HandleNeighbor(peer: PeerId, up: bool)
      requires Trees(eager, lazy) && Books(missing, nmissing, ntargets, graftTimerScheduled)
      modifies `eager, `lazy, `missing, `nmissing, `ntargets
      ensures Trees(eager, lazy) && Books(missing, nmissing, ntargets, graftTimerScheduled)
      ensures eager == if up then old(eager) + {peer} else old(eager) - {peer}
      ensures lazy == old(lazy) - {peer}
    {
      if up {
        AddEager(peer);
      } else {
        OnNeighborDown(peer);
      }
    }

    method React(ev: InEvent)
      requires Working() && init
      requires Timed(ev) ==> ev.now == clock
      modifies this
      ensures Working()
      ensures init && clock == old(clock) && monotone == old(monotone) && baseHistory == old(baseHistory)
      ensures handled == old(handled)
      ensures baseTimers == old(baseTimers) - if Expires(ev) && old(dispatchTimers) > 0 then 1 else 0
      ensures Timed(ev) ==> old(eager) + old(lazy) <= eager + lazy
      ensures !Timed(ev) ==> out == old(out) && history == old(history)
      ensures Effect(ev, old(Now()))
    {
      if Timed(ev) {
        ReactTimed(ev);
      } else {
        HandleNeighbor(ev.peer, ev.NeighborUp?);
      }
    }

    method ReactTimed(ev: InEvent)
      requires Working() && init
      requires Timed(ev) && ev.now == clock
      modifies this
      ensures Working()
      ensures init && clock == old(clock) && monotone == old(monotone) && baseHistory == old(baseHistory)
      ensures handled == old(handled)
      ensures baseTimers == old(baseTimers) - if Expires(ev) && old(dispatchTimers) > 0 then 1 else 0
      ensures old(eager) + old(lazy) <= eager + lazy
      ensures Effect(ev, old(Now()))
    {
      if ev.RecvMessage? {
        HandleMessage(ev.from, ev.message, ev.now);
      } else {
        ReactLocal(ev);
      }
    }

    method ReactLocal(ev: InEvent)
      requires Working() && init
      requires (ev.Broadcast? || ev.TimerExpired?) && ev.now == clock
      modifies this
      ensures Working()
      ensures init && clock == old(clock) && monotone == old(monotone) && baseHistory == old(baseHistory)
      ensures handled == old(handled)
      ensures baseTimers == old(baseTimers) - if Expires(ev) && old(dispatchTimers) > 0 then 1 else 0
      ensures old(eager) + old(lazy) <= eager + lazy
      ensures Effect(ev, old(Now()))
    {
      match ev {
        case Broadcast(content, audience, now) => StartBroadcast(content, audience, now);
        case TimerExpired(timer, now) => HandleTimer(timer, now);
      }
    }

    method StartBroadcast(content: seq<Byte>, audience: Audience, now: int)
      requires Working() && init && now == clock
      modifies `out, `received, `cache, `lazyQueue, `dispatchTimerScheduled, `dispatchTimers
      ensures Working() && Spreads(content, audience, now)
    {
      BroadcastContent(content, audience, now);
    }

    /** A dispatch timer goes off. */
    predicate Expires(ev: InEvent)
    {
      ev.TimerExpired? && ev.timer.DispatchLazyPush?
    }

    /** Starts the output of an event, at the event's time if it has one. */
    method Open(ev: InEvent)
      requires DeliveryOk(config, monotone, history, received, clock)
      modifies `out, `clock, `monotone, `baseHistory, `baseTimers, `handled
      ensures handled == old(handled) + [ev]
      ensures out == [] && baseHistory == history && baseTimers == dispatchTimers
      ensures clock == if Timed(ev) then ev.now else old(clock)
      ensures monotone == (old(monotone) && (Timed(ev) ==> history == [] || old(clock) <= ev.now))
      ensures DeliveryOk(config, monotone, history, received, clock)
      ensures OutputOk(idOf, out, clock, history, dispatchTimers, baseHistory, baseTimers)
    {
      out, baseHistory, baseTimers, handled := [], history, dispatchTimers, handled + [ev];
      if Timed(ev) {
        LaterOk(config, monotone, history, received, clock, ev.now);
        monotone := monotone && (history == [] || clock <= ev.now);
        clock := ev.now;
      }
    }

    method Initialize(now: int)
      requires CacheOk(config, received, cache) && DeliveryOk(config, monotone, history, received, clock)
      requires OutputOk(idOf, out, clock, history, dispatchTimers, baseHistory, baseTimers)
      requires !init ==> received == map[] && cache == map[]
      modifies `init, `received, `cache, `out
      ensures received == old(received) && cache == old(cache)
      ensures init && CacheOk(config, received, cache) && DeliveryOk(config, monotone, history, received, clock)
      ensures OutputOk(idOf, out, clock, history, dispatchTimers, baseHistory, baseTimers)
      ensures if old(init) then out == old(out)
              else out == old(out) + [ScheduleTimer(config.cacheEvictInterval, EvictCache)]
    {
      if !init {
        init := true;
        OnEvictCacheTimer(now);
      }
    }

    /** Handles one event, at any time and in any order. */
    method Handle(ev: InEvent) returns (events: seq<OutEvent>)
      requires Stable()
      modifies this
      ensures Stable() && init
      ensures history == old(history) + Deliveries(idOf, events, clock)
      ensures dispatchTimers ==
              old(dispatchTimers) - (if Expires(ev) && old(dispatchTimers) > 0 then 1 else 0) + Dispatches(events)
      ensures clock == if Timed(ev) then ev.now else old(clock)
      ensures monotone == (old(monotone) && (Timed(ev) ==> old(history) == [] || old(clock) <= ev.now))
      ensures Timed(ev) ==> old(eager) + old(lazy) <= eager + lazy
      ensures out == events && Effect(ev, old(Now())) && handled == old(handled) + [ev]
      ensures !Timed(ev) ==> history == old(history)
      ensures !Timed(ev) ==> events == if old(init) then [] else [ScheduleTimer(config.cacheEvictInterval, EvictCache)]
    {
      Prepare(ev);
      React(ev);
      events := out;
    }

    /** Starts the output; the very first event also starts the eviction timer. */
    method Prepare(ev: InEvent)
      requires CacheOk(config, received, cache) && DeliveryOk(config, monotone, history, received, clock)
      requires !init ==> received == map[] && cache == map[]
      modifies `out, `clock, `monotone, `baseHistory, `baseTimers, `handled, `init, `received, `cache
      ensures CacheOk(config, received, cache) && DeliveryOk(config, monotone, history, received, clock)
      ensures OutputOk(idOf, out, clock, history, dispatchTimers, baseHistory, baseTimers)
      ensures init && received == old(received) && cache == old(cache) && handled == old(handled) + [ev]
      ensures baseHistory == history && baseTimers == dispatchTimers
      ensures clock == if Timed(ev) then ev.now else old(clock)
      ensures monotone == (old(monotone) && (Timed(ev) ==> history == [] || old(clock) <= ev.now))
      ensures out == if old(init) then [] else [ScheduleTimer(config.cacheEvictInterval, EvictCache)]
    {
      Open(ev);
      Initialize(if Timed(ev) then ev.now else 0);
    }

    /**
     Every run: the accounts, the sets, the cache and the queue stay in order whatever happens, and if
     the clock does not go back, two deliveries of one message are at least the id retention apart.
     */
    method Run(events: seq<InEvent>) returns (log: seq<seq<OutEvent>>)
      requires Stable() && history == [] && monotone
      modifies this
      ensures Stable() && |log| == |events|
      ensures NonDecreasing(events) ==> Spaced(RunDeliveries(idOf, events, log), config.messageIdRetention)
    {
      log := [];
      for i := 0 to |events|
        invariant Stable() && |log| == i && history == RunDeliveries(idOf, events[..i], log)
        invariant history != [] ==> exists k :: 0 <= k < i && Timed(events[k]) && events[k].now == clock
        invariant NonDecreasing(events) ==> monotone
      {
        var out := Handle(events[i]);
        assert events[..i + 1][..i] == events[..i] && (log + [out])[..i] == log;
        log := log + [out];
      }
      assert events[..|events|] == events;
    }
  }
  /**
   A fresh machine that broadcasts at time 0 and evicts when the id expires. It then caches a message whose id
   it has forgotten if and only if messages are cached for longer than ids are remembered; in the other case no
   run caches one, which is part of what every event keeps.
   */
  method CacheOutlivesIds(me: PeerId, config: Config, idOf: seq<Byte> -> MsgId, content: seq<Byte>)
    returns (state: PlumtreeState)
    ensures state.Stable() && state.config == config
    ensures state.handled == [Broadcast(content, ToSwarm, 0), TimerExpired(EvictCache, config.messageIdRetention)]
    ensures (exists id :: id in state.cache && id !in state.received) <==>
            config.messageCacheRetention > config.messageIdRetention
    ensures config.messageCacheRetention > config.messageIdRetention ==>
              idOf(content) in state.cache && idOf(content) !in state.received
  {
    state := new PlumtreeState(me, config, idOf);
    var sent := state.Handle(Broadcast(content, ToSwarm, 0));
    var evicted := state.Handle(TimerExpired(EvictCache, config.messageIdRetention));
    assert idOf(content) !in state.received;
  }
}
