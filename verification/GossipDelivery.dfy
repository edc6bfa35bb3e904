/** The events of PlumTree (internal/gossipproto/plumtree.go) and what keeps its deliveries apart. */
module GossipDelivery {
  import opened Bytes
  import opened GossipPeers
  import opened GossipMissing

  type Round = r: int | 0 <= r < 0x1_0000

  /** Sixteen-bit wrap-around. */
  function NextRound(r: Round): (s: Round) { if r == 0xFFFF then 0 else r + 1 }

  datatype Config = Config(
    graftTimeout1: nat,
    graftTimeout2: nat,
    dispatchTimeout: nat,
    optimizationThreshold: Round,
    messageCacheRetention: int,
    messageIdRetention: int,
    cacheEvictInterval: nat,
    maxPayloadSize: int)

  datatype Scope = Swarm(round: Round) | Neighbors

  datatype Gossip = Gossip(id: MsgId, content: seq<Byte>, scope: Scope)

  datatype IHave = IHave(id: MsgId, round: Round)

  datatype Message =
    | GossipMessage(gossip: Gossip)
    | Prune
    | Graft(id: Option<MsgId>, round: nat)
    | IHaves(ihaves: seq<IHave>)

  datatype Timer = SendGraft(id: MsgId) | DispatchLazyPush | EvictCache

  datatype Audience = ToSwarm | ToNeighbors

  datatype InEvent =
    | RecvMessage(from: PeerId, message: Message, now: int)
    | Broadcast(content: seq<Byte>, audience: Audience, now: int)
    | TimerExpired(timer: Timer, now: int)
    | NeighborUp(peer: PeerId)
    | NeighborDown(peer: PeerId)

  datatype OutEvent =
    | SendMessage(to: PeerId, message: Message)
    | ScheduleTimer(after: nat, timer: Timer)
    | Received(content: seq<Byte>, from: PeerId, scope: Scope)

  datatype Cached = Cached(message: Gossip, expire: int)

  /** A message handed to the application in swarm scope. */
  datatype Delivery = Delivery(id: MsgId, at: int)

  // ----- what the outputs say

  /** The swarm deliveries among the outputs of one moment. */
  function Deliveries(idOf: seq<Byte> -> MsgId, out: seq<OutEvent>, now: int): (ds: seq<Delivery>)
  {
    if out == [] then []
    else
      var last := out[|out| - 1];
      Deliveries(idOf, out[..|out| - 1], now) +
      if last.Received? && last.scope.Swarm? then [Delivery(idOf(last.content), now)] else []
  }

  /** How many dispatch timers the outputs ask for. */
  function Dispatches(out: seq<OutEvent>): (n: nat)
  {
    if out == [] then 0
    else Dispatches(out[..|out| - 1]) +
         if out[|out| - 1].ScheduleTimer? && out[|out| - 1].timer.DispatchLazyPush? then 1 else 0
  }

  lemma OutputOne(idOf: seq<Byte> -> MsgId, out: seq<OutEvent>, e: OutEvent, now: int)
    ensures Deliveries(idOf, out + [e], now) == Deliveries(idOf, out, now) +
            if e.Received? && e.scope.Swarm? then [Delivery(idOf(e.content), now)] else []
    ensures Dispatches(out + [e]) == Dispatches(out) + if e.ScheduleTimer? && e.timer.DispatchLazyPush? then 1 else 0
  {
    assert (out + [e])[..|out|] == out;
  }

  predicate Sends(out: seq<OutEvent>)
  {
    forall e :: e in out ==> e.SendMessage?
  }

  lemma {:induction false} OutputSends(idOf: seq<Byte> -> MsgId, out: seq<OutEvent>, more: seq<OutEvent>, now: int)
    requires Sends(more)
    ensures Deliveries(idOf, out + more, now) == Deliveries(idOf, out, now) && Dispatches(out + more) == Dispatches(out)
    decreases |more|
  {
    if more == [] {
      assert out + more == out;
    } else {
      var front, last := more[..|more| - 1], more[|more| - 1];
      assert last in more;
      OutputSends(idOf, out, front, now);
      assert out + more == out + front + [last];
      OutputOne(idOf, out + front, last, now);
    }
  }

  // ----- why deliveries of one message are far apart

  predicate Spaced(history: seq<Delivery>, retention: int)
  {
    forall i, j :: 0 <= i < j < |history| && history[i].id == history[j].id ==>
      history[j].at - history[i].at >= retention
  }

  /** A delivered message is remembered for as long as it must not be delivered again. */
  predicate Remembered(history: seq<Delivery>, received: map<MsgId, int>, clock: int, retention: int)
  {
    forall i :: 0 <= i < |history| ==>
      && history[i].at <= clock
      && history[i].at + retention <= if history[i].id in received then received[history[i].id] else clock
  }

  predicate Apart(history: seq<Delivery>, received: map<MsgId, int>, clock: int, retention: int)
  {
    Spaced(history, retention) && Remembered(history, received, clock, retention)
  }

  /** A delivery now is far enough from any earlier one of the same message, and is remembered. */
  predicate MayFollow(history: seq<Delivery>, received: map<MsgId, int>, clock: int, retention: int, id: MsgId)
  {
    Apart(history + [Delivery(id, clock)], received, clock, retention)
  }

  lemma RememberLater(history: seq<Delivery>, received: map<MsgId, int>, clock: int, now: int, retention: int)
    requires Remembered(history, received, clock, retention) && clock <= now
    ensures Remembered(history, received, now, retention)
  {
  }

  lemma RememberAnew(history: seq<Delivery>, received: map<MsgId, int>, now: int, retention: int, id: MsgId)
    requires Remembered(history, received, now, retention)
    ensures Remembered(history, received[id := now + retention], now, retention)
  {
  }

  lemma RememberDelivery(history: seq<Delivery>, received: map<MsgId, int>, now: int, retention: int, id: MsgId)
    requires Remembered(history, received, now, retention) && Spaced(history, retention) && id !in received
    ensures MayFollow(history, received[id := now + retention], now, retention, id)
  {
  }

  /** The ids whose time has not come. */
  function Unexpired(received: map<MsgId, int>, now: int): (r: map<MsgId, int>)
  {
    map id | id in received && received[id] > now :: received[id]
  }

  lemma RememberEvicted(history: seq<Delivery>, received: map<MsgId, int>, now: int, retention: int)
    requires Remembered(history, received, now, retention)
    ensures Remembered(history, Unexpired(received, now), now, retention)
  {
  }

  // ----- runs

  predicate Timed(ev: InEvent)
  {
    ev.RecvMessage? || ev.Broadcast? || ev.TimerExpired?
  }

  predicate NonDecreasing(events: seq<InEvent>)
  {
    forall i, j :: 0 <= i < j < |events| && Timed(events[i]) && Timed(events[j]) ==> events[i].now <= events[j].now
  }

  /** All swarm deliveries of a run, with their times. */
  function RunDeliveries(idOf: seq<Byte> -> MsgId, events: seq<InEvent>, log: seq<seq<OutEvent>>): (ds: seq<Delivery>)
    requires |log| == |events|
  {
    if events == [] then []
    else
      var n := |events| - 1;
      RunDeliveries(idOf, events[..n], log[..n]) +
      if Timed(events[n]) then Deliveries(idOf, log[n], events[n].now) else []
  }
}
