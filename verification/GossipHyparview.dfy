/** HyParView membership (internal/gossipproto/hyparview.go): partial views of the swarm, kept by messages. */
module GossipHyparview {
  import opened Bytes
  import opened GossipPeers

  datatype Config = Config(
    activeViewCapacity: int,
    passiveViewCapacity: int,
    activeRandomWalkLength: nat,
    passiveRandomWalkLength: nat,
    shuffleRandomWalkLength: nat,
    shuffleActiveViewCount: nat,
    shufflePassiveViewCount: nat,
    shuffleInterval: nat,
    neighborRequestTimeout: nat)

  datatype Info = Info(id: PeerId, data: Option<PeerData>)

  datatype Priority = High | Low

  datatype Message =
    | Join(data: Option<PeerData>)
    | ForwardJoin(peer: Info, ttl: nat)
    | Shuffle(origin: PeerId, nodes: seq<Info>, ttl: nat)
    | ShuffleReply(nodes: seq<Info>)
    | Neighbor(priority: Priority, data: Option<PeerData>)
    | Disconnect(alive: bool)

  datatype Timer = DoShuffle | PendingNeighborRequest(peer: PeerId)

  datatype InEvent =
    | RecvMessage(from: PeerId, message: Message)
    | TimerExpired(timer: Timer)
    | PeerDisconnected(peer: PeerId)
    | RequestJoin(peer: PeerId)
    | UpdatePeerData(data: Option<PeerData>)
    | Quit

  datatype OutEvent =
    | SendMessage(to: PeerId, message: Message)
    | ScheduleTimer(after: nat, timer: Timer)
    | DisconnectPeer(to: PeerId)
    | NeighborUp(peer: PeerId)
    | NeighborDown(peer: PeerId)
    | NewPeerData(to: PeerId, data: PeerData)

  datatype Reason = ConnectionClosed | DisconnectReceived | RandomRemoval

  // ----- what the neighbour events of an output say about the view

  /** The view after one event, if an Up names a peer outside it and a Down one inside. */
  function Moved(view: Option<set<PeerId>>, e: OutEvent): (r: Option<set<PeerId>>)
  {
    if view.None? then None
    else match e
      case NeighborUp(p) => if p in view.value then None else Some(view.value + {p})
      case NeighborDown(p) => if p in view.value then Some(view.value - {p}) else None
      case _ => view
  }

  /** The view after all the outputs. */
  function Replay(view: set<PeerId>, out: seq<OutEvent>): (r: Option<set<PeerId>>)
  {
    if out == [] then Some(view) else Moved(Replay(view, out[..|out| - 1]), out[|out| - 1])
  }

  predicate Quiet(out: seq<OutEvent>)
  {
    forall e :: e in out ==> !e.NeighborUp? && !e.NeighborDown?
  }

  lemma ReplayOne(view: set<PeerId>, out: seq<OutEvent>, e: OutEvent)
    ensures Replay(view, out + [e]) == Moved(Replay(view, out), e)
  {
    assert (out + [e])[..|out|] == out;
  }

  lemma ReplayUp(base: set<PeerId>, out: seq<OutEvent>, view: set<PeerId>, peer: PeerId)
    requires Replay(base, out) == Some(view) && peer !in view
    ensures Replay(base, out + [NeighborUp(peer)]) == Some(view + {peer})
  {
    ReplayOne(base, out, NeighborUp(peer));
  }

  lemma ReplayDown(base: set<PeerId>, out: seq<OutEvent>, view: set<PeerId>, peer: PeerId)
    requires Replay(base, out) == Some(view) && peer in view
    ensures Replay(base, out + [NeighborDown(peer)]) == Some(view - {peer})
  {
    ReplayOne(base, out, NeighborDown(peer));
  }

  lemma {:induction false} ReplayQuiet(view: set<PeerId>, out: seq<OutEvent>, more: seq<OutEvent>)
    requires Quiet(more)
    ensures Replay(view, out + more) == Replay(view, out)
    decreases |more|
  {
    if more == [] {
      assert out + more == out;
    } else {
      var front, last := more[..|more| - 1], more[|more| - 1];
      ReplayQuiet(view, out, front);
      assert out + more == out + front + [last];
      ReplayOne(view, out + front, last);
    }
  }

  /** Replaying two outputs in turn. */
  lemma {:induction false} ReplayJoins(view: set<PeerId>, a: seq<OutEvent>, b: seq<OutEvent>)
    ensures Replay(view, a + b) == var mid := Replay(view, a); if mid.None? then None else Replay(mid.value, b)
    decreases |b|
  {
    if b == [] {
      assert a + b == a;
    } else {
      var front, last := b[..|b| - 1], b[|b| - 1];
      ReplayJoins(view, a, front);
      assert a + b == a + front + [last];
      assert b == front + [last];
      ReplayOne(view, a + front, last);
    }
  }

  // ----- runs with and without Quit

  /** One event took the view from one to the other; a Quit emptied it and said nothing of that. */
  predicate Follows(quit: bool, out: seq<OutEvent>, before: set<PeerId>, after: set<PeerId>)
  {
    if quit then after == {} && Replay(before, out) == Some(before) else Replay(before, out) == Some(after)
  }

  /** The outputs of a run, which of its events were Quit, and the views between them. */
  predicate FollowsAll(quits: seq<bool>, log: seq<seq<OutEvent>>, views: seq<set<PeerId>>)
  {
    && |log| == |quits| && |views| == |quits| + 1
    && forall i :: 0 <= i < |quits| ==> Follows(quits[i], log[i], views[i], views[i + 1])
  }

  /** Replayed on a larger view, an output leads to the larger view, or to none. */
  lemma {:induction false} ReplayMore(view: set<PeerId>, larger: set<PeerId>, out: seq<OutEvent>)
    requires view <= larger && Replay(view, out).Some?
    ensures var r := Replay(larger, out);
            r.None? || (r.value == Replay(view, out).value + (larger - view) &&
                        Replay(view, out).value !! larger - view)
    decreases |out|
  {
    if out != [] {
      ReplayMore(view, larger, out[..|out| - 1]);
    }
  }

  ghost predicate QuitsFindNobody(quits: seq<bool>, views: seq<set<PeerId>>)
    requires |views| == |quits| + 1
  {
    forall i :: 0 <= i < |quits| && quits[i] ==> views[i] == {}
  }

  lemma StandsNext(quit: bool, out: seq<OutEvent>, before: set<PeerId>, after: set<PeerId>, r: Option<set<PeerId>>)
    requires Follows(quit, out, before, after)
    ensures r == Some(before) && (quit ==> before == {}) ==> Replay(before, out) == Some(after)
    ensures r == Some(before) && quit && before != {} ==> Replay(before, out).Some? && after < Replay(before, out).value
    ensures r.Some? && before < r.value ==> Replay(r.value, out).None? || after < Replay(r.value, out).value
  {
    if r.Some? && before < r.value {
      ReplayMore(before, r.value, out);
      assert !(r.value <= before);
      var p :| p in r.value && p !in before;
      assert Replay(r.value, out).Some? ==> p in Replay(r.value, out).value && p !in Replay(before, out).value;
    }
  }

  /** Where the replay of a run stands: on the view, or lost, or with peers in it that a Quit left. */
  lemma {:induction false} ReplayStands(quits: seq<bool>, log: seq<seq<OutEvent>>, views: seq<set<PeerId>>)
    requires FollowsAll(quits, log, views)
    ensures var r := Replay(views[0], Flatten(log));
            if QuitsFindNobody(quits, views) then r == Some(views[|quits|])
            else r.None? || views[|quits|] < r.value
    decreases |quits|
  {
    if quits != [] {
      var n := |quits| - 1;
      assert FollowsAll(quits[..n], log[..n], views[..n + 1]) by {
        forall i | 0 <= i < n
          ensures Follows(quits[..n][i], log[..n][i], views[..n + 1][i], views[..n + 1][i + 1])
        {
          assert Follows(quits[i], log[i], views[i], views[i + 1]);
        }
      }
      ReplayStands(quits[..n], log[..n], views[..n + 1]);
      ReplayJoins(views[0], Flatten(log[..n]), log[n]);
      assert Follows(quits[n], log[n], views[n], views[n + 1]);
      StandsNext(quits[n], log[n], views[n], views[n + 1], Replay(views[0], Flatten(log[..n])));
      QuitsSoFar(quits, views);
    }
  }

  lemma QuitsSoFar(quits: seq<bool>, views: seq<set<PeerId>>)
    requires |views| == |quits| + 1 && quits != []
    ensures var n := |quits| - 1;
            QuitsFindNobody(quits, views) <==>
            QuitsFindNobody(quits[..n], views[..n + 1]) && (quits[n] ==> views[n] == {})
  {
    var n := |quits| - 1;
    if QuitsFindNobody(quits[..n], views[..n + 1]) && (quits[n] ==> views[n] == {}) {
      forall i | 0 <= i < |quits| && quits[i]
        ensures views[i] == {}
      {
        if i < n {
          assert quits[..n][i] && views[..n + 1][i] == views[i];
        }
      }
    }
    if QuitsFindNobody(quits, views) {
      forall i | 0 <= i < n && quits[..n][i]
        ensures views[..n + 1][i] == {}
      {
        assert quits[i];
      }
    }
  }

  /** The neighbour events of a run lead to its active view if and only if no Quit found a neighbour. */
  lemma ReplayIff(quits: seq<bool>, log: seq<seq<OutEvent>>, views: seq<set<PeerId>>)
    requires FollowsAll(quits, log, views)
    ensures Replay(views[0], Flatten(log)) == Some(views[|quits|]) <==> QuitsFindNobody(quits, views)
  {
    ReplayStands(quits, log, views);
  }

  lemma FollowsOneMore(quits: seq<bool>, log: seq<seq<OutEvent>>, views: seq<set<PeerId>>,
                       quit: bool, out: seq<OutEvent>, after: set<PeerId>)
    requires FollowsAll(quits, log, views) && Follows(quit, out, views[|quits|], after)
    ensures FollowsAll(quits + [quit], log + [out], views + [after])
  {
    forall i | 0 <= i < |quits| + 1
      ensures Follows((quits + [quit])[i], (log + [out])[i], (views + [after])[i], (views + [after])[i + 1])
    {
      if i < |quits| {
        assert Follows(quits[i], log[i], views[i], views[i + 1]);
      }
    }
  }

  // ----- the machine

  function QuitsOf(events: seq<InEvent>): (quits: seq<bool>)
  {
    seq(|events|, i requires 0 <= i < |events| => events[i].Quit?)
  }

  /** The event an insertion of peer data gives rise to. */
  function DataEvents(known: map<PeerId, PeerData>, info: Info): (out: seq<OutEvent>)
  {
    if info.data.Some? && (info.id !in known || known[info.id] != info.data.value) && info.data.value != []
    then [NewPeerData(info.id, info.data.value)] else []
  }

  function WithData(known: map<PeerId, PeerData>, info: Info): (m: map<PeerId, PeerData>)
  {
    if info.data.Some? then known[info.id := info.data.value] else known
  }

  function InfoOf(known: map<PeerId, PeerData>, id: PeerId): (info: Info)
  {
    Info(id, if id in known then Some(known[id]) else None)
  }

  function InfosOf(known: map<PeerId, PeerData>, ids: seq<PeerId>): (nodes: seq<Info>)
  {
    if ids == [] then [] else InfosOf(known, ids[..|ids| - 1]) + [InfoOf(known, ids[|ids| - 1])]
  }

  /** What a peer gets that is turned away. */
  function Farewell(peer: PeerId, nodes: seq<Info>, alive: bool): (out: seq<OutEvent>)
  {
    [SendMessage(peer, ShuffleReply(nodes)), SendMessage(peer, Disconnect(alive)), DisconnectPeer(peer)]
  }

  function Goodbye(peer: PeerId, reason: Reason, nodes: seq<Info>): (out: seq<OutEvent>)
  {
    if reason == RandomRemoval then Farewell(peer, nodes, true) else [DisconnectPeer(peer)]
  }

  /** One message to each of the nodes. */
  function ToAll(nodes: seq<PeerId>, message: Message): (out: seq<OutEvent>)
  {
    if nodes == [] then [] else ToAll(nodes[..|nodes| - 1], message) + [SendMessage(nodes[|nodes| - 1], message)]
  }

  lemma {:induction false} ToAllQuiet(nodes: seq<PeerId>, message: Message)
    ensures Quiet(ToAll(nodes, message))
    decreases |nodes|
  {
    if nodes != [] {
      ToAllQuiet(nodes[..|nodes| - 1], message);
    }
  }

  function AtLeastOne(capacity: int): (n: int) { if capacity < 1 then 1 else capacity }

  /** Appends a new peer to a list of limited length; any one member makes room for it. */
  method InsertDropping(l: seq<PeerId>, peer: PeerId, capacity: int)
    returns (r: seq<PeerId>, ghost dropped: set<PeerId>)
    requires Unique(l) && peer !in l && |l| <= AtLeastOne(capacity)
    ensures Unique(r) && |r| <= AtLeastOne(capacity)
    ensures Elems(r) == Elems(l) - dropped + {peer} && dropped <= Elems(l)
    ensures |dropped| == if l != [] && |l| >= capacity then 1 else 0
  {
    r, dropped := l, {};
    if |l| >= capacity {
      var pick := Random(l);
      if pick.Some? {
        dropped := {pick.value};
        var removed;
        r, removed := Remove(l, pick.value);
      }
    }
    assert peer !in Elems(r);
    var inserted;
    r, inserted := Insert(r, peer);
  }

  class HyparviewState {
    const me: PeerId
    const config: Config
    var meData: Option<PeerData>
    var active: seq<PeerId>
    var passive: seq<PeerId>
    var shuffleScheduled: bool
    var totalConnections: nat
    var pendingNeighbor: set<PeerId>
    var peerData: map<PeerId, PeerData>
    var aliveDisconnect: set<PeerId>
    var out: seq<OutEvent>

    /** The active view when the event being handled came in. */
    ghost var base: set<PeerId>
    /** The events so far. */
    ghost var handled: seq<InEvent>

    ghost predicate Views()
      reads this`active, this`passive
    {
      && Unique(active) && Unique(passive)
      && Elems(active) !! Elems(passive)
      && me !in active && me !in passive
      && |active| <= AtLeastOne(config.activeViewCapacity)
      && |passive| <= AtLeastOne(config.passiveViewCapacity)
    }

    /** The neighbour events of this output, replayed on the view at its start, give the active view. */
    ghost predicate Tracked()
      reads this`active, this`out, this`base
    {
      Replay(base, out) == Some(Elems(active))
    }

    ghost predicate Valid()
      reads this`active, this`passive, this`out, this`base
    {
      Views() && Tracked()
    }

    constructor (me: PeerId, data: Option<PeerData>, config: Config)
      ensures this.me == me && this.config == config && meData == data
      ensures Views() && active == [] && passive == [] && peerData == map[] && pendingNeighbor == {} &&
              !shuffleScheduled
      ensures handled == []
    {
      this.me, this.config, meData := me, config, data;
      active, passive, shuffleScheduled, totalConnections := [], [], false, 0;
      pendingNeighbor, peerData, aliveDisconnect, out, base, handled := {}, map[], {}, [], {}, [];
    }

    // ----- outputs that leave the views alone

    method InsertPeerInfo(info: Info)
      modifies `peerData, `out
      ensures out == old(out) + DataEvents(old(peerData), info)
      ensures peerData == WithData(old(peerData), info)
    {
      if info.data.None? {
        return;
      }
      if (info.id !in peerData || peerData[info.id] != info.data.value) && |info.data.value| != 0 {
        out := out + [NewPeerData(info.id, info.data.value)];
      }
      peerData := peerData[info.id := info.data.value];
    }

    /** At most one Neighbor is awaiting its answer from a peer. */
    method SendNeighbor(peer: PeerId, priority: Priority)
      modifies `pendingNeighbor, `out
      ensures pendingNeighbor == old(pendingNeighbor) + {peer}
      ensures out == old(out) +
                     if peer in old(pendingNeighbor) then [] else [SendMessage(peer, Neighbor(priority, meData))]
    {
      if peer in pendingNeighbor {
        return;
      }
      pendingNeighbor := pendingNeighbor + {peer};
      out := out + [SendMessage(peer, Neighbor(priority, meData))];
    }

    /** n known peers, or all there are, passive ones before active ones, none twice. */
    ghost predicate Sample(ids: seq<PeerId>, n: nat)
      reads this`active, this`passive
    {
      && Unique(ids) && Elems(ids) <= Elems(passive) + Elems(active)
      && |ids| == (if n < |passive| + |active| then n else |passive| + |active|)
      && (n <= |passive| ==> Elems(ids) <= Elems(passive))
    }

    method Infos(ids: seq<PeerId>) returns (nodes: seq<Info>)
      ensures nodes == InfosOf(peerData, ids)
    {
      nodes := [];
      for i := 0 to |ids|
        invariant nodes == InfosOf(peerData, ids[..i])
      {
        assert ids[..i + 1][..i] == ids[..i];
        nodes := nodes + [InfoOf(peerData, ids[i])];
      }
      assert ids[..|ids|] == ids;
    }

    method TakeSample(n: nat) returns (ids: seq<PeerId>)
      requires Views()
      ensures Sample(ids, n)
    {
      var first, second := [], [];
      if n > 0 {
        first := ShuffledWithout(passive, n, {});
        WithoutNothing(passive);
      }
      if n > |first| {
        second := ShuffledWithout(active, n - |first|, {});
        WithoutNothing(active);
      }
      assert Elems(first) <= Elems(passive) && Elems(second) <= Elems(active);
      JoinUnique(first, second);
      ids := first + second;
    }

    method SendShuffleReply(to: PeerId, n: nat) returns (ghost ids: seq<PeerId>)
      requires Views()
      modifies `out
      ensures Sample(ids, n)
      ensures out == old(out) + [SendMessage(to, ShuffleReply(InfosOf(peerData, ids)))]
    {
      var sample := TakeSample(n);
      var nodes := Infos(sample);
      ids := sample;
      out := out + [SendMessage(to, ShuffleReply(nodes))];
    }

    method SendDisconnect(peer: PeerId, alive: bool) returns (ghost ids: seq<PeerId>)
      requires Views()
      modifies `out
      ensures Sample(ids, config.shuffleActiveViewCount + config.shufflePassiveViewCount)
      ensures out == old(out) + Farewell(peer, InfosOf(peerData, ids), alive)
    {
      ids := SendShuffleReply(peer, config.shuffleActiveViewCount + config.shufflePassiveViewCount);
      out := out + [SendMessage(peer, Disconnect(alive)), DisconnectPeer(peer)];
    }

    /** Asks one more passive peer to become a neighbour, while there is room for its answer. */
    method RefillActiveFromPassive(skip: set<PeerId>) returns (ghost asked: Option<PeerId>)
      modifies `pendingNeighbor, `out
      ensures asked.Some? <==> |active| + |old(pendingNeighbor)| < config.activeViewCapacity
                               && !(Elems(passive) <= skip + old(pendingNeighbor))
      ensures asked.None? ==> pendingNeighbor == old(pendingNeighbor) && out == old(out)
      ensures asked.Some? ==>
        var p := asked.value;
        && p in passive && p !in skip && p !in old(pendingNeighbor)
        && pendingNeighbor == old(pendingNeighbor) + {p}
        && out == old(out) + [SendMessage(p, Neighbor(if active == [] then High else Low, meData)),
                              ScheduleTimer(config.neighborRequestTimeout, PendingNeighborRequest(p))]
    {
      if |active| + |pendingNeighbor| >= config.activeViewCapacity {
        return None;
      }
      var pick := RandomWithout(passive, skip + pendingNeighbor);
      asked := pick;
      if pick.Some? {
        SendNeighbor(pick.value, if |active| == 0 then High else Low);
        out := out + [ScheduleTimer(config.neighborRequestTimeout, PendingNeighborRequest(pick.value))];
      }
    }

    // ----- the views

    /** Room for one more is made by dropping any one member. */
    method AddPassive(peer: PeerId, data: Option<PeerData>) returns (ghost dropped: set<PeerId>)
      requires Views()
      modifies `passive, `peerData, `out
      ensures Views()
      ensures out == old(out) + DataEvents(old(peerData), Info(peer, data))
      ensures peerData == WithData(old(peerData), Info(peer, data))
      ensures peer == me || peer in active || peer in old(passive) ==> passive == old(passive)
      ensures peer != me && peer !in active && peer !in old(passive) ==>
        && Elems(passive) == Elems(old(passive)) - dropped + {peer} && dropped <= Elems(old(passive))
        && |dropped| == if old(passive) != [] && |old(passive)| >= config.passiveViewCapacity then 1 else 0
    {
      InsertPeerInfo(Info(peer, data));
      dropped := {};
      if peer == me || peer in active || peer in passive {
        return;
      }
      assert me !in Elems(passive) && peer !in Elems(active);
      passive, dropped := InsertDropping(passive, peer, config.passiveViewCapacity);
      assert me !in Elems(passive);
    }

    /** Whether a peer that leaves the active view stays known. */
    ghost predicate Keeps(peer: PeerId, reason: Reason, alive: bool)
      reads `aliveDisconnect
    {
      match reason
      case ConnectionClosed => peer in aliveDisconnect
      case DisconnectReceived => alive
      case RandomRemoval => true
    }

    /** Takes a neighbour out of the view and says so. */
    method TakeOut(peer: PeerId) returns (removed: bool)
      requires Valid()
      modifies `active, `pendingNeighbor, `out
      ensures Valid() && removed == (peer in old(active))
      ensures !removed ==> active == old(active) && pendingNeighbor == old(pendingNeighbor) && out == old(out)
      ensures removed ==> Elems(active) == Elems(old(active)) - {peer} && |active| == |old(active)| - 1
      ensures removed ==> out == old(out) + [NeighborDown(peer)] && pendingNeighbor == old(pendingNeighbor) - {peer}
    {
      removed := Deactivate(peer);
      if removed {
        ReplayDown(base, out, Elems(old(active)), peer);
        pendingNeighbor := pendingNeighbor - {peer};
        out := out + [NeighborDown(peer)];
      }
    }

    method Deactivate(peer: PeerId) returns (removed: bool)
      requires Views()
      modifies `active
      ensures Views() && removed == (peer in Elems(old(active)))
      ensures Elems(active) == Elems(old(active)) - {peer}
      ensures if removed then |active| == |old(active)| - 1 else active == old(active)
    {
      active, removed := Remove(active, peer);
    }

    method RemoveActive(peer: PeerId, reason: Reason, alive: bool, refill: bool)
      requires Valid()
      modifies `active, `passive, `pendingNeighbor, `peerData, `aliveDisconnect, `out
      ensures Valid()
      ensures peer !in old(active) ==> unchanged(this)
      ensures peer in old(active) ==> Elems(active) == Elems(old(active)) - {peer} && |active| == |old(active)| - 1
      ensures peer in old(active) ==> Left(peer, old(Keeps(peer, reason, alive)), old(passive))
      ensures peer in old(active) && !refill ==> pendingNeighbor == old(pendingNeighbor) - {peer}
      ensures peer in old(active) && refill ==> Refilled({peer}, old(pendingNeighbor) - {peer})
      ensures peer in old(active) ==> Parted(peer, reason, old(out))
      ensures peer in old(active) ==>
        aliveDisconnect == if reason == ConnectionClosed then old(aliveDisconnect) - {peer}
                           else if old(Keeps(peer, reason, alive)) then old(aliveDisconnect) + {peer}
                           else old(aliveDisconnect)
    {
      var removed := TakeOut(peer);
      if !removed {
        return;
      }
      assert peer != me && peer !in Elems(active);
      Release(peer, reason, alive);
      if refill {
        ghost var released := out;
        Refill({peer});
        ghost var nodes :| old(out) + [NeighborDown(peer)] + Goodbye(peer, reason, nodes) <= released;
        PrefixTransitive(old(out) + [NeighborDown(peer)] + Goodbye(peer, reason, nodes), released, out);
      }
    }

    /** What becomes of a peer that has been taken out of the active view. */
    method Release(peer: PeerId, reason: Reason, alive: bool)
      requires Valid() && peer !in active && peer != me
      modifies `passive, `peerData, `aliveDisconnect, `out
      ensures Valid()
      ensures if old(Keeps(peer, reason, alive)) then peer in passive else passive == old(passive)
      ensures exists nodes :: old(out) + Goodbye(peer, reason, nodes) <= out
      ensures aliveDisconnect == if reason == ConnectionClosed then old(aliveDisconnect) - {peer}
                                 else if old(Keeps(peer, reason, alive)) then old(aliveDisconnect) + {peer}
                                 else old(aliveDisconnect)
    {
      Dismiss(peer, reason);
      ghost var nodes :| out == old(out) + Goodbye(peer, reason, nodes);
      var keepPassive := reason == RandomRemoval || (reason == DisconnectReceived && alive);
      if reason == ConnectionClosed {
        keepPassive := peer in aliveDisconnect;
        aliveDisconnect := aliveDisconnect - {peer};
      }
      if keepPassive {
        Demote(peer);
        if reason != ConnectionClosed {
          aliveDisconnect := aliveDisconnect + {peer};
        }
      }
    }

    /** The peer is not awaited any more, and is in the passive view if it is to be kept. */
    ghost predicate Left(peer: PeerId, kept: bool, passiveBefore: seq<PeerId>)
      reads `passive, `pendingNeighbor
    {
      peer !in pendingNeighbor && if kept then peer in passive else passive == passiveBefore
    }

    /** The peer is reported down and let go: with a word of farewell if it was dropped at random. */
    ghost predicate Parted(peer: PeerId, reason: Reason, before: seq<OutEvent>)
      reads `out
    {
      exists nodes :: before + [NeighborDown(peer)] + Goodbye(peer, reason, nodes) <= out
    }

    /** One more peer is asked exactly if there is room and a passive one to ask. */
    ghost predicate Refilled(skip: set<PeerId>, pendingBefore: set<PeerId>)
      reads `active, `passive, `pendingNeighbor, `meData, `out
    {
      if |active| + |pendingBefore| < config.activeViewCapacity && !(Elems(passive) <= skip + pendingBefore)
      then exists p :: p in passive && p !in skip + pendingBefore && pendingNeighbor == pendingBefore + {p} &&
                       EndsWith(out, [SendMessage(p, Neighbor(if active == [] then High else Low, meData)),
                                      ScheduleTimer(config.neighborRequestTimeout, PendingNeighborRequest(p))])
      else pendingNeighbor == pendingBefore
    }

    method Dismiss(peer: PeerId, reason: Reason)
      requires Valid()
      modifies `out
      ensures Valid()
      ensures exists nodes :: out == old(out) + Goodbye(peer, reason, nodes)
    {
      if reason == RandomRemoval {
        ghost var ids := SendDisconnect(peer, true);
        ReplayQuiet(base, old(out), Farewell(peer, InfosOf(peerData, ids), true));
        assert out == old(out) + Goodbye(peer, reason, InfosOf(peerData, ids));
      } else {
        out := out + [DisconnectPeer(peer)];
        ReplayOne(base, old(out), DisconnectPeer(peer));
        assert out == old(out) + Goodbye(peer, reason, []);
      }
    }

    /** Moves a peer that has left the active view, and its data, to the passive view. */
    method Demote(peer: PeerId)
      requires Valid() && peer !in active
      modifies `passive, `peerData, `out
      ensures Valid() && old(out) <= out
      ensures peer != me ==> peer in passive
    {
      var data := if peer in peerData then Some(peerData[peer]) else None;
      peerData := peerData - {peer};
      ghost var events := DataEvents(peerData, Info(peer, data));
      ghost var dropped := AddPassive(peer, data);
      ReplayQuiet(base, old(out), events);
      assert peer != me ==> peer in Elems(passive);
    }

    method Refill(skip: set<PeerId>)
      requires Valid()
      modifies `pendingNeighbor, `out
      ensures Valid() && old(out) <= out && Refilled(skip, old(pendingNeighbor))
      ensures old(pendingNeighbor) <= pendingNeighbor <= old(pendingNeighbor) + (Elems(passive) - skip)
    {
      ghost var more := AskOne(skip);
      ReplayQuiet(base, old(out), more);
    }

    method AskOne(skip: set<PeerId>) returns (ghost more: seq<OutEvent>)
      modifies `pendingNeighbor, `out
      ensures out == old(out) + more && Quiet(more) && Refilled(skip, old(pendingNeighbor))
      ensures old(pendingNeighbor) <= pendingNeighbor <= old(pendingNeighbor) + (Elems(passive) - skip)
    {
      ghost var asked := RefillActiveFromPassive(skip);
      more := [];
      if asked.Some? {
        ghost var p := asked.value;
        more := [SendMessage(p, Neighbor(if active == [] then High else Low, meData)),
                 ScheduleTimer(config.neighborRequestTimeout, PendingNeighborRequest(p))];
        TailEnds(old(out), more);
        assert p in Elems(passive);
      }
    }

    method Learn(info: Info)
      requires Valid()
      modifies `peerData, `out
      ensures Valid() && peerData == WithData(old(peerData), info)
    {
      InsertPeerInfo(info);
      ReplayQuiet(base, old(out), DataEvents(old(peerData), info));
    }

    method Ask(peer: PeerId, priority: Priority)
      requires Valid()
      modifies `pendingNeighbor, `out
      ensures Valid() && pendingNeighbor == old(pendingNeighbor) + {peer}
      ensures out == old(out) +
                     if peer in old(pendingNeighbor) then [] else [SendMessage(peer, Neighbor(priority, meData))]
    {
      SendNeighbor(peer, priority);
      ReplayQuiet(base, old(out), out[|old(out)|..]);
    }

    method Forget(peer: PeerId)
      requires Views()
      modifies `passive
      ensures Views() && Elems(passive) == Elems(old(passive)) - {peer}
    {
      var removed;
      passive, removed := Remove(passive, peer);
    }

    /** Moves a peer into the active view and says so. */
    method Promote(peer: PeerId)
      requires Valid() && peer != me && peer !in active && |active| < AtLeastOne(config.activeViewCapacity)
      modifies `active, `passive, `out
      ensures Valid() && active == old(active) + [peer] && Elems(passive) == Elems(old(passive)) - {peer}
      ensures out == old(out) + [NeighborUp(peer)]
    {
      Forget(peer);
      assert peer !in Elems(active) + Elems(passive);
      var inserted;
      active, inserted := Insert(active, peer);
      ReplayUp(base, out, Elems(old(active)), peer);
      out := out + [NeighborUp(peer)];
    }

    /** Whether a peer would be let into the active view. */
    ghost predicate Admits(peer: PeerId, priority: Priority)
      reads `active
    {
      peer != me && (peer in active || priority == High || |active| < config.activeViewCapacity)
    }

    method AddActive(peer: PeerId, data: Option<PeerData>, priority: Priority, reply: bool) returns (ok: bool)
      requires Valid()
      modifies `active, `passive, `pendingNeighbor, `peerData, `aliveDisconnect, `out
      ensures Valid() && ok == old(Admits(peer, priority))
      ensures ok ==> peer in active
      ensures !ok || peer in old(active) ==> active == old(active) && passive == old(passive)
      ensures |old(active)| < config.activeViewCapacity ==> Elems(old(active)) <= Elems(active)
      ensures Elems(active) <= Elems(old(active)) + {peer}
      ensures Elems(old(active)) <= Elems(active) + Elems(passive)
      ensures ok && reply ==> peer in pendingNeighbor
    {
      if peer == me {
        return false;
      }
      Learn(Info(peer, data));
      if peer in active {
        if reply {
          Ask(peer, priority);
        }
        return true;
      }
      if priority == Low && |active| >= config.activeViewCapacity {
        return false;
      }
      MakeRoom();
      assert peer !in Elems(active);
      Promote(peer);
      if reply {
        Ask(peer, priority);
      }
      ok := true;
    }

    /** Moves any neighbour to the passive view when the active view is full. */
    method MakeRoom()
      requires Valid()
      modifies `active, `passive, `pendingNeighbor, `peerData, `aliveDisconnect, `out
      ensures Valid() && |active| < AtLeastOne(config.activeViewCapacity)
      ensures |old(active)| < config.activeViewCapacity ==> active == old(active)
      ensures Elems(active) <= Elems(old(active)) <= Elems(active) + Elems(passive)
    {
      if |active| >= config.activeViewCapacity {
        var pick := Random(active);
        if pick.Some? {
          RemoveActive(pick.value, RandomRemoval, false, false);
          assert pick.value in Elems(passive);
        }
      }
    }

    // ----- handlers

    method Emit(e: OutEvent)
      requires Valid() && !e.NeighborUp? && !e.NeighborDown?
      modifies `out
      ensures Valid() && out == old(out) + [e]
    {
      out := out + [e];
      ReplayOne(base, old(out), e);
    }

    method SendAll(nodes: seq<PeerId>, message: Message)
      requires Valid()
      modifies `out
      ensures Valid() && out == old(out) + ToAll(nodes, message)
    {
      for i := 0 to |nodes|
        invariant out == old(out) + ToAll(nodes[..i], message)
      {
        assert nodes[..i + 1][..i] == nodes[..i];
        out := out + [SendMessage(nodes[i], message)];
      }
      assert nodes[..|nodes|] == nodes;
      ToAllQuiet(nodes, message);
      ReplayQuiet(base, old(out), ToAll(nodes, message));
    }

    method HandleJoin(peer: PeerId)
      requires Valid()
      modifies `out
      ensures Valid() && out == old(out) + [SendMessage(peer, Join(meData))]
    {
      Emit(SendMessage(peer, Join(meData)));
    }

    /** A joining peer becomes a neighbour and is announced to all others. */
    method OnJoin(peer: PeerId, data: Option<PeerData>)
      requires Valid()
      modifies `active, `passive, `pendingNeighbor, `peerData, `aliveDisconnect, `out
      ensures Valid() && (peer != me ==> peer in active && peer in pendingNeighbor)
      ensures Elems(active) <= Elems(old(active)) + {peer}
      ensures EndsWith(out, ToAll(Without(active, {peer}),
                                  ForwardJoin(Info(peer, data), config.activeRandomWalkLength)))
    {
      pendingNeighbor := pendingNeighbor - {peer};
      var ok := AddActive(peer, data, High, true);
      var others := Filter(active, {peer});
      SendAll(others, ForwardJoin(Info(peer, data), config.activeRandomWalkLength));
    }

    /** Answered here, or sent on to a neighbour other than the sender; the active view stays. */
    method OnForwardJoin(sender: PeerId, info: Info, ttl: nat)
      requires Valid()
      modifies `passive, `pendingNeighbor, `peerData, `out
      ensures Valid()
      ensures info.id in active || ttl == 0 || |active| <= 1 ==>
        && passive == old(passive) && pendingNeighbor == old(pendingNeighbor) + {info.id}
        && EndsWith(out, [SendMessage(info.id, Neighbor(High, meData))])
      ensures info.id !in active && ttl > 0 && |active| > 1 ==>
        && pendingNeighbor == old(pendingNeighbor) - {info.id}
        && (ttl == config.passiveRandomWalkLength && info.id != me ==> info.id in passive)
        && (ttl != config.passiveRandomWalkLength ==> passive == old(passive))
        && exists next ::
             next in active && next != sender && EndsWith(out, [SendMessage(next, ForwardJoin(info, ttl - 1))])
    {
      pendingNeighbor := pendingNeighbor - {info.id};
      if info.id in active || ttl == 0 || |active| <= 1 {
        Learn(info);
        Ask(info.id, High);
        return;
      }
      if ttl == config.passiveRandomWalkLength {
        Shelve(info);
      }
      var next := RandomWithout(active, {sender});
      UniqueSize(active);
      if next.None? {
        assert Elems(active) <= {sender};
        SubsetSize(Elems(active), {sender});
        assert false;
      }
      Emit(SendMessage(next.value, ForwardJoin(info, ttl - 1)));
    }

    method Shelve(info: Info)
      requires Valid()
      modifies `passive, `peerData, `out
      ensures Valid() && (info.id != me && info.id !in active ==> info.id in passive)
    {
      ghost var events := DataEvents(peerData, info);
      assert Info(info.id, info.data) == info;
      ghost var dropped := AddPassive(info.id, info.data);
      ReplayQuiet(base, old(out), events);
      assert info.id != me && info.id !in active ==> info.id in Elems(passive);
    }

    /** A peer that is not admitted is told so. */
    method OnNeighbor(from: PeerId, priority: Priority, data: Option<PeerData>)
      requires Valid()
      modifies `active, `passive, `pendingNeighbor, `peerData, `aliveDisconnect, `out
      ensures Valid()
      ensures old(Admits(from, priority)) ==>
                from in active && (from !in old(pendingNeighbor) ==> from in pendingNeighbor)
      ensures !old(Admits(from, priority)) ==>
        && active == old(active) && passive == old(passive)
        && EndsWith(out, [SendMessage(from, Disconnect(true)), DisconnectPeer(from)])
    {
      var isReply := from in pendingNeighbor;
      pendingNeighbor := pendingNeighbor - {from};
      var ok := AddActive(from, data, priority, !isReply);
      if !ok {
        TurnAway(from, true);
      }
    }

    method TurnAway(peer: PeerId, alive: bool)
      requires Valid()
      modifies `out
      ensures Valid() && EndsWith(out, [SendMessage(peer, Disconnect(alive)), DisconnectPeer(peer)])
    {
      ghost var ids := SendDisconnect(peer, alive);
      ReplayQuiet(base, old(out), Farewell(peer, InfosOf(peerData, ids), alive));
    }

    method OnDisconnect(peer: PeerId, alive: bool)
      requires Valid()
      modifies `active, `passive, `pendingNeighbor, `peerData, `aliveDisconnect, `out
      ensures Valid() && Elems(active) == Elems(old(active)) - {peer} && peer !in pendingNeighbor
      ensures alive && peer in old(active) ==> peer in passive
      ensures alive && (peer in old(active) || peer in old(passive)) ==> peer in aliveDisconnect
      ensures !alive ==> passive == old(passive)
    {
      pendingNeighbor := pendingNeighbor - {peer};
      if peer in active {
        RemoveActive(peer, DisconnectReceived, alive, true);
      } else if alive && peer in passive {
        aliveDisconnect := aliveDisconnect + {peer};
      }
    }

    /** A closed connection takes a peer out of all views unless it said it stays alive. */
    method HandleConnectionClosed(peer: PeerId)
      requires Valid()
      modifies `active, `passive, `pendingNeighbor, `peerData, `aliveDisconnect, `out
      ensures Valid() && Elems(active) == Elems(old(active)) - {peer} && peer !in pendingNeighbor
      ensures peer !in old(aliveDisconnect) ==> peer !in passive
      ensures peer in old(aliveDisconnect) && (peer in old(active) || peer in old(passive)) ==> peer in passive
      ensures aliveDisconnect == old(aliveDisconnect) - {peer}
    {
      pendingNeighbor := pendingNeighbor - {peer};
      if peer in active {
        assert peer !in Elems(passive);
        RemoveActive(peer, ConnectionClosed, false, true);
        return;
      }
      if peer in aliveDisconnect {
        aliveDisconnect := aliveDisconnect - {peer};
        return;
      }
      Forget(peer);
      assert peer !in Elems(passive);
      peerData := peerData - {peer};
    }

    /** Everyone is told, and no neighbour event is emitted. */
    method HandleQuit()
      requires Valid()
      modifies `active, `out
      ensures Views() && active == [] && Replay(base, out) == old(Replay(base, out))
      ensures forall p :: p in old(active) ==> SendMessage(p, Disconnect(false)) in out
    {
      var peers := active;
      for i := 0 to |peers|
        invariant Views() && active == peers[i..]
        invariant Replay(base, out) == old(Replay(base, out))
        invariant forall j :: 0 <= j < i ==> SendMessage(peers[j], Disconnect(false)) in out
      {
        var removed;
        ghost var before := active;
        active, removed := Remove(active, peers[i]);
        assert active == peers[i + 1..] by {
          assert before[0] == peers[i];
          var k :| 0 <= k < |before| && before[k] == peers[i] && active == before[..k] + before[k + 1..];
          assert k == 0;
        }
        ghost var sent := out;
        ghost var ids := SendDisconnect(peers[i], false);
        ReplayQuiet(base, sent, Farewell(peers[i], InfosOf(peerData, ids), false));
        assert SendMessage(peers[i], Disconnect(false)) in Farewell(peers[i], InfosOf(peerData, ids), false);
      }
    }

    /** The last of the nodes is known, in one view or the other. */
    ghost predicate LastTaken(nodes: seq<Info>)
      reads `active, `passive
    {
      nodes != [] ==> nodes[|nodes| - 1].id in {me} + Elems(active) + Elems(passive)
    }

    method AddAllPassive(nodes: seq<Info>)
      requires Valid()
      modifies `passive, `peerData, `out
      ensures Valid() && LastTaken(nodes)
      ensures Elems(passive) <= Elems(old(passive)) + set n | n in nodes :: n.id
    {
      for i := 0 to |nodes|
        invariant Valid() && Elems(passive) <= Elems(old(passive)) + set n | n in nodes[..i] :: n.id
        invariant i > 0 ==> nodes[i - 1].id in {me} + Elems(active) + Elems(passive)
      {
        ghost var named := set n | n in nodes[..i] :: n.id;
        ghost var before, events := out, DataEvents(peerData, Info(nodes[i].id, nodes[i].data));
        ghost var dropped := AddPassive(nodes[i].id, nodes[i].data);
        ReplayQuiet(base, before, events);
        assert nodes[i] in nodes[..i + 1];
        assert named <= set n | n in nodes[..i + 1] :: n.id;
      }
      assert nodes[..|nodes|] == nodes;
    }

    /** A walk that ends here is taken in and answered; otherwise it goes on to neither its origin nor its sender. */
    method OnShuffle(from: PeerId, origin: PeerId, nodes: seq<Info>, ttl: nat)
      requires Valid()
      modifies `passive, `peerData, `out
      ensures Valid()
      ensures Elems(passive) <= Elems(old(passive)) + set n | n in nodes :: n.id
      ensures ttl == 0 || |active| <= 1 ==>
        exists ids :: Sample(ids, |nodes|) && EndsWith(out, [SendMessage(origin, ShuffleReply(InfosOf(peerData, ids)))])
      ensures ttl > 0 && |active| > 1 ==>
        && passive == old(passive) && peerData == old(peerData)
        && (Elems(active) <= {origin, from} ==> out == old(out))
        && (!(Elems(active) <= {origin, from}) ==>
              exists next :: next in active && next !in {origin, from} &&
                             out == old(out) + [SendMessage(next, Shuffle(origin, nodes, ttl - 1))])
    {
      if ttl == 0 || |active| <= 1 {
        AddAllPassive(nodes);
        ghost var before := out;
        ghost var ids := SendShuffleReply(origin, |nodes|);
        ReplayOne(base, before, SendMessage(origin, ShuffleReply(InfosOf(peerData, ids))));
        return;
      }
      var next := RandomWithout(active, {origin, from});
      if next.Some? {
        Emit(SendMessage(next.value, Shuffle(origin, nodes, ttl - 1)));
      }
    }

    method OnShuffleReply(nodes: seq<Info>)
      requires Valid()
      modifies `passive, `pendingNeighbor, `peerData, `out
      ensures Valid() && LastTaken(nodes)
      ensures Elems(passive) <= Elems(old(passive)) + set n | n in nodes :: n.id
    {
      AddAllPassive(nodes);
      Refill({});
    }

    /** A shuffle to a neighbour: some peers of either view, with their data, and this peer. */
    ghost predicate Shuffles(e: OutEvent)
      reads `active, `passive, `peerData, `meData
    {
      exists to, some, more ::
        && to in active && Drawn(some, active, config.shuffleActiveViewCount, {to})
        && Drawn(more, passive, config.shufflePassiveViewCount, {to})
        && e == SendMessage(to, Shuffle(me, InfosOf(peerData, some + more) + [Info(me, meData)],
                                        config.shuffleRandomWalkLength))
    }

    /** A shuffle goes to one neighbour and names this peer; the timer is set again. */
    method HandleShuffleTimer()
      requires Valid()
      modifies `out
      ensures Valid()
      ensures active == [] ==> out == old(out) + [ScheduleTimer(config.shuffleInterval, DoShuffle)]
      ensures active != [] ==>
        exists e :: Shuffles(e) && out == old(out) + [e, ScheduleTimer(config.shuffleInterval, DoShuffle)]
    {
      var pick := Random(active);
      if pick.Some? {
        var some := ShuffledWithout(active, config.shuffleActiveViewCount, {pick.value});
        var more := ShuffledWithout(passive, config.shufflePassiveViewCount, {pick.value});
        var nodes := Infos(some + more);
        nodes := nodes + [Info(me, meData)];
        ghost var e := SendMessage(pick.value, Shuffle(me, nodes, config.shuffleRandomWalkLength));
        Emit(SendMessage(pick.value, Shuffle(me, nodes, config.shuffleRandomWalkLength)));
        assert Shuffles(e) && out + [ScheduleTimer(config.shuffleInterval, DoShuffle)] ==
                              old(out) + [e, ScheduleTimer(config.shuffleInterval, DoShuffle)];
      }
      Emit(ScheduleTimer(config.shuffleInterval, DoShuffle));
    }

    /** A peer that has not answered in time is dropped and another one asked. */
    method HandlePendingNeighborTimer(peer: PeerId)
      requires Valid()
      modifies `passive, `pendingNeighbor, `out
      ensures Valid()
      ensures peer !in old(pendingNeighbor) ==> unchanged(this)
      ensures peer in old(pendingNeighbor) ==> Elems(passive) == Elems(old(passive)) - {peer}
      ensures peer !in pendingNeighbor
    {
      if peer !in pendingNeighbor {
        return;
      }
      pendingNeighbor := pendingNeighbor - {peer};
      Forget(peer);
      assert peer !in Elems(passive);
      Refill({});
    }

    /** What a message brings about, given the active view before it. */
    ghost predicate Obeys(from: PeerId, message: Message, before: seq<PeerId>)
      reads `active, `passive, `pendingNeighbor, `out
    {
      match message
      case Join(_) => from != me ==> from in active
      case Neighbor(priority, _) =>
        from != me && (from in before || priority == High || |before| < config.activeViewCapacity) ==> from in active
      case Disconnect(_) => from !in active
      case ForwardJoin(peer, ttl) => peer.id in before || ttl == 0 || |before| <= 1 ==> peer.id in pendingNeighbor
      case Shuffle(origin, _, ttl) =>
        ttl == 0 || |before| <= 1 ==> exists nodes :: SendMessage(origin, ShuffleReply(nodes)) in out
      case ShuffleReply(nodes) => Elems(active) == Elems(before) && LastTaken(nodes)
    }

    /** Whoever sends anything but a Disconnect is a neighbour afterwards or is disconnected. */
    method HandleMessage(from: PeerId, message: Message)
      requires Valid()
      modifies `active, `passive, `pendingNeighbor, `peerData, `aliveDisconnect, `out, `totalConnections
      ensures Valid()
      ensures Obeys(from, message, old(active))
      ensures !message.Disconnect? ==> from in active || DisconnectPeer(from) in out
      ensures totalConnections == old(totalConnections) + if message.Disconnect? || from in old(active) then 0 else 1
    {
      if !message.Disconnect? && from !in active {
        totalConnections := totalConnections + 1;
      }
      match message {
        case Join(data) => OnJoin(from, data);
        case ForwardJoin(peer, ttl) => OnForwardJoin(from, peer, ttl);
        case Shuffle(origin, nodes, ttl) => OnShuffle(from, origin, nodes, ttl);
        case ShuffleReply(nodes) => OnShuffleReply(nodes);
        case Neighbor(priority, data) => OnNeighbor(from, priority, data);
        case Disconnect(alive) =>
          OnDisconnect(from, alive);
          assert from !in Elems(active);
      }
      if !message.Disconnect? && from !in active {
        Emit(DisconnectPeer(from));
      }
    }

    /** Data is kept only of peers in a view or awaited. */
    method ForgetStrangers()
      modifies `peerData
      ensures peerData == map p | p in old(peerData) &&
              (p in pendingNeighbor || p in active || p in passive) :: old(peerData)[p]
    {
      var todo := peerData.Keys;
      while todo != {}
        invariant todo <= peerData.Keys <= old(peerData).Keys
        invariant forall p :: p in peerData ==> peerData[p] == old(peerData)[p]
        invariant forall p :: p in old(peerData) && p !in todo ==>
          (p in peerData <==> p in pendingNeighbor || p in active || p in passive)
        decreases todo
      {
        var p :| p in todo;
        todo := todo - {p};
        if p !in pendingNeighbor && p !in active && p !in passive {
          peerData := peerData - {p};
        }
      }
    }

    method Dispatch(ev: InEvent)
      requires Valid()
      modifies this
      ensures Views() && base == old(base) && handled == old(handled)
      ensures !ev.Quit? ==> Tracked()
      ensures meData == if ev.UpdatePeerData? then ev.data else old(meData)
      ensures ev.RecvMessage? ==> Obeys(ev.from, ev.message, old(active))
      ensures ev.RequestJoin? ==> SendMessage(ev.peer, Join(meData)) in out
      ensures ev.TimerExpired? && ev.timer.DoShuffle? ==> ScheduleTimer(config.shuffleInterval, DoShuffle) in out
      ensures ev.TimerExpired? && ev.timer.PendingNeighborRequest? ==> ev.timer.peer !in pendingNeighbor
      ensures ev.Quit? ==> forall p :: p in old(active) ==> SendMessage(p, Disconnect(false)) in out
      ensures ev.Quit? ==> active == [] && Replay(base, out) == old(Replay(base, out))
      ensures ev.RecvMessage? && !ev.message.Disconnect? ==> ev.from in active || DisconnectPeer(ev.from) in out
      ensures ev.PeerDisconnected? ==> ev.peer !in active
    {
      match ev {
        case RecvMessage(from, message) => HandleMessage(from, message);
        case TimerExpired(DoShuffle) => HandleShuffleTimer();
        case TimerExpired(PendingNeighborRequest(peer)) => HandlePendingNeighborTimer(peer);
        case PeerDisconnected(peer) =>
          HandleConnectionClosed(peer);
          assert peer !in Elems(active);
        case RequestJoin(peer) => HandleJoin(peer);
        case UpdatePeerData(data) => meData := data;
        case Quit => HandleQuit();
      }
    }

    /**
     Handles one event. Both views stay duplicate-free, disjoint, without this peer and within
     capacity. The neighbour events alternate and lead from the old active view to the new one,
     except on Quit, which empties the view without any. Peer data never outlives the views.
     */
    method Handle(ev: InEvent) returns (events: seq<OutEvent>)
      requires Views()
      modifies this
      ensures Views() && shuffleScheduled && handled == old(handled) + [ev]
      ensures meData == if ev.UpdatePeerData? then ev.data else old(meData)
      ensures events == out && (ev.RecvMessage? ==> Obeys(ev.from, ev.message, old(active)))
      ensures ev.RequestJoin? ==> SendMessage(ev.peer, Join(meData)) in events
      ensures ev.TimerExpired? && ev.timer.DoShuffle? ==> ScheduleTimer(config.shuffleInterval, DoShuffle) in events
      ensures ev.TimerExpired? && ev.timer.PendingNeighborRequest? ==> ev.timer.peer !in pendingNeighbor
      ensures ev.Quit? ==> forall p :: p in old(active) ==> SendMessage(p, Disconnect(false)) in events
      ensures !ev.Quit? ==> Replay(Elems(old(active)), events) == Some(Elems(active))
      ensures ev.Quit? ==> active == [] && Replay(Elems(old(active)), events) == Some(Elems(old(active)))
      ensures peerData.Keys <= Elems(active) + Elems(passive) + pendingNeighbor
      ensures ev.RecvMessage? && !ev.message.Disconnect? ==> ev.from in active || DisconnectPeer(ev.from) in events
      ensures ev.PeerDisconnected? ==> ev.peer !in active
    {
      out, base := [], Elems(active);
      Dispatch(ev);
      if !shuffleScheduled {
        ReplayOne(base, out, ScheduleTimer(config.shuffleInterval, DoShuffle));
        out := out + [ScheduleTimer(config.shuffleInterval, DoShuffle)];
        shuffleScheduled := true;
      }
      ForgetStrangers();
      handled := handled + [ev];
      events := out;
    }

    /**
     Over every run the views stay in order. The neighbour events of the whole run lead to the active view if
     and only if no Quit found a neighbour; views are those between the events.
     */
    method Run(events: seq<InEvent>) returns (log: seq<seq<OutEvent>>, ghost views: seq<set<PeerId>>)
      requires Views()
      modifies this
      ensures Views() && FollowsAll(QuitsOf(events), log, views)
      ensures views[0] == Elems(old(active)) && views[|events|] == Elems(active)
      ensures Replay(Elems(old(active)), Flatten(log)) == Some(Elems(active)) <==>
              QuitsFindNobody(QuitsOf(events), views)
    {
      log, views := [], [Elems(active)];
      for i := 0 to |events|
        invariant Views() && FollowsAll(QuitsOf(events[..i]), log, views)
        invariant views[0] == Elems(old(active)) && views[i] == Elems(active)
      {
        var out := Handle(events[i]);
        FollowsOneMore(QuitsOf(events[..i]), log, views, events[i].Quit?, out, Elems(active));
        assert QuitsOf(events[..i + 1]) == QuitsOf(events[..i]) + [events[i].Quit?];
        log, views := log + [out], views + [Elems(active)];
      }
      assert events[..|events|] == events;
      ReplayIff(QuitsOf(events), log, views);
    }
  }

  /** Views of capacity below one take in a peer each, one that joins and one that it names. */
  method BelowOneHoldsOne(me: PeerId, config: Config, peer: PeerId, named: PeerId) returns (state: HyparviewState)
    requires config.activeViewCapacity < 1 && config.passiveViewCapacity < 1 && peer != me && named !in {me, peer}
    ensures state.Views() && state.config == config
    ensures state.handled == [RecvMessage(peer, Join(None)), RecvMessage(peer, ShuffleReply([Info(named, None)]))]
    ensures state.active == [peer] && state.passive == [named]
  {
    state := new HyparviewState(me, None, config);
    var joined := state.Handle(RecvMessage(peer, Join(None)));
    assert state.active == [peer];
    var shuffled := state.Handle(RecvMessage(peer, ShuffleReply([Info(named, None)])));
    assert peer in Elems(state.active) && named in Elems(state.passive);
  }
}
