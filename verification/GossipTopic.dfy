/** One topic (internal/gossipproto/topic.go): membership events drive the broadcast layer. */
module GossipTopic {
  import opened Bytes
  import opened GossipPeers
  import opened GossipMissing
  import H = GossipHyparview
  import D = GossipDelivery
  import P = GossipPlumtree

  datatype Message = SwarmMessage(swarm: H.Message) | BroadcastMessage(gossip: D.Message)

  datatype Timer = SwarmTimer(hyparview: H.Timer) | BroadcastTimer(plumtree: D.Timer)

  datatype Command = Join(peers: seq<PeerId>) | Broadcast(content: seq<Byte>, audience: D.Audience) | Quit

  datatype InEvent =
    | RecvMessage(from: PeerId, message: Message, now: int)
    | CommandEvent(command: Command, now: int)
    | TimerExpired(timer: Timer, now: int)
    | PeerDisconnected(peer: PeerId)
    | UpdatePeerData(data: PeerData)

  datatype OutEvent =
    | SendMessage(to: PeerId, message: Message)
    | ScheduleTimer(after: nat, timer: Timer)
    | DisconnectPeer(to: PeerId)
    | NeighborUp(peer: PeerId)
    | NeighborDown(peer: PeerId)
    | Received(content: seq<Byte>, from: PeerId, scope: D.Scope)
    | NewPeerData(to: PeerId, data: PeerData)

  // ----- what the outputs say

  function Translate(e: H.OutEvent): (t: OutEvent)
  {
    match e
    case SendMessage(to, message) => SendMessage(to, SwarmMessage(message))
    case ScheduleTimer(after, timer) => ScheduleTimer(after, SwarmTimer(timer))
    case DisconnectPeer(to) => DisconnectPeer(to)
    case NeighborUp(peer) => NeighborUp(peer)
    case NeighborDown(peer) => NeighborDown(peer)
    case NewPeerData(to, data) => NewPeerData(to, data)
  }

  function TranslateBroadcast(e: D.OutEvent): (t: OutEvent)
  {
    match e
    case SendMessage(to, message) => SendMessage(to, BroadcastMessage(message))
    case ScheduleTimer(after, timer) => ScheduleTimer(after, BroadcastTimer(timer))
    case Received(content, from, scope) => Received(content, from, scope)
  }

  function TranslateAll(events: seq<D.OutEvent>): (out: seq<OutEvent>)
  {
    if events == [] then [] else TranslateAll(events[..|events| - 1]) + [TranslateBroadcast(events[|events| - 1])]
  }

  /** The changes of neighbours in an output, as the membership layer's. */
  function Changes(out: seq<OutEvent>): (changes: seq<H.OutEvent>)
  {
    if out == [] then [] else Changes(out[..|out| - 1]) + ChangeOf(out[|out| - 1])
  }

  function ChangeOf(e: OutEvent): (change: seq<H.OutEvent>)
  {
    match e
    case NeighborUp(p) => [H.NeighborUp(p)]
    case NeighborDown(p) => [H.NeighborDown(p)]
    case _ => []
  }

  /** The membership view that the application can follow from the events, as in the membership layer. */
  function Replay(view: set<PeerId>, out: seq<OutEvent>): (r: Option<set<PeerId>>)
  {
    H.Replay(view, Changes(out))
  }

  predicate Quiet(out: seq<OutEvent>)
  {
    Changes(out) == []
  }

  lemma ChangesOne(out: seq<OutEvent>, e: OutEvent)
    ensures Changes(out + [e]) == Changes(out) + ChangeOf(e)
  {
    assert (out + [e])[..|out|] == out;
  }

  lemma ReplayTranslated(view: set<PeerId>, changes: seq<H.OutEvent>, e: H.OutEvent)
    ensures H.Replay(view, changes + ChangeOf(Translate(e))) == H.Moved(H.Replay(view, changes), e)
  {
    match e {
      case NeighborUp(_) => H.ReplayOne(view, changes, e);
      case NeighborDown(_) => H.ReplayOne(view, changes, e);
      case _ => assert changes + [] == changes;
    }
  }

  lemma {:induction false} ChangesJoin(a: seq<OutEvent>, b: seq<OutEvent>)
    ensures Changes(a + b) == Changes(a) + Changes(b)
    decreases |b|
  {
    if b == [] {
      assert a + b == a;
      assert Changes(a) + [] == Changes(a);
    } else {
      var front, last := b[..|b| - 1], b[|b| - 1];
      ChangesJoin(a, front);
      assert (a + b)[..|a + b| - 1] == a + front;
      JoinAssociates(Changes(a), Changes(front), ChangeOf(last));
    }
  }

  function ChangesOfAll(log: seq<seq<OutEvent>>): (changes: seq<seq<H.OutEvent>>)
  {
    seq(|log|, i requires 0 <= i < |log| => Changes(log[i]))
  }

  lemma {:induction false} ChangesOfRun(log: seq<seq<OutEvent>>)
    ensures Flatten(ChangesOfAll(log)) == Changes(Flatten(log))
    decreases |log|
  {
    if log != [] {
      var front, last := log[..|log| - 1], log[|log| - 1];
      ChangesOfRun(front);
      ChangesJoin(Flatten(front), last);
      assert ChangesOfAll(log)[..|log| - 1] == ChangesOfAll(front);
    }
  }

  function Sent(out: seq<OutEvent>): (n: nat)
  {
    if out == [] then 0 else Sent(out[..|out| - 1]) + if out[|out| - 1].SendMessage? then 1 else 0
  }

  lemma ReplayJoins(view: set<PeerId>, a: seq<OutEvent>, b: seq<OutEvent>)
    ensures Replay(view, a + b) == var mid := Replay(view, a); if mid.None? then None else Replay(mid.value, b)
  {
    ChangesJoin(a, b);
    H.ReplayJoins(view, Changes(a), Changes(b));
  }

  lemma {:induction false} TranslateQuiet(events: seq<D.OutEvent>)
    ensures Quiet(TranslateAll(events))
    decreases |events|
  {
    if events != [] {
      TranslateQuiet(events[..|events| - 1]);
      ChangesOne(TranslateAll(events[..|events| - 1]), TranslateBroadcast(events[|events| - 1]));
    }
  }

  method FromPlumtree(events: seq<D.OutEvent>) returns (out: seq<OutEvent>)
    ensures out == TranslateAll(events) && Quiet(out)
  {
    out := [];
    for i := 0 to |events|
      invariant out == TranslateAll(events[..i])
    {
      assert events[..i + 1][..i] == events[..i];
      match events[i] {
        case SendMessage(to, message) => out := out + [SendMessage(to, BroadcastMessage(message))];
        case ScheduleTimer(after, timer) => out := out + [ScheduleTimer(after, BroadcastTimer(timer))];
        case Received(content, from, scope) => out := out + [Received(content, from, scope)];
      }
    }
    assert events[..|events|] == events;
    TranslateQuiet(events);
  }

  // ----- the part of an output that comes from the membership layer

  function TranslateSwarm(events: seq<H.OutEvent>): (out: seq<OutEvent>)
  {
    if events == [] then [] else TranslateSwarm(events[..|events| - 1]) + [Translate(events[|events| - 1])]
  }

  predicate FromSwarm(e: OutEvent)
  {
    !(e.ScheduleTimer? && e.timer.BroadcastTimer?)
  }

  /** The events without the timers of the broadcast layer. */
  function SwarmPart(out: seq<OutEvent>): (part: seq<OutEvent>)
  {
    if out == [] then [] else SwarmPart(out[..|out| - 1]) + if FromSwarm(out[|out| - 1]) then [out[|out| - 1]] else []
  }

  /** out is the translation of events, but for timers of the broadcast layer. */
  ghost predicate Renders(view: set<PeerId>, out: seq<OutEvent>, events: seq<H.OutEvent>)
  {
    SwarmPart(out) == TranslateSwarm(events) && Replay(view, out) == H.Replay(view, events)
  }

  lemma RendersNext(view: set<PeerId>, out: seq<OutEvent>, events: seq<H.OutEvent>, e: H.OutEvent)
    requires Renders(view, out, events)
    ensures Renders(view, out + [Translate(e)], events + [e])
  {
    assert (out + [Translate(e)])[..|out|] == out && (events + [e])[..|events|] == events;
    ChangesOne(out, Translate(e));
    ReplayTranslated(view, Changes(out), e);
    H.ReplayOne(view, events, e);
  }

  predicate Timers(more: seq<OutEvent>)
  {
    more == [] || (|more| == 1 && !FromSwarm(more[0]))
  }

  lemma RendersTimers(view: set<PeerId>, out: seq<OutEvent>, events: seq<H.OutEvent>, more: seq<OutEvent>)
    requires Renders(view, out, events) && Timers(more)
    ensures Renders(view, out + more, events) && Informs(more) == []
  {
    if more == [] {
      assert out + more == out;
    } else {
      assert (out + more)[..|out|] == out && more == [more[0]];
      ChangesOne(out, more[0]);
      assert Changes(out) + [] == Changes(out);
    }
  }

  lemma PrefixReplays(view: set<PeerId>, events: seq<H.OutEvent>, i: nat)
    requires H.Replay(view, events).Some? && i <= |events|
    ensures H.Replay(view, events[..i]).Some?
  {
    assert events == events[..i] + events[i..];
    H.ReplayJoins(view, events[..i], events[i..]);
  }

  // ----- which layer is told what

  /** What a membership output tells the broadcast layer. */
  function InformOf(e: OutEvent): (told: seq<D.InEvent>)
  {
    match e
    case NeighborUp(p) => [D.NeighborUp(p)]
    case NeighborDown(p) => [D.NeighborDown(p)]
    case _ => []
  }

  function Informs(out: seq<OutEvent>): (told: seq<D.InEvent>)
  {
    if out == [] then [] else Informs(out[..|out| - 1]) + InformOf(out[|out| - 1])
  }

  lemma InformsOne(out: seq<OutEvent>, e: OutEvent)
    ensures Informs(out + [e]) == Informs(out) + InformOf(e)
  {
    assert (out + [e])[..|out|] == out;
  }

  lemma InformsJoinOne(a: seq<OutEvent>, b: seq<OutEvent>, e: OutEvent)
    requires Informs(a + b) == Informs(a) + Informs(b)
    ensures Informs(a + b + [e]) == Informs(a) + Informs(b + [e])
  {
    InformsOne(a + b, e);
    InformsOne(b, e);
    JoinAssociates(Informs(a), Informs(b), InformOf(e));
  }

  lemma {:induction false} InformsJoin(a: seq<OutEvent>, b: seq<OutEvent>)
    ensures Informs(a + b) == Informs(a) + Informs(b)
    decreases |b|
  {
    if b == [] {
      InformsNone(a, b);
    } else {
      var front, last := b[..|b| - 1], b[|b| - 1];
      InformsJoin(a, front);
      InformsJoinOne(a, front, last);
      FrontAndLast(a, b);
    }
  }

  lemma InformsNone(a: seq<OutEvent>, none: seq<OutEvent>)
    requires none == []
    ensures Informs(a + none) == Informs(a) + Informs(none)
  {
    assert a + none == a;
    assert Informs(a) + [] == Informs(a);
  }

  /** One more membership output, with the timer that the broadcast layer may set for it. */
  lemma OutputFollows(view: set<PeerId>, out: seq<OutEvent>, events: seq<H.OutEvent>, e: H.OutEvent,
                      more: seq<OutEvent>, told: seq<D.InEvent>)
    requires Renders(view, out, events) && Timers(more)
    ensures Renders(view, out + [Translate(e)] + more, events + [e])
    ensures told + Informs(out) + InformOf(Translate(e)) == told + Informs(out + [Translate(e)] + more)
  {
    var next := out + [Translate(e)];
    RendersNext(view, out, events, e);
    RendersTimers(view, next, events + [e], more);
    InformsOne(out, Translate(e));
    InformsJoin(next, more);
    JoinAssociates(told, Informs(out), InformOf(Translate(e)));
  }

  lemma {:induction false} InformsQuiet(out: seq<OutEvent>)
    requires Quiet(out)
    ensures Informs(out) == []
    decreases |out|
  {
    if out != [] {
      InformsQuiet(out[..|out| - 1]);
    }
  }

  /** Two outputs in turn: the views they lead through and what they tell the broadcast layer. */
  lemma OutputsJoin(view: set<PeerId>, a: seq<OutEvent>, mid: set<PeerId>, b: seq<OutEvent>, after: set<PeerId>,
                    told: seq<D.InEvent>)
    requires Replay(view, a) == Some(mid) && Replay(mid, b) == Some(after)
    ensures Replay(view, a + b) == Some(after)
    ensures told + Informs(a) + Informs(b) == told + Informs(a + b)
  {
    ReplayJoins(view, a, b);
    InformsJoin(a, b);
    JoinAssociates(told, Informs(a), Informs(b));
  }

  function Joins(peers: seq<PeerId>): (events: seq<H.InEvent>)
  {
    if peers == [] then [] else Joins(peers[..|peers| - 1]) + [H.RequestJoin(peers[|peers| - 1])]
  }

  lemma JoinsStep(peers: seq<PeerId>, i: nat)
    requires i < |peers|
    ensures Joins(peers[..i + 1]) == Joins(peers[..i]) + [H.RequestJoin(peers[i])]
  {
    assert peers[..i + 1][..i] == peers[..i];
  }

  /** The events of the membership layer that an event of the topic stands for. */
  function SwarmEvents(ev: InEvent): (events: seq<H.InEvent>)
  {
    match ev
    case CommandEvent(Join(peers), _) => Joins(peers)
    case CommandEvent(Quit, _) => [H.Quit]
    case CommandEvent(Broadcast(_, _), _) => []
    case RecvMessage(from, SwarmMessage(m), _) => [H.RecvMessage(from, m)]
    case RecvMessage(_, BroadcastMessage(_), _) => []
    case TimerExpired(SwarmTimer(t), _) => [H.TimerExpired(t)]
    case TimerExpired(BroadcastTimer(_), _) => []
    case PeerDisconnected(peer) => [H.PeerDisconnected(peer)]
    case UpdatePeerData(data) => [H.UpdatePeerData(Some(data))]
  }

  /** Those of the broadcast layer, besides the changes of neighbours. */
  function GossipEvents(ev: InEvent): (events: seq<D.InEvent>)
  {
    match ev
    case CommandEvent(Broadcast(content, audience), now) => [D.Broadcast(content, audience, now)]
    case RecvMessage(from, BroadcastMessage(m), now) => [D.RecvMessage(from, m, now)]
    case TimerExpired(BroadcastTimer(t), now) => [D.TimerExpired(t, now)]
    case PeerDisconnected(peer) => [D.NeighborDown(peer)]
    case _ => []
  }

  class TopicState {
    const swarm: H.HyparviewState
    const gossip: P.PlumtreeState
    var messagesSent: nat
    var messagesReceived: nat

    /** Both layers are in order, and every neighbour is in exactly one of the eager and the lazy set. */
    ghost predicate Valid()
      reads this, swarm, gossip
    {
      swarm.Views() && gossip.Stable() && Elems(swarm.active) <= gossip.eager + gossip.lazy
    }

    constructor (me: PeerId, data: Option<PeerData>, membership: H.Config, broadcast: D.Config,
                 idOf: seq<Byte> -> MsgId)
      ensures Valid() && fresh(swarm) && fresh(gossip) && swarm.active == [] && messagesSent == messagesReceived == 0
    {
      swarm := new H.HyparviewState(me, data, membership);
      gossip := new P.PlumtreeState(me, broadcast, idOf);
      messagesSent, messagesReceived := 0, 0;
    }

    /** Passes a neighbour event on to the broadcast layer, which may set its first timer. */
    method Inform(ev: D.InEvent) returns (out: seq<OutEvent>)
      requires gossip.Stable() && !D.Timed(ev)
      modifies gossip
      ensures gossip.Stable() && gossip.Effect(ev, old(gossip.Now()))
      ensures Timers(out) && gossip.handled == old(gossip.handled) + [ev]
    {
      var events := gossip.Handle(ev);
      out := FromPlumtree(events);
    }

    /** Lets the broadcast layer follow one output of the membership layer. */
    method Follow(e: H.OutEvent, ghost view: set<PeerId>) returns (out: seq<OutEvent>)
      requires gossip.Stable() && view <= gossip.eager + gossip.lazy && H.Moved(Some(view), e).Some?
      modifies gossip
      ensures gossip.Stable() && H.Moved(Some(view), e).value <= gossip.eager + gossip.lazy
      ensures Timers(out) && gossip.handled == old(gossip.handled) + InformOf(Translate(e))
    {
      match e {
        case NeighborUp(peer) => out := Inform(D.NeighborUp(peer));
        case NeighborDown(peer) => out := Inform(D.NeighborDown(peer));
        case _ =>
          out := [];
          assert InformOf(Translate(e)) == [];
      }
    }

    /** Translates the outputs of the membership layer and lets the broadcast layer follow its neighbour events. */
    method FromHyparview(events: seq<H.OutEvent>, ghost view: set<PeerId>) returns (out: seq<OutEvent>)
      requires gossip.Stable() && H.Replay(view, events).Some? && view <= gossip.eager + gossip.lazy
      modifies gossip
      ensures gossip.Stable() && H.Replay(view, events).value <= gossip.eager + gossip.lazy
      ensures Renders(view, out, events) && gossip.handled == old(gossip.handled) + Informs(out)
    {
      out := [];
      for i := 0 to |events|
        invariant gossip.Stable() && Renders(view, out, events[..i])
        invariant gossip.handled == old(gossip.handled) + Informs(out)
        invariant H.Replay(view, events[..i]).Some? && H.Replay(view, events[..i]).value <= gossip.eager + gossip.lazy
      {
        ghost var before := H.Replay(view, events[..i]).value;
        assert events[..i + 1] == events[..i] + [events[i]];
        PrefixReplays(view, events, i + 1);
        H.ReplayOne(view, events[..i], events[i]);
        var more := Follow(events[i], before);
        OutputFollows(view, out, events[..i], events[i], more, old(gossip.handled));
        out := out + [Translate(events[i])] + more;
      }
      assert events[..|events|] == events;
    }

    /** An event of the membership layer. */
    method Membership(ev: H.InEvent) returns (out: seq<OutEvent>)
      requires Valid()
      modifies swarm, gossip
      ensures Valid()
      ensures !ev.Quit? ==> Replay(Elems(old(swarm.active)), out) == Some(Elems(swarm.active))
      ensures ev.Quit? ==> swarm.active == [] && Replay(Elems(old(swarm.active)), out) == Some(Elems(old(swarm.active)))
      ensures ev.PeerDisconnected? ==> ev.peer !in swarm.active
      ensures swarm.handled == old(swarm.handled) + [ev] && gossip.handled == old(gossip.handled) + Informs(out)
    {
      ghost var view := Elems(swarm.active);
      var events := swarm.Handle(ev);
      out := FromHyparview(events, view);
    }

    /** An event of the broadcast layer other than a change of neighbours. */
    method Broadcasting(ev: D.InEvent) returns (out: seq<OutEvent>)
      requires Valid() && D.Timed(ev)
      modifies gossip
      ensures Valid() && Quiet(out) && gossip.handled == old(gossip.handled) + Informs(out) + [ev]
    {
      var events := gossip.Handle(ev);
      out := FromPlumtree(events);
      InformsQuiet(out);
    }

    method JoinAll(peers: seq<PeerId>) returns (out: seq<OutEvent>)
      requires Valid()
      modifies swarm, gossip
      ensures Valid() && Replay(Elems(old(swarm.active)), out) == Some(Elems(swarm.active))
      ensures swarm.handled == old(swarm.handled) + Joins(peers) && gossip.handled == old(gossip.handled) + Informs(out)
    {
      out := [];
      for i := 0 to |peers|
        invariant Valid() && Replay(Elems(old(swarm.active)), out) == Some(Elems(swarm.active))
        invariant swarm.handled == old(swarm.handled) + Joins(peers[..i])
        invariant gossip.handled == old(gossip.handled) + Informs(out)
      {
        JoinsStep(peers, i);
        out := JoinOne(peers[i], out, Elems(old(swarm.active)), old(gossip.handled));
      }
      assert peers[..|peers|] == peers;
    }

    /** One more request to join, after the given output since the view was as at the start. */
    method JoinOne(peer: PeerId, soFar: seq<OutEvent>, ghost view: set<PeerId>, ghost told: seq<D.InEvent>)
      returns (out: seq<OutEvent>)
      requires Valid() && Replay(view, soFar) == Some(Elems(swarm.active)) && gossip.handled == told + Informs(soFar)
      modifies swarm, gossip
      ensures Valid() && Replay(view, out) == Some(Elems(swarm.active))
      ensures swarm.handled == old(swarm.handled) + [H.RequestJoin(peer)] && gossip.handled == told + Informs(out)
    {
      ghost var mid := Elems(swarm.active);
      var more := Membership(H.RequestJoin(peer));
      OutputsJoin(view, soFar, mid, more, Elems(swarm.active), told);
      out := soFar + more;
    }

    /** A lost connection is told to both layers. */
    method Disconnected(peer: PeerId) returns (out: seq<OutEvent>)
      requires Valid()
      modifies swarm, gossip
      ensures Valid() && peer !in swarm.active && peer !in gossip.eager && peer !in gossip.lazy
      ensures Replay(Elems(old(swarm.active)), out) == Some(Elems(swarm.active))
      ensures swarm.handled == old(swarm.handled) + [H.PeerDisconnected(peer)]
      ensures gossip.handled == old(gossip.handled) + Informs(out) + [D.NeighborDown(peer)]
    {
      out := Membership(H.PeerDisconnected(peer));
      var more := Inform(D.NeighborDown(peer));
      ReplayJoins(Elems(old(swarm.active)), out, more);
      InformsQuiet(more);
      InformsJoin(out, more);
      out := out + more;
    }

    method CountSent(out: seq<OutEvent>)
      modifies `messagesSent
      ensures messagesSent == old(messagesSent) + Sent(out)
    {
      for i := 0 to |out|
        invariant messagesSent == old(messagesSent) + Sent(out[..i])
      {
        assert out[..i + 1][..i] == out[..i];
        if out[i].SendMessage? {
          messagesSent := messagesSent + 1;
        }
      }
      assert out[..|out|] == out;
    }

    predicate Quits(ev: InEvent)
    {
      ev.CommandEvent? && ev.command.Quit?
    }

    method Command(command: Command, now: int) returns (out: seq<OutEvent>)
      requires Valid()
      modifies swarm, gossip
      ensures Valid()
      ensures !command.Quit? ==> Replay(Elems(old(swarm.active)), out) == Some(Elems(swarm.active))
      ensures command.Quit? ==>
        swarm.active == [] && Replay(Elems(old(swarm.active)), out) == Some(Elems(old(swarm.active)))
      ensures Told(CommandEvent(command, now), out, old(swarm.handled), old(gossip.handled))
    {
      match command {
        case Join(peers) => out := JoinAll(peers);
        case Broadcast(content, audience) =>
          out := Broadcasting(D.Broadcast(content, audience, now));
        case Quit => out := Membership(H.Quit);
      }
    }

    /** Each layer is told what the event means for it, and the broadcast layer every change of neighbours, in order. */
    ghost predicate Told(ev: InEvent, out: seq<OutEvent>, swarmBefore: seq<H.InEvent>, gossipBefore: seq<D.InEvent>)
      reads swarm, gossip
    {
      swarm.handled == swarmBefore + SwarmEvents(ev) && gossip.handled == gossipBefore + Informs(out) + GossipEvents(ev)
    }

    method Dispatch(ev: InEvent) returns (out: seq<OutEvent>)
      requires Valid()
      modifies swarm, gossip
      ensures Valid()
      ensures !Quits(ev) ==> Replay(Elems(old(swarm.active)), out) == Some(Elems(swarm.active))
      ensures Quits(ev) ==>
        swarm.active == [] && Replay(Elems(old(swarm.active)), out) == Some(Elems(old(swarm.active)))
      ensures Told(ev, out, old(swarm.handled), old(gossip.handled))
    {
      match ev {
        case CommandEvent(command, now) => out := Command(command, now);
        case RecvMessage(from, SwarmMessage(m), _) => out := Membership(H.RecvMessage(from, m));
        case RecvMessage(from, BroadcastMessage(m), now) =>
          out := Broadcasting(D.RecvMessage(from, m, now));
        case TimerExpired(SwarmTimer(t), _) => out := Membership(H.TimerExpired(t));
        case TimerExpired(BroadcastTimer(t), now) =>
          out := Broadcasting(D.TimerExpired(t, now));
        case PeerDisconnected(peer) => out := Disconnected(peer);
        case UpdatePeerData(data) => out := Membership(H.UpdatePeerData(Some(data)));
      }
    }

    /**
     Handles one event. Every neighbour stays in exactly one of the eager and the lazy set, and the
     neighbour events that the application sees lead from the old active view to the new one, except on Quit.
     */
    method Handle(ev: InEvent) returns (out: seq<OutEvent>)
      requires Valid()
      modifies this, swarm, gossip
      ensures Valid()
      ensures !Quits(ev) ==> Replay(Elems(old(swarm.active)), out) == Some(Elems(swarm.active))
      ensures Quits(ev) ==>
        swarm.active == [] && Replay(Elems(old(swarm.active)), out) == Some(Elems(old(swarm.active)))
      ensures Told(ev, out, old(swarm.handled), old(gossip.handled))
      ensures messagesSent == old(messagesSent) + Sent(out)
      ensures messagesReceived == old(messagesReceived) + if ev.RecvMessage? then 1 else 0
    {
      if ev.RecvMessage? {
        messagesReceived := messagesReceived + 1;
      }
      out := Dispatch(ev);
      CountSent(out);
    }

    function QuitsOf(events: seq<InEvent>): (quits: seq<bool>)
    {
      seq(|events|, i requires 0 <= i < |events| => Quits(events[i]))
    }

    /**
     Over every run; the outputs lead the application from the view at the start to the active view if and
     only if no Quit found a neighbour. views are the active views between the events.
     */
    method Run(events: seq<InEvent>) returns (log: seq<seq<OutEvent>>, ghost views: seq<set<PeerId>>)
      requires Valid()
      modifies this, swarm, gossip
      ensures Valid() && forall p :: p in swarm.active ==> (p in gossip.eager <==> p !in gossip.lazy)
      ensures H.FollowsAll(QuitsOf(events), ChangesOfAll(log), views)
      ensures views[0] == Elems(old(swarm.active)) && views[|events|] == Elems(swarm.active)
      ensures Replay(Elems(old(swarm.active)), Flatten(log)) == Some(Elems(swarm.active)) <==>
              H.QuitsFindNobody(QuitsOf(events), views)
    {
      log, views := [], [Elems(swarm.active)];
      for i := 0 to |events|
        invariant Valid() && H.FollowsAll(QuitsOf(events[..i]), ChangesOfAll(log), views)
        invariant views[0] == Elems(old(swarm.active)) && views[i] == Elems(swarm.active) && |log| == i
      {
        ghost var before := Elems(swarm.active);
        var out := Handle(events[i]);
        RunStep(events, i, log, views, out, before, Elems(swarm.active));
        log, views := log + [out], views + [Elems(swarm.active)];
      }
      assert events[..|events|] == events;
      RunReplays(QuitsOf(events), log, views);
      ExactlyOne();
    }

    lemma ExactlyOne()
      requires Valid()
      ensures forall p :: p in swarm.active ==> (p in gossip.eager <==> p !in gossip.lazy)
    {
      forall p | p in swarm.active
        ensures p in gossip.eager <==> p !in gossip.lazy
      {
        assert p in Elems(swarm.active);
      }
    }

    lemma RunStep(events: seq<InEvent>, i: nat, log: seq<seq<OutEvent>>, views: seq<set<PeerId>>, out: seq<OutEvent>,
                  before: set<PeerId>, after: set<PeerId>)
      requires i < |events| && |log| == i && H.FollowsAll(QuitsOf(events[..i]), ChangesOfAll(log), views)
      requires views[i] == before
      requires if Quits(events[i]) then after == {} && Replay(before, out) == Some(before)
               else Replay(before, out) == Some(after)
      ensures H.FollowsAll(QuitsOf(events[..i + 1]), ChangesOfAll(log + [out]), views + [after])
    {
      H.FollowsOneMore(QuitsOf(events[..i]), ChangesOfAll(log), views, Quits(events[i]), Changes(out), after);
      assert QuitsOf(events[..i + 1]) == QuitsOf(events[..i]) + [Quits(events[i])];
      assert ChangesOfAll(log + [out]) == ChangesOfAll(log) + [Changes(out)];
    }
  }

  lemma RunReplays(quits: seq<bool>, log: seq<seq<OutEvent>>, views: seq<set<PeerId>>)
    requires H.FollowsAll(quits, ChangesOfAll(log), views)
    ensures Replay(views[0], Flatten(log)) == Some(views[|quits|]) <==> H.QuitsFindNobody(quits, views)
  {
    H.ReplayIff(quits, ChangesOfAll(log), views);
    ChangesOfRun(log);
  }
}
