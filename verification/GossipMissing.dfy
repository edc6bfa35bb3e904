/** The announced and undelivered messages (missing, nmissing and ntargets of internal/gossipproto/plumtree.go). */
module GossipMissing {
  import opened GossipPeers

  type MsgId = nat

  datatype Target = Target(peer: PeerId, round: nat)

  type Missing = map<MsgId, seq<Target>>

  predicate Names(targets: seq<Target>, p: PeerId)
  {
    exists i :: 0 <= i < |targets| && targets[i].peer == p
  }

  predicate OncePerPeer(targets: seq<Target>)
  {
    forall i, j :: 0 <= i < j < |targets| ==> targets[i].peer != targets[j].peer
  }

  function TargetsOf(m: Missing, id: MsgId): (targets: seq<Target>)
  {
    if id in m then m[id] else []
  }

  function CountOf(n: map<PeerId, nat>, p: PeerId): (k: nat)
  {
    if p in n then n[p] else 0
  }

  /** Which peers are listed under which messages. */
  ghost function Pairs(m: Missing): (s: set<(MsgId, PeerId)>)
  {
    set id, i | id in m && 0 <= i < |m[id]| :: (id, m[id][i].peer)
  }

  /** The places in all the lists: as many as their total length. */
  ghost function Slots(m: Missing): (s: set<(MsgId, int)>)
  {
    set id, i | id in m && 0 <= i < |m[id]| :: (id, i)
  }

  /** The messages that list p. */
  ghost function Naming(m: Missing, p: PeerId): (s: set<MsgId>)
  {
    set id | id in m && Names(m[id], p)
  }

  ghost predicate Lists(m: Missing)
  {
    forall id :: id in m ==> m[id] != [] && OncePerPeer(m[id])
  }

  /** The counters count what the lists hold, and no counter is zero. */
  ghost predicate Accounted(m: Missing, n: map<PeerId, nat>, total: int)
  {
    && Lists(m)
    && total == |Pairs(m)|
    && (forall p :: p in n ==> n[p] == |Naming(m, p)|)
    && (forall p :: p in n <==> Naming(m, p) != {})
  }

  // ----- the changes the handlers make

  function WithTarget(m: Missing, id: MsgId, t: Target): (r: Missing)
  {
    m[id := TargetsOf(m, id) + [t]]
  }

  function WithCount(n: map<PeerId, nat>, p: PeerId): (r: map<PeerId, nat>)
  {
    n[p := CountOf(n, p) + 1]
  }

  /** Drops the first target; an emptied list goes. */
  function WithoutHead(m: Missing, id: MsgId): (r: Missing)
    requires id in m && m[id] != []
  {
    if |m[id]| == 1 then m - {id} else m[id := m[id][1..]]
  }

  function WithRest(m: Missing, id: MsgId, targets: seq<Target>): (r: Missing)
  {
    if targets == [] then m else m[id := targets]
  }

  lemma RestHead(m: Missing, id: MsgId, targets: seq<Target>)
    requires id !in m && targets != []
    ensures id in WithRest(m, id, targets) && WithRest(m, id, targets)[id] == targets
    ensures WithoutHead(WithRest(m, id, targets), id) == WithRest(m, id, targets[1..])
  {
    assert |targets| == 1 ==> targets[1..] == [] && m[id := targets] - {id} == m;
  }

  function LessCount(n: map<PeerId, nat>, p: PeerId): (r: map<PeerId, nat>)
  {
    if CountOf(n, p) <= 1 then n - {p} else n[p := CountOf(n, p) - 1]
  }

  function Others(targets: seq<Target>, p: PeerId): (r: seq<Target>)
  {
    if targets == [] then []
    else Others(targets[..|targets| - 1], p) +
         if targets[|targets| - 1].peer == p then [] else [targets[|targets| - 1]]
  }

  function WithoutPeer(m: Missing, p: PeerId): (r: Missing)
  {
    map id | id in m && Others(m[id], p) != [] :: Others(m[id], p)
  }

  // ----- what they do to one list

  lemma NamesAppend(targets: seq<Target>, t: Target, p: PeerId)
    ensures Names(targets + [t], p) <==> Names(targets, p) || p == t.peer
  {
    if Names(targets, p) {
      var i :| 0 <= i < |targets| && targets[i].peer == p;
      assert (targets + [t])[i].peer == p;
    }
    assert (targets + [t])[|targets|] == t;
  }

  lemma NamesTail(targets: seq<Target>, p: PeerId)
    requires targets != [] && OncePerPeer(targets)
    ensures Names(targets[1..], p) <==> Names(targets, p) && p != targets[0].peer
    ensures OncePerPeer(targets[1..])
  {
    if Names(targets, p) && p != targets[0].peer {
      var i :| 0 <= i < |targets| && targets[i].peer == p;
      assert targets[1..][i - 1].peer == p;
    }
    if Names(targets[1..], p) {
      var i :| 0 <= i < |targets[1..]| && targets[1..][i].peer == p;
      assert targets[i + 1].peer == p;
    }
  }

  lemma {:induction false} NamesOthers(targets: seq<Target>, p: PeerId, q: PeerId)
    ensures Names(Others(targets, p), q) <==> Names(targets, q) && q != p
    decreases |targets|
  {
    if targets != [] {
      var front, last := targets[..|targets| - 1], targets[|targets| - 1];
      NamesOthers(front, p, q);
      assert targets == front + [last];
      NamesAppend(front, last, q);
      NamesAppend(Others(front, p), last, q);
      assert Others(front, p) + [] == Others(front, p);
    }
  }

  lemma {:induction false} OthersOnce(targets: seq<Target>, p: PeerId)
    requires OncePerPeer(targets)
    ensures OncePerPeer(Others(targets, p))
    decreases |targets|
  {
    if targets != [] {
      var front, last := targets[..|targets| - 1], targets[|targets| - 1];
      OthersOnce(front, p);
      NamesOthers(front, p, last.peer);
      assert !Names(front, last.peer);
      AppendOnce(Others(front, p), last);
      assert Others(front, p) + [] == Others(front, p);
    }
  }

  lemma AppendOnce(targets: seq<Target>, t: Target)
    requires OncePerPeer(targets) && !Names(targets, t.peer)
    ensures OncePerPeer(targets + [t])
  {
  }

  lemma SomeoneNamed(targets: seq<Target>)
    requires targets != []
    ensures Names(targets, targets[0].peer)
  {
  }

  // ----- what they do to the pairs

  lemma PairsAre(m: Missing, pair: (MsgId, PeerId))
    ensures pair in Pairs(m) <==> pair.0 in m && Names(m[pair.0], pair.1)
  {
    if pair.0 in m && Names(m[pair.0], pair.1) {
      var i :| 0 <= i < |m[pair.0]| && m[pair.0][i].peer == pair.1;
      assert pair == (pair.0, m[pair.0][i].peer);
    }
  }

  lemma AddAccounted(m: Missing, n: map<PeerId, nat>, total: int, id: MsgId, t: Target)
    requires Accounted(m, n, total) && !Names(TargetsOf(m, id), t.peer)
    ensures Accounted(WithTarget(m, id, t), WithCount(n, t.peer), total + 1)
  {
    AppendOnce(TargetsOf(m, id), t);
    AddPairs(m, id, t);
    AddNaming(m, id, t);
  }

  lemma AddPair(m: Missing, id: MsgId, t: Target, pair: (MsgId, PeerId))
    ensures pair in Pairs(WithTarget(m, id, t)) <==> pair in Pairs(m) || pair == (id, t.peer)
  {
    PairsAre(WithTarget(m, id, t), pair);
    PairsAre(m, pair);
    NamesAppend(TargetsOf(m, id), t, pair.1);
  }

  lemma AddPairs(m: Missing, id: MsgId, t: Target)
    requires !Names(TargetsOf(m, id), t.peer)
    ensures |Pairs(WithTarget(m, id, t))| == |Pairs(m)| + 1
  {
    forall pair: (MsgId, PeerId)
      ensures pair in Pairs(WithTarget(m, id, t)) <==> pair in Pairs(m) || pair == (id, t.peer)
    {
      AddPair(m, id, t, pair);
    }
    PairsAre(m, (id, t.peer));
    assert Pairs(WithTarget(m, id, t)) == Pairs(m) + {(id, t.peer)};
  }

  lemma AddNaming(m: Missing, id: MsgId, t: Target)
    requires !Names(TargetsOf(m, id), t.peer)
    ensures |Naming(WithTarget(m, id, t), t.peer)| == |Naming(m, t.peer)| + 1
    ensures forall p :: p != t.peer ==> Naming(WithTarget(m, id, t), p) == Naming(m, p)
  {
    forall p
      ensures Names(WithTarget(m, id, t)[id], p) <==> Names(TargetsOf(m, id), p) || p == t.peer
    {
      NamesAppend(TargetsOf(m, id), t, p);
    }
    assert Naming(WithTarget(m, id, t), t.peer) == Naming(m, t.peer) + {id};
  }

  lemma HeadAccounted(m: Missing, n: map<PeerId, nat>, total: int, id: MsgId)
    requires Accounted(m, n, total) && id in m
    ensures Accounted(WithoutHead(m, id), LessCount(n, m[id][0].peer), total - 1)
  {
    var r, gone := WithoutHead(m, id), m[id][0].peer;
    forall p
      ensures Names(TargetsOf(r, id), p) <==> Names(m[id], p) && p != gone
    {
      NamesTail(m[id], p);
    }
    SomeoneNamed(m[id]);
    HeadPairs(m, id);
    HeadNaming(m, id);
  }

  lemma HeadPairs(m: Missing, id: MsgId)
    requires id in m && m[id] != [] && Names(m[id], m[id][0].peer)
    requires forall p :: Names(TargetsOf(WithoutHead(m, id), id), p) <==> Names(m[id], p) && p != m[id][0].peer
    ensures |Pairs(WithoutHead(m, id))| == |Pairs(m)| - 1
  {
    var r, gone := WithoutHead(m, id), m[id][0].peer;
    forall pair: (MsgId, PeerId)
      ensures pair in Pairs(r) <==> pair in Pairs(m) - {(id, gone)}
    {
      PairsAre(r, pair);
      PairsAre(m, pair);
    }
    PairsAre(m, (id, gone));
    assert Pairs(r) == Pairs(m) - {(id, gone)};
  }

  lemma HeadNaming(m: Missing, id: MsgId)
    requires id in m && m[id] != [] && Names(m[id], m[id][0].peer)
    requires forall p :: Names(TargetsOf(WithoutHead(m, id), id), p) <==> Names(m[id], p) && p != m[id][0].peer
    ensures id in Naming(m, m[id][0].peer)
    ensures Naming(WithoutHead(m, id), m[id][0].peer) == Naming(m, m[id][0].peer) - {id}
    ensures forall p :: p != m[id][0].peer ==> Naming(WithoutHead(m, id), p) == Naming(m, p)
  {
  }

  lemma DownAccounted(m: Missing, n: map<PeerId, nat>, total: int, p: PeerId)
    requires Accounted(m, n, total)
    ensures Accounted(WithoutPeer(m, p), n - {p}, total - CountOf(n, p))
  {
    DownLists(m, p);
    DownPairs(m, p);
    DownNaming(m, p);
  }

  lemma DownLists(m: Missing, p: PeerId)
    requires Lists(m)
    ensures Lists(WithoutPeer(m, p))
  {
    forall id | id in WithoutPeer(m, p)
      ensures OncePerPeer(WithoutPeer(m, p)[id])
    {
      OthersOnce(m[id], p);
    }
  }

  ghost function Paired(ids: set<MsgId>, p: PeerId): (s: set<(MsgId, PeerId)>)
  {
    set id | id in ids :: (id, p)
  }

  lemma {:induction false} PairedSize(ids: set<MsgId>, p: PeerId)
    ensures |Paired(ids, p)| == |ids|
    decreases |ids|
  {
    if ids != {} {
      var id :| id in ids;
      PairedSize(ids - {id}, p);
      assert Paired(ids, p) == Paired(ids - {id}, p) + {(id, p)};
    }
  }

  lemma DownPairs(m: Missing, p: PeerId)
    ensures |Pairs(WithoutPeer(m, p))| == |Pairs(m)| - |Naming(m, p)|
  {
    var r, gone := WithoutPeer(m, p), Paired(Naming(m, p), p);
    forall pair: (MsgId, PeerId)
      ensures pair in Pairs(r) <==> pair in Pairs(m) && pair !in gone
      ensures pair in gone ==> pair in Pairs(m)
    {
      DownPair(m, p, pair);
    }
    assert Pairs(r) == Pairs(m) - gone && gone <= Pairs(m);
    PairedSize(Naming(m, p), p);
  }

  lemma DownPair(m: Missing, p: PeerId, pair: (MsgId, PeerId))
    ensures pair in Pairs(WithoutPeer(m, p)) <==> pair in Pairs(m) && pair !in Paired(Naming(m, p), p)
    ensures pair in Paired(Naming(m, p), p) ==> pair in Pairs(m)
  {
    PairsAre(WithoutPeer(m, p), pair);
    PairsAre(m, pair);
    if pair.0 in m {
      NamesOthers(m[pair.0], p, pair.1);
    }
    assert pair in Paired(Naming(m, p), p) <==> pair.0 in Naming(m, p) && pair.1 == p by {
      if pair.0 in Naming(m, p) && pair.1 == p {
        assert pair == (pair.0, p);
      }
    }
  }

  lemma DownNaming(m: Missing, p: PeerId)
    ensures Naming(WithoutPeer(m, p), p) == {}
    ensures forall q :: q != p ==> Naming(WithoutPeer(m, p), q) == Naming(m, q)
  {
    var r := WithoutPeer(m, p);
    forall id, q
      ensures id in Naming(r, q) <==> id in Naming(m, q) && q != p
    {
      if id in m {
        NamesOthers(m[id], p, q);
      }
    }
  }

  // ----- total length

  ghost function PairAt(m: Missing, s: (MsgId, int)): (pair: (MsgId, PeerId))
    requires s in Slots(m)
  {
    (s.0, m[s.0][s.1].peer)
  }

  ghost function PairsAt(m: Missing, some: set<(MsgId, int)>): (pairs: set<(MsgId, PeerId)>)
    requires some <= Slots(m)
  {
    set s | s in some :: PairAt(m, s)
  }

  /** Where each list names a peer at most once, there are as many pairs as places. */
  lemma TotalLength(m: Missing)
    requires Lists(m)
    ensures |Pairs(m)| == |Slots(m)|
  {
    PairsAtSize(m, Slots(m));
    forall pair: (MsgId, PeerId)
      ensures pair in Pairs(m) <==> pair in PairsAt(m, Slots(m))
    {
      if pair in Pairs(m) {
        var i :| 0 <= i < |m[pair.0]| && m[pair.0][i].peer == pair.1;
        assert PairAt(m, (pair.0, i)) == pair;
      }
    }
    assert Pairs(m) == PairsAt(m, Slots(m));
  }

  lemma {:induction false} PairsAtSize(m: Missing, some: set<(MsgId, int)>)
    requires Lists(m) && some <= Slots(m)
    ensures |PairsAt(m, some)| == |some|
    decreases |some|
  {
    if some != {} {
      var s :| s in some;
      PairsAtSize(m, some - {s});
      assert PairsAt(m, some) == PairsAt(m, some - {s}) + {PairAt(m, s)};
      PairIsOnce(m, s, some - {s});
    }
  }

  lemma PairIsOnce(m: Missing, s: (MsgId, int), others: set<(MsgId, int)>)
    requires Lists(m) && s in Slots(m) && others <= Slots(m) && s !in others
    ensures PairAt(m, s) !in PairsAt(m, others)
  {
    forall x | x in others
      ensures PairAt(m, x) != PairAt(m, s)
    {
      assert x == (x.0, x.1) && s == (s.0, s.1);
    }
  }
}
