/** Lists of peers without repetition (peerList, internal/gossipproto/hyparview.go). */
module GossipPeers {
  import opened Bytes

  /** Peers are only ever compared for equality. */
  type PeerId = nat

  type PeerData = seq<Byte>

  predicate Unique(l: seq<PeerId>)
  {
    forall i, j :: 0 <= i < j < |l| ==> l[i] != l[j]
  }

  function Elems(l: seq<PeerId>): (s: set<PeerId>)
  {
    set p | p in l
  }

  lemma {:induction false} UniqueSize(l: seq<PeerId>)
    requires Unique(l)
    ensures |Elems(l)| == |l|
    decreases |l|
  {
    if l != [] {
      var front := l[..|l| - 1];
      UniqueSize(front);
      assert l == front + [l[|l| - 1]];
      assert Elems(l) == Elems(front) + {l[|l| - 1]};
    }
  }

  lemma SubsetSize(a: set<PeerId>, b: set<PeerId>)
    requires a <= b
    ensures |a| <= |b|
  {
    assert b == a + (b - a);
  }

  lemma Appended(l: seq<PeerId>, p: PeerId)
    ensures Elems(l + [p]) == Elems(l) + {p}
    ensures Unique(l) && p !in l ==> Unique(l + [p])
  {
  }

  /** Appends peer unless it is there. */
  method Insert(l: seq<PeerId>, peer: PeerId) returns (r: seq<PeerId>, inserted: bool)
    ensures inserted <==> peer !in l
    ensures r == if inserted then l + [peer] else l
    ensures Elems(r) == Elems(l) + {peer} && (Unique(l) ==> Unique(r))
  {
    inserted := peer !in l;
    r := if inserted then l + [peer] else l;
    Appended(l, peer);
  }

  /** r holds n members of l outside skip, or all of them if there are fewer, none twice. */
  predicate Drawn(r: seq<PeerId>, l: seq<PeerId>, n: nat, skip: set<PeerId>)
  {
    && Unique(r) && Elems(r) <= Elems(l) - skip
    && |r| == if n < |Without(l, skip)| then n else |Without(l, skip)|
  }

  /** The members that are not in skip, in order. */
  function Without(l: seq<PeerId>, skip: set<PeerId>): (r: seq<PeerId>)
  {
    if l == [] then []
    else Without(l[..|l| - 1], skip) + if l[|l| - 1] in skip then [] else [l[|l| - 1]]
  }

  lemma {:induction false} WithoutHolds(l: seq<PeerId>, skip: set<PeerId>, p: PeerId)
    ensures p in Without(l, skip) <==> p in l && p !in skip
    decreases |l|
  {
    if l != [] {
      WithoutHolds(l[..|l| - 1], skip, p);
      assert p in l <==> p in l[..|l| - 1] || p == l[|l| - 1];
    }
  }

  lemma {:induction false} WithoutUnique(l: seq<PeerId>, skip: set<PeerId>)
    requires Unique(l)
    ensures Unique(Without(l, skip))
    decreases |l|
  {
    if l != [] {
      var front, last := l[..|l| - 1], l[|l| - 1];
      WithoutUnique(front, skip);
      WithoutHolds(front, skip, last);
      assert last !in front;
      Appended(Without(front, skip), last);
    }
  }

  lemma WithoutOk(l: seq<PeerId>, skip: set<PeerId>)
    ensures Elems(Without(l, skip)) == Elems(l) - skip
    ensures Unique(l) ==> Unique(Without(l, skip))
  {
    forall p
      ensures p in Without(l, skip) <==> p in l && p !in skip
    {
      WithoutHolds(l, skip, p);
    }
    if Unique(l) {
      WithoutUnique(l, skip);
    }
  }

  lemma {:induction false} WithoutNothing(l: seq<PeerId>)
    ensures Without(l, {}) == l
    decreases |l|
  {
    if l != [] {
      WithoutNothing(l[..|l| - 1]);
    }
  }

  lemma JoinUnique(a: seq<PeerId>, b: seq<PeerId>)
    requires Unique(a) && Unique(b) && Elems(a) !! Elems(b)
    ensures Unique(a + b) && Elems(a + b) == Elems(a) + Elems(b)
  {
    forall i, j | 0 <= i < |a| && 0 <= j < |b|
      ensures a[i] != b[j]
    {
      assert a[i] in Elems(a) && b[j] in Elems(b);
    }
  }

  /** r is l with one occurrence of peer taken out, the others in order. */
  ghost predicate GapClosed(l: seq<PeerId>, peer: PeerId, r: seq<PeerId>)
  {
    exists i :: 0 <= i < |l| && l[i] == peer && r == l[..i] + l[i + 1..]
  }

  lemma GapClosedOk(l: seq<PeerId>, i: nat)
    requires Unique(l) && i < |l|
    ensures Unique(l[..i] + l[i + 1..])
    ensures Elems(l[..i] + l[i + 1..]) == Elems(l) - {l[i]}
  {
    var r := l[..i] + l[i + 1..];
    assert l == l[..i] + [l[i]] + l[i + 1..];
    assert forall j :: 0 <= j < |r| ==> r[j] == if j < i then l[j] else l[j + 1];
  }

  /** Takes out the first occurrence and closes the gap. */
  method Remove(l: seq<PeerId>, peer: PeerId) returns (r: seq<PeerId>, removed: bool)
    requires Unique(l)
    ensures removed <==> peer in l
    ensures Unique(r) && Elems(r) == Elems(l) - {peer}
    ensures |r| == if removed then |l| - 1 else |l|
    ensures if removed then GapClosed(l, peer, r) else r == l
  {
    for i := 0 to |l|
      invariant peer !in l[..i]
    {
      if l[i] == peer {
        GapClosedOk(l, i);
        return l[..i] + l[i + 1..], true;
      }
    }
    r, removed := l, false;
  }

  method Filter(l: seq<PeerId>, skip: set<PeerId>) returns (r: seq<PeerId>)
    ensures r == Without(l, skip)
  {
    r := [];
    for i := 0 to |l|
      invariant r == Without(l[..i], skip)
    {
      assert l[..i + 1][..i] == l[..i];
      if l[i] !in skip {
        r := r + [l[i]];
      }
    }
    assert l[..|l|] == l;
  }

  /** Any member, as the random source picks. */
  method Random(l: seq<PeerId>) returns (pick: Option<PeerId>)
    ensures pick.None? <==> l == []
    ensures pick.Some? ==> pick.value in l
  {
    if l == [] {
      return None;
    }
    var i :| 0 <= i < |l|;
    pick := Some(l[i]);
  }

  /** Any member outside skip. */
  method RandomWithout(l: seq<PeerId>, skip: set<PeerId>) returns (pick: Option<PeerId>)
    ensures pick.None? <==> Elems(l) <= skip
    ensures pick.Some? ==> pick.value in l && pick.value !in skip
  {
    var peers := Filter(l, skip);
    pick := Random(peers);
    forall p
      ensures p in peers <==> p in l && p !in skip
    {
      WithoutHolds(l, skip, p);
    }
    if peers != [] {
      assert peers[0] in l && peers[0] !in skip;
      assert peers[0] in Elems(l);
    }
  }

  /** Any n members outside skip in any order, or all of them if there are fewer. */
  method ShuffledWithout(l: seq<PeerId>, n: nat, skip: set<PeerId>) returns (r: seq<PeerId>)
    requires Unique(l)
    ensures Drawn(r, l, n, skip)
  {
    var left := Filter(l, skip);
    WithoutOk(l, skip);
    r := [];
    while |r| < n && left != []
      invariant Unique(r) && Unique(left) && Elems(left) !! Elems(r) && Elems(left) + Elems(r) == Elems(l) - skip
      invariant |r| + |left| == |Without(l, skip)| && |r| <= n
      decreases |left|
    {
      var i :| 0 <= i < |left|;
      var p, removed := left[i], false;
      assert p in Elems(left);
      Appended(r, p);
      left, removed := Remove(left, p);
      r := r + [p];
    }
  }
}
