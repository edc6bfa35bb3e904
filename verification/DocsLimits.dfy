/**
 Exactly when exchanges end (docs/store.go, boundedMessage; docs/net.go, Handler.run): whether every item of at most
 one entry fits a frame. Sizes are those of the encoding (docs/entry.go, docs/ranger.go): an item is its two ends and
 its values, and an identifier is as long as its key makes it.
 */
module DocsLimits {
  import opened DocsEntry
  import opened DocsCrdt
  import opened DocsRange
  import opened DocsMessage
  import opened DocsConvergence
  import opened DocsExchange
  import opened DocsTermination
  import opened DocsEndless

  // ----- an entry that fits no frame, in any exchange

  predicate NotSent(message: Message, m: Entry)
  {
    forall p :: p in message && p.RangeItem? ==> m !in p.values
  }

  lemma {:induction false} KeptItemFits(env: Env, s: Store, parts: seq<Part>, q: Part)
    requires q in SummarizeOverflow(env, s, parts) && q.RangeItem?
    ensures env.size(q) <= BUDGET
    decreases |parts|
  {
    var init := SummarizeOverflow(env, s, parts[..|parts| - 1]);
    if q in init {
      KeptItemFits(env, s, parts[..|parts| - 1], q);
    }
  }

  lemma TooLargeIsNotSent(env: Env, s: Store, message: Message, m: Entry)
    requires TooLarge(env, m)
    ensures NotSent(Reply(env, s, message), m)
  {
    var t := AfterItems(env, s, message);
    var split := SplitOversized(env, t, Answer(env, s, message));
    forall q | q in SummarizeOverflow(env, t, split) && q.RangeItem?
      ensures m !in q.values
    {
      KeptItemFits(env, t, split, q);
      assert q == RangeItem(q.range, q.values, q.haveLocal);
    }
  }

  lemma {:induction false} NotOffered(s: Store, offers: seq<Entry>, m: Entry)
    requires m !in s && m !in offers
    ensures m !in InsertAll(s, offers)
    decreases |offers|
  {
    if offers != [] {
      NotOffered(s, offers[..|offers| - 1], m);
    }
  }

  lemma {:induction false} AcceptedIsOffered(env: Env, values: seq<Entry>, m: Entry)
    requires m !in values
    ensures m !in Accepted(env, values)
    decreases |values|
  {
    if values != [] {
      AcceptedIsOffered(env, values[..|values| - 1], m);
    }
  }

  lemma {:induction false} NotSentNotStored(env: Env, s: Store, message: Message, m: Entry)
    requires m !in s && NotSent(message, m)
    ensures m !in AfterItems(env, s, message)
    decreases |message|
  {
    if message != [] {
      var init, last := message[..|message| - 1], message[|message| - 1];
      assert message == init + [last];
      NotSentNotStored(env, s, init, m);
      if last.RangeItem? {
        assert last in message;
        AcceptedIsOffered(env, last.values, m);
        NotOffered(AfterItems(env, s, init), Accepted(env, last.values), m);
      }
    }
  }

  /** The dialer, or the acceptor, lacks m, and it is not on its way. */
  ghost predicate KeptBack(s: State, m: Entry, dialer: bool)
  {
    NotSent(s.message, m) && m !in (if dialer then DialerIn(s) else AcceptorIn(s))
  }

  lemma StepWithholds(peers: Peers, s: State, t: State, m: Entry, dialer: bool)
    requires TooLarge(peers.At(s.turn), m) && KeptBack(s, m, dialer) && t == Step(peers, s)
    ensures KeptBack(t, m, dialer)
  {
    var env := peers.At(s.turn);
    TooLargeIsNotSent(env, s.receiver, s.message, m);
    if m !in s.receiver {
      NotSentNotStored(env, s.receiver, s.message, m);
    }
  }

  lemma {:induction false} RunWithholds(peers: Peers, run: seq<State>, n: nat, m: Entry, dialer: bool)
    requires TooLarge(peers.dialer, m) && TooLarge(peers.acceptor, m) && IsRun(peers, run) && n < |run|
    requires KeptBack(run[0], m, dialer)
    ensures KeptBack(run[n], m, dialer)
    decreases n
  {
    if n > 0 {
      RunWithholds(peers, run, n - 1, m, dialer);
      RunLink(peers, run, n - 1);
      StepWithholds(peers, run[n - 1], run[n], m, dialer);
    }
  }

  /**
   No exchange in which one side lacks a maximal entry that fits no frame ever goes quiet, as long as no
   compared fingerprints collide.
   */
  lemma NeverQuiet(peers: Peers, dialer: Store, acceptor: Store, run: seq<State>, n: nat, m: Entry)
    requires peers.Compatible(Union(peers, dialer, acceptor)) && m in Maximal(Union(peers, dialer, acceptor))
    requires TooLarge(peers.dialer, m) && TooLarge(peers.acceptor, m) && (m !in dialer || m !in acceptor)
    requires IsRun(peers, run) && run[0] == Start(peers, dialer, acceptor) && n < |run|
    requires forall i :: 0 <= i < n ==> StepClean(peers, run[i])
    ensures run[n].message != []
  {
    RunWithholds(peers, run, n, m, m !in dialer);
    if run[n].message == [] {
      QuietRunConverged(peers, dialer, acceptor, run, n);
      assert false;
    }
  }

  // ----- the encoding

  /** Encoded lengths: of an identifier by that of its key, of an entry with its status, of the rest of an item. */
  datatype Encoding = Encoding(id: nat -> nat, value: Entry -> nat, item: nat) {

    function ItemSize(r: Range, values: seq<Entry>): (n: nat)
    {
      item + id(|r.start.key|) + id(|r.end.key|) + if values == [] then 0 else value(values[0])
    }

    ghost predicate Grows()
    {
      forall m: nat, n: nat :: m <= n ==> id(m) <= id(n)
    }
  }

  /** The sizes of items with at most one value are those of the encoding. */
  ghost predicate Encodes(enc: Encoding, env: Env)
  {
    forall r, values, haveLocal ::
      |values| <= 1 ==> env.size(RangeItem(r, values, haveLocal)) == enc.ItemSize(r, values)
  }

  lemma {:induction false} LongestKey(all: set<Entry>) returns (a: Entry)
    requires all != {}
    ensures a in all && forall e :: e in all ==> |e.id.key| <= |a.id.key|
    decreases |all|
  {
    a :| a in all;
    var rest := all - {a};
    if rest != {} {
      var b := LongestKey(rest);
      a := if |a.id.key| >= |b.id.key| then a else b;
    }
  }

  lemma {:induction false} LargestValue(enc: Encoding, all: set<Entry>) returns (v: Entry)
    requires all != {}
    ensures v in all && forall e :: e in all ==> enc.value(e) <= enc.value(v)
    decreases |all|
  {
    v :| v in all;
    var rest := all - {v};
    if rest != {} {
      var b := LargestValue(enc, rest);
      v := if enc.value(v) >= enc.value(b) then v else b;
    }
  }

  /** No item of at most one entry is larger than some entry's over the range of some other. */
  ghost predicate Largest(enc: Encoding, all: set<Entry>, a: Entry, v: Entry)
  {
    && a in all && v in all && (forall e :: e in all ==> |e.id.key| <= |a.id.key|)
    && forall r, values :: Known(all, r) && |values| <= 1 && (forall e :: e in values ==> e in all) ==>
         enc.ItemSize(r, values) <= enc.ItemSize(Own(a), [v])
  }

  lemma LargestItem(enc: Encoding, all: set<Entry>) returns (a: Entry, v: Entry)
    requires all != {} && enc.Grows()
    ensures Largest(enc, all, a, v)
  {
    a := LongestKey(all);
    v := LargestValue(enc, all);
    forall r, values | Known(all, r) && |values| <= 1 && (forall e :: e in values ==> e in all)
      ensures enc.ItemSize(r, values) <= enc.ItemSize(Own(a), [v])
    {
      assert |r.start.key| <= |a.id.key| && |r.end.key| <= |a.id.key|;
      assert values != [] ==> values[0] in all;
    }
  }

  lemma FitsByLargest(enc: Encoding, env: Env, all: set<Entry>, a: Entry, v: Entry)
    requires Encodes(enc, env) && Largest(enc, all, a, v)
    ensures FitsAlone(env, all) <==> enc.ItemSize(Own(a), [v]) <= BUDGET
  {
    if enc.ItemSize(Own(a), [v]) <= BUDGET {
      forall r | Known(all, r)
        ensures env.size(RangeItem(r, [], false)) <= BUDGET
      {
        assert enc.ItemSize(r, []) <= enc.ItemSize(Own(a), [v]);
      }
      forall e, r, haveLocal | e in all && Known(all, r)
        ensures env.size(RangeItem(r, [e], haveLocal)) <= BUDGET
      {
        assert enc.ItemSize(r, [e]) <= enc.ItemSize(Own(a), [v]);
      }
    }
    if FitsAlone(env, all) {
      assert EntryFits(env, all, v) && Known(all, Own(a));
      assert env.size(RangeItem(Own(a), [v], false)) <= BUDGET;
    }
  }

  // ----- exactly when all exchanges of some entries end

  /** Every exchange between stores of these entries is quiet after a number of rounds that they determine. */
  ghost predicate AlwaysEnds(peers: Peers, all: set<Entry>)
  {
    forall a: Store, b: Store, run :: a <= all && b <= all ==> Ended(peers, all, a, b, run)
  }

  ghost predicate Ended(peers: Peers, all: set<Entry>, a: Store, b: Store, run: seq<State>)
  {
    IsRun(peers, run) && run[0] == Start(peers, a, b) && |run| > 9 * |all| + 4 ==> run[|run| - 1].message == []
  }

  /** The fingerprints tell stores of at most two of the entries from each other. */
  ghost predicate Telling(peers: Peers, all: set<Entry>)
  {
    forall s: Store, t: Store ::
      s <= all && t <= all && |s| <= 2 && |t| <= 2 && s != t ==> PrintOf(peers, s) != PrintOf(peers, t)
  }

  lemma KnownInMore(u: set<Entry>, all: set<Entry>, r: Range)
    requires u <= all && Known(u, r)
    ensures Known(all, r)
  {
  }

  lemma FitsInLess(env: Env, u: set<Entry>, all: set<Entry>)
    requires u <= all && FitsAlone(env, all)
    ensures FitsAlone(env, u)
  {
    forall r | Known(u, r)
      ensures env.size(RangeItem(r, [], false)) <= BUDGET
    {
      KnownInMore(u, all, r);
    }
    forall e | e in u
      ensures EntryFits(env, u, e)
    {
      forall r, haveLocal | Known(u, r)
        ensures env.size(RangeItem(r, [e], haveLocal)) <= BUDGET
      {
        KnownInMore(u, all, r);
        assert EntryFits(env, all, e);
      }
    }
  }

  lemma CompatibleInLess(peers: Peers, u: set<Entry>, all: set<Entry>)
    requires u <= all && peers.Compatible(all)
    ensures peers.Compatible(u)
  {
  }

  lemma FittingEntriesEnd(peers: Peers, all: set<Entry>, a: Store, b: Store, run: seq<State>)
    requires peers.Compatible(all) && BothFit(peers, all) && a <= all && b <= all
    ensures Ended(peers, all, a, b, run)
  {
    var u := Union(peers, a, b);
    assert u <= all;
    CardinalityMonotone(u, all);
    CompatibleInLess(peers, u, all);
    FitsInLess(peers.dialer, u, all);
    FitsInLess(peers.acceptor, u, all);
    FittingRunEnds(peers, all, a, b, run);
  }

  lemma FittingRunEnds(peers: Peers, all: set<Entry>, a: Store, b: Store, run: seq<State>)
    requires peers.Compatible(Union(peers, a, b)) && BothFit(peers, Union(peers, a, b))
    requires |Union(peers, a, b)| <= |all|
    ensures Ended(peers, all, a, b, run)
  {
    if IsRun(peers, run) && run[0] == Start(peers, a, b) && |run| > 9 * |all| + 4 {
      RunEnds(peers, a, b, run, |run| - 1);
    }
  }

  /** Who holds the larger entry and who the longer key, in an exchange that never goes quiet. */
  lemma LargeItemDoesNotEnd(enc: Encoding, peers: Peers, all: set<Entry>, a: Entry, v: Entry)
    requires peers.Compatible(all) && Encodes(enc, peers.dialer) && Encodes(enc, peers.acceptor)
    requires Telling(peers, all) && Largest(enc, all, a, v) && enc.ItemSize(Own(a), [v]) > BUDGET
    ensures !AlwaysEnds(peers, all)
  {
    if a.id == v.id {
      HeldDoesNotEnd(enc, peers, all, v);
    } else {
      LongerIsNoPrefix(a, v);
      PairDoesNotEnd(enc, peers, all, a, v);
    }
  }

  /** A key that is at least as long does not shadow another identifier. */
  lemma LongerIsNoPrefix(a: Entry, v: Entry)
    requires |v.id.key| <= |a.id.key| && a.id != v.id
    ensures !Shadows(a, v)
  {
  }

  lemma HeldDoesNotEnd(enc: Encoding, peers: Peers, all: set<Entry>, v: Entry)
    requires peers.Compatible(all) && Encodes(enc, peers.dialer) && Telling(peers, all)
    requires v in all && enc.ItemSize(Own(v), [v]) > BUDGET
    ensures !AlwaysEnds(peers, all)
  {
    HeldIsTold(peers, all, v);
    HeldGoesOn(peers, all, v);
  }

  lemma HeldGoesOn(peers: Peers, all: set<Entry>, v: Entry)
    requires Told(peers, v) && v in all && !HeldFits(peers, v)
    ensures !AlwaysEnds(peers, all)
  {
    var run := RunFrom(peers, Start(peers, One(v), None()), 9 * |all| + 4);
    HeldEntryIff(peers, v, run, |run| - 1);
    NotEnded(peers, all, One(v), None(), run);
  }

  lemma HeldIsTold(peers: Peers, all: set<Entry>, v: Entry)
    requires peers.Compatible(all) && Telling(peers, all) && v in all
    ensures Told(peers, v)
  {
    CompatibleInLess(peers, One(v), all);
    assert v in One(v) && v !in None() && |One(v)| == 1;
  }

  lemma NotEnded(peers: Peers, all: set<Entry>, a: Store, b: Store, run: seq<State>)
    requires IsRun(peers, run) && run[0] == Start(peers, a, b) && |run| > 9 * |all| + 4 && run[|run| - 1].message != []
    requires a <= all && b <= all
    ensures !AlwaysEnds(peers, all)
  {
    assert !Ended(peers, all, a, b, run);
  }

  lemma PairDoesNotEnd(enc: Encoding, peers: Peers, all: set<Entry>, a: Entry, v: Entry)
    requires peers.Compatible(all) && Encodes(enc, peers.acceptor) && Telling(peers, all)
    requires a in all && v in all && a.id != v.id && !Shadows(a, v) && enc.ItemSize(Own(a), [v]) > BUDGET
    ensures !AlwaysEnds(peers, all)
  {
    PairIsTold(peers, all, a, v);
    PairGoesOn(peers, all, a, v);
  }

  lemma PairGoesOn(peers: Peers, all: set<Entry>, a: Entry, v: Entry)
    requires PairTold(peers, a, v) && a in all && v in all && Withheld(peers, a, v)
    ensures !AlwaysEnds(peers, all)
  {
    var run := RunFrom(peers, Start(peers, One(a), One(v)), 9 * |all| + 4);
    WithheldPair(peers, a, v, run, |run| - 1);
    NotEnded(peers, all, One(a), One(v), run);
  }

  lemma PairIsTold(peers: Peers, all: set<Entry>, a: Entry, v: Entry)
    requires peers.Compatible(all) && Telling(peers, all) && a in all && v in all && a.id != v.id && !Shadows(a, v)
    ensures PairTold(peers, a, v)
  {
    var both := Insert(One(v), a);
    CompatibleInLess(peers, {a, v}, all);
    CompatibleInLess(peers, One(a), all);
    CompatibleInLess(peers, One(v), all);
    InsertKeeps(a, v);
    CardinalityMonotone(both, {a, v});
    assert v in both && v !in One(a) && a !in One(v) && |both| <= 2;
  }

  /**
   All exchanges between stores of some entries end, within the bound, if and only if every item of at most one of
   the entries, over a range between their identifiers, fits a frame.
   */
  lemma EndsIff(enc: Encoding, peers: Peers, all: set<Entry>)
    requires peers.Compatible(all) && all != {} && Telling(peers, all)
    requires enc.Grows() && Encodes(enc, peers.dialer) && Encodes(enc, peers.acceptor)
    ensures AlwaysEnds(peers, all) <==> BothFit(peers, all)
  {
    if BothFit(peers, all) {
      forall a: Store, b: Store, run | a <= all && b <= all
        ensures Ended(peers, all, a, b, run)
      {
        FittingEntriesEnd(peers, all, a, b, run);
      }
    } else {
      var a, v := LargestItem(enc, all);
      FitsByLargest(enc, peers.dialer, all, a, v);
      FitsByLargest(enc, peers.acceptor, all, a, v);
      LargeItemDoesNotEnd(enc, peers, all, a, v);
    }
  }

  // ----- both sides of it occur

  /** Two peers with this encoding, and a fingerprint hash that tells one entry from none. */
  ghost function PeersOf(enc: Encoding): (peers: Peers)
  {
    var size := (p: Part) => if p.RangeItem? && |p.values| <= 1 then enc.ItemSize(p.range, p.values) else 0;
    var hashing := Hashing(seq(32, _ => 0), _ => seq(32, _ => 1));
    var env := Env(AllNamespaces, SyncConfig(1, 2), hashing, _ => true, size, seq(32, _ => 0), _ => ContentComplete);
    Peers(env, env)
  }

  lemma OneIsTold(enc: Encoding, e: Entry)
    ensures PrintOf(PeersOf(enc), One(e)) != PrintOf(PeersOf(enc), None())
  {
    var h := PeersOf(enc).dialer.hashing;
    SortedOne(e);
    SortedNone();
    assert [e][..0] == [];
    assert XorAll(h, [e][..0]) == h.empty;
    assert XorAll(h, [e])[0] == XorByte(0, 1);
    assert (0 as bv8) ^ (1 as bv8) == 1;
  }

  /** Any entry and any encoding meet the hypotheses; whether the entry fits decides. */
  lemma OneEntryDecides(enc: Encoding, e: Entry)
    requires enc.Grows()
    ensures var peers := PeersOf(enc);
            && peers.Compatible({e}) && Telling(peers, {e})
            && Encodes(enc, peers.dialer) && Encodes(enc, peers.acceptor)
            && (AlwaysEnds(peers, {e}) <==> enc.ItemSize(Own(e), [e]) <= BUDGET)
  {
    var peers := PeersOf(enc);
    OneTells(enc, e);
    EndsIff(enc, peers, {e});
    var a, v := LargestItem(enc, {e});
    FitsByLargest(enc, peers.dialer, {e}, a, v);
  }

  lemma OneTells(enc: Encoding, e: Entry)
    ensures Telling(PeersOf(enc), {e})
  {
    forall s: Store, t: Store | s <= {e} && t <= {e} && s != t
      ensures PrintOf(PeersOf(enc), s) != PrintOf(PeersOf(enc), t)
    {
      assert s == None() || s == One(e);
      assert t == None() || t == One(e);
      OneIsTold(enc, e);
    }
  }
}
