/**
 Range reconciliation converges: when the exchange goes quiet, both sides hold
 exactly the maximal entries of the union of the two stores they started with.
 */
module DocsConvergence {
  import opened DocsEntry
  import opened DocsCrdt
  import opened DocsRange
  import opened DocsMessage

  /** The hypotheses about the entries that take part: in scope and accepted. */
  ghost predicate Suitable(env: Env, u: set<Entry>)
  {
    forall e :: e in u ==> env.scope.Admits(e) && env.accept(e)
  }

  /** The fingerprints compared while a message is processed agree only when the entry sets do. */
  ghost predicate NoCollision(env: Env, receiver: Store, sender: Store, message: Message)
  {
    var t := AfterItems(env, receiver, message);
    forall p :: p in message && p.RangeFingerprint? && LocalFingerprint(env, t, p.range) == p.fingerprint ==>
      InRange(t, env.scope, p.range) == InRange(sender, env.scope, p.range)
  }

  /** p delivers m to a receiver that lacks it, or makes it ask. */
  predicate Carries(p: Part, m: Entry)
  {
    match p
    case RangeFingerprint(r, _) => r.Contains(m.id)
    case RangeItem(_, values, _) => m in values
  }

  /** p makes a receiver that holds m send it back. */
  predicate Asks(p: Part, m: Entry)
  {
    p.range.Contains(m.id) && (p.RangeItem? ==> !p.haveLocal)
  }

  predicate AnyCarries(message: Message, m: Entry)
  {
    exists p :: p in message && Carries(p, m)
  }

  predicate AnyAsks(message: Message, m: Entry)
  {
    exists p :: p in message && Asks(p, m)
  }

  /** Entry m is on both sides, or the message in flight will bring it to the side that lacks it. */
  predicate Settled(receiver: Store, sender: Store, message: Message, m: Entry)
  {
    || (m in sender && (m in receiver || AnyCarries(message, m)))
    || (m in receiver && AnyAsks(message, m))
  }

  /** A part tells the truth about its sender's store. */
  ghost predicate Honest(env: Env, u: set<Entry>, sender: Store, p: Part)
  {
    match p
    case RangeFingerprint(r, f) => f == LocalFingerprint(env, sender, r)
    case RangeItem(r, values, haveLocal) =>
      && SortedById(values) && Antichain(set v | v in values)
      && (forall v :: v in values ==> v in u && r.Contains(v.id) && Shadowed(sender, v))
      && (forall v :: v in values && v in Maximal(u) ==> v in sender)
      && (!haveLocal ==> values == LocalEntries(env, sender, r))
  }

  ghost predicate HonestMessage(env: Env, u: set<Entry>, sender: Store, message: Message)
  {
    forall p :: p in message ==> Honest(env, u, sender, p)
  }

  ghost predicate AllSettled(u: set<Entry>, receiver: Store, sender: Store, message: Message)
  {
    forall m :: m in Maximal(u) ==> Settled(receiver, sender, message, m)
  }

  /** Both stores stay within the entries u, and the message in flight is honest. */
  ghost predicate Sound(env: Env, u: set<Entry>, receiver: Store, sender: Store, message: Message)
  {
    && Scoped(receiver, env.scope) <= u
    && Scoped(sender, env.scope) <= u
    && HonestMessage(env, u, sender, message)
  }

  // ----- what inserting does

  lemma InsertInScope(env: Env, u: set<Entry>, s: Store, e: Entry)
    requires Suitable(env, u) && Scoped(s, env.scope) <= u && e in u
    ensures Scoped(Insert(s, e), env.scope) <= u
    ensures forall m :: m in Maximal(u) && (m in s || m == e) ==> m in Insert(s, e)
    ensures forall v :: Shadowed(s, v) || v == e ==> Shadowed(Insert(s, e), v)
  {
    ShadowsOrderAll();
    forall m | m in Maximal(u) && (m in s || m == e)
      ensures m in Insert(s, e)
    {
      if x :| x in s && Shadows(x, e) && m == e {
        assert x in Scoped(s, env.scope);
      }
    }
    forall v | Shadowed(s, v) || v == e
      ensures Shadowed(Insert(s, e), v)
    {
      if v == e {
        assert !Shadowed(s, e) ==> e in Insert(s, e) && Shadows(e, e);
      } else {
        var x :| x in s && Shadows(x, v);
        assert x in Insert(s, e) || (e in Insert(s, e) && Shadows(e, x) && Shadows(e, v));
      }
    }
  }

  lemma {:induction false} InsertAllInScope(env: Env, u: set<Entry>, s: Store, offers: seq<Entry>)
    requires Suitable(env, u) && Scoped(s, env.scope) <= u && (forall e :: e in offers ==> e in u)
    ensures Scoped(InsertAll(s, offers), env.scope) <= u
    ensures forall m :: m in Maximal(u) && (m in s || m in offers) ==> m in InsertAll(s, offers)
    ensures forall v :: Shadowed(s, v) ==> Shadowed(InsertAll(s, offers), v)
    decreases |offers|
  {
    if offers != [] {
      var init, last := offers[..|offers| - 1], offers[|offers| - 1];
      assert offers == init + [last];
      InsertAllInScope(env, u, s, init);
      InsertInScope(env, u, InsertAll(s, init), last);
    }
  }

  lemma {:induction false} AllAccepted(env: Env, u: set<Entry>, values: seq<Entry>)
    requires Suitable(env, u) && (forall e :: e in values ==> e in u)
    ensures Accepted(env, values) == values
    decreases |values|
  {
    if values != [] {
      AllAccepted(env, u, values[..|values| - 1]);
      assert values[|values| - 1] in u;
    }
  }

  /** Storing the items of a message loses no maximal entry and gains all it carries. */
  lemma {:induction false} ItemsAreStored(env: Env, u: set<Entry>, s: Store, sender: Store, message: Message)
    requires Suitable(env, u) && Scoped(s, env.scope) <= u && HonestMessage(env, u, sender, message)
    ensures Scoped(AfterItems(env, s, message), env.scope) <= u
    ensures forall m :: m in Maximal(u) && m in s ==> m in AfterItems(env, s, message)
    ensures forall p, m :: p in message && p.RangeItem? && m in p.values && m in Maximal(u) ==>
              m in AfterItems(env, s, message)
    ensures forall v :: Shadowed(s, v) ==> Shadowed(AfterItems(env, s, message), v)
    decreases |message|
  {
    if message != [] {
      var init, last := message[..|message| - 1], message[|message| - 1];
      assert message == init + [last];
      ItemsAreStored(env, u, s, sender, init);
      if last.RangeItem? {
        assert Honest(env, u, sender, last);
        AllAccepted(env, u, last.values);
        InsertAllInScope(env, u, AfterItems(env, s, init), last.values);
      }
    }
  }

  // ----- what the answer says

  lemma {:induction false} UnheldIsFilter(values: seq<Entry>, entries: seq<Entry>)
    requires SortedById(entries)
    ensures forall e :: e in Unheld(values, entries) <==> e in entries && !PeerHasNewerValue(values, e)
    ensures SortedById(Unheld(values, entries))
    decreases |entries|
  {
    if entries != [] {
      var init, last := entries[..|entries| - 1], entries[|entries| - 1];
      assert entries == init + [last];
      UnheldIsFilter(values, init);
      assert forall e :: e in init ==> Before(e.id, last.id);
    }
  }

  /** The reply to an item is honest about any later store that still shadows what it listed. */
  lemma ItemReplyIsHonest(env: Env, u: set<Entry>, s: Store, item: Part)
    requires Scoped(s, env.scope) <= u && item.RangeItem?
    ensures HonestMessage(env, u, s, ReplyToItem(env, s, item))
  {
    ShadowsOrderAll();
    UnheldIsFilter(item.values, LocalEntries(env, s, item.range));
  }

  lemma HonestLater(env: Env, u: set<Entry>, s: Store, t: Store, p: Part)
    requires Honest(env, u, s, p) && p.RangeItem? && p.haveLocal
    requires forall m :: m in Maximal(u) && m in s ==> m in t
    requires forall v :: Shadowed(s, v) ==> Shadowed(t, v)
    ensures Honest(env, u, t, p)
  {
  }

  lemma {:induction false} ItemRepliesAreHonest(env: Env, u: set<Entry>, s: Store, sender: Store, message: Message)
    requires Suitable(env, u) && Scoped(s, env.scope) <= u && HonestMessage(env, u, sender, message)
    ensures HonestMessage(env, u, AfterItems(env, s, message), ItemReplies(env, s, message))
    ensures forall p :: p in ItemReplies(env, s, message) ==> p.RangeItem? && p.haveLocal
    decreases |message|
  {
    if message != [] {
      var init, last := message[..|message| - 1], message[|message| - 1];
      assert message == init + [last];
      ItemRepliesAreHonest(env, u, s, sender, init);
      ItemsAreStored(env, u, s, sender, init);
      var t, t' := AfterItems(env, s, init), AfterItems(env, s, message);
      if last.RangeItem? {
        ItemReplyIsHonest(env, u, t, last);
        ItemsAreStored(env, u, t, sender, [last]);
        assert [last][..0] == [];
        assert AfterItems(env, t, [last]) == t';
        forall p | p in ItemReplies(env, s, message)
          ensures Honest(env, u, t', p) && p.RangeItem? && p.haveLocal
        {
          HonestLater(env, u, t, t', p);
        }
      }
    }
  }

  /** A peer that lacks a maximal entry has listed nothing at least as new under its identifier. */
  lemma PeerLacksMaximal(env: Env, u: set<Entry>, sender: Store, p: Part, m: Entry)
    requires Honest(env, u, sender, p) && p.RangeItem? && m in Maximal(u) && m !in sender
    ensures !PeerHasNewerValue(p.values, m)
  {
    if v :| v in p.values && v.id.CompareTo(m.id) == 0 && v.record.CompareTo(m.record) >= 0 {
      IdentifierOrder(v.id, m.id, m.id);
      assert false;
    }
  }

  lemma ItemIsAnswered(env: Env, u: set<Entry>, s: Store, sender: Store, p: Part, m: Entry)
    requires Suitable(env, u) && Honest(env, u, sender, p) && p.RangeItem? && Asks(p, m)
    requires m in Maximal(u) && m in s && m !in sender
    ensures AnyCarries(ReplyToItem(env, s, p), m)
  {
    var entries := LocalEntries(env, s, p.range);
    UnheldIsFilter(p.values, entries);
    PeerLacksMaximal(env, u, sender, p, m);
    assert m in Unheld(p.values, entries);
    assert Carries(ReplyToItem(env, s, p)[0], m);
  }

  /** A receiver that holds m answers every item that asks for it. */
  lemma {:induction false} ItemsAreAnswered(
    env: Env, u: set<Entry>, s: Store, sender: Store, message: Message, p: Part, m: Entry)
    requires Suitable(env, u) && Scoped(s, env.scope) <= u && HonestMessage(env, u, sender, message)
    requires m in Maximal(u) && m in s && m !in sender
    requires p in message && p.RangeItem? && Asks(p, m)
    ensures AnyCarries(ItemReplies(env, s, message), m)
    decreases |message|
  {
    var init, last := message[..|message| - 1], message[|message| - 1];
    assert message == init + [last];
    if p in init {
      ItemsAreAnswered(env, u, s, sender, init, p, m);
      var q :| q in ItemReplies(env, s, init) && Carries(q, m);
      assert q in ItemReplies(env, s, message);
    } else {
      ItemsAreStored(env, u, s, sender, init);
      ItemIsAnswered(env, u, AfterItems(env, s, init), sender, p, m);
      var q :| q in ReplyToItem(env, AfterItems(env, s, init), p) && Carries(q, m);
      assert q in ItemReplies(env, s, message);
    }
  }

  lemma {:induction false} DescribeAllHas(env: Env, s: Store, ranges: seq<Range>, piece: Range)
    requires piece in ranges
    ensures Describe(env, s, piece) in DescribeAll(env, s, ranges)
    decreases |ranges|
  {
    var init, last := ranges[..|ranges| - 1], ranges[|ranges| - 1];
    if piece != last {
      DescribeAllHas(env, s, init, piece);
    }
  }

  lemma {:induction false} DescribeAllFrom(env: Env, s: Store, ranges: seq<Range>, p: Part) returns (piece: Range)
    requires p in DescribeAll(env, s, ranges)
    ensures piece in ranges && p == Describe(env, s, piece)
    decreases |ranges|
  {
    var init, last := ranges[..|ranges| - 1], ranges[|ranges| - 1];
    if p == Describe(env, s, last) {
      piece := last;
    } else {
      piece := DescribeAllFrom(env, s, init, p);
    }
  }

  lemma {:induction false} HitGivesRange(ranges: seq<Range>, id: RecordIdentifier)
    ensures Hits(ranges, id) > 0 <==> exists r :: r in ranges && r.Contains(id)
    decreases |ranges|
  {
    if ranges != [] {
      var init, last := ranges[..|ranges| - 1], ranges[|ranges| - 1];
      assert ranges == init + [last];
      HitGivesRange(init, id);
    }
  }

  lemma PieceWith(entries: seq<Entry>, r: Range, factor: int, id: RecordIdentifier) returns (piece: Range)
    requires SortedById(entries) && entries != [] && r.Contains(id)
    requires forall e :: e in entries ==> r.Contains(e.id)
    requires r.IsAll() ==> |entries| >= 2
    ensures piece in SplitRange(entries, r, factor) && piece.Contains(id)
  {
    SplitCoversExactly(entries, r, factor, id);
    HitGivesRange(SplitRange(entries, r, factor), id);
    piece :| piece in SplitRange(entries, r, factor) && piece.Contains(id);
  }

  /** What describes a range truthfully both asks for and delivers the maximal entries in it. */
  lemma LocalListIsHonest(env: Env, u: set<Entry>, s: Store, r: Range)
    requires Scoped(s, env.scope) <= u
    ensures Honest(env, u, s, RangeItem(r, LocalEntries(env, s, r), false))
    ensures Honest(env, u, s, Describe(env, s, r))
  {
    ShadowsOrderAll();
  }

  lemma DescribeAllIsHonest(env: Env, u: set<Entry>, s: Store, ranges: seq<Range>)
    requires Scoped(s, env.scope) <= u
    ensures HonestMessage(env, u, s, DescribeAll(env, s, ranges))
  {
    forall p | p in DescribeAll(env, s, ranges)
      ensures Honest(env, u, s, p)
    {
      var piece := DescribeAllFrom(env, s, ranges, p);
      LocalListIsHonest(env, u, s, piece);
    }
  }

  lemma FingerprintReplyIsHonest(env: Env, u: set<Entry>, s: Store, remote: Part)
    requires Scoped(s, env.scope) <= u && remote.RangeFingerprint?
    ensures HonestMessage(env, u, s, ReplyToFingerprint(env, s, remote))
  {
    var r := remote.range;
    LocalListIsHonest(env, u, s, r);
    DescribeAllIsHonest(env, u, s, SplitRange(LocalEntries(env, s, r), r, env.config.WithDefaults().splitFactor));
  }

  lemma DescriptionCovers(env: Env, s: Store, piece: Range, m: Entry)
    requires piece.Contains(m.id) && (m in s ==> env.scope.Admits(m))
    ensures Asks(Describe(env, s, piece), m)
    ensures m in s ==> Carries(Describe(env, s, piece), m)
  {
  }

  /** A fingerprint that does not match is answered for every entry in its range. */
  lemma FingerprintIsAnswered(env: Env, s: Store, remote: Part, m: Entry) returns (p: Part)
    requires remote.RangeFingerprint? && remote.range.Contains(m.id)
    requires remote.fingerprint != LocalFingerprint(env, s, remote.range)
    requires m in s ==> env.scope.Admits(m)
    ensures p in ReplyToFingerprint(env, s, remote)
    ensures Asks(p, m)
    ensures m in s ==> Carries(p, m)
  {
    var r, entries := remote.range, LocalEntries(env, s, remote.range);
    if |entries| <= 1 || remote.fingerprint == env.hashing.empty {
      p := RangeItem(r, entries, false);
    } else {
      var factor := env.config.WithDefaults().splitFactor;
      var piece := PieceWith(entries, r, factor, m.id);
      DescribeAllHas(env, s, SplitRange(entries, r, factor), piece);
      p := Describe(env, s, piece);
      DescriptionCovers(env, s, piece, m);
    }
  }

  lemma {:induction false} FingerprintRepliesParts(env: Env, s: Store, message: Message)
    ensures forall p :: p in FingerprintReplies(env, s, message) <==>
              exists q :: q in message && q.RangeFingerprint? && p in ReplyToFingerprint(env, s, q)
    decreases |message|
  {
    if message != [] {
      var init, last := message[..|message| - 1], message[|message| - 1];
      assert message == init + [last];
      FingerprintRepliesParts(env, s, init);
    }
  }

  lemma AnswerIsHonest(env: Env, u: set<Entry>, s: Store, sender: Store, message: Message)
    requires Suitable(env, u) && Scoped(s, env.scope) <= u && HonestMessage(env, u, sender, message)
    ensures HonestMessage(env, u, AfterItems(env, s, message), Answer(env, s, message))
  {
    var t := AfterItems(env, s, message);
    ItemsAreStored(env, u, s, sender, message);
    ItemRepliesAreHonest(env, u, s, sender, message);
    FingerprintRepliesParts(env, t, message);
    forall q | q in message && q.RangeFingerprint?
      ensures HonestMessage(env, u, t, ReplyToFingerprint(env, t, q))
    {
      FingerprintReplyIsHonest(env, u, t, q);
    }
  }

  /** A difference between the stores shows in every fingerprint on a range that holds it. */
  lemma DifferenceShows(env: Env, u: set<Entry>, receiver: Store, sender: Store, message: Message, p: Part, m: Entry)
    requires Suitable(env, u) && NoCollision(env, receiver, sender, message)
    requires p in message && p.RangeFingerprint?
    requires m in u && p.range.Contains(m.id) && (m in AfterItems(env, receiver, message)) != (m in sender)
    ensures p.fingerprint != LocalFingerprint(env, AfterItems(env, receiver, message), p.range)
  {
    var x, y := InRange(AfterItems(env, receiver, message), env.scope, p.range), InRange(sender, env.scope, p.range);
    assert (m in x) != (m in y);
  }

  /** One step settles every maximal entry again, for the next receiver. */
  lemma AnswerSettles(env: Env, u: set<Entry>, receiver: Store, sender: Store, message: Message, m: Entry)
    requires Suitable(env, u) && Sound(env, u, receiver, sender, message) && m in Maximal(u)
    requires NoCollision(env, receiver, sender, message) && Settled(receiver, sender, message, m)
    ensures Settled(sender, AfterItems(env, receiver, message), Answer(env, receiver, message), m)
  {
    var t, answer := AfterItems(env, receiver, message), Answer(env, receiver, message);
    ItemsAreStored(env, u, receiver, sender, message);
    if (m in t) != (m in sender) {
      if p :| p in message && p.RangeFingerprint? && p.range.Contains(m.id) {
        DifferenceShows(env, u, receiver, sender, message, p, m);
        var q := FingerprintIsAnswered(env, t, p, m);
        FingerprintRepliesParts(env, t, message);
        assert q in answer;
      } else {
        assert m in receiver && m !in sender;
        var p :| p in message && Asks(p, m);
        ItemsAreAnswered(env, u, receiver, sender, message, p, m);
        var q :| q in ItemReplies(env, receiver, message) && Carries(q, m);
        assert q in answer;
      }
    }
  }

  // ----- cutting the reply to one frame loses nothing

  lemma {:induction false} SummarizeAllParts(env: Env, s: Store, ranges: seq<Range>)
    ensures forall p :: p in SummarizeAll(env, s, ranges) <==> exists r :: r in ranges && p == Summary(env, s, r)
    decreases |ranges|
  {
    if ranges != [] {
      var init, last := ranges[..|ranges| - 1], ranges[|ranges| - 1];
      assert ranges == init + [last];
      SummarizeAllParts(env, s, init);
    }
  }

  /** An honest item with two values leaves at least two local entries when its range is everything. */
  lemma TwoValuesTwoEntries(env: Env, u: set<Entry>, s: Store, p: Part, m: Entry)
    requires Suitable(env, u) && Honest(env, u, s, p) && p.RangeItem? && |p.values| >= 2
    requires m in p.values && m in Maximal(u)
    ensures m in LocalEntries(env, s, p.range)
    ensures p.range.IsAll() ==> |LocalEntries(env, s, p.range)| >= 2
  {
    var local := InRange(s, env.scope, p.range);
    assert m in local;
    if p.range.IsAll() {
      var v := if p.values[0] == m then p.values[1] else p.values[0];
      IdentifierOrder(m.id, m.id, m.id);
      assert v != m && v in p.values;
      var x := OtherIsHeld(env, u, s, p, m, v);
      assert {m, x} <= local;
      CardinalityMonotone({m, x}, local);
    }
  }

  /** What the store holds for another listed value is another entry. */
  lemma OtherIsHeld(env: Env, u: set<Entry>, s: Store, p: Part, m: Entry, v: Entry) returns (x: Entry)
    requires Suitable(env, u) && Honest(env, u, s, p) && p.RangeItem? && p.range.IsAll()
    requires m in p.values && v in p.values && v != m
    ensures x in InRange(s, env.scope, p.range) && x != m
  {
    var listed := set w | w in p.values;
    assert m in listed && v in listed;
    x :| x in s && Shadows(x, v);
  }

  lemma {:induction false} CardinalityMonotone<T>(a: set<T>, b: set<T>)
    requires a <= b
    ensures |a| <= |b|
    ensures a != b ==> |a| < |b|
  {
    assert b == a + (b - a);
  }

  /** The summaries that stand in for an oversized item carry and ask for all that it did. */
  lemma OversizedKeepsCover(env: Env, u: set<Entry>, s: Store, p: Part, m: Entry) returns (q: Part)
    requires Suitable(env, u) && Honest(env, u, s, p) && Oversized(env, p) && m in Maximal(u)
    requires Carries(p, m) || Asks(p, m)
    ensures q in SummarizeAll(env, s, SplitRange(LocalEntries(env, s, p.range), p.range, 2))
    ensures Carries(q, m) && Asks(q, m)
  {
    var r, entries := p.range, LocalEntries(env, s, p.range);
    if Carries(p, m) {
      TwoValuesTwoEntries(env, u, s, p, m);
    }
    var piece := PieceWith(entries, r, 2, m.id);
    SummarizeAllParts(env, s, SplitRange(entries, r, 2));
    q := Summary(env, s, piece);
  }

  /** Every part of the answer has a part in what is sent that covers the same entry. */
  lemma {:induction false} SplitKeepsCover(env: Env, u: set<Entry>, s: Store, parts: seq<Part>, p: Part, m: Entry)
    returns (q: Part)
    requires Suitable(env, u) && HonestMessage(env, u, s, parts) && m in Maximal(u)
    requires p in parts && (Carries(p, m) || Asks(p, m))
    ensures q in SplitOversized(env, s, parts)
    ensures Carries(p, m) ==> Carries(q, m)
    ensures Asks(p, m) ==> Asks(q, m)
    decreases |parts|
  {
    var init, last := parts[..|parts| - 1], parts[|parts| - 1];
    assert parts == init + [last];
    if p in init {
      q := SplitKeepsCover(env, u, s, init, p, m);
    } else if Oversized(env, p) {
      q := OversizedKeepsCover(env, u, s, p, m);
    } else {
      q := p;
    }
  }

  lemma {:induction false} SplitIsHonest(env: Env, u: set<Entry>, s: Store, parts: seq<Part>)
    requires HonestMessage(env, u, s, parts)
    ensures HonestMessage(env, u, s, SplitOversized(env, s, parts))
    decreases |parts|
  {
    if parts != [] {
      var init, last := parts[..|parts| - 1], parts[|parts| - 1];
      assert parts == init + [last];
      SplitIsHonest(env, u, s, init);
      SummarizeAllParts(env, s, SplitRange(LocalEntries(env, s, last.range), last.range, 2));
    }
  }

  /** What is sent for a part is the part itself or, for an item, a summary of its range. */
  ghost predicate SentAs(env: Env, s: Store, p: Part, q: Part)
  {
    q == p || (p.RangeItem? && q == Summary(env, s, p.range))
  }

  ghost predicate AllSentAs(env: Env, s: Store, parts: seq<Part>, fitted: seq<Part>)
  {
    |fitted| == |parts| && forall i :: 0 <= i < |parts| ==> SentAs(env, s, parts[i], fitted[i])
  }

  lemma OneMoreSent(env: Env, s: Store, parts: seq<Part>, fitted: seq<Part>, p: Part, q: Part)
    requires AllSentAs(env, s, parts, fitted) && SentAs(env, s, p, q)
    ensures AllSentAs(env, s, parts + [p], fitted + [q])
  {
  }

  lemma OverflowLast(env: Env, s: Store, parts: seq<Part>, p: Part) returns (q: Part)
    ensures SummarizeOverflow(env, s, parts + [p]) == SummarizeOverflow(env, s, parts) + [q] && SentAs(env, s, p, q)
  {
    var fitted := SummarizeOverflow(env, s, parts);
    q := if TotalSize(env, fitted) + env.size(p) > BUDGET && p.RangeItem? then Summary(env, s, p.range) else p;
    assert (parts + [p])[..|parts|] == parts;
  }

  lemma {:induction false} OverflowSends(env: Env, s: Store, parts: seq<Part>)
    ensures AllSentAs(env, s, parts, SummarizeOverflow(env, s, parts))
    decreases |parts|
  {
    if parts != [] {
      var front, last := parts[..|parts| - 1], parts[|parts| - 1];
      OverflowSends(env, s, front);
      OverflowSendsMore(env, s, front, last);
      Bytes.FrontAndLast([], parts);
    }
  }

  lemma OverflowSendsMore(env: Env, s: Store, parts: seq<Part>, p: Part)
    requires AllSentAs(env, s, parts, SummarizeOverflow(env, s, parts))
    ensures AllSentAs(env, s, parts + [p], SummarizeOverflow(env, s, parts + [p]))
  {
    var q := OverflowLast(env, s, parts, p);
    OneMoreSent(env, s, parts, SummarizeOverflow(env, s, parts), p, q);
  }

  lemma OverflowPart(env: Env, s: Store, parts: seq<Part>, i: nat)
    requires i < |parts|
    ensures |SummarizeOverflow(env, s, parts)| == |parts|
    ensures SentAs(env, s, parts[i], SummarizeOverflow(env, s, parts)[i])
  {
    OverflowSends(env, s, parts);
  }

  lemma OverflowIsHonest(env: Env, u: set<Entry>, s: Store, parts: seq<Part>)
    requires HonestMessage(env, u, s, parts)
    ensures HonestMessage(env, u, s, SummarizeOverflow(env, s, parts))
  {
    var fitted := SummarizeOverflow(env, s, parts);
    forall q | q in fitted
      ensures Honest(env, u, s, q)
    {
      var i :| 0 <= i < |fitted| && fitted[i] == q;
      if parts != [] {
        OverflowPart(env, s, parts, 0);
      }
      OverflowPart(env, s, parts, i);
      assert Honest(env, u, s, parts[i]);
    }
  }

  lemma OverflowKeepsCover(env: Env, u: set<Entry>, s: Store, parts: seq<Part>, p: Part, m: Entry) returns (q: Part)
    requires HonestMessage(env, u, s, parts) && p in parts
    ensures q in SummarizeOverflow(env, s, parts)
    ensures Carries(p, m) ==> Carries(q, m)
    ensures Asks(p, m) ==> Asks(q, m)
  {
    var i :| 0 <= i < |parts| && parts[i] == p;
    OverflowPart(env, s, parts, i);
    q := SummarizeOverflow(env, s, parts)[i];
    assert Honest(env, u, s, p);
  }

  lemma BoundedKeepsCover(env: Env, u: set<Entry>, s: Store, parts: seq<Part>, m: Entry)
    requires Suitable(env, u) && HonestMessage(env, u, s, parts) && m in Maximal(u)
    ensures AnyCarries(parts, m) ==> AnyCarries(Bounded(env, s, parts), m)
    ensures AnyAsks(parts, m) ==> AnyAsks(Bounded(env, s, parts), m)
  {
    SplitIsHonest(env, u, s, parts);
    if p :| p in parts && Carries(p, m) {
      var q := SplitKeepsCover(env, u, s, parts, p, m);
      var _ := OverflowKeepsCover(env, u, s, SplitOversized(env, s, parts), q, m);
    }
    if p :| p in parts && Asks(p, m) {
      var q := SplitKeepsCover(env, u, s, parts, p, m);
      var _ := OverflowKeepsCover(env, u, s, SplitOversized(env, s, parts), q, m);
    }
  }

  // ----- the exchange

  /** Every step keeps stores and messages sound, with the roles exchanged, whatever the encoded sizes are. */
  lemma StepIsSound(env: Env, u: set<Entry>, receiver: Store, sender: Store, message: Message)
    requires Suitable(env, u) && Sound(env, u, receiver, sender, message)
    ensures Sound(env, u, sender, AfterItems(env, receiver, message), Reply(env, receiver, message))
  {
    var t, answer := AfterItems(env, receiver, message), Answer(env, receiver, message);
    ItemsAreStored(env, u, receiver, sender, message);
    AnswerIsHonest(env, u, receiver, sender, message);
    SplitIsHonest(env, u, t, answer);
    OverflowIsHonest(env, u, t, SplitOversized(env, t, answer));
  }

  /** Every step keeps all maximal entries settled. */
  lemma StepSettles(env: Env, u: set<Entry>, receiver: Store, sender: Store, message: Message)
    requires Suitable(env, u) && Sound(env, u, receiver, sender, message)
    requires NoCollision(env, receiver, sender, message) && AllSettled(u, receiver, sender, message)
    ensures AllSettled(u, sender, AfterItems(env, receiver, message), Reply(env, receiver, message))
  {
    AnswerIsHonest(env, u, receiver, sender, message);
    forall m | m in Maximal(u)
      ensures Settled(sender, AfterItems(env, receiver, message), Reply(env, receiver, message), m)
    {
      AnswerSettles(env, u, receiver, sender, message, m);
      BoundedKeepsCover(env, u, AfterItems(env, receiver, message), Answer(env, receiver, message), m);
    }
  }

  /** The first message settles everything: it asks about the whole set. */
  lemma InitialMessageSettles(env: Env, sender: Store, receiver: Store)
    ensures var u := Scoped(sender, env.scope) + Scoped(receiver, env.scope);
            Sound(env, u, receiver, sender, InitialMessage(env, sender)) &&
            AllSettled(u, receiver, sender, InitialMessage(env, sender))
  {
    var u, p := Scoped(sender, env.scope) + Scoped(receiver, env.scope), InitialMessage(env, sender)[0];
    IdentifierOrder(p.range.start, p.range.end, p.range.end);
    assert InRange(sender, env.scope, p.range) == Scoped(sender, env.scope);
    assert InitialMessage(env, sender) == [p];
    forall m | m in Maximal(u)
      ensures Settled(receiver, sender, [p], m)
    {
      assert p in [p] && Carries(p, m) && Asks(p, m);
    }
  }

  /** With nothing in flight, both sides hold exactly the maximal entries. */
  lemma QuietMeansConverged(env: Env, u: set<Entry>, receiver: Store, sender: Store)
    requires Suitable(env, u) && Sound(env, u, receiver, sender, []) && AllSettled(u, receiver, sender, [])
    ensures Scoped(receiver, env.scope) == Maximal(u) == Scoped(sender, env.scope)
  {
    forall m | m in Maximal(u)
      ensures m in receiver && m in sender
    {
      assert Settled(receiver, sender, [], m);
    }
    OnlyMaximalRemain(env, u, receiver);
    OnlyMaximalRemain(env, u, sender);
  }

  lemma OnlyMaximalRemain(env: Env, u: set<Entry>, s: Store)
    requires Suitable(env, u) && Maximal(u) <= s && Scoped(s, env.scope) <= u
    ensures Scoped(s, env.scope) == Maximal(u)
  {
    forall e | e in Scoped(s, env.scope)
      ensures e in Maximal(u)
    {
      var m := ShadowedByMaximal(u, e);
    }
  }
}
