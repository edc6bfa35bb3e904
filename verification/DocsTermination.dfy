/**
 When an exchange ends (docs/store.go, processMessage and boundedMessage; docs/net.go, Handler.run).
 It ends if every entry fits a frame by itself. An entry that fits none keeps it going for ever:
 boundedMessage makes a fingerprint of it each time, and the peer asks for it each time.
 */
module DocsTermination {
  import opened DocsEntry
  import opened DocsCrdt
  import opened DocsRange
  import opened DocsMessage
  import opened DocsConvergence
  import opened DocsExchange
  import opened DocsWorth

  // ----- the ranges an exchange can come to

  predicate KnownId(u: set<Entry>, id: RecordIdentifier)
  {
    id == ZeroId() || exists e :: e in u && e.id == id
  }

  /** A range between identifiers of u, or from the start of the identifiers. */
  predicate Known(u: set<Entry>, r: Range)
  {
    KnownId(u, r.start) && KnownId(u, r.end)
  }

  predicate KnownMessage(u: set<Entry>, message: Message)
  {
    forall p :: p in message ==> Known(u, p.range)
  }

  lemma SplitIsKnown(env: Env, u: set<Entry>, s: Store, r: Range, factor: int, piece: Range)
    requires Scoped(s, env.scope) <= u && Known(u, r) && piece in SplitRange(LocalEntries(env, s, r), r, factor)
    ensures Known(u, piece)
  {
    var a, b := SplitPieceEnds(LocalEntries(env, s, r), r, factor, piece);
    assert a in u && b in u;
  }

  lemma {:induction false} ItemReplyFrom(env: Env, s: Store, message: Message, p: Part) returns (k: nat)
    requires p in ItemReplies(env, s, message)
    ensures k < |message| && message[k].RangeItem?
    ensures ReplyToItem(env, AfterItems(env, s, message[..k]), message[k]) == [p]
    decreases |message|
  {
    var init, last := message[..|message| - 1], message[|message| - 1];
    if p in ItemReplies(env, s, init) {
      k := ItemReplyFrom(env, s, init, p);
      assert init[..k] == message[..k];
    } else {
      k := |message| - 1;
    }
  }

  lemma FingerprintReplyIsKnown(env: Env, u: set<Entry>, s: Store, q: Part, p: Part)
    requires Scoped(s, env.scope) <= u && Known(u, q.range) && q.RangeFingerprint? && p in ReplyToFingerprint(env, s, q)
    ensures Known(u, p.range)
  {
    var entries, factor := LocalEntries(env, s, q.range), env.config.WithDefaults().splitFactor;
    if p != RangeItem(q.range, entries, false) {
      var piece := DescribeAllFrom(env, s, SplitRange(entries, q.range, factor), p);
      SplitIsKnown(env, u, s, q.range, factor, piece);
    }
  }

  lemma AnswerIsKnown(env: Env, u: set<Entry>, s: Store, message: Message)
    requires Scoped(AfterItems(env, s, message), env.scope) <= u && KnownMessage(u, message)
    ensures KnownMessage(u, Answer(env, s, message))
  {
    var t := AfterItems(env, s, message);
    FingerprintRepliesParts(env, t, message);
    forall p | p in Answer(env, s, message)
      ensures Known(u, p.range)
    {
      if p in ItemReplies(env, s, message) {
        var k := ItemReplyFrom(env, s, message, p);
        assert Known(u, message[k].range);
      } else {
        var q :| q in message && q.RangeFingerprint? && p in ReplyToFingerprint(env, t, q);
        FingerprintReplyIsKnown(env, u, t, q, p);
      }
    }
  }

  lemma {:induction false} SplitOversizedIsKnown(env: Env, u: set<Entry>, s: Store, parts: seq<Part>)
    requires Scoped(s, env.scope) <= u && KnownMessage(u, parts)
    ensures KnownMessage(u, SplitOversized(env, s, parts))
    decreases |parts|
  {
    if parts != [] {
      var init, last := parts[..|parts| - 1], parts[|parts| - 1];
      assert parts == init + [last];
      SplitOversizedIsKnown(env, u, s, init);
      SplitOversizedStep(env, s, parts);
      var pieces := SplitRange(LocalEntries(env, s, last.range), last.range, 2);
      SummarizeAllParts(env, s, pieces);
      forall piece | piece in pieces
        ensures Known(u, piece)
      {
        SplitIsKnown(env, u, s, last.range, 2, piece);
      }
    }
  }

  lemma ReplyIsKnown(env: Env, u: set<Entry>, s: Store, message: Message)
    requires Scoped(AfterItems(env, s, message), env.scope) <= u && KnownMessage(u, message)
    ensures KnownMessage(u, Reply(env, s, message))
  {
    var t := AfterItems(env, s, message);
    var split := SplitOversized(env, t, Answer(env, s, message));
    AnswerIsKnown(env, u, s, message);
    SplitOversizedIsKnown(env, u, t, Answer(env, s, message));
    forall p | p in SummarizeOverflow(env, t, split)
      ensures Known(u, p.range)
    {
      var i :| 0 <= i < |SummarizeOverflow(env, t, split)| && SummarizeOverflow(env, t, split)[i] == p;
      if split != [] {
        OverflowPart(env, t, split, 0);
      }
      OverflowPart(env, t, split, i);
      assert split[i] in split;
    }
  }

  // ----- the condition

  ghost predicate EmptyItemsFit(env: Env, u: set<Entry>)
  {
    forall r :: Known(u, r) ==> env.size(RangeItem(r, [], false)) <= BUDGET
  }

  /** Every item of this entry alone fits a frame. */
  ghost predicate EntryFits(env: Env, u: set<Entry>, e: Entry)
  {
    forall r, haveLocal :: Known(u, r) ==> env.size(RangeItem(r, [e], haveLocal)) <= BUDGET
  }

  ghost predicate FitsAlone(env: Env, u: set<Entry>)
  {
    EmptyItemsFit(env, u) && forall e :: e in u ==> EntryFits(env, u, e)
  }

  /** No item with this entry fits a frame. */
  ghost predicate TooLarge(env: Env, e: Entry)
  {
    forall r, values, haveLocal :: e in values ==> env.size(RangeItem(r, values, haveLocal)) > BUDGET
  }

  lemma SmallItemFits(env: Env, u: set<Entry>, p: Part)
    requires FitsAlone(env, u) && p.RangeItem? && |p.values| <= 1 && Known(u, p.range)
    requires (forall v :: v in p.values ==> v in u) && (p.values == [] ==> !p.haveLocal)
    ensures env.size(p) <= BUDGET
  {
    if p.values == [] {
      assert p == RangeItem(p.range, [], false);
    } else {
      assert p.values[0] in u && p.values == [p.values[0]];
      assert EntryFits(env, u, p.values[0]);
      assert p == RangeItem(p.range, [p.values[0]], p.haveLocal);
    }
  }

  // ----- what the stores have not seen

  ghost function Open(u: set<Entry>, s: Store): (open: set<Entry>)
  {
    set x | x in u && !Shadowed(s, x)
  }

  /** Two stores that shadow the same entries of u hold the same ones. */
  lemma NothingNew(env: Env, u: set<Entry>, s: Store, t: Store)
    requires Suitable(env, u) && Scoped(s, env.scope) <= u && Scoped(t, env.scope) <= u
    requires forall v :: v in u ==> (Shadowed(s, v) <==> Shadowed(t, v))
    ensures Scoped(s, env.scope) <= Scoped(t, env.scope)
  {
    ShadowsOrderAll();
    forall e | e in Scoped(s, env.scope)
      ensures e in t
    {
      assert Shadowed(s, e);
      var f :| f in t && Shadows(f, e);
      assert f in Scoped(t, env.scope) && Shadowed(t, f);
      var g :| g in s && Shadows(g, f);
    }
  }

  lemma {:induction false} AfterItemsJoin(env: Env, s: Store, a: Message, b: Message)
    ensures AfterItems(env, s, a + b) == AfterItems(env, AfterItems(env, s, a), b)
    decreases |b|
  {
    if b == [] {
      assert a + b == a;
    } else {
      var init, last := b[..|b| - 1], b[|b| - 1];
      AfterItemsJoin(env, s, a, init);
      assert a + b == a + init + [last] && b == init + [last];
      AfterItemsStep(env, s, a + init, last);
      AfterItemsStep(env, AfterItems(env, s, a), init, last);
    }
  }

  lemma OpenShrinks(u: set<Entry>, s: Store, t: Store)
    requires forall v :: Shadowed(s, v) ==> Shadowed(t, v)
    ensures |Open(u, t)| <= |Open(u, s)|
    ensures |Open(u, t)| == |Open(u, s)| ==> forall v :: v in u ==> (Shadowed(s, v) <==> Shadowed(t, v))
  {
    CardinalityMonotone(Open(u, t), Open(u, s));
    forall v | v in u
      ensures v in Open(u, s) <==> !Shadowed(s, v)
      ensures v in Open(u, t) <==> !Shadowed(t, v)
    {
    }
  }

  /** If a message brings nothing new, the store holds throughout what it holds at the end. */
  lemma StillThere(env: Env, u: set<Entry>, receiver: Store, sender: Store, message: Message, k: nat)
    requires Suitable(env, u) && Sound(env, u, receiver, sender, message) && k <= |message|
    requires |Open(u, AfterItems(env, receiver, message))| >= |Open(u, receiver)|
    ensures Scoped(AfterItems(env, receiver, message[..k]), env.scope) <=
            Scoped(AfterItems(env, receiver, message), env.scope)
  {
    var mid, t := AfterItems(env, receiver, message[..k]), AfterItems(env, receiver, message);
    assert message == message[..k] + message[k..];
    AfterItemsJoin(env, receiver, message[..k], message[k..]);
    ItemsAreStored(env, u, receiver, sender, message[..k]);
    ItemsAreStored(env, u, mid, sender, message[k..]);
    OpenShrinks(u, receiver, mid);
    OpenShrinks(u, mid, t);
    NothingNew(env, u, mid, t);
  }

  // ----- one step makes progress

  predicate Live(u: set<Entry>, p: Part)
  {
    Worth(u, p.range) > 0
  }

  /** An item that answers one: the last word about its range. */
  predicate HasAnswer(u: set<Entry>, message: Message)
  {
    exists p :: p in message && p.RangeItem? && p.haveLocal && Live(u, p)
  }

  predicate HasItem(u: set<Entry>, message: Message)
  {
    exists p :: p in message && p.RangeItem? && Live(u, p)
  }

  lemma CoveredIsLive(u: set<Entry>, p: Part, e: Entry)
    requires e in u && p.range.Contains(e.id)
    ensures Live(u, p)
  {
    assert e in Covered(u, p.range);
  }

  /** A reply to an item lists entries of its range. */
  lemma ItemReplyIsLive(env: Env, u: set<Entry>, receiver: Store, sender: Store, message: Message, p: Part)
    requires Suitable(env, u) && Sound(env, u, receiver, sender, message) && p in ItemReplies(env, receiver, message)
    ensures p.RangeItem? && p.haveLocal && p.values != [] && Live(u, p) && forall v :: v in p.values ==> v in u
  {
    var k := ItemReplyFrom(env, receiver, message, p);
    ItemRepliesAreHonest(env, u, receiver, sender, message);
    assert Honest(env, u, AfterItems(env, receiver, message), p);
    CoveredIsLive(u, p, p.values[0]);
  }

  lemma FingerprintReplyIsLive(env: Env, u: set<Entry>, s: Store, sender: Store, q: Part)
    requires Scoped(s, env.scope) <= u && Scoped(sender, env.scope) <= u
    requires q.RangeFingerprint? && Honest(env, u, sender, q) && ReplyToFingerprint(env, s, q) != []
    ensures Live(u, q)
  {
    MismatchIsCovered(env, u, s, sender, q.range);
  }

  lemma FingerprintReplyFrom(env: Env, s: Store, message: Message, p: Part) returns (q: Part)
    requires p in FingerprintReplies(env, s, message)
    ensures q in message && q.RangeFingerprint? && p in ReplyToFingerprint(env, s, q)
  {
    FingerprintRepliesParts(env, s, message);
    q :| q in message && q.RangeFingerprint? && p in ReplyToFingerprint(env, s, q);
  }

  lemma NoLivePrintsNoReplies(env: Env, u: set<Entry>, s: Store, sender: Store, message: Message)
    requires Scoped(s, env.scope) <= u && Scoped(sender, env.scope) <= u && HonestMessage(env, u, sender, message)
    requires PartsWorth(u, message) == 0
    ensures FingerprintReplies(env, s, message) == []
  {
    var replies := FingerprintReplies(env, s, message);
    if replies != [] {
      var q := FingerprintReplyFrom(env, s, message, replies[0]);
      FingerprintReplyIsLive(env, u, s, sender, q);
      PartIsWorth(u, message, q);
      assert false;
    }
  }

  /** A message worth nothing is not answered. */
  lemma WorthlessIsQuiet(env: Env, u: set<Entry>, receiver: Store, sender: Store, message: Message)
    requires Suitable(env, u) && Sound(env, u, receiver, sender, message) && PartsWorth(u, message) == 0
    ensures Reply(env, receiver, message) == []
  {
    ItemsAreStored(env, u, receiver, sender, message);
    forall p | p in message
      ensures !Live(u, p)
    {
      PartIsWorth(u, message, p);
    }
    NoLiveItemsNoReplies(env, u, receiver, sender, message);
    NoLivePrintsNoReplies(env, u, AfterItems(env, receiver, message), sender, message);
  }

  lemma ReplyWorth(env: Env, u: set<Entry>, receiver: Store, sender: Store, message: Message)
    requires Suitable(env, u) && Sound(env, u, receiver, sender, message)
    ensures PartsWorth(u, Reply(env, receiver, message)) <= PartsWorth(u, Answer(env, receiver, message))
            <= PartsWorth(u, message)
    ensures |Open(u, AfterItems(env, receiver, message))| <= |Open(u, receiver)|
  {
    ItemsAreStored(env, u, receiver, sender, message);
    AnswerWorth(env, u, receiver, message);
    BoundedWorth(env, u, AfterItems(env, receiver, message), Answer(env, receiver, message));
    OpenShrinks(u, receiver, AfterItems(env, receiver, message));
  }

  /** The last word about a range is not answered. */
  lemma AnswerIsLast(env: Env, u: set<Entry>, receiver: Store, sender: Store, message: Message)
    requires Suitable(env, u) && Sound(env, u, receiver, sender, message) && HasAnswer(u, message)
    ensures PartsWorth(u, Reply(env, receiver, message)) < PartsWorth(u, message)
  {
    ReplyWorth(env, u, receiver, sender, message);
    ItemsAreStored(env, u, receiver, sender, message);
    AnswerWorth(env, u, receiver, message);
    var p :| p in message && p.RangeItem? && p.haveLocal && Live(u, p);
    AnsweredItemIsGone(env, u, receiver, message, p);
  }

  lemma {:induction false} ItemIsItemWorth(u: set<Entry>, message: Message, p: Part)
    requires p in message && p.RangeItem?
    ensures Worth(u, p.range) <= ItemsWorth(u, message)
    decreases |message|
  {
    var front, last := message[..|message| - 1], message[|message| - 1];
    assert message == front + [last];
    if p != last {
      ItemIsItemWorth(u, front, p);
    }
  }

  /** The first answer to an item is sent, or its range is split, or it was listed before news came. */
  lemma ItemIsAnsweredNext(env: Env, u: set<Entry>, receiver: Store, sender: Store, message: Message)
    requires Suitable(env, u) && Sound(env, u, receiver, sender, message) && HasItem(u, message)
    requires FitsAlone(env, u) && KnownMessage(u, message)
    ensures || PartsWorth(u, Reply(env, receiver, message)) < PartsWorth(u, message)
            || |Open(u, AfterItems(env, receiver, message))| < |Open(u, receiver)|
            || HasAnswer(u, Reply(env, receiver, message))
  {
    ReplyWorth(env, u, receiver, sender, message);
    ItemsAreStored(env, u, receiver, sender, message);
    AnswerWorth(env, u, receiver, message);
    var replies := ItemReplies(env, receiver, message);
    if replies == [] {
      var p :| p in message && p.RangeItem? && Live(u, p);
      ItemIsItemWorth(u, message, p);
    } else if |Open(u, AfterItems(env, receiver, message))| == |Open(u, receiver)| {
      FirstAnswerGoesOut(env, u, receiver, sender, message);
    }
  }

  lemma FirstAnswerGoesOut(env: Env, u: set<Entry>, receiver: Store, sender: Store, message: Message)
    requires Suitable(env, u) && Sound(env, u, receiver, sender, message) && FitsAlone(env, u) &&
             KnownMessage(u, message)
    requires ItemReplies(env, receiver, message) != []
    requires |Open(u, AfterItems(env, receiver, message))| >= |Open(u, receiver)|
    ensures || PartsWorth(u, Reply(env, receiver, message)) < PartsWorth(u, Answer(env, receiver, message))
            || HasAnswer(u, Reply(env, receiver, message))
  {
    var t, answer := AfterItems(env, receiver, message), Answer(env, receiver, message);
    var p := ItemReplies(env, receiver, message)[0];
    assert answer[0] == p && p in answer;
    ItemsAreStored(env, u, receiver, sender, message);
    ItemReplyIsLive(env, u, receiver, sender, message, p);
    AnswerIsKnown(env, u, receiver, message);
    if Oversized(env, p) {
      ListedIsHeld(env, u, receiver, sender, message, p);
      OversizedFrontIsSplit(env, u, t, answer);
    } else {
      if |p.values| <= 1 {
        SmallItemFits(env, u, p);
      }
      FrontIsSent(env, t, answer);
      assert Reply(env, receiver, message)[0] == p;
    }
  }

  /** What a reply to an item lists is held at the end, if the message brought nothing new. */
  lemma ListedIsHeld(env: Env, u: set<Entry>, receiver: Store, sender: Store, message: Message, p: Part)
    requires Suitable(env, u) && Sound(env, u, receiver, sender, message) && p in ItemReplies(env, receiver, message)
    requires |Open(u, AfterItems(env, receiver, message))| >= |Open(u, receiver)|
    ensures p.RangeItem? && |p.values| <= |LocalEntries(env, AfterItems(env, receiver, message), p.range)|
  {
    var t := AfterItems(env, receiver, message);
    var k := ItemReplyFrom(env, receiver, message, p);
    StillThere(env, u, receiver, sender, message, k);
    ReplyLists(env, AfterItems(env, receiver, message[..k]), t, message[k], p);
  }

  lemma ReplyLists(env: Env, s: Store, t: Store, item: Part, p: Part)
    requires item.RangeItem? && ReplyToItem(env, s, item) == [p] && Scoped(s, env.scope) <= Scoped(t, env.scope)
    ensures p.RangeItem? && |p.values| <= |LocalEntries(env, t, p.range)|
  {
    var entries := LocalEntries(env, s, item.range);
    UnheldIsFilter(item.values, entries);
    forall v | v in p.values
      ensures v in InRange(t, env.scope, p.range)
    {
      assert v in entries;
      assert v in Scoped(s, env.scope);
    }
    ListFits(p.values, InRange(t, env.scope, p.range));
  }

  lemma ListFits(values: seq<Entry>, held: set<Entry>)
    requires SortedById(values) && forall v :: v in values ==> v in held
    ensures |values| <= |held|
  {
    SortedSize(values);
    CardinalityMonotone((set v | v in values), held);
  }

  lemma {:induction false} SortedSize(entries: seq<Entry>)
    requires SortedById(entries)
    ensures |(set e | e in entries)| == |entries|
    decreases |entries|
  {
    if entries != [] {
      var front, last := entries[..|entries| - 1], entries[|entries| - 1];
      SortedSize(front);
      assert entries == front + [last];
      IdentifierOrder(last.id, last.id, last.id);
      assert last !in front;
      assert (set e | e in entries) == (set e | e in front) + {last};
    }
  }

  /** Fingerprints alone: one is answered with an item, which goes out, or some range is split. */
  lemma FingerprintIsAnsweredNext(env: Env, u: set<Entry>, receiver: Store, sender: Store, message: Message)
    requires Suitable(env, u) && Sound(env, u, receiver, sender, message) && !HasItem(u, message)
    requires FitsAlone(env, u) && KnownMessage(u, message) && PartsWorth(u, message) > 0
    ensures || PartsWorth(u, Reply(env, receiver, message)) < PartsWorth(u, message)
            || HasItem(u, Reply(env, receiver, message))
  {
    var t, answer := AfterItems(env, receiver, message), Answer(env, receiver, message);
    ReplyWorth(env, u, receiver, sender, message);
    ItemsAreStored(env, u, receiver, sender, message);
    NoLiveItemsNoReplies(env, u, receiver, sender, message);
    if PartsWorth(u, answer) == PartsWorth(u, message) {
      assert answer == FingerprintReplies(env, t, message);
      AnswerWorth(env, u, receiver, message);
      FirstIsList(env, u, t, sender, message);
      FirstListGoesOut(env, u, receiver, message);
    }
  }

  /** Answers to fingerprints that are worth as much as these are lists of whole ranges. */
  lemma FirstIsList(env: Env, u: set<Entry>, s: Store, sender: Store, message: Message)
    requires Scoped(s, env.scope) <= u && Scoped(sender, env.scope) <= u && HonestMessage(env, u, sender, message)
    requires PartsWorth(u, FingerprintReplies(env, s, message)) >= PrintsWorth(u, message)
    requires FingerprintReplies(env, s, message) != []
    ensures var p := FingerprintReplies(env, s, message)[0];
            p == RangeItem(p.range, LocalEntries(env, s, p.range), false) && Live(u, p)
  {
    var q := FingerprintReplyFrom(env, s, message, FingerprintReplies(env, s, message)[0]);
    FingerprintReplyIsLive(env, u, s, sender, q);
    FingerprintAnswerWorth(env, u, s, q);
    if PartsWorth(u, ReplyToFingerprint(env, s, q)) < Worth(u, q.range) {
      LesserAnswerShows(env, u, s, message, q);
    }
  }

  lemma NoLiveItemsNoReplies(env: Env, u: set<Entry>, receiver: Store, sender: Store, message: Message)
    requires Suitable(env, u) && Sound(env, u, receiver, sender, message) && !HasItem(u, message)
    ensures ItemReplies(env, receiver, message) == []
  {
    var replies := ItemReplies(env, receiver, message);
    if replies != [] {
      ItemReplyIsLive(env, u, receiver, sender, message, replies[0]);
      var k := ItemReplyFrom(env, receiver, message, replies[0]);
      assert message[k] in message && Live(u, message[k]);
      assert false;
    }
  }

  lemma FirstListGoesOut(env: Env, u: set<Entry>, receiver: Store, message: Message)
    requires var t, answer := AfterItems(env, receiver, message), Answer(env, receiver, message);
             && Scoped(t, env.scope) <= u && answer != [] && Live(u, answer[0])
             && answer[0] == RangeItem(answer[0].range, LocalEntries(env, t, answer[0].range), false)
    requires FitsAlone(env, u) && KnownMessage(u, message)
    ensures || PartsWorth(u, Reply(env, receiver, message)) < PartsWorth(u, Answer(env, receiver, message))
            || HasItem(u, Reply(env, receiver, message))
  {
    var t, answer := AfterItems(env, receiver, message), Answer(env, receiver, message);
    var p := answer[0];
    AnswerIsKnown(env, u, receiver, message);
    assert p in answer;
    if Oversized(env, p) {
      OversizedFrontIsSplit(env, u, t, answer);
    } else {
      if |p.values| <= 1 {
        LocalIsCovered(env, u, t, p.range);
        SmallItemFits(env, u, p);
      }
      FrontIsSent(env, t, answer);
      assert Reply(env, receiver, message)[0] == p;
    }
  }

  // ----- every exchange of entries that fit ends

  /** How many steps a message may take before it is worth less. */
  function Stage(u: set<Entry>, message: Message): (n: nat)
    ensures 1 <= n <= 3
  {
    if HasAnswer(u, message) then 1 else if HasItem(u, message) then 2 else 3
  }

  ghost function Potential(u: set<Entry>, s: State): (n: nat)
  {
    3 * (PartsWorth(u, s.message) + |Open(u, s.receiver)| + |Open(u, s.sender)|) + Stage(u, s.message)
  }

  ghost predicate BothFit(peers: Peers, u: set<Entry>)
  {
    FitsAlone(peers.dialer, u) && FitsAlone(peers.acceptor, u)
  }

  lemma StepProgress(peers: Peers, u: set<Entry>, s: State)
    requires peers.Compatible(u) && StateSound(peers, u, s) && BothFit(peers, u) && KnownMessage(u, s.message)
    requires PartsWorth(u, s.message) > 0
    ensures Potential(u, Step(peers, s)) < Potential(u, s)
  {
    var env := peers.At(s.turn);
    ReplyWorth(env, u, s.receiver, s.sender, s.message);
    if HasAnswer(u, s.message) {
      AnswerIsLast(env, u, s.receiver, s.sender, s.message);
    } else if HasItem(u, s.message) {
      ItemIsAnsweredNext(env, u, s.receiver, s.sender, s.message);
    } else {
      FingerprintIsAnsweredNext(env, u, s.receiver, s.sender, s.message);
    }
  }

  lemma StepIsKnown(peers: Peers, u: set<Entry>, s: State)
    requires peers.Compatible(u) && StateSound(peers, u, s) && KnownMessage(u, s.message)
    ensures KnownMessage(u, Step(peers, s).message)
  {
    var env := peers.At(s.turn);
    ItemsAreStored(env, u, s.receiver, s.sender, s.message);
    ReplyIsKnown(env, u, s.receiver, s.message);
  }

  ghost predicate Ready(peers: Peers, u: set<Entry>, s: State)
  {
    StateSound(peers, u, s) && KnownMessage(u, s.message)
  }

  lemma StepReady(peers: Peers, u: set<Entry>, s: State, t: State)
    requires peers.Compatible(u) && Ready(peers, u, s) && t == Step(peers, s)
    ensures Ready(peers, u, t)
  {
    StepSound(peers, u, s);
    StepIsKnown(peers, u, s);
  }

  lemma {:induction false} RunReady(peers: Peers, u: set<Entry>, run: seq<State>, n: nat)
    requires peers.Compatible(u) && IsRun(peers, run) && n < |run| && Ready(peers, u, run[0])
    ensures Ready(peers, u, run[n])
    decreases n
  {
    if n > 0 {
      RunReady(peers, u, run, n - 1);
      RunLink(peers, run, n - 1);
      StepReady(peers, u, run[n - 1], run[n]);
    }
  }

  /** A message worth nothing is followed by none. */
  lemma StepOfWorthless(peers: Peers, u: set<Entry>, s: State)
    requires peers.Compatible(u) && StateSound(peers, u, s) && PartsWorth(u, s.message) == 0
    ensures Step(peers, s).message == []
  {
    WorthlessIsQuiet(peers.At(s.turn), u, s.receiver, s.sender, s.message);
  }

  lemma {:induction false} RunProgress(peers: Peers, u: set<Entry>, run: seq<State>, n: nat)
    requires peers.Compatible(u) && IsRun(peers, run) && n < |run| && BothFit(peers, u) && Ready(peers, u, run[0])
    ensures PartsWorth(u, run[n].message) == 0 || Potential(u, run[n]) + n <= Potential(u, run[0])
    decreases n
  {
    if n > 0 {
      RunProgress(peers, u, run, n - 1);
      RunReady(peers, u, run, n - 1);
      RunLink(peers, run, n - 1);
      if PartsWorth(u, run[n - 1].message) == 0 {
        StepOfWorthless(peers, u, run[n - 1]);
      } else {
        StepProgress(peers, u, run[n - 1]);
      }
    }
  }

  /** Once the steps have used up the potential, the message is worth nothing, and the next one is none. */
  lemma RunRunsOut(peers: Peers, u: set<Entry>, run: seq<State>, n: nat)
    requires peers.Compatible(u) && IsRun(peers, run) && n + 1 < |run| && BothFit(peers, u) && Ready(peers, u, run[0])
    requires n >= Potential(u, run[0])
    ensures run[n + 1].message == []
  {
    RunProgress(peers, u, run, n);
    RunReady(peers, u, run, n);
    RunLink(peers, run, n);
    StepOfWorthless(peers, u, run[n]);
  }

  /** Every entry of the union is in one of the stores. */
  lemma StartPotential(peers: Peers, dialer: Store, acceptor: Store)
    ensures var u := Union(peers, dialer, acceptor); Potential(u, Start(peers, dialer, acceptor)) <= 9 * |u| + 3
  {
    var u, s := Union(peers, dialer, acceptor), Start(peers, dialer, acceptor);
    PartsWorthSingle(u, s.message[0]);
    CardinalityMonotone(Covered(u, s.message[0].range), u);
    OpenAreApart(u, s.receiver, s.sender);
  }

  lemma OpenAreApart(u: set<Entry>, s: Store, t: Store)
    requires u <= s + t
    ensures |Open(u, s)| + |Open(u, t)| <= |u|
  {
    ShadowsOrderAll();
    var a, b := Open(u, s), Open(u, t);
    assert a !! b;
    assert |a + b| == |a| + |b|;
    CardinalityMonotone(a + b, u);
  }

  lemma StartIsKnown(peers: Peers, dialer: Store, acceptor: Store)
    ensures KnownMessage(Union(peers, dialer, acceptor), Start(peers, dialer, acceptor).message)
  {
    var u, entries := Union(peers, dialer, acceptor), Sorted(Scoped(dialer, peers.dialer.scope));
    var first := if entries == [] then ZeroId() else entries[0].id;
    assert KnownId(u, first) by {
      if entries != [] {
        assert entries[0] in Scoped(dialer, peers.dialer.scope);
      }
    }
    assert Start(peers, dialer, acceptor).message[0].range == Range(first, first);
  }

  lemma StartReady(peers: Peers, dialer: Store, acceptor: Store, u: set<Entry>, s: State)
    requires u == Union(peers, dialer, acceptor) && peers.Compatible(u) && s == Start(peers, dialer, acceptor)
    ensures Ready(peers, u, s) && Potential(u, s) <= 9 * |u| + 3
  {
    StartIsSound(peers, dialer, acceptor);
    StartIsKnown(peers, dialer, acceptor);
    StartPotential(peers, dialer, acceptor);
  }

  /** The same from any start. */
  lemma ReadyRunEnds(peers: Peers, u: set<Entry>, run: seq<State>, n: nat)
    requires peers.Compatible(u) && BothFit(peers, u) && IsRun(peers, run) && n < |run|
    requires Ready(peers, u, run[0]) && Potential(u, run[0]) < n
    ensures run[n].message == []
  {
    RunRunsOut(peers, u, run, n - 1);
  }

  /**
   Termination: if every item of at most one entry of the union fits a frame, the exchange is quiet after
   nine rounds for each entry and four more, however much its replies are cut.
   */
  lemma RunEnds(peers: Peers, dialer: Store, acceptor: Store, run: seq<State>, n: nat)
    requires peers.Compatible(Union(peers, dialer, acceptor)) && BothFit(peers, Union(peers, dialer, acceptor))
    requires IsRun(peers, run) && run[0] == Start(peers, dialer, acceptor)
    requires n < |run| && n >= 9 * |Union(peers, dialer, acceptor)| + 4
    ensures run[n].message == []
  {
    var u := Union(peers, dialer, acceptor);
    StartReady(peers, dialer, acceptor, u, run[0]);
    ReadyRunEnds(peers, u, run, n);
  }
}
