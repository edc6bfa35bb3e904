/**
 What a message is worth: a measure that no step of an exchange raises, even when replies
 are cut to one frame and items become fingerprints of their ranges again (docs/store.go, boundedMessage).
 */
module DocsWorth {
  import opened Bytes
  import opened DocsEntry
  import opened DocsCrdt
  import opened DocsRange
  import opened DocsMessage
  import opened DocsConvergence
  import opened DocsExchange

  /** The most pieces with entries that splits can ever make of a range, those split again included. */
  function Worth(u: set<Entry>, r: Range): (w: nat)
  {
    var c := |Covered(u, r)|;
    if c == 0 then 0 else 2 * c - 1
  }

  function RangesWorth(u: set<Entry>, ranges: seq<Range>): (w: nat)
  {
    if ranges == [] then 0 else RangesWorth(u, ranges[..|ranges| - 1]) + Worth(u, ranges[|ranges| - 1])
  }

  function PartsWorth(u: set<Entry>, parts: seq<Part>): (w: nat)
  {
    if parts == [] then 0 else PartsWorth(u, parts[..|parts| - 1]) + Worth(u, parts[|parts| - 1].range)
  }

  lemma PartsWorthOne(u: set<Entry>, parts: seq<Part>, p: Part)
    ensures PartsWorth(u, parts + [p]) == PartsWorth(u, parts) + Worth(u, p.range)
  {
    assert (parts + [p])[..|parts|] == parts;
  }

  lemma {:induction false} PartsWorthJoin(u: set<Entry>, a: seq<Part>, b: seq<Part>)
    ensures PartsWorth(u, a + b) == PartsWorth(u, a) + PartsWorth(u, b)
    decreases |b|
  {
    if b == [] {
      assert a + b == a;
    } else {
      var front, last := b[..|b| - 1], b[|b| - 1];
      assert b == front + [last] && a + b == a + front + [last];
      PartsWorthJoin(u, a, front);
      PartsWorthOne(u, a + front, last);
    }
  }

  lemma PartsWorthSingle(u: set<Entry>, p: Part)
    ensures PartsWorth(u, [p]) == Worth(u, p.range)
  {
    PartsWorthOne(u, [], p);
    assert [] + [p] == [p];
  }

  lemma {:induction false} PartIsWorth(u: set<Entry>, parts: seq<Part>, p: Part)
    requires p in parts
    ensures Worth(u, p.range) <= PartsWorth(u, parts)
    decreases |parts|
  {
    var front, last := parts[..|parts| - 1], parts[|parts| - 1];
    assert parts == front + [last];
    if p != last {
      PartIsWorth(u, front, p);
    }
  }

  // ----- a split shares out the entries of its range

  function RangesCover(u: set<Entry>, ranges: seq<Range>): (n: nat)
  {
    if ranges == [] then 0 else RangesCover(u, ranges[..|ranges| - 1]) + |Covered(u, ranges[|ranges| - 1])|
  }

  lemma CoveredWithout(u: set<Entry>, e: Entry, r: Range)
    requires e in u
    ensures |Covered(u, r)| == |Covered(u - {e}, r)| + Indicator(r.Contains(e.id))
  {
    var rest := Covered(u - {e}, r);
    if r.Contains(e.id) {
      assert Covered(u, r) == rest + {e};
    } else {
      assert Covered(u, r) == rest;
    }
  }

  lemma {:induction false} RangesCoverWithout(u: set<Entry>, e: Entry, ranges: seq<Range>)
    requires e in u
    ensures RangesCover(u, ranges) == RangesCover(u - {e}, ranges) + Hits(ranges, e.id)
    decreases |ranges|
  {
    if ranges != [] {
      RangesCoverWithout(u, e, ranges[..|ranges| - 1]);
      CoveredWithout(u, e, ranges[|ranges| - 1]);
    }
  }

  lemma {:induction false} NothingCovered(ranges: seq<Range>)
    ensures RangesCover({}, ranges) == 0
    decreases |ranges|
  {
    if ranges != [] {
      NothingCovered(ranges[..|ranges| - 1]);
      assert Covered({}, ranges[|ranges| - 1]) == {};
    }
  }

  /** Ranges that hold each identifier of r once hold its entries once. */
  lemma {:induction false} ExactCoverCounts(u: set<Entry>, ranges: seq<Range>, r: Range)
    requires forall e :: e in u ==> Hits(ranges, e.id) == Indicator(r.Contains(e.id))
    ensures RangesCover(u, ranges) == |Covered(u, r)|
    decreases |u|
  {
    if u == {} {
      NothingCovered(ranges);
      assert Covered(u, r) == {};
    } else {
      var e :| e in u;
      ExactCoverCounts(u - {e}, ranges, r);
      RangesCoverWithout(u, e, ranges);
      CoveredWithout(u, e, r);
    }
  }

  /** The worth of ranges in terms of what they cover; more than any one of them covers takes two of them. */
  lemma {:induction false} WorthByCover(u: set<Entry>, ranges: seq<Range>, c: nat)
    requires forall r :: r in ranges ==> |Covered(u, r)| < c
    ensures RangesWorth(u, ranges) <= 2 * RangesCover(u, ranges)
    ensures RangesCover(u, ranges) > 0 ==> RangesWorth(u, ranges) < 2 * RangesCover(u, ranges)
    ensures RangesCover(u, ranges) >= c > 0 ==> RangesWorth(u, ranges) < 2 * RangesCover(u, ranges) - 1
    decreases |ranges|
  {
    if ranges != [] {
      var front, last := ranges[..|ranges| - 1], ranges[|ranges| - 1];
      assert ranges == front + [last];
      WorthByCover(u, front, c);
      assert |Covered(u, last)| < c;
    }
  }

  lemma SplitCover(env: Env, u: set<Entry>, s: Store, r: Range, factor: int)
    requires Splittable(LocalEntries(env, s, r), r)
    ensures RangesCover(u, SplitRange(LocalEntries(env, s, r), r, factor)) == |Covered(u, r)|
  {
    var entries := LocalEntries(env, s, r);
    forall e | e in u
      ensures Hits(SplitRange(entries, r, factor), e.id) == Indicator(r.Contains(e.id))
    {
      SplitCoversExactly(entries, r, factor, e.id);
    }
    ExactCoverCounts(u, SplitRange(entries, r, factor), r);
  }

  lemma {:induction false} RangeCoversAtMost(u: set<Entry>, ranges: seq<Range>, r: Range)
    requires r in ranges
    ensures |Covered(u, r)| <= RangesCover(u, ranges)
    decreases |ranges|
  {
    var front, last := ranges[..|ranges| - 1], ranges[|ranges| - 1];
    assert ranges == front + [last];
    if r != last {
      RangeCoversAtMost(u, front, r);
    }
  }

  /** A split is worth at most its range, and less if the range held two entries. */
  lemma SplitWorth(env: Env, u: set<Entry>, s: Store, r: Range, factor: int)
    requires Scoped(s, env.scope) <= u
    ensures var pieces := SplitRange(LocalEntries(env, s, r), r, factor);
            && RangesWorth(u, pieces) <= Worth(u, r)
            && (|LocalEntries(env, s, r)| >= 2 ==> RangesWorth(u, pieces) < Worth(u, r))
  {
    var entries := LocalEntries(env, s, r);
    var pieces, c := SplitRange(entries, r, factor), |Covered(u, r)|;
    if !Splittable(entries, r) {
      OneEntryHasNoPieces(entries, r, factor);
    } else {
      SplitCover(env, u, s, r, factor);
      LocalIsCovered(env, u, s, r);
      if |entries| >= 2 {
        forall piece | piece in pieces
          ensures |Covered(u, piece)| < c
        {
          PieceCoversLess(env, u, s, r, factor, piece);
        }
        WorthByCover(u, pieces, c);
      } else {
        forall piece | piece in pieces
          ensures |Covered(u, piece)| < c + 1
        {
          RangeCoversAtMost(u, pieces, piece);
        }
        WorthByCover(u, pieces, c + 1);
      }
    }
  }

  lemma LocalIsCovered(env: Env, u: set<Entry>, s: Store, r: Range)
    requires Scoped(s, env.scope) <= u
    ensures |LocalEntries(env, s, r)| <= |Covered(u, r)|
    ensures forall e :: e in LocalEntries(env, s, r) ==> e in Covered(u, r)
  {
    assert InRange(s, env.scope, r) <= Covered(u, r);
    CardinalityMonotone(InRange(s, env.scope, r), Covered(u, r));
  }

  // ----- the answer is worth no more than the message

  lemma {:induction false} DescriptionsWorth(env: Env, u: set<Entry>, s: Store, ranges: seq<Range>)
    ensures PartsWorth(u, DescribeAll(env, s, ranges)) == RangesWorth(u, ranges)
    ensures PartsWorth(u, SummarizeAll(env, s, ranges)) == RangesWorth(u, ranges)
    decreases |ranges|
  {
    if ranges != [] {
      var front, last := ranges[..|ranges| - 1], ranges[|ranges| - 1];
      DescriptionsWorth(env, u, s, front);
      PartsWorthOne(u, DescribeAll(env, s, front), Describe(env, s, last));
      PartsWorthOne(u, SummarizeAll(env, s, front), Summary(env, s, last));
    }
  }

  /** The answer to a fingerprint: worth less, or one item for the whole range. */
  lemma FingerprintAnswerWorth(env: Env, u: set<Entry>, s: Store, q: Part)
    requires Scoped(s, env.scope) <= u && q.RangeFingerprint?
    ensures var reply := ReplyToFingerprint(env, s, q);
            && PartsWorth(u, reply) <= Worth(u, q.range)
            && (reply == [] || reply == [RangeItem(q.range, LocalEntries(env, s, q.range), false)]
                || PartsWorth(u, reply) < Worth(u, q.range))
  {
    var r, factor := q.range, env.config.WithDefaults().splitFactor;
    SplitWorth(env, u, s, r, factor);
    DescriptionsWorth(env, u, s, SplitRange(LocalEntries(env, s, r), r, factor));
    PartsWorthSingle(u, RangeItem(r, LocalEntries(env, s, r), false));
  }

  /** The items of a message, and its fingerprints. */
  function ItemsWorth(u: set<Entry>, message: Message): (w: nat)
  {
    if message == [] then 0
    else
      var last := message[|message| - 1];
      ItemsWorth(u, message[..|message| - 1]) + if last.RangeItem? then Worth(u, last.range) else 0
  }

  function PrintsWorth(u: set<Entry>, message: Message): (w: nat)
  {
    if message == [] then 0
    else
      var last := message[|message| - 1];
      PrintsWorth(u, message[..|message| - 1]) + if last.RangeFingerprint? then Worth(u, last.range) else 0
  }

  lemma {:induction false} WorthByKind(u: set<Entry>, message: Message)
    ensures PartsWorth(u, message) == ItemsWorth(u, message) + PrintsWorth(u, message)
    decreases |message|
  {
    if message != [] {
      WorthByKind(u, message[..|message| - 1]);
    }
  }

  lemma ItemReplyWorth(env: Env, u: set<Entry>, s: Store, item: Part)
    requires item.RangeItem?
    ensures PartsWorth(u, ReplyToItem(env, s, item)) <= Worth(u, item.range)
    ensures item.haveLocal ==> ReplyToItem(env, s, item) == []
  {
    var reply := ReplyToItem(env, s, item);
    if reply != [] {
      PartsWorthSingle(u, reply[0]);
      assert reply == [reply[0]];
    }
  }

  lemma OneItemMore(env: Env, u: set<Entry>, s: Store, message: Message)
    requires message != []
    ensures var init, last := message[..|message| - 1], message[|message| - 1];
            PartsWorth(u, ItemReplies(env, s, message)) ==
            PartsWorth(u, ItemReplies(env, s, init)) +
            if last.RangeItem? then PartsWorth(u, ReplyToItem(env, AfterItems(env, s, init), last)) else 0
  {
    var init, last := message[..|message| - 1], message[|message| - 1];
    if last.RangeItem? {
      PartsWorthJoin(u, ItemReplies(env, s, init), ReplyToItem(env, AfterItems(env, s, init), last));
    } else {
      assert ItemReplies(env, s, init) + [] == ItemReplies(env, s, init);
    }
  }

  lemma {:induction false} ItemRepliesWorth(env: Env, u: set<Entry>, s: Store, message: Message)
    ensures PartsWorth(u, ItemReplies(env, s, message)) <= ItemsWorth(u, message)
    decreases |message|
  {
    if message != [] {
      var init, last := message[..|message| - 1], message[|message| - 1];
      ItemRepliesWorth(env, u, s, init);
      OneItemMore(env, u, s, message);
      if last.RangeItem? {
        ItemReplyWorth(env, u, AfterItems(env, s, init), last);
      }
    }
  }

  /** An item that lists what was asked for is not answered, and its worth is gone. */
  lemma {:induction false} AnsweredItemIsGone(env: Env, u: set<Entry>, s: Store, message: Message, p: Part)
    requires p in message && p.RangeItem? && p.haveLocal
    ensures PartsWorth(u, ItemReplies(env, s, message)) + Worth(u, p.range) <= ItemsWorth(u, message)
    decreases |message|
  {
    var init, last := message[..|message| - 1], message[|message| - 1];
    OneItemMore(env, u, s, message);
    if last.RangeItem? {
      ItemReplyWorth(env, u, AfterItems(env, s, init), last);
    }
    if p == last {
      ItemRepliesWorth(env, u, s, init);
      assert PartsWorth(u, []) == 0;
    } else {
      AnsweredItemIsGone(env, u, s, init, p);
    }
  }

  /** The answers to one more fingerprint, or to one more item, which has none here. */
  lemma OnePrintMore(env: Env, u: set<Entry>, s: Store, message: Message)
    requires message != []
    ensures var init, last := message[..|message| - 1], message[|message| - 1];
            PartsWorth(u, FingerprintReplies(env, s, message)) ==
            PartsWorth(u, FingerprintReplies(env, s, init)) +
            if last.RangeFingerprint? then PartsWorth(u, ReplyToFingerprint(env, s, last)) else 0
  {
    var init, last := message[..|message| - 1], message[|message| - 1];
    if last.RangeFingerprint? {
      PartsWorthJoin(u, FingerprintReplies(env, s, init), ReplyToFingerprint(env, s, last));
    } else {
      assert FingerprintReplies(env, s, init) + [] == FingerprintReplies(env, s, init);
    }
  }

  lemma {:induction false} FingerprintRepliesWorth(env: Env, u: set<Entry>, s: Store, message: Message)
    requires Scoped(s, env.scope) <= u
    ensures PartsWorth(u, FingerprintReplies(env, s, message)) <= PrintsWorth(u, message)
    decreases |message|
  {
    if message != [] {
      var init, last := message[..|message| - 1], message[|message| - 1];
      FingerprintRepliesWorth(env, u, s, init);
      OnePrintMore(env, u, s, message);
      if last.RangeFingerprint? {
        FingerprintAnswerWorth(env, u, s, last);
      }
    }
  }

  /** One fingerprint answered with less makes the answers worth less. */
  lemma {:induction false} LesserAnswerShows(env: Env, u: set<Entry>, s: Store, message: Message, q: Part)
    requires Scoped(s, env.scope) <= u && q in message && q.RangeFingerprint?
    requires PartsWorth(u, ReplyToFingerprint(env, s, q)) < Worth(u, q.range)
    ensures PartsWorth(u, FingerprintReplies(env, s, message)) < PrintsWorth(u, message)
    decreases |message|
  {
    var init, last := message[..|message| - 1], message[|message| - 1];
    OnePrintMore(env, u, s, message);
    if q == last {
      FingerprintRepliesWorth(env, u, s, init);
    } else {
      LesserAnswerShows(env, u, s, init, q);
      if last.RangeFingerprint? {
        FingerprintAnswerWorth(env, u, s, last);
      }
    }
  }

  lemma AnswerWorth(env: Env, u: set<Entry>, s: Store, message: Message)
    requires Scoped(AfterItems(env, s, message), env.scope) <= u
    ensures PartsWorth(u, Answer(env, s, message)) ==
            PartsWorth(u, ItemReplies(env, s, message)) +
            PartsWorth(u, FingerprintReplies(env, AfterItems(env, s, message), message))
    ensures PartsWorth(u, ItemReplies(env, s, message)) <= ItemsWorth(u, message)
    ensures PartsWorth(u, FingerprintReplies(env, AfterItems(env, s, message), message)) <= PrintsWorth(u, message)
    ensures PartsWorth(u, message) == ItemsWorth(u, message) + PrintsWorth(u, message)
  {
    PartsWorthJoin(u, ItemReplies(env, s, message), FingerprintReplies(env, AfterItems(env, s, message), message));
    ItemRepliesWorth(env, u, s, message);
    FingerprintRepliesWorth(env, u, AfterItems(env, s, message), message);
    WorthByKind(u, message);
  }

  // ----- and cutting it does not raise that

  lemma SplitOversizedStep(env: Env, s: Store, parts: seq<Part>)
    requires parts != []
    ensures var init, last := parts[..|parts| - 1], parts[|parts| - 1];
            SplitOversized(env, s, parts) == SplitOversized(env, s, init) +
            if Oversized(env, last)
            then SummarizeAll(env, s, SplitRange(LocalEntries(env, s, last.range), last.range, 2))
            else [last]
  {
  }

  lemma {:induction false} SplitOversizedWorth(env: Env, u: set<Entry>, s: Store, parts: seq<Part>)
    requires Scoped(s, env.scope) <= u
    ensures PartsWorth(u, SplitOversized(env, s, parts)) <= PartsWorth(u, parts)
    decreases |parts|
  {
    if parts != [] {
      var init, last := parts[..|parts| - 1], parts[|parts| - 1];
      SplitOversizedWorth(env, u, s, init);
      SplitOversizedStep(env, s, parts);
      var pieces := SplitRange(LocalEntries(env, s, last.range), last.range, 2);
      SplitWorth(env, u, s, last.range, 2);
      DescriptionsWorth(env, u, s, pieces);
      PartsWorthSingle(u, last);
      PartsWorthJoin(u, SplitOversized(env, s, init),
                     if Oversized(env, last) then SummarizeAll(env, s, pieces) else [last]);
    }
  }

  lemma {:induction false} OverflowWorth(env: Env, u: set<Entry>, s: Store, parts: seq<Part>)
    ensures PartsWorth(u, SummarizeOverflow(env, s, parts)) == PartsWorth(u, parts)
    decreases |parts|
  {
    if parts != [] {
      var init, last := parts[..|parts| - 1], parts[|parts| - 1];
      OverflowWorth(env, u, s, init);
      var fitted := SummarizeOverflow(env, s, init);
      PartsWorthOne(u, fitted, if TotalSize(env, fitted) + env.size(last) > BUDGET && last.RangeItem?
                               then Summary(env, s, last.range) else last);
    }
  }

  lemma BoundedWorth(env: Env, u: set<Entry>, s: Store, parts: seq<Part>)
    requires Scoped(s, env.scope) <= u
    ensures PartsWorth(u, Bounded(env, s, parts)) <= PartsWorth(u, parts)
  {
    SplitOversizedWorth(env, u, s, parts);
    OverflowWorth(env, u, s, SplitOversized(env, s, parts));
  }

  // ----- the first part of an answer

  /** What stands in for one part. */
  ghost function SplitPart(env: Env, s: Store, p: Part): (split: seq<Part>)
  {
    if Oversized(env, p) then SummarizeAll(env, s, SplitRange(LocalEntries(env, s, p.range), p.range, 2)) else [p]
  }

  lemma SplitOversizedLast(env: Env, s: Store, parts: seq<Part>, last: Part)
    ensures SplitOversized(env, s, parts + [last]) == SplitOversized(env, s, parts) + SplitPart(env, s, last)
  {
    assert (parts + [last])[..|parts|] == parts;
    SplitOversizedStep(env, s, parts + [last]);
  }

  /** The parts after the first, and what becomes of the first. */
  lemma {:induction false} SplitOversizedFront(env: Env, s: Store, p: Part, rest: seq<Part>)
    ensures SplitOversized(env, s, [p] + rest) == SplitPart(env, s, p) + SplitOversized(env, s, rest)
    decreases |rest|
  {
    if rest == [] {
      SplitOversizedLast(env, s, [], p);
      assert [] + [p] == [p] + rest;
    } else {
      var init, last := rest[..|rest| - 1], rest[|rest| - 1];
      SplitOversizedFront(env, s, p, init);
      SplitOversizedBoth(env, s, p, init, last);
      FrontAndLast([p], rest);
    }
  }

  lemma SplitOversizedBoth(env: Env, s: Store, p: Part, init: seq<Part>, last: Part)
    requires SplitOversized(env, s, [p] + init) == SplitPart(env, s, p) + SplitOversized(env, s, init)
    ensures SplitOversized(env, s, [p] + init + [last]) == SplitPart(env, s, p) + SplitOversized(env, s, init + [last])
  {
    SplitOversizedLast(env, s, [p] + init, last);
    SplitOversizedLast(env, s, init, last);
    JoinAssociates(SplitPart(env, s, p), SplitOversized(env, s, init), SplitPart(env, s, last));
  }

  lemma {:induction false} FirstIsKept(env: Env, s: Store, parts: seq<Part>)
    requires parts != [] && env.size(parts[0]) <= BUDGET
    ensures |SummarizeOverflow(env, s, parts)| > 0 && SummarizeOverflow(env, s, parts)[0] == parts[0]
    decreases |parts|
  {
    if |parts| == 1 {
      assert parts[..0] == [];
    } else {
      FirstIsKept(env, s, parts[..|parts| - 1]);
    }
  }

  /** An item in front is sent as it is, unless it is oversized. */
  lemma FrontIsSent(env: Env, s: Store, parts: seq<Part>)
    requires parts != [] && env.size(parts[0]) <= BUDGET
    ensures |Bounded(env, s, parts)| > 0 && Bounded(env, s, parts)[0] == parts[0]
  {
    assert parts == [parts[0]] + parts[1..];
    SplitOversizedFront(env, s, parts[0], parts[1..]);
    FirstIsKept(env, s, SplitOversized(env, s, parts));
  }

  /** An oversized item in front of a range with two entries makes what is sent worth less. */
  lemma OversizedFrontIsSplit(env: Env, u: set<Entry>, s: Store, parts: seq<Part>)
    requires Scoped(s, env.scope) <= u && parts != [] && Oversized(env, parts[0])
    requires |LocalEntries(env, s, parts[0].range)| >= 2
    ensures PartsWorth(u, Bounded(env, s, parts)) < PartsWorth(u, parts)
  {
    var p, rest := parts[0], parts[1..];
    assert parts == [p] + rest;
    SplitOversizedFront(env, s, p, rest);
    SplitOversizedWorth(env, u, s, rest);
    SplitPartWorth(env, u, s, p);
    PartsWorthSingle(u, p);
    PartsWorthJoin(u, [p], rest);
    PartsWorthJoin(u, SplitPart(env, s, p), SplitOversized(env, s, rest));
    OverflowWorth(env, u, s, SplitOversized(env, s, parts));
  }

  lemma SplitPartWorth(env: Env, u: set<Entry>, s: Store, p: Part)
    requires Scoped(s, env.scope) <= u && Oversized(env, p) && |LocalEntries(env, s, p.range)| >= 2
    ensures PartsWorth(u, SplitPart(env, s, p)) < Worth(u, p.range)
  {
    SplitWorth(env, u, s, p.range, 2);
    DescriptionsWorth(env, u, s, SplitRange(LocalEntries(env, s, p.range), p.range, 2));
  }
}
