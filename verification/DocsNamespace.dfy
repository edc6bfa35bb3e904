/** A round confined to a namespace neither reads nor changes any other namespace. */
module DocsNamespace {
  import opened DocsEntry
  import opened DocsCrdt
  import opened DocsRange
  import opened DocsMessage

  function Outside(s: Store, scope: Scope): (t: Store)
  {
    set e | e in s && !scope.Admits(e)
  }

  /** Shadowing never crosses namespaces, so inserting commutes with confining. */
  lemma InsertIsConfined(scope: Scope, s: Store, e: Entry)
    requires scope.Admits(e)
    ensures Scoped(Insert(s, e), scope) == Insert(Scoped(s, scope), e)
    ensures Outside(Insert(s, e), scope) == Outside(s, scope)
  {
    assert Shadowed(s, e) <==> Shadowed(Scoped(s, scope), e);
  }

  lemma {:induction false} InsertAllIsConfined(scope: Scope, s: Store, offers: seq<Entry>)
    requires forall e :: e in offers ==> scope.Admits(e)
    ensures Scoped(InsertAll(s, offers), scope) == InsertAll(Scoped(s, scope), offers)
    ensures Outside(InsertAll(s, offers), scope) == Outside(s, scope)
    decreases |offers|
  {
    if offers != [] {
      var init, last := offers[..|offers| - 1], offers[|offers| - 1];
      InsertAllIsConfined(scope, s, init);
      InsertIsConfined(scope, InsertAll(s, init), last);
    }
  }

  lemma {:induction false} AcceptedAreAdmitted(env: Env, values: seq<Entry>)
    ensures forall e :: e in Accepted(env, values) ==> env.scope.Admits(e)
    decreases |values|
  {
    if values != [] {
      AcceptedAreAdmitted(env, values[..|values| - 1]);
    }
  }

  /** The store after a message, in scope, is a function of the store before, in scope; the rest is untouched. */
  lemma {:induction false} AfterItemsIsConfined(env: Env, s: Store, message: Message)
    ensures Scoped(AfterItems(env, s, message), env.scope) == AfterItems(env, Scoped(s, env.scope), message)
    ensures Outside(AfterItems(env, s, message), env.scope) == Outside(s, env.scope)
    decreases |message|
  {
    if message != [] {
      var init, last := message[..|message| - 1], message[|message| - 1];
      AfterItemsIsConfined(env, s, init);
      if last.RangeItem? {
        AcceptedAreAdmitted(env, last.values);
        InsertAllIsConfined(env.scope, AfterItems(env, s, init), Accepted(env, last.values));
      }
    }
  }

  lemma ReadsAreConfined(env: Env, s: Store, r: Range)
    ensures LocalEntries(env, s, r) == LocalEntries(env, Scoped(s, env.scope), r)
    ensures LocalFingerprint(env, s, r) == LocalFingerprint(env, Scoped(s, env.scope), r)
    ensures Describe(env, s, r) == Describe(env, Scoped(s, env.scope), r)
  {
    assert InRange(s, env.scope, r) == InRange(Scoped(s, env.scope), env.scope, r);
  }

  lemma {:induction false} ItemRepliesAreConfined(env: Env, s: Store, message: Message)
    ensures ItemReplies(env, s, message) == ItemReplies(env, Scoped(s, env.scope), message)
    decreases |message|
  {
    if message != [] {
      var init, last := message[..|message| - 1], message[|message| - 1];
      ItemRepliesAreConfined(env, s, init);
      AfterItemsIsConfined(env, s, init);
      if last.RangeItem? {
        ReadsAreConfined(env, AfterItems(env, s, init), last.range);
      }
    }
  }

  lemma {:induction false} DescribeAllIsConfined(env: Env, s: Store, ranges: seq<Range>)
    ensures DescribeAll(env, s, ranges) == DescribeAll(env, Scoped(s, env.scope), ranges)
    decreases |ranges|
  {
    if ranges != [] {
      DescribeAllIsConfined(env, s, ranges[..|ranges| - 1]);
      ReadsAreConfined(env, s, ranges[|ranges| - 1]);
    }
  }

  lemma {:induction false} FingerprintRepliesAreConfined(env: Env, s: Store, message: Message)
    ensures FingerprintReplies(env, s, message) == FingerprintReplies(env, Scoped(s, env.scope), message)
    decreases |message|
  {
    if message != [] {
      var init, last := message[..|message| - 1], message[|message| - 1];
      FingerprintRepliesAreConfined(env, s, init);
      if last.RangeFingerprint? {
        ReplyToFingerprintIsConfined(env, s, last);
      }
    }
  }

  lemma ReplyToFingerprintIsConfined(env: Env, s: Store, remote: Part)
    requires remote.RangeFingerprint?
    ensures ReplyToFingerprint(env, s, remote) == ReplyToFingerprint(env, Scoped(s, env.scope), remote)
  {
    var r, t := remote.range, Scoped(s, env.scope);
    var entries, factor := LocalEntries(env, s, r), env.config.WithDefaults().splitFactor;
    assert entries == LocalEntries(env, t, r) && LocalFingerprint(env, s, r) == LocalFingerprint(env, t, r) by {
      ReadsAreConfined(env, s, r);
    }
    if LocalFingerprint(env, s, r) != remote.fingerprint && |entries| > 1 && remote.fingerprint != env.hashing.empty {
      DescribeAllIsConfined(env, s, SplitRange(entries, r, factor));
    }
  }

  lemma {:induction false} SummarizeAllIsConfined(env: Env, s: Store, ranges: seq<Range>)
    ensures SummarizeAll(env, s, ranges) == SummarizeAll(env, Scoped(s, env.scope), ranges)
    decreases |ranges|
  {
    if ranges != [] {
      SummarizeAllIsConfined(env, s, ranges[..|ranges| - 1]);
      ReadsAreConfined(env, s, ranges[|ranges| - 1]);
    }
  }

  lemma {:induction false} SplitOversizedIsConfined(env: Env, s: Store, parts: seq<Part>)
    ensures SplitOversized(env, s, parts) == SplitOversized(env, Scoped(s, env.scope), parts)
    decreases |parts|
  {
    if parts != [] {
      var r := parts[|parts| - 1].range;
      SplitOversizedIsConfined(env, s, parts[..|parts| - 1]);
      ReadsAreConfined(env, s, r);
      SummarizeAllIsConfined(env, s, SplitRange(LocalEntries(env, s, r), r, 2));
    }
  }

  lemma {:induction false} SummarizeOverflowIsConfined(env: Env, s: Store, parts: seq<Part>)
    ensures SummarizeOverflow(env, s, parts) == SummarizeOverflow(env, Scoped(s, env.scope), parts)
    decreases |parts|
  {
    if parts != [] {
      SummarizeOverflowIsConfined(env, s, parts[..|parts| - 1]);
      ReadsAreConfined(env, s, parts[|parts| - 1].range);
    }
  }

  lemma ReplyIsConfined(env: Env, s: Store, message: Message)
    ensures Reply(env, s, message) == Reply(env, Scoped(s, env.scope), message)
  {
    var t, u := AfterItems(env, s, message), Scoped(s, env.scope);
    AfterItemsIsConfined(env, s, message);
    ItemRepliesAreConfined(env, s, message);
    FingerprintRepliesAreConfined(env, t, message);
    assert Answer(env, s, message) == Answer(env, u, message);
    SplitOversizedIsConfined(env, t, Answer(env, s, message));
    SummarizeOverflowIsConfined(env, t, SplitOversized(env, t, Answer(env, s, message)));
  }

  /**
   Namespace confinement: for any message, stores that agree in scope reply alike and
   end up agreeing in scope, and what is out of scope stays as it was.
   */
  lemma RoundIsConfined(env: Env, s: Store, t: Store, message: Message)
    requires Scoped(s, env.scope) == Scoped(t, env.scope)
    ensures Reply(env, s, message) == Reply(env, t, message)
    ensures Scoped(AfterItems(env, s, message), env.scope) == Scoped(AfterItems(env, t, message), env.scope)
    ensures Outside(AfterItems(env, s, message), env.scope) == Outside(s, env.scope)
  {
    ReplyIsConfined(env, s, message);
    ReplyIsConfined(env, t, message);
    AfterItemsIsConfined(env, s, message);
    AfterItemsIsConfined(env, t, message);
  }
}
