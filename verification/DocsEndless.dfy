/**
 Small exchanges in full, and exactly when they go quiet. An item that does not fit its frame is described by a
 fingerprint (docs/store.go, the second loop of boundedMessage), also when it has one value: then the peer asks
 for it again, and the same messages come round.
 */
module DocsEndless {
  import opened DocsEntry
  import opened DocsCrdt
  import opened DocsRange
  import opened DocsMessage
  import opened DocsConvergence
  import opened DocsExchange

  // ----- one part about the whole set

  lemma AnswerToPrint(env: Env, s: Store, p: Part)
    requires p.RangeFingerprint?
    ensures AfterItems(env, s, [p]) == s && Answer(env, s, [p]) == ReplyToFingerprint(env, s, p)
  {
    OneLonePrint(env, s, p);
    OnePrint(env, s, p);
  }

  lemma OneLonePrint(env: Env, s: Store, p: Part)
    requires p.RangeFingerprint?
    ensures AfterItems(env, s, [p]) == s && ItemReplies(env, s, [p]) == []
  {
    assert [p] == [] + [p];
    AfterItemsStep(env, s, [], p);
    ItemRepliesStep(env, s, [], p);
  }

  lemma OnePrint(env: Env, s: Store, p: Part)
    requires p.RangeFingerprint?
    ensures FingerprintReplies(env, s, [p]) == ReplyToFingerprint(env, s, p)
  {
    assert [p][..0] == [];
    assert FingerprintReplies(env, s, [p][..0]) == [];
  }

  lemma AnswerToItem(env: Env, s: Store, p: Part)
    requires p.RangeItem?
    ensures AfterItems(env, s, [p]) == InsertAll(s, Accepted(env, p.values))
    ensures Answer(env, s, [p]) == ReplyToItem(env, s, p)
  {
    LoneItem(env, s, p);
    NoPrints(env, AfterItems(env, s, [p]), p);
  }

  lemma LoneItem(env: Env, s: Store, p: Part)
    requires p.RangeItem?
    ensures AfterItems(env, s, [p]) == InsertAll(s, Accepted(env, p.values))
    ensures ItemReplies(env, s, [p]) == ReplyToItem(env, s, p)
  {
    assert [p] == [] + [p];
    AfterItemsStep(env, s, [], p);
    ItemRepliesStep(env, s, [], p);
  }

  lemma NoPrints(env: Env, s: Store, p: Part)
    requires p.RangeItem?
    ensures FingerprintReplies(env, s, [p]) == []
  {
    assert [p][..0] == [];
    assert FingerprintReplies(env, s, [p][..0]) == [];
  }

  /** Everything, from an entry round to it again: what a dialer starts with whose first entry this is. */
  ghost function Own(e: Entry): (r: Range)
  {
    Range(e.id, e.id)
  }

  ghost function Everything(): (r: Range)
  {
    Range(ZeroId(), ZeroId())
  }

  lemma OwnIsAll(e: Entry)
    ensures Own(e).IsAll() && Everything().IsAll()
  {
    IdentifierOrder(e.id, e.id, e.id);
    IdentifierOrder(ZeroId(), ZeroId(), ZeroId());
  }

  function Listed(values: seq<Entry>): (s: set<Entry>)
  {
    set v | v in values
  }

  ghost predicate Within(env: Env, s: set<Entry>)
  {
    forall e :: e in s ==> env.scope.Admits(e)
  }

  lemma WholeStore(env: Env, s: Store, r: Range)
    requires r.IsAll() && Within(env, s)
    ensures Scoped(s, env.scope) == s && LocalEntries(env, s, r) == Sorted(s)
    ensures LocalFingerprint(env, s, r) == FingerprintOf(env.hashing, s)
  {
    assert Scoped(s, env.scope) == s && InRange(s, env.scope, r) == s;
  }

  /** What is sent for an item with at most one value. */
  ghost function Sent(env: Env, s: Store, r: Range, values: seq<Entry>, haveLocal: bool): (message: Message)
  {
    if Fit(env, r, values, haveLocal) then [RangeItem(r, values, haveLocal)]
    else [RangeFingerprint(r, FingerprintOf(env.hashing, s))]
  }

  ghost predicate Fit(env: Env, r: Range, values: seq<Entry>, haveLocal: bool)
  {
    env.size(RangeItem(r, values, haveLocal)) <= BUDGET
  }

  lemma LoneItemSent(env: Env, s: Store, r: Range, values: seq<Entry>, haveLocal: bool)
    requires r.IsAll() && Within(env, s) && |values| <= 1
    ensures Bounded(env, s, [RangeItem(r, values, haveLocal)]) == Sent(env, s, r, values, haveLocal)
  {
    var p := RangeItem(r, values, haveLocal);
    LoneIsNotSplit(env, s, p);
    LoneOverflow(env, s, p);
    WholeStore(env, s, r);
  }

  lemma LoneIsNotSplit(env: Env, s: Store, p: Part)
    requires p.RangeItem? && |p.values| <= 1
    ensures SplitOversized(env, s, [p]) == [p]
  {
    assert [p][..0] == [];
    assert SplitOversized(env, s, [p][..0]) == [];
  }

  lemma LoneOverflow(env: Env, s: Store, p: Part)
    requires p.RangeItem?
    ensures SummarizeOverflow(env, s, [p]) == if env.size(p) <= BUDGET then [p] else [Summary(env, s, p.range)]
  {
    assert [p][..0] == [] && [p][..1] == [p];
    assert SummarizeOverflow(env, s, [p][..0]) == [] && TotalSize(env, []) == 0;
    OverflowStep(env, s, [p], 0, []);
  }

  /** A fingerprint that differs is answered with the list of everything. */
  lemma PrintReply(env: Env, s: Store, r: Range, f: Fingerprint)
    requires r.IsAll() && Within(env, s) && |s| <= 1 && FingerprintOf(env.hashing, s) != f
    ensures AfterItems(env, s, [RangeFingerprint(r, f)]) == s
    ensures Reply(env, s, [RangeFingerprint(r, f)]) == Sent(env, s, r, Sorted(s), false)
  {
    WholeStore(env, s, r);
    AnswerToPrint(env, s, RangeFingerprint(r, f));
    assert ReplyToFingerprint(env, s, RangeFingerprint(r, f)) == [RangeItem(r, Sorted(s), false)];
    LoneItemSent(env, s, r, Sorted(s), false);
  }

  /** A list is answered with the one entry it lacks. */
  lemma ListReply(env: Env, s: Store, r: Range, values: seq<Entry>, x: Entry)
    requires r.IsAll() && Within(env, s) && Unheld(values, Sorted(s)) == [x]
    requires Within(env, InsertAll(s, Accepted(env, values)))
    ensures AfterItems(env, s, [RangeItem(r, values, false)]) == InsertAll(s, Accepted(env, values))
    ensures Reply(env, s, [RangeItem(r, values, false)]) ==
            Sent(env, InsertAll(s, Accepted(env, values)), r, [x], true)
  {
    WholeStore(env, s, r);
    AnswerToItem(env, s, RangeItem(r, values, false));
    assert ReplyToItem(env, s, RangeItem(r, values, false)) == [RangeItem(r, [x], true)];
    LoneItemSent(env, InsertAll(s, Accepted(env, values)), r, [x], true);
  }

  lemma NoReply(env: Env, s: Store, r: Range, values: seq<Entry>, haveLocal: bool)
    requires r.IsAll() && Within(env, s) && (haveLocal || Unheld(values, Sorted(s)) == [])
    ensures Reply(env, s, [RangeItem(r, values, haveLocal)]) == []
  {
    WholeStore(env, s, r);
    AnswerToItem(env, s, RangeItem(r, values, haveLocal));
    assert ReplyToItem(env, s, RangeItem(r, values, haveLocal)) == [];
  }

  // ----- exchanges of one part at a time

  /** What is said about the whole set: a store's fingerprint, or a list of entries. */
  datatype Said = Print(of: Store) | List(values: seq<Entry>, haveLocal: bool) | Nothing

  datatype Talk = Talk(receiver: Store, sender: Store, said: Said, turn: bool)

  ghost function PrintOf(peers: Peers, s: Store): (f: Fingerprint)
  {
    FingerprintOf(peers.dialer.hashing, s)
  }

  /** A list if it fits a frame, and the fingerprint of the store otherwise. */
  ghost function Say(peers: Peers, r: Range, turn: bool, s: Store, values: seq<Entry>, haveLocal: bool): (said: Said)
  {
    if Fit(peers.At(turn), r, values, haveLocal) then List(values, haveLocal) else Print(s)
  }

  ghost function Answered(peers: Peers, r: Range, x: Talk): (y: Talk)
  {
    match x.said
    case Nothing => Talk(x.sender, x.receiver, Nothing, !x.turn)
    case Print(_) => Talk(x.sender, x.receiver, Say(peers, r, x.turn, x.receiver, Sorted(x.receiver), false), !x.turn)
    case List(values, haveLocal) =>
      var s, lacks := InsertAll(x.receiver, values), Unheld(values, Sorted(x.receiver));
      Talk(x.sender, s, if haveLocal || lacks == [] then Nothing else Say(peers, r, x.turn, s, lacks, true), !x.turn)
  }

  /** Small enough to be answered with one part, and nothing collides. */
  ghost predicate Plain(peers: Peers, x: Talk)
  {
    match x.said
    case Nothing => true
    case Print(s) =>
      peers.Compatible(x.receiver) && |x.receiver| <= 1 && PrintOf(peers, x.receiver) != PrintOf(peers, s)
    case List(values, haveLocal) =>
      peers.Compatible(x.receiver + Listed(values)) && |Unheld(values, Sorted(x.receiver))| <= 1
  }

  ghost function MessageOf(peers: Peers, r: Range, said: Said): (message: Message)
  {
    match said
    case Nothing => []
    case Print(s) => [RangeFingerprint(r, PrintOf(peers, s))]
    case List(values, haveLocal) => [RangeItem(r, values, haveLocal)]
  }

  ghost function StateOf(peers: Peers, r: Range, x: Talk): (s: State)
  {
    State(x.receiver, x.sender, MessageOf(peers, r, x.said), x.turn)
  }

  /** The receiver's store and reply make the next point of the talk. */
  ghost predicate Replies(peers: Peers, r: Range, x: Talk, env: Env, s: Store, said: Said)
  {
    && AfterItems(env, x.receiver, MessageOf(peers, r, x.said)) == s
    && Reply(env, x.receiver, MessageOf(peers, r, x.said)) == MessageOf(peers, r, said)
  }

  lemma StepIs(peers: Peers, r: Range, x: Talk, s: Store, said: Said)
    requires Replies(peers, r, x, peers.At(x.turn), s, said)
    ensures Step(peers, StateOf(peers, r, x)) == StateOf(peers, r, Talk(x.sender, s, said, !x.turn))
  {
  }

  lemma SentIsSaid(peers: Peers, env: Env, r: Range, turn: bool, s: Store, values: seq<Entry>, haveLocal: bool)
    requires env == peers.At(turn) && env.hashing == peers.dialer.hashing
    ensures Sent(env, s, r, values, haveLocal) == MessageOf(peers, r, Say(peers, r, turn, s, values, haveLocal))
  {
  }

  lemma PrintIsAnswered(peers: Peers, r: Range, x: Talk, env: Env)
    requires r.IsAll() && x.said.Print? && Plain(peers, x) && env == peers.At(x.turn)
    ensures Replies(peers, r, x, env, x.receiver, Say(peers, r, x.turn, x.receiver, Sorted(x.receiver), false))
  {
    PrintReply(env, x.receiver, r, PrintOf(peers, x.said.of));
    SentIsSaid(peers, env, r, x.turn, x.receiver, Sorted(x.receiver), false);
  }

  lemma {:induction false} InsertAllFrom(s: Store, offers: seq<Entry>)
    ensures InsertAll(s, offers) <= s + Listed(offers)
    decreases |offers|
  {
    if offers != [] {
      InsertAllFrom(s, offers[..|offers| - 1]);
    }
  }

  /** The store after a list, and that both sides still take what is in it. */
  lemma ListIsStored(peers: Peers, r: Range, receiver: Store, values: seq<Entry>, haveLocal: bool, env: Env)
    requires peers.Compatible(receiver + Listed(values)) && (env == peers.dialer || env == peers.acceptor)
    ensures Accepted(env, values) == values && Within(env, receiver) && Within(env, InsertAll(receiver, values))
    ensures AfterItems(env, receiver, [RangeItem(r, values, haveLocal)]) == InsertAll(receiver, values)
  {
    AllAccepted(env, receiver + Listed(values), values);
    InsertAllFrom(receiver, values);
    LoneItem(env, receiver, RangeItem(r, values, haveLocal));
  }

  lemma LastListIsAnswered(peers: Peers, r: Range, x: Talk, env: Env)
    requires r.IsAll() && x.said.List? && Plain(peers, x) && env == peers.At(x.turn)
    requires x.said.haveLocal || Unheld(x.said.values, Sorted(x.receiver)) == []
    ensures Replies(peers, r, x, env, InsertAll(x.receiver, x.said.values), Nothing)
  {
    SilentList(peers, r, x.receiver, x.said.values, x.said.haveLocal, env);
  }

  lemma SilentList(peers: Peers, r: Range, receiver: Store, values: seq<Entry>, haveLocal: bool, env: Env)
    requires peers.Compatible(receiver + Listed(values)) && (env == peers.dialer || env == peers.acceptor)
    requires r.IsAll() && (haveLocal || Unheld(values, Sorted(receiver)) == [])
    ensures AfterItems(env, receiver, [RangeItem(r, values, haveLocal)]) == InsertAll(receiver, values)
    ensures Reply(env, receiver, [RangeItem(r, values, haveLocal)]) == []
  {
    ListIsStored(peers, r, receiver, values, haveLocal, env);
    NoReply(env, receiver, r, values, haveLocal);
  }

  lemma LackingListIsAnswered(peers: Peers, r: Range, x: Talk, env: Env, s: Store, lacks: seq<Entry>)
    requires r.IsAll() && x.said.List? && Plain(peers, x) && env == peers.At(x.turn) && !x.said.haveLocal
    requires s == InsertAll(x.receiver, x.said.values) && lacks == Unheld(x.said.values, Sorted(x.receiver)) != []
    ensures Replies(peers, r, x, env, s, Say(peers, r, x.turn, s, lacks, true))
  {
    LackingList(peers, r, x.receiver, x.said.values, env, s, lacks);
    SentIsSaid(peers, env, r, x.turn, s, lacks, true);
  }

  lemma LackingList(peers: Peers, r: Range, receiver: Store, values: seq<Entry>, env: Env, s: Store, lacks: seq<Entry>)
    requires peers.Compatible(receiver + Listed(values)) && (env == peers.dialer || env == peers.acceptor) && r.IsAll()
    requires s == InsertAll(receiver, values) && lacks == Unheld(values, Sorted(receiver)) && |lacks| == 1
    ensures AfterItems(env, receiver, [RangeItem(r, values, false)]) == s
    ensures Reply(env, receiver, [RangeItem(r, values, false)]) == Sent(env, s, r, lacks, true)
  {
    assert lacks == [lacks[0]];
    ListIsStored(peers, r, receiver, values, false, env);
    ListReply(env, receiver, r, values, lacks[0]);
  }

  /** Whatever is said, the reply is the answer of the talk. */
  lemma ReplyAnswers(peers: Peers, r: Range, x: Talk, env: Env)
    requires r.IsAll() && Plain(peers, x) && env == peers.At(x.turn)
    ensures var y := Answered(peers, r, x); Replies(peers, r, x, env, y.sender, y.said)
  {
    match x.said {
      case Print(_) => PrintIsAnswered(peers, r, x, env);
      case List(values, haveLocal) =>
        var lacks := Unheld(values, Sorted(x.receiver));
        if haveLocal || lacks == [] {
          LastListIsAnswered(peers, r, x, env);
        } else {
          LackingListIsAnswered(peers, r, x, env, InsertAll(x.receiver, values), lacks);
        }
      case Nothing =>
    }
  }

  /** One step of the exchange is one answer of the talk. */
  lemma StepAnswers(peers: Peers, r: Range, x: Talk, y: Talk)
    requires r.IsAll() && Plain(peers, x) && y == Answered(peers, r, x)
    ensures Step(peers, StateOf(peers, r, x)) == StateOf(peers, r, y)
  {
    ReplyAnswers(peers, r, x, peers.At(x.turn));
    StepIs(peers, r, x, y.sender, y.said);
  }

  /** The run is at this point of the talk. */
  ghost predicate At(peers: Peers, r: Range, run: seq<State>, n: nat, x: Talk)
  {
    n < |run| && run[n] == StateOf(peers, r, x)
  }

  /** One more step of a run, from x to y. */
  lemma RunAnswers(peers: Peers, r: Range, run: seq<State>, n: nat, x: Talk, y: Talk)
    requires IsRun(peers, run) && r.IsAll() && Leads(peers, r, x, y) && At(peers, r, run, n, x) && n + 1 < |run|
    ensures At(peers, r, run, n + 1, y)
  {
    RunLink(peers, run, n);
    StepAnswers(peers, r, x, y);
  }

  ghost predicate Leads(peers: Peers, r: Range, x: Talk, y: Talk)
  {
    Plain(peers, x) && Answered(peers, r, x) == y
  }

  lemma {:induction false} RunEndsAt(peers: Peers, r: Range, run: seq<State>, k: nat, n: nat, x: Talk)
    requires IsRun(peers, run) && r.IsAll() && x.said.Nothing? && At(peers, r, run, k, x) && k <= n < |run|
    ensures run[n].message == []
    decreases n - k
  {
    if k < n {
      var y := Talk(x.sender, x.receiver, Nothing, !x.turn);
      RunAnswers(peers, r, run, k, x, y);
      RunEndsAt(peers, r, run, k + 1, n, y);
    }
  }

  /** After the answer to a list that asked for it, or to one that lacks nothing, nothing is said. */
  lemma LastWord(peers: Peers, r: Range, run: seq<State>, k: nat, n: nat, x: Talk)
    requires IsRun(peers, run) && r.IsAll() && At(peers, r, run, k, x) && k < n < |run|
    requires Plain(peers, x) && Answered(peers, r, x).said.Nothing?
    ensures run[n].message == []
  {
    var y := Answered(peers, r, x);
    RunAnswers(peers, r, run, k, x, y);
    RunEndsAt(peers, r, run, k + 1, n, y);
  }

  /** Two points of a talk that lead to each other. */
  ghost predicate Loops(peers: Peers, r: Range, x: Talk, y: Talk)
  {
    Leads(peers, r, x, y) && Leads(peers, r, y, x) && !x.said.Nothing? && !y.said.Nothing?
  }

  /** From a loop on, the run is at one of its two points. */
  lemma {:induction false} LoopGoesOn(peers: Peers, r: Range, run: seq<State>, k: nat, n: nat, x: Talk, y: Talk)
    requires IsRun(peers, run) && r.IsAll() && Loops(peers, r, x, y) && At(peers, r, run, k, x) && k <= n < |run|
    ensures At(peers, r, run, n, x) || At(peers, r, run, n, y)
    ensures run[n].message != []
    decreases n - k
  {
    if k < n {
      RunAnswers(peers, r, run, k, x, y);
      LoopGoesOn(peers, r, run, k + 1, n, y, x);
    }
  }

  // ----- what small stores list

  function One(e: Entry): (s: Store) { {e} }

  function None(): (s: Store) { {} }

  lemma SortedNone()
    ensures Sorted(None()) == []
  {
    SortedIsUnique(None(), []);
  }

  lemma SortedOne(e: Entry)
    ensures Sorted(One(e)) == [e]
  {
    SortedIsUnique(One(e), [e]);
  }

  /** The list lacks one entry of the store. */
  lemma UnheldOne(values: seq<Entry>, s: Store, x: Entry)
    requires x in s && forall e :: e in s ==> (PeerHasNewerValue(values, e) <==> e != x)
    ensures Unheld(values, Sorted(s)) == [x]
  {
    UnheldIsFilter(values, Sorted(s));
    SortedListsAgree(Unheld(values, Sorted(s)), [x]);
  }

  lemma UnheldInNone(values: seq<Entry>)
    ensures Unheld(values, Sorted(None())) == []
  {
    SortedNone();
  }

  lemma NewerInOne(a: Entry, e: Entry)
    ensures PeerHasNewerValue([a], e) <==> a.id == e.id && a.record.CompareTo(e.record) >= 0
    ensures !PeerHasNewerValue([], e)
  {
    IdentifierOrder(a.id, e.id, e.id);
    assert a in [a];
  }

  lemma InsertOne(s: Store, e: Entry)
    ensures InsertAll(s, [e]) == Insert(s, e)
  {
    assert [e][..0] == [];
    assert InsertAll(s, [e][..0]) == s;
  }

  // ----- an entry, and a peer that has none

  /** The fingerprints tell the entry from nothing, and both sides take it. */
  ghost predicate Told(peers: Peers, e: Entry)
  {
    peers.Compatible(One(e)) && PrintOf(peers, One(e)) != PrintOf(peers, None())
  }

  lemma StartOfOne(peers: Peers, e: Entry, acceptor: Store)
    requires peers.Compatible(One(e))
    ensures Start(peers, One(e), acceptor) == StateOf(peers, Own(e), Talk(acceptor, One(e), Print(One(e)), true))
  {
    OwnIsAll(e);
    WholeStore(peers.dialer, One(e), Own(e));
    SortedOne(e);
  }

  lemma StartOfNone(peers: Peers, acceptor: Store)
    ensures Start(peers, None(), acceptor) == StateOf(peers, Everything(), Talk(acceptor, None(), Print(None()), true))
  {
    assert Scoped(None(), peers.dialer.scope) == {};
    SortedNone();
  }

  lemma PrintToOne(peers: Peers, e: Entry, sender: Store, other: Store, r: Range, turn: bool)
    requires peers.Compatible(One(e)) && PrintOf(peers, One(e)) != PrintOf(peers, other)
    ensures Leads(peers, r, Talk(One(e), sender, Print(other), turn),
                  Talk(sender, One(e), Say(peers, r, turn, One(e), [e], false), !turn))
  {
    SortedOne(e);
  }

  /** The side with the entry, asked for it with a list of nothing. */
  lemma AskedForOne(peers: Peers, e: Entry, r: Range, turn: bool)
    requires Told(peers, e)
    ensures Leads(peers, r, Talk(One(e), None(), List([], false), turn),
                  Talk(None(), One(e), Say(peers, r, turn, One(e), [e], true), !turn))
  {
    NewerInOne(e, e);
    UnheldOne([], One(e), e);
    assert One(e) + Listed([]) == One(e);
  }

  /** The side without it asks. */
  lemma NoneAsks(peers: Peers, e: Entry, r: Range, turn: bool)
    requires Told(peers, e)
    ensures Leads(peers, r, Talk(None(), One(e), Print(One(e)), turn),
                  Talk(One(e), None(), Say(peers, r, turn, None(), [], false), !turn))
  {
    SortedNone();
  }

  lemma NoneKeeps(peers: Peers, e: Entry, r: Range, haveLocal: bool, turn: bool)
    requires Told(peers, e)
    ensures var x := Talk(None(), One(e), List([e], haveLocal), turn);
            Plain(peers, x) && Answered(peers, r, x).said.Nothing?
  {
    UnheldInNone([e]);
    assert None() + Listed([e]) == One(e);
  }

  /** The entry goes out when a list of nothing asks for it, or else when the fingerprint of nothing does. */
  ghost predicate HeldFits(peers: Peers, e: Entry)
  {
    Fit(peers.dialer, Own(e), [e], Fit(peers.acceptor, Own(e), [], false))
  }

  /** The dialer's fingerprint, and what an acceptor without entries says to it. */
  ghost function HeldPrint(e: Entry): (x: Talk)
  {
    Talk(None(), One(e), Print(One(e)), true)
  }

  ghost function HeldAsk(peers: Peers, e: Entry): (y: Talk)
  {
    Talk(One(e), None(), Say(peers, Own(e), true, None(), [], false), false)
  }

  lemma HeldAnswer(peers: Peers, e: Entry)
    requires Told(peers, e)
    ensures Leads(peers, Own(e), HeldPrint(e), HeldAsk(peers, e))
    ensures Leads(peers, Own(e), HeldAsk(peers, e),
                  if HeldFits(peers, e)
                  then Talk(None(), One(e), List([e], Fit(peers.acceptor, Own(e), [], false)), true)
                  else HeldPrint(e))
  {
    NoneAsks(peers, e, Own(e), true);
    AskedForOne(peers, e, Own(e), false);
    PrintToOne(peers, e, None(), None(), Own(e), false);
  }

  /** An entry reaches a peer that has none if and only if it fits; otherwise the exchange never goes quiet. */
  lemma HeldEntryIff(peers: Peers, e: Entry, run: seq<State>, n: nat)
    requires Told(peers, e) && IsRun(peers, run) && run[0] == Start(peers, One(e), None()) && 3 <= n < |run|
    ensures run[n].message == [] <==> HeldFits(peers, e)
  {
    var r, x, y := Own(e), HeldPrint(e), HeldAsk(peers, e);
    OwnIsAll(e);
    StartOfOne(peers, e, None());
    HeldAnswer(peers, e);
    if HeldFits(peers, e) {
      var asked := Fit(peers.acceptor, r, [], false);
      var z := Talk(None(), One(e), List([e], asked), true);
      RunAnswers(peers, r, run, 0, x, y);
      RunAnswers(peers, r, run, 1, y, z);
      NoneKeeps(peers, e, r, asked, true);
      LastWord(peers, r, run, 2, n, z);
    } else {
      LoopGoesOn(peers, r, run, 0, n, x, y);
    }
  }

  /**
   The loop goes through the frame writer: if fingerprints between the entry and itself fit a frame, so does every
   message of a run that is never quiet.
   */
  lemma HeldLoopIsWritten(peers: Peers, e: Entry, run: seq<State>, n: nat)
    requires Told(peers, e) && !HeldFits(peers, e)
    requires forall f :: peers.dialer.size(RangeFingerprint(Own(e), f)) <= BUDGET
    requires forall f :: peers.acceptor.size(RangeFingerprint(Own(e), f)) <= BUDGET
    requires IsRun(peers, run) && run[0] == Start(peers, One(e), None()) && n < |run|
    ensures run[n].message != [] && Fits(peers.At(!run[n].turn), run[n].message)
  {
    OwnIsAll(e);
    StartOfOne(peers, e, None());
    HeldAnswer(peers, e);
    LoopGoesOn(peers, Own(e), run, 0, n, HeldPrint(e), HeldAsk(peers, e));
    SizeOfOne(peers.At(!run[n].turn), run[n].message[0]);
    assert run[n].message == [run[n].message[0]];
  }

  lemma SizeOfOne(env: Env, p: Part)
    ensures TotalSize(env, [p]) == env.size(p)
  {
    assert [p][..0] == [];
    assert TotalSize(env, [p][..0]) == 0;
  }

  /** The entry goes out at once, or is asked for with a list of nothing and then goes out. */
  ghost predicate LoneFits(peers: Peers, e: Entry)
  {
    || Fit(peers.acceptor, Everything(), [e], false)
    || (Fit(peers.acceptor, Everything(), [e], true) && Fit(peers.dialer, Everything(), [], false))
  }

  ghost function LonePrint(e: Entry): (x: Talk)
  {
    Talk(None(), One(e), Print(One(e)), false)
  }

  ghost function LoneAsk(peers: Peers, e: Entry): (y: Talk)
  {
    Talk(One(e), None(), Say(peers, Everything(), false, None(), [], false), true)
  }

  /** The cycle: the entry is cut to a fingerprint, asked for, and cut to the same fingerprint again. */
  lemma LoneCycles(peers: Peers, e: Entry)
    requires Told(peers, e) && !LoneFits(peers, e)
    ensures Loops(peers, Everything(), LonePrint(e), LoneAsk(peers, e))
  {
    NoneAsks(peers, e, Everything(), false);
    AskedForOne(peers, e, Everything(), true);
    PrintToOne(peers, e, None(), None(), Everything(), true);
  }

  lemma LoneStart(peers: Peers, e: Entry, run: seq<State>)
    requires Told(peers, e) && IsRun(peers, run) && run[0] == Start(peers, None(), One(e)) && |run| > 1
    ensures At(peers, Everything(), run, 1,
               Talk(None(), One(e), Say(peers, Everything(), true, One(e), [e], false), false))
  {
    OwnIsAll(e);
    StartOfNone(peers, One(e));
    PrintToOne(peers, e, None(), None(), Everything(), true);
    RunAnswers(peers, Everything(), run, 0, Talk(One(e), None(), Print(None()), true),
               Talk(None(), One(e), Say(peers, Everything(), true, One(e), [e], false), false));
  }

  lemma LoneEnds(peers: Peers, e: Entry, run: seq<State>, n: nat)
    requires Told(peers, e) && LoneFits(peers, e)
    requires IsRun(peers, run) && run[0] == Start(peers, None(), One(e)) && 4 <= n < |run|
    ensures run[n].message == []
  {
    var r := Everything();
    OwnIsAll(e);
    LoneStart(peers, e, run);
    if Fit(peers.acceptor, r, [e], false) {
      NoneKeeps(peers, e, r, false, false);
      LastWord(peers, r, run, 1, n, Talk(None(), One(e), List([e], false), false));
    } else {
      var z := Talk(None(), One(e), List([e], true), false);
      NoneAsks(peers, e, r, false);
      RunAnswers(peers, r, run, 1, LonePrint(e), LoneAsk(peers, e));
      AskedForOne(peers, e, r, true);
      RunAnswers(peers, r, run, 2, LoneAsk(peers, e), z);
      NoneKeeps(peers, e, r, true, false);
      LastWord(peers, r, run, 3, n, z);
    }
  }

  /** The same the other way round, where the dialer has no entry. */
  lemma LoneEntryIff(peers: Peers, e: Entry, run: seq<State>, n: nat)
    requires Told(peers, e) && IsRun(peers, run) && run[0] == Start(peers, None(), One(e)) && 4 <= n < |run|
    ensures run[n].message == [] <==> LoneFits(peers, e)
  {
    if LoneFits(peers, e) {
      LoneEnds(peers, e, run, n);
    } else {
      OwnIsAll(e);
      LoneStart(peers, e, run);
      LoneCycles(peers, e);
      LoopGoesOn(peers, Everything(), run, 1, n, LonePrint(e), LoneAsk(peers, e));
    }
  }

  // ----- an entry on either side

  lemma InsertKeeps(a: Entry, v: Entry)
    requires !Shadows(a, v)
    ensures var both := Insert(One(v), a); v in both && both <= {a, v} && Insert(both, a) == both
    ensures !Shadows(v, a) ==> Insert(One(v), a) == {a, v}
  {
    ShadowsOrderAll();
  }

  lemma ListLacks(a: Entry, s: Store, x: Entry)
    requires x in s && x.id != a.id && s <= {a, x}
    ensures Unheld([a], Sorted(s)) == [x]
  {
    forall e | e in s
      ensures PeerHasNewerValue([a], e) <==> e != x
    {
      NewerInOne(a, e);
      RecordOrder(a.record, a.record, a.record);
    }
    UnheldOne([a], s, x);
  }

  /** A list of one entry, for a store that holds another. */
  lemma ListOfOne(peers: Peers, a: Entry, s: Store, x: Entry, sender: Store, r: Range, turn: bool, after: Store)
    requires peers.Compatible({a, x}) && x in s && x.id != a.id && s <= {a, x} && after == Insert(s, a)
    ensures Leads(peers, r, Talk(s, sender, List([a], false), turn),
                  Talk(sender, after, Say(peers, r, turn, after, [x], true), !turn))
  {
    ListLacks(a, s, x);
    InsertOne(s, a);
    CompatibleList(peers, a, s, x);
  }

  lemma CompatibleList(peers: Peers, a: Entry, s: Store, x: Entry)
    requires peers.Compatible({a, x}) && s <= {a, x}
    ensures peers.Compatible(s + Listed([a]))
  {
    assert s + Listed([a]) <= {a, x};
  }

  lemma LastToOne(peers: Peers, a: Entry, v: Entry, sender: Store, r: Range, turn: bool)
    requires peers.Compatible({a, v}) && a.id != v.id
    ensures var x := Talk(One(v), sender, List([a], true), turn);
            Plain(peers, x) && Answered(peers, r, x).said.Nothing?
  {
    ListLacks(a, One(v), v);
    CompatibleList(peers, a, One(v), v);
  }

  lemma OneKeeps(peers: Peers, a: Entry, v: Entry, sender: Store, r: Range, turn: bool, run: seq<State>, k: nat, n: nat)
    requires peers.Compatible({a, v}) && a.id != v.id && r.IsAll() && IsRun(peers, run) && k < n < |run|
    requires At(peers, r, run, k, Talk(One(v), sender, List([a], true), turn))
    ensures run[n].message == []
  {
    LastToOne(peers, a, v, sender, r, turn);
    LastWord(peers, r, run, k, n, Talk(One(v), sender, List([a], true), turn));
  }

  /**
   The dialer's a and the acceptor's v, which a does not shadow, and fingerprints that tell the dialer's store from
   the acceptor's with and without a.
   */
  ghost predicate PairTold(peers: Peers, a: Entry, v: Entry)
  {
    && peers.Compatible({a, v}) && peers.Compatible(One(a)) && peers.Compatible(One(v))
    && a.id != v.id && !Shadows(a, v)
    && PrintOf(peers, One(a)) != PrintOf(peers, One(v)) && PrintOf(peers, One(a)) != PrintOf(peers, Insert(One(v), a))
  }

  /** Points of the talk between the dialer's a and the acceptor's v. */
  ghost function DialerPrint(a: Entry, v: Entry): (x: Talk)
  {
    Talk(One(v), One(a), Print(One(a)), true)
  }

  ghost function AcceptorPrint(a: Entry, v: Entry): (x: Talk)
  {
    Talk(One(a), One(v), Print(One(v)), false)
  }

  ghost function AcceptorList(a: Entry, v: Entry): (x: Talk)
  {
    Talk(One(a), One(v), List([v], false), false)
  }

  ghost function DialerList(a: Entry, acceptor: Store): (x: Talk)
  {
    Talk(acceptor, One(a), List([a], false), true)
  }

  lemma StartOfPair(peers: Peers, a: Entry, v: Entry)
    requires peers.Compatible(One(a)) && peers.Compatible(One(v)) && PrintOf(peers, One(v)) != PrintOf(peers, One(a))
    ensures Start(peers, One(a), One(v)) == StateOf(peers, Own(a), DialerPrint(a, v))
    ensures Leads(peers, Own(a), DialerPrint(a, v),
                  if Fit(peers.acceptor, Own(a), [v], false) then AcceptorList(a, v) else AcceptorPrint(a, v))
    ensures Leads(peers, Own(a), AcceptorPrint(a, v),
                  if Fit(peers.dialer, Own(a), [a], false) then DialerList(a, One(v)) else DialerPrint(a, v))
  {
    StartOfOne(peers, a, One(v));
    PrintToOne(peers, v, One(a), One(a), Own(a), true);
    PrintToOne(peers, a, One(v), One(v), Own(a), false);
  }

  /** The acceptor's entry is withheld: it fits neither at first nor in answer to the dialer's. */
  ghost predicate Withheld(peers: Peers, a: Entry, v: Entry)
  {
    && !Fit(peers.acceptor, Own(a), [v], false)
    && !(Fit(peers.dialer, Own(a), [a], false) && Fit(peers.acceptor, Own(a), [v], true))
  }

  /** What the acceptor says to the dialer's list, once it holds both or what is left of them. */
  lemma ListInAnswer(peers: Peers, a: Entry, v: Entry, s: Store, both: Store)
    requires PairTold(peers, a, v) && both == Insert(One(v), a) && (s == One(v) || s == both)
    ensures Leads(peers, Own(a), DialerList(a, s), Talk(One(a), both, Say(peers, Own(a), true, both, [v], true), false))
  {
    InsertKeeps(a, v);
    ListOfOne(peers, a, s, v, One(a), Own(a), true, both);
  }

  lemma ListsLoop(peers: Peers, a: Entry, v: Entry, both: Store)
    requires PairTold(peers, a, v) && both == Insert(One(v), a)
    requires Fit(peers.dialer, Own(a), [a], false) && !Fit(peers.acceptor, Own(a), [v], true)
    ensures Loops(peers, Own(a), Talk(One(a), both, Print(both), false), DialerList(a, both))
  {
    ListInAnswer(peers, a, v, both, both);
    PrintToOne(peers, a, both, both, Own(a), false);
  }

  /** The dialer's entry goes out after the acceptor's fingerprint. */
  lemma SecondGoesOut(peers: Peers, a: Entry, v: Entry, run: seq<State>, both: Store)
    requires PairTold(peers, a, v) && both == Insert(One(v), a)
    requires !Fit(peers.acceptor, Own(a), [v], false) && Fit(peers.dialer, Own(a), [a], false)
    requires IsRun(peers, run) && run[0] == Start(peers, One(a), One(v)) && |run| > 3
    ensures At(peers, Own(a), run, 3, Talk(One(a), both, Say(peers, Own(a), true, both, [v], true), false))
  {
    var r := Own(a);
    OwnIsAll(a);
    StartOfPair(peers, a, v);
    RunAnswers(peers, r, run, 0, DialerPrint(a, v), AcceptorPrint(a, v));
    RunAnswers(peers, r, run, 1, AcceptorPrint(a, v), DialerList(a, One(v)));
    ListInAnswer(peers, a, v, One(v), both);
    RunAnswers(peers, r, run, 2, DialerList(a, One(v)),
               Talk(One(a), both, Say(peers, r, true, both, [v], true), false));
  }

  /** A withheld entry's fingerprint goes back and forth, also where the entry shadows the dialer's. */
  lemma WithheldPair(peers: Peers, a: Entry, v: Entry, run: seq<State>, n: nat)
    requires PairTold(peers, a, v) && Withheld(peers, a, v)
    requires IsRun(peers, run) && run[0] == Start(peers, One(a), One(v)) && 3 <= n < |run|
    ensures run[n].message != []
  {
    var both := Insert(One(v), a);
    OwnIsAll(a);
    if Fit(peers.dialer, Own(a), [a], false) {
      SecondGoesOut(peers, a, v, run, both);
      ListsLoop(peers, a, v, both);
      LoopGoesOn(peers, Own(a), run, 3, n, Talk(One(a), both, Print(both), false), DialerList(a, both));
    } else {
      StartOfPair(peers, a, v);
      LoopGoesOn(peers, Own(a), run, 0, n, DialerPrint(a, v), AcceptorPrint(a, v));
    }
  }

  /** The dialer's entry goes out first, and the acceptor's in answer. */
  lemma SecondFits(peers: Peers, a: Entry, v: Entry, run: seq<State>, n: nat)
    requires PairTold(peers, a, v) && !Fit(peers.acceptor, Own(a), [v], false)
    requires Fit(peers.dialer, Own(a), [a], false) && Fit(peers.acceptor, Own(a), [v], true)
    requires IsRun(peers, run) && run[0] == Start(peers, One(a), One(v)) && 4 <= n < |run|
    ensures run[n].message == []
  {
    var both := Insert(One(v), a);
    OwnIsAll(a);
    SecondGoesOut(peers, a, v, run, both);
    assert {v, a} == {a, v};
    OneKeeps(peers, v, a, both, Own(a), false, run, 3, n);
  }

  /** What the dialer says to the acceptor's list. */
  lemma ListAtOnce(peers: Peers, a: Entry, v: Entry, s: Store, both: Store)
    requires PairTold(peers, v, a) && both == Insert(One(a), v) && (s == One(a) || s == both)
    ensures Leads(peers, Own(a), Talk(s, One(v), List([v], false), false),
                  Talk(One(v), both, Say(peers, Own(a), false, both, [a], true), true))
  {
    InsertKeeps(v, a);
    ListOfOne(peers, v, s, a, One(v), Own(a), false, both);
  }

  lemma VainLoop(peers: Peers, a: Entry, v: Entry, both: Store)
    requires PairTold(peers, v, a) && both == Insert(One(a), v)
    requires Fit(peers.acceptor, Own(a), [v], false) && !Fit(peers.dialer, Own(a), [a], true)
    ensures Loops(peers, Own(a), Talk(One(v), both, Print(both), true), Talk(both, One(v), List([v], false), false))
  {
    ListAtOnce(peers, a, v, both, both);
    PrintToOne(peers, v, both, both, Own(a), true);
  }

  lemma FirstGoesOut(peers: Peers, a: Entry, v: Entry, run: seq<State>, both: Store)
    requires PairTold(peers, v, a) && both == Insert(One(a), v) && Fit(peers.acceptor, Own(a), [v], false)
    requires IsRun(peers, run) && run[0] == Start(peers, One(a), One(v)) && |run| > 2
    ensures At(peers, Own(a), run, 2, Talk(One(v), both, Say(peers, Own(a), false, both, [a], true), true))
  {
    OwnIsAll(a);
    StartOfPair(peers, a, v);
    RunAnswers(peers, Own(a), run, 0, DialerPrint(a, v), AcceptorList(a, v));
    ListAtOnce(peers, a, v, One(a), both);
    RunAnswers(peers, Own(a), run, 1, AcceptorList(a, v),
               Talk(One(v), both, Say(peers, Own(a), false, both, [a], true), true));
  }

  /** The acceptor's entry goes out; the dialer's goes out in answer, or is asked for in vain for ever. */
  lemma FirstFits(peers: Peers, a: Entry, v: Entry, run: seq<State>, n: nat)
    requires PairTold(peers, v, a) && Fit(peers.acceptor, Own(a), [v], false)
    requires IsRun(peers, run) && run[0] == Start(peers, One(a), One(v)) && 4 <= n < |run|
    ensures run[n].message == [] <==> Fit(peers.dialer, Own(a), [a], true)
  {
    var both := Insert(One(a), v);
    OwnIsAll(a);
    FirstGoesOut(peers, a, v, run, both);
    if Fit(peers.dialer, Own(a), [a], true) {
      assert {v, a} == {a, v};
      OneKeeps(peers, a, v, both, Own(a), true, run, 2, n);
    } else {
      VainLoop(peers, a, v, both);
      LoopGoesOn(peers, Own(a), run, 2, n, Talk(One(v), both, Print(both), true),
                 Talk(both, One(v), List([v], false), false));
    }
  }

  /** Neither entry shadows the other, and the fingerprints tell one, the other and both. */
  ghost predicate Apart(peers: Peers, a: Entry, v: Entry)
  {
    PairTold(peers, a, v) && PairTold(peers, v, a)
  }

  /** One side's entry goes out first and the other's in answer to it. */
  ghost predicate PairFits(peers: Peers, a: Entry, v: Entry)
  {
    if Fit(peers.acceptor, Own(a), [v], false) then Fit(peers.dialer, Own(a), [a], true)
    else Fit(peers.dialer, Own(a), [a], false) && Fit(peers.acceptor, Own(a), [v], true)
  }

  /** Two entries change sides if and only if they fit in turn; otherwise the exchange never goes quiet. */
  lemma PairIff(peers: Peers, a: Entry, v: Entry, run: seq<State>, n: nat)
    requires Apart(peers, a, v) && IsRun(peers, run) && run[0] == Start(peers, One(a), One(v)) && 4 <= n < |run|
    ensures run[n].message == [] <==> PairFits(peers, a, v)
  {
    if Fit(peers.acceptor, Own(a), [v], false) {
      FirstFits(peers, a, v, run, n);
    } else if PairFits(peers, a, v) {
      SecondFits(peers, a, v, run, n);
    } else {
      WithheldPair(peers, a, v, run, n);
    }
  }
}
