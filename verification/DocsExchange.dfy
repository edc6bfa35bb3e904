/**
 Whole exchanges (Handler.run in docs/net.go): one message in flight, the two
 sides taking turns. Safety over every run, and a bound on its length.
 */
module DocsExchange {
  import opened DocsEntry
  import opened DocsCrdt
  import opened DocsRange
  import opened DocsMessage
  import opened DocsConvergence

  // ----- every answer ranks below the message it answers

  function Covered(u: set<Entry>, r: Range): (c: set<Entry>)
  {
    set e | e in u && r.Contains(e.id)
  }

  /** How many more replies a part can cause. */
  function Weight(u: set<Entry>, p: Part): (w: nat)
    ensures w >= 1
  {
    match p
    case RangeFingerprint(r, _) => |Covered(u, r)| + 2
    case RangeItem(_, _, haveLocal) => if haveLocal then 1 else 2
  }

  predicate WeighsAtMost(u: set<Entry>, message: Message, w: int)
  {
    forall p :: p in message ==> Weight(u, p) <= w
  }

  lemma PieceCoversLess(env: Env, u: set<Entry>, s: Store, r: Range, factor: int, piece: Range)
    requires Scoped(s, env.scope) <= u && |LocalEntries(env, s, r)| >= 2
    requires piece in SplitRange(LocalEntries(env, s, r), r, factor)
    ensures |Covered(u, piece)| < |Covered(u, r)|
  {
    var entries := LocalEntries(env, s, r);
    var left := SplitPieceIsSmaller(entries, r, factor, piece);
    forall e | e in Covered(u, piece)
      ensures e in Covered(u, r)
    {
      SplitCoversExactly(entries, r, factor, e.id);
      HitGivesRange(SplitRange(entries, r, factor), e.id);
    }
    assert left in Covered(u, r) && left !in Covered(u, piece);
    CardinalityMonotone(Covered(u, piece), Covered(u, r));
  }

  /** Two stores that differ on a range do not both have nothing in it. */
  lemma MismatchIsCovered(env: Env, u: set<Entry>, s: Store, t: Store, r: Range)
    requires Scoped(s, env.scope) <= u && Scoped(t, env.scope) <= u
    requires LocalFingerprint(env, s, r) != LocalFingerprint(env, t, r)
    ensures |Covered(u, r)| >= 1
  {
    var x, y := InRange(s, env.scope, r), InRange(t, env.scope, r);
    assert x <= Covered(u, r) && y <= Covered(u, r);
    assert x != y;
    assert Covered(u, r) != {};
  }

  lemma DescriptionWeight(env: Env, u: set<Entry>, s: Store, piece: Range)
    ensures Weight(u, Describe(env, s, piece)) <= |Covered(u, piece)| + 2
  {
  }

  lemma SplitAnswerWeighsLess(env: Env, u: set<Entry>, s: Store, r: Range, factor: int, p: Part)
    requires Scoped(s, env.scope) <= u && |LocalEntries(env, s, r)| >= 2
    requires p in DescribeAll(env, s, SplitRange(LocalEntries(env, s, r), r, factor))
    ensures Weight(u, p) < |Covered(u, r)| + 2
  {
    var piece := DescribeAllFrom(env, s, SplitRange(LocalEntries(env, s, r), r, factor), p);
    PieceCoversLess(env, u, s, r, factor, piece);
    DescriptionWeight(env, u, s, piece);
  }

  /** Whatever a fingerprint is answered with weighs less than it does. */
  lemma FingerprintAnswerWeighsLess(env: Env, u: set<Entry>, s: Store, sender: Store, q: Part, p: Part)
    requires Scoped(s, env.scope) <= u && Scoped(sender, env.scope) <= u
    requires q.RangeFingerprint? && Honest(env, u, sender, q) && p in ReplyToFingerprint(env, s, q)
    ensures Weight(u, p) < Weight(u, q)
  {
    MismatchIsCovered(env, u, s, sender, q.range);
    if |LocalEntries(env, s, q.range)| > 1 && q.fingerprint != env.hashing.empty {
      SplitAnswerWeighsLess(env, u, s, q.range, env.config.WithDefaults().splitFactor, p);
    }
  }

  lemma {:induction false} ItemAnswersWeighLess(env: Env, u: set<Entry>, s: Store, message: Message, p: Part)
    requires p in ItemReplies(env, s, message)
    ensures exists q :: q in message && Weight(u, p) < Weight(u, q)
    decreases |message|
  {
    var init, last := message[..|message| - 1], message[|message| - 1];
    assert message == init + [last];
    if p in ItemReplies(env, s, init) {
      ItemAnswersWeighLess(env, u, s, init, p);
    } else {
      assert Weight(u, p) < Weight(u, last);
    }
  }

  /** Each answer weighs less than the message it answers. */
  lemma AnswerWeighsLess(env: Env, u: set<Entry>, receiver: Store, sender: Store, message: Message, w: int)
    requires Suitable(env, u) && Sound(env, u, receiver, sender, message) && WeighsAtMost(u, message, w)
    ensures WeighsAtMost(u, Answer(env, receiver, message), w - 1)
  {
    var t, answer := AfterItems(env, receiver, message), Answer(env, receiver, message);
    ItemsAreStored(env, u, receiver, sender, message);
    FingerprintRepliesParts(env, t, message);
    forall p | p in answer
      ensures Weight(u, p) < w
    {
      if p in ItemReplies(env, receiver, message) {
        ItemAnswersWeighLess(env, u, receiver, message, p);
      } else {
        var q :| q in message && q.RangeFingerprint? && p in ReplyToFingerprint(env, t, q);
        FingerprintAnswerWeighsLess(env, u, t, sender, q, p);
      }
    }
  }

  // ----- a reply that fits its frame is sent unchanged

  predicate Fits(env: Env, parts: seq<Part>)
  {
    TotalSize(env, parts) <= BUDGET
  }

  lemma {:induction false} FittingReplyIsSent(env: Env, s: Store, parts: seq<Part>)
    requires Fits(env, parts)
    ensures Bounded(env, s, parts) == parts
    decreases |parts|
  {
    if parts != [] {
      FittingReplyIsSent(env, s, parts[..|parts| - 1]);
    }
  }

  // ----- runs

  /** An exchange between processing steps; turn says which peer receives next. */
  datatype State = State(receiver: Store, sender: Store, message: Message, turn: bool)

  /** The two peers' settings: same scope and hashing, otherwise independent. */
  datatype Peers = Peers(dialer: Env, acceptor: Env) {

    function At(turn: bool): (env: Env)
    {
      if turn then acceptor else dialer
    }

    ghost predicate Compatible(u: set<Entry>)
    {
      && dialer.scope == acceptor.scope && dialer.hashing == acceptor.hashing
      && Suitable(dialer, u) && Suitable(acceptor, u)
    }
  }

  ghost function Start(peers: Peers, dialer: Store, acceptor: Store): (s: State)
  {
    State(acceptor, dialer, InitialMessage(peers.dialer, dialer), true)
  }

  ghost function Step(peers: Peers, s: State): (t: State)
  {
    var env := peers.At(s.turn);
    State(s.sender, AfterItems(env, s.receiver, s.message), Reply(env, s.receiver, s.message), !s.turn)
  }

  /** A run: each state is the step from the one before. */
  ghost predicate IsRun(peers: Peers, run: seq<State>)
  {
    run != [] && forall i, j :: 0 <= i && j == i + 1 < |run| ==> run[j] == Step(peers, run[i])
  }

  lemma RunLink(peers: Peers, run: seq<State>, n: nat)
    requires IsRun(peers, run) && n + 1 < |run|
    ensures run[n + 1] == Step(peers, run[n])
  {
  }

  lemma LinkOf(peers: Peers, run: seq<State>, t: State, i: nat)
    requires i < |run| && (if i == |run| - 1 then t == Step(peers, run[i]) else run[i + 1] == Step(peers, run[i]))
    ensures (run + [t])[i + 1] == Step(peers, (run + [t])[i])
  {
    assert (run + [t])[i] == run[i] && (run + [t])[i + 1] == if i == |run| - 1 then t else run[i + 1];
  }

  lemma ExtendRun(peers: Peers, run: seq<State>, t: State)
    requires IsRun(peers, run) && t == Step(peers, run[|run| - 1])
    ensures IsRun(peers, run + [t])
  {
    forall i, j | 0 <= i && j == i + 1 < |run| + 1
      ensures (run + [t])[j] == Step(peers, (run + [t])[i])
    {
      LinkOf(peers, run, t, i);
    }
  }

  /** The stores in a state, by side. */
  ghost function DialerIn(s: State): (store: Store) { if s.turn then s.sender else s.receiver }
  ghost function AcceptorIn(s: State): (store: Store) { if s.turn then s.receiver else s.sender }

  /** The run of n steps from a state. */
  lemma {:induction false} RunFrom(peers: Peers, s: State, n: nat) returns (run: seq<State>)
    ensures IsRun(peers, run) && |run| == n + 1 && run[0] == s
    decreases n
  {
    if n == 0 {
      run := [s];
    } else {
      run := RunFrom(peers, s, n - 1);
      ExtendRun(peers, run, Step(peers, run[n - 1]));
      run := run + [Step(peers, run[n - 1])];
    }
  }

  ghost predicate StateSound(peers: Peers, u: set<Entry>, s: State)
  {
    Sound(peers.At(s.turn), u, s.receiver, s.sender, s.message)
  }

  ghost predicate StateSettled(u: set<Entry>, s: State)
  {
    AllSettled(u, s.receiver, s.sender, s.message)
  }

  /** No fingerprint compared in this step collides. */
  ghost predicate StepClean(peers: Peers, s: State)
  {
    NoCollision(peers.At(s.turn), s.receiver, s.sender, s.message)
  }

  ghost predicate StepFits(peers: Peers, s: State)
  {
    Fits(peers.At(s.turn), Answer(peers.At(s.turn), s.receiver, s.message))
  }

  /** The entries that take part in an exchange. */
  function Union(peers: Peers, dialer: Store, acceptor: Store): (u: set<Entry>)
  {
    Scoped(dialer, peers.dialer.scope) + Scoped(acceptor, peers.dialer.scope)
  }

  lemma SoundForEither(peers: Peers, u: set<Entry>, receiver: Store, sender: Store, message: Message)
    requires peers.Compatible(u)
    ensures Sound(peers.dialer, u, receiver, sender, message) <==> Sound(peers.acceptor, u, receiver, sender, message)
  {
    forall p | p in message
      ensures Honest(peers.dialer, u, sender, p) <==> Honest(peers.acceptor, u, sender, p)
    {
    }
  }

  lemma StepSound(peers: Peers, u: set<Entry>, s: State)
    requires peers.Compatible(u) && StateSound(peers, u, s)
    ensures StateSound(peers, u, Step(peers, s))
  {
    var t := Step(peers, s);
    StepIsSound(peers.At(s.turn), u, s.receiver, s.sender, s.message);
    SoundForEither(peers, u, t.receiver, t.sender, t.message);
  }

  /** A step that fits its frame takes one off the weight. */
  lemma StepWeight(peers: Peers, u: set<Entry>, s: State, w: int)
    requires peers.Compatible(u) && StateSound(peers, u, s) && StepFits(peers, s) && WeighsAtMost(u, s.message, w)
    ensures WeighsAtMost(u, Step(peers, s).message, w - 1)
  {
    var env := peers.At(s.turn);
    AnswerWeighsLess(env, u, s.receiver, s.sender, s.message, w);
    FittingReplyIsSent(env, AfterItems(env, s.receiver, s.message), Answer(env, s.receiver, s.message));
  }

  lemma StartIsSound(peers: Peers, dialer: Store, acceptor: Store)
    requires peers.Compatible(Union(peers, dialer, acceptor))
    ensures StateSound(peers, Union(peers, dialer, acceptor), Start(peers, dialer, acceptor))
    ensures StateSettled(Union(peers, dialer, acceptor), Start(peers, dialer, acceptor))
  {
    InitialMessageSettles(peers.dialer, dialer, acceptor);
    SoundForEither(peers, Union(peers, dialer, acceptor), acceptor, dialer, InitialMessage(peers.dialer, dialer));
  }

  lemma StartWeight(peers: Peers, u: set<Entry>, dialer: Store, acceptor: Store)
    ensures WeighsAtMost(u, Start(peers, dialer, acceptor).message, |u| + 2)
  {
    CardinalityMonotone(Covered(u, InitialMessage(peers.dialer, dialer)[0].range), u);
  }

  /** Soundness holds after any number of steps. */
  lemma {:induction false} RunSound(peers: Peers, u: set<Entry>, run: seq<State>, n: nat)
    requires peers.Compatible(u) && IsRun(peers, run) && n < |run| && StateSound(peers, u, run[0])
    ensures StateSound(peers, u, run[n])
    decreases n
  {
    if n > 0 {
      RunSound(peers, u, run, n - 1);
      StepSound(peers, u, run[n - 1]);
      assert run[n] == Step(peers, run[n - 1]);
    }
  }

  lemma RunStepSettles(peers: Peers, u: set<Entry>, run: seq<State>, n: nat)
    requires peers.Compatible(u) && IsRun(peers, run) && n + 1 < |run| && StateSound(peers, u, run[0])
    requires StepClean(peers, run[n]) && StateSettled(u, run[n])
    ensures StateSettled(u, run[n + 1])
  {
    RunSound(peers, u, run, n);
    StepSettles(peers.At(run[n].turn), u, run[n].receiver, run[n].sender, run[n].message);
    assert run[n + 1] == Step(peers, run[n]);
  }

  lemma {:induction false} RunSettled(peers: Peers, u: set<Entry>, run: seq<State>, n: nat)
    requires peers.Compatible(u) && IsRun(peers, run) && n < |run|
    requires StateSound(peers, u, run[0]) && StateSettled(u, run[0])
    requires forall i :: 0 <= i < n ==> StepClean(peers, run[i])
    ensures StateSettled(u, run[n])
    decreases n
  {
    if n > 0 {
      RunSettled(peers, u, run, n - 1);
      RunStepSettles(peers, u, run, n - 1);
    }
  }

  lemma RunStepWeight(peers: Peers, u: set<Entry>, run: seq<State>, n: nat, w: int)
    requires peers.Compatible(u) && IsRun(peers, run) && n + 1 < |run| && StateSound(peers, u, run[0])
    requires StepFits(peers, run[n]) && WeighsAtMost(u, run[n].message, w)
    ensures WeighsAtMost(u, run[n + 1].message, w - 1)
  {
    RunSound(peers, u, run, n);
    StepWeight(peers, u, run[n], w);
    assert run[n + 1] == Step(peers, run[n]);
  }

  lemma {:induction false} RunWeight(peers: Peers, u: set<Entry>, run: seq<State>, n: nat, w: int)
    requires peers.Compatible(u) && IsRun(peers, run) && n < |run| && StateSound(peers, u, run[0])
    requires forall i :: 0 <= i < n ==> StepFits(peers, run[i])
    requires WeighsAtMost(u, run[0].message, w)
    ensures WeighsAtMost(u, run[n].message, w - n)
    decreases n
  {
    if n > 0 {
      RunWeight(peers, u, run, n - 1, w);
      RunStepWeight(peers, u, run, n - 1, w - n + 1);
    }
  }

  /**
   Convergence: in every run whose compared fingerprints do not collide, whenever the
   exchange has gone quiet, both peers hold exactly the maximal entries of the two
   stores together.
   */
  lemma QuietRunConverged(peers: Peers, dialer: Store, acceptor: Store, run: seq<State>, n: nat)
    requires peers.Compatible(Union(peers, dialer, acceptor))
    requires IsRun(peers, run) && run[0] == Start(peers, dialer, acceptor)
    requires n < |run| && run[n].message == []
    requires forall i :: 0 <= i < n ==> StepClean(peers, run[i])
    ensures Scoped(run[n].receiver, peers.dialer.scope) == Maximal(Union(peers, dialer, acceptor))
    ensures Scoped(run[n].sender, peers.dialer.scope) == Maximal(Union(peers, dialer, acceptor))
  {
    var u := Union(peers, dialer, acceptor);
    StartIsSound(peers, dialer, acceptor);
    RunSound(peers, u, run, n);
    RunSettled(peers, u, run, n);
    QuietMeansConverged(peers.At(run[n].turn), u, run[n].receiver, run[n].sender);
  }

  /** Termination: while replies fit their frames, the exchange is quiet after |u| + 2 steps. */
  lemma RunGoesQuiet(peers: Peers, dialer: Store, acceptor: Store, run: seq<State>, n: nat)
    requires peers.Compatible(Union(peers, dialer, acceptor))
    requires IsRun(peers, run) && run[0] == Start(peers, dialer, acceptor)
    requires n < |run| && forall i :: 0 <= i < n ==> StepFits(peers, run[i])
    requires n >= |Union(peers, dialer, acceptor)| + 2
    ensures run[n].message == []
  {
    var u := Union(peers, dialer, acceptor);
    StartIsSound(peers, dialer, acceptor);
    StartWeight(peers, u, dialer, acceptor);
    RunWeight(peers, u, run, n, |u| + 2);
    WeightlessIsQuiet(u, run[n].message);
  }

  lemma WeightlessIsQuiet(u: set<Entry>, message: Message)
    requires WeighsAtMost(u, message, 0)
    ensures message == []
  {
    if message != [] {
      var w := Weight(u, message[0]);
      assert false;
    }
  }
}
