/**
 Two peers syncing their stores over one half-duplex stream: the alternating loop
 of Handler.run (docs/net.go), with cancellation after a number of rounds.
 */
module DocsSync {
  import opened DocsEntry
  import opened DocsCrdt
  import opened DocsMessage
  import opened DocsExchange
  import opened DocsNamespace
  import opened DocsStore
  import opened DocsTermination

  datatype SyncOutcome = SyncOutcome(numSent: nat, numRecv: nat)

  function ValueCount(message: Message): (n: nat)
  {
    if message == [] then 0
    else
      var last := message[|message| - 1];
      ValueCount(message[..|message| - 1]) + if last.RangeItem? then |last.values| else 0
  }

  /** The state of the exchange as the specification sees it. */
  ghost function StateOf(dialer: MemoryStore, acceptor: MemoryStore, message: Message, turn: bool): (s: State)
    reads dialer, acceptor
    requires dialer.Valid() && acceptor.Valid()
  {
    if turn then State(acceptor.Contents(), dialer.Contents(), message, true)
    else State(dialer.Contents(), acceptor.Contents(), message, false)
  }

  /** One turn: the receiver processes the message and its reply becomes the message in flight. */
  method TakeTurn(peers: Peers, dialer: MemoryStore, acceptor: MemoryStore, message: Message, turn: bool)
    returns (reply: Message)
    requires dialer != acceptor && dialer.Valid() && acceptor.Valid()
    modifies dialer, acceptor
    ensures dialer.Valid() && acceptor.Valid()
    ensures StateOf(dialer, acceptor, reply, !turn) == Step(peers, old(StateOf(dialer, acceptor, message, turn)))
  {
    if turn {
      reply := acceptor.ProcessMessage(peers.acceptor, message);
    } else {
      reply := dialer.ProcessMessage(peers.dialer, message);
    }
  }

  // ----- what a run says about its end

  /** No fingerprint compared in the run collides. */
  ghost predicate CleanRun(peers: Peers, run: seq<State>)
  {
    forall i :: 0 <= i < |run| - 1 ==> StepClean(peers, run[i])
  }

  /** Every reply of the run fits one frame. */
  ghost predicate FitRun(peers: Peers, run: seq<State>)
  {
    forall i :: 0 <= i < |run| - 1 ==> StepFits(peers, run[i])
  }

  ghost predicate SameOutside(peers: Peers, s: State, t: State)
  {
    && Outside(DialerIn(s), peers.dialer.scope) == Outside(DialerIn(t), peers.dialer.scope)
    && Outside(AcceptorIn(s), peers.acceptor.scope) == Outside(AcceptorIn(t), peers.acceptor.scope)
  }

  lemma StepIsConfined(peers: Peers, s: State, t: State)
    requires t == Step(peers, s)
    ensures SameOutside(peers, t, s)
  {
    AfterItemsIsConfined(peers.At(s.turn), s.receiver, s.message);
  }

  /** No run touches what lies outside the scope of either side. */
  lemma {:induction false} RunIsConfined(peers: Peers, run: seq<State>, n: nat)
    requires IsRun(peers, run) && n < |run|
    ensures SameOutside(peers, run[n], run[0])
    decreases n
  {
    if n > 0 {
      RunIsConfined(peers, run, n - 1);
      RunLink(peers, run, n - 1);
      StepStaysConfined(peers, run[n - 1], run[n], run[0]);
    }
  }

  lemma StepStaysConfined(peers: Peers, s: State, t: State, first: State)
    requires t == Step(peers, s) && SameOutside(peers, s, first)
    ensures SameOutside(peers, t, first)
  {
    StepIsConfined(peers, s, t);
  }

  /**
   Where an exchange stands at the end of a run: without a collision, quiet means that both stores
   hold the maximal entries of the union. If every entry fits a frame by itself, nine rounds for each
   entry and four more are enough to go quiet; if all replies fit, |union| + 2 are.
   */
  ghost predicate Concluded(peers: Peers, u: set<Entry>, run: seq<State>, one: Store, other: Store, quiet: bool)
  {
    && (quiet && CleanRun(peers, run) ==>
          Scoped(one, peers.dialer.scope) == Maximal(u) && Scoped(other, peers.dialer.scope) == Maximal(u))
    && (|run| > 9 * |u| + 4 && BothFit(peers, u) ==> quiet)
    && (|run| > |u| + 2 && FitRun(peers, run) ==> quiet)
  }

  lemma RunConcludes(peers: Peers, a: Store, b: Store, run: seq<State>)
    requires peers.Compatible(Union(peers, a, b)) && IsRun(peers, run) && run[0] == Start(peers, a, b)
    ensures var s := run[|run| - 1];
            Concluded(peers, Union(peers, a, b), run, DialerIn(s), AcceptorIn(s), s.message == [])
  {
    var n := |run| - 1;
    if run[n].message == [] && CleanRun(peers, run) {
      QuietRunConverged(peers, a, b, run, n);
    }
    if |run| > 9 * |Union(peers, a, b)| + 4 && BothFit(peers, Union(peers, a, b)) {
      RunEnds(peers, a, b, run, n);
    }
    if |run| > |Union(peers, a, b)| + 2 && FitRun(peers, run) {
      RunGoesQuiet(peers, a, b, run, n);
    }
  }

  /** The same for two stores a and b at the start, now one and other. */
  ghost predicate Outcome(peers: Peers, a: Store, b: Store, run: seq<State>, one: Store, other: Store, quiet: bool)
  {
    peers.Compatible(Union(peers, a, b)) ==> Concluded(peers, Union(peers, a, b), run, one, other, quiet)
  }

  lemma RunOutcome(peers: Peers, a: Store, b: Store, run: seq<State>, one: Store, other: Store, quiet: bool)
    requires IsRun(peers, run) && run[0] == Start(peers, a, b)
    requires var s := run[|run| - 1]; one == DialerIn(s) && other == AcceptorIn(s) && quiet == (s.message == [])
    ensures Outcome(peers, a, b, run, one, other, quiet)
  {
    if peers.Compatible(Union(peers, a, b)) {
      RunConcludes(peers, a, b, run);
    }
  }

  // ----- the loop

  method PlayRound(peers: Peers, dialer: MemoryStore, acceptor: MemoryStore, message: Message, turn: bool,
                   ghost run: seq<State>)
    returns (reply: Message, ghost more: seq<State>)
    requires dialer != acceptor && dialer.Valid() && acceptor.Valid()
    requires IsRun(peers, run) && StateOf(dialer, acceptor, message, turn) == run[|run| - 1]
    modifies dialer, acceptor
    ensures dialer.Valid() && acceptor.Valid()
    ensures IsRun(peers, more) && |more| == |run| + 1 && more[0] == run[0]
    ensures StateOf(dialer, acceptor, reply, !turn) == more[|run|]
  {
    reply := TakeTurn(peers, dialer, acceptor, message, turn);
    ghost var t := StateOf(dialer, acceptor, reply, !turn);
    ExtendRun(peers, run, t);
    more := run + [t];
  }

  /** What one side has sent and the other not yet received is in flight. */
  predicate Balanced(message: Message, turn: bool, out: SyncOutcome, accepted: SyncOutcome)
  {
    if turn then accepted.numRecv + ValueCount(message) == out.numSent && out.numRecv == accepted.numSent
    else out.numRecv + ValueCount(message) == accepted.numSent && out.numSent == accepted.numRecv
  }

  method Account(message: Message, reply: Message, turn: bool, out: SyncOutcome, accepted: SyncOutcome)
    returns (newOut: SyncOutcome, newAccepted: SyncOutcome)
    requires Balanced(message, turn, out, accepted)
    ensures Balanced(reply, !turn, newOut, newAccepted)
    ensures newOut.numSent + newAccepted.numSent == out.numSent + accepted.numSent + ValueCount(reply)
  {
    newOut, newAccepted := out, accepted;
    if turn {
      newAccepted := SyncOutcome(accepted.numSent + ValueCount(reply), accepted.numRecv + ValueCount(message));
    } else {
      newOut := SyncOutcome(out.numSent + ValueCount(reply), out.numRecv + ValueCount(message));
    }
  }

  /** The alternating loop: one message in flight, the store that receives it changes. */
  method Alternate(peers: Peers, dialer: MemoryStore, acceptor: MemoryStore, limit: nat)
    returns (message: Message, turn: bool, rounds: nat, out: SyncOutcome, accepted: SyncOutcome, ghost run: seq<State>)
    requires dialer != acceptor && dialer.Valid() && acceptor.Valid()
    modifies dialer, acceptor
    ensures dialer.Valid() && acceptor.Valid() && rounds <= limit && (rounds < limit ==> message == [])
    ensures IsRun(peers, run) && |run| == rounds + 1
    ensures run[0] == old(Start(peers, dialer.Contents(), acceptor.Contents()))
    ensures StateOf(dialer, acceptor, message, turn) == run[rounds]
    ensures Balanced(message, turn, out, accepted)
  {
    run := [Start(peers, dialer.Contents(), acceptor.Contents())];
    message := dialer.InitialMessage(peers.dialer);
    turn, rounds, out, accepted := true, 0, SyncOutcome(0, 0), SyncOutcome(0, 0);
    while rounds < limit && message != []
      invariant dialer.Valid() && acceptor.Valid() && rounds <= limit
      invariant IsRun(peers, run) && |run| == rounds + 1
      invariant run[0] == old(Start(peers, dialer.Contents(), acceptor.Contents()))
      invariant StateOf(dialer, acceptor, message, turn) == run[rounds]
      invariant Balanced(message, turn, out, accepted)
    {
      var reply;
      reply, run := PlayRound(peers, dialer, acceptor, message, turn, run);
      out, accepted := Account(message, reply, turn, out, accepted);
      message, turn, rounds := reply, !turn, rounds + 1;
    }
  }

  /**
   The whole exchange. If it goes quiet and no compared fingerprints collided, both stores
   hold the maximal entries of the union; if every entry fits a frame by itself, it goes quiet
   within 9 |union| + 4 rounds; what one side counts as sent the other counts as received; other
   namespaces are untouched.
   */
  method Sync(peers: Peers, dialer: MemoryStore, acceptor: MemoryStore, limit: nat)
    returns (quiet: bool, rounds: nat, out: SyncOutcome, accepted: SyncOutcome, ghost run: seq<State>)
    requires dialer != acceptor && dialer.Valid() && acceptor.Valid()
    modifies dialer, acceptor
    ensures dialer.Valid() && acceptor.Valid() && rounds <= limit && (rounds < limit ==> quiet)
    ensures IsRun(peers, run) && |run| == rounds + 1
    ensures run[0] == old(Start(peers, dialer.Contents(), acceptor.Contents()))
    ensures quiet <==> run[rounds].message == []
    ensures Outcome(peers, old(dialer.Contents()), old(acceptor.Contents()), run,
                    dialer.Contents(), acceptor.Contents(), quiet)
    ensures quiet ==> out.numSent == accepted.numRecv && out.numRecv == accepted.numSent
    ensures Outside(dialer.Contents(), peers.dialer.scope) == old(Outside(dialer.Contents(), peers.dialer.scope))
    ensures Outside(acceptor.Contents(), peers.acceptor.scope) ==
            old(Outside(acceptor.Contents(), peers.acceptor.scope))
  {
    ghost var a, b := dialer.Contents(), acceptor.Contents();
    var message, turn;
    message, turn, rounds, out, accepted, run := Alternate(peers, dialer, acceptor, limit);
    quiet := message == [];
    RunIsConfined(peers, run, rounds);
    RunOutcome(peers, a, b, run, dialer.Contents(), acceptor.Contents(), quiet);
  }
}
