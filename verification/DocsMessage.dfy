/**
 One step of range reconciliation as a function of the store's contents
 (docs/store.go, processMessage): the entries kept and the reply sent.
 */
module DocsMessage {
  import opened Bytes
  import opened DocsEntry
  import opened DocsCrdt
  import opened DocsRange

  /** The namespaces one round may read and accept. */
  datatype Scope = AllNamespaces | InNamespace(id: Bytes32) {

    predicate Admits(e: Entry)
    {
      AllNamespaces? || e.id.namespace == id
    }
  }

  type Fingerprint = Bytes32

  function XorByte(a: Byte, b: Byte): (c: Byte)
  {
    ((a as bv8) ^ (b as bv8)) as Byte
  }

  function Xor(f: Fingerprint, g: Fingerprint): (h: Fingerprint)
  {
    seq(32, i requires 0 <= i < 32 => XorByte(f[i], g[i]))
  }

  /** The entry hash of the fingerprints and the fingerprint of the empty set. */
  datatype Hashing = Hashing(empty: Fingerprint, of: Entry -> Fingerprint)

  datatype SyncConfig = SyncConfig(maxSetSize: int, splitFactor: int) {

    function WithDefaults(): (c: SyncConfig)
    {
      SyncConfig(if maxSetSize == 0 then 1 else maxSetSize, if splitFactor < 2 then 2 else splitFactor)
    }
  }

  datatype Part =
    | RangeFingerprint(range: Range, fingerprint: Fingerprint)
    | RangeItem(range: Range, values: seq<Entry>, haveLocal: bool)

  type Message = seq<Part>

  datatype ContentStatus = ContentComplete | ContentIncomplete | ContentMissing

  /**
   What one side of an exchange is given: scope, configuration, hashing, acceptance, encoded sizes, and the
   peer with the content status it states of each entry.
   */
  datatype Env = Env(scope: Scope, config: SyncConfig, hashing: Hashing, accept: Entry -> bool, size: Part -> nat,
                     peer: Bytes32, statusOf: Entry -> ContentStatus)

  const BUDGET: nat := 16 * 1024 * 1024 - 16

  // ----- reading the store

  function Scoped(s: Store, scope: Scope): (t: Store)
  {
    set e | e in s && scope.Admits(e)
  }

  function InRange(s: Store, scope: Scope, r: Range): (t: Store)
  {
    set e | e in s && scope.Admits(e) && r.Contains(e.id)
  }

  predicate IsLeast(s: Store, e: Entry)
  {
    e in s && forall x :: x in s && x != e ==> Before(e.id, x.id)
  }

  lemma StoreHasOneEntryPerId(s: Store, a: Entry, b: Entry)
    requires a in s && b in s && a.id == b.id
    ensures a == b
  {
    RecordOrder(a.record, b.record, b.record);
    assert Shadows(a, b) || Shadows(b, a);
  }

  lemma {:induction false} LeastExists(s: Store)
    requires s != {}
    ensures exists e :: IsLeast(s, e)
    decreases |s|
  {
    var x :| x in s;
    var rest := s - {x};
    assert s == rest + {x};
    if rest == {} {
      assert IsLeast(s, x);
    } else {
      LeastExists(rest);
      var y :| IsLeast(rest, y);
      IdentifierOrderAll();
      if x.id == y.id { StoreHasOneEntryPerId(s, x, y); }
      if Before(x.id, y.id) {
        assert IsLeast(s, x);
      } else {
        assert IsLeast(s, y);
      }
    }
  }

  /** The entries in document order. */
  ghost function Sorted(s: Store): (entries: seq<Entry>)
    ensures SortedById(entries) && |entries| == |s|
    ensures forall e :: e in entries <==> e in s
    decreases |s|
  {
    if s == {} then [] else
      LeastExists(s);
      var e :| IsLeast(s, e);
      var rest := Sorted(s - {e});
      LeastFirst(s, e, rest);
      [e] + rest
  }

  lemma LeastFirst(s: Store, e: Entry, rest: seq<Entry>)
    requires IsLeast(s, e) && SortedById(rest) && (forall x :: x in rest <==> x in s - {e})
    ensures SortedById([e] + rest) && forall x :: x in [e] + rest <==> x in s
  {
    forall i | 0 <= i < |rest|
      ensures Before(e.id, rest[i].id)
    {
      assert rest[i] in rest;
      assert rest[i] in s - {e};
    }
  }

  lemma SortedTail(entries: seq<Entry>, x: Entry)
    requires SortedById(entries) && entries != []
    ensures x in entries[1..] <==> x in entries && x != entries[0]
  {
    IdentifierOrder(entries[0].id, entries[0].id, entries[0].id);
    assert entries == [entries[0]] + entries[1..];
    if x in entries[1..] {
      var i :| 1 <= i < |entries| && entries[i] == x;
      assert Before(entries[0].id, entries[i].id);
    }
  }

  lemma {:induction false} SortedListsAgree(a: seq<Entry>, b: seq<Entry>)
    requires SortedById(a) && SortedById(b)
    requires forall e :: e in a <==> e in b
    ensures a == b
  {
    if b != [] {
      assert b[0] in a;
    }
    if a != [] {
      assert a[0] in b && b[0] in a;
      IdentifierOrder(a[0].id, b[0].id, a[0].id);
      assert a[0] == b[0];
      forall e ensures e in a[1..] <==> e in b[1..] { SortedTail(a, e); SortedTail(b, e); }
      SortedListsAgree(a[1..], b[1..]);
      assert a == [a[0]] + a[1..] && b == [b[0]] + b[1..];
    }
  }

  /** There is only one way to list a store in order. */
  lemma SortedIsUnique(s: Store, entries: seq<Entry>)
    requires SortedById(entries)
    requires forall e :: e in entries <==> e in s
    ensures entries == Sorted(s)
  {
    SortedListsAgree(entries, Sorted(s));
  }

  function XorAll(h: Hashing, entries: seq<Entry>): (f: Fingerprint)
  {
    if entries == [] then h.empty else Xor(XorAll(h, entries[..|entries| - 1]), h.of(entries[|entries| - 1]))
  }

  ghost function FingerprintOf(h: Hashing, s: Store): (f: Fingerprint)
  {
    XorAll(h, Sorted(s))
  }

  ghost function LocalFingerprint(env: Env, s: Store, r: Range): (f: Fingerprint)
  {
    FingerprintOf(env.hashing, InRange(s, env.scope, r))
  }

  ghost function LocalEntries(env: Env, s: Store, r: Range): (entries: seq<Entry>)
  {
    Sorted(InRange(s, env.scope, r))
  }

  // ----- processing a message

  predicate PeerHasNewerValue(values: seq<Entry>, e: Entry)
  {
    exists v :: v in values && v.id.CompareTo(e.id) == 0 && v.record.CompareTo(e.record) >= 0
  }

  function Unheld(values: seq<Entry>, entries: seq<Entry>): (diff: seq<Entry>)
  {
    if entries == [] then []
    else
      var last := entries[|entries| - 1];
      Unheld(values, entries[..|entries| - 1]) + if PeerHasNewerValue(values, last) then [] else [last]
  }

  function Accepted(env: Env, values: seq<Entry>): (accepted: seq<Entry>)
  {
    if values == [] then []
    else
      var last := values[|values| - 1];
      Accepted(env, values[..|values| - 1]) + if env.scope.Admits(last) && env.accept(last) then [last] else []
  }

  ghost function ReplyToItem(env: Env, s: Store, item: Part): (reply: seq<Part>)
    requires item.RangeItem?
  {
    var diff := if item.haveLocal then [] else Unheld(item.values, LocalEntries(env, s, item.range));
    if diff == [] then [] else [RangeItem(item.range, diff, true)]
  }

  /** The store after the items of a message. */
  function AfterItems(env: Env, s: Store, message: Message): (t: Store)
  {
    if message == [] then s
    else
      var t := AfterItems(env, s, message[..|message| - 1]);
      match message[|message| - 1]
      case RangeItem(_, values, _) => InsertAll(t, Accepted(env, values))
      case RangeFingerprint(_, _) => t
  }

  lemma AfterItemsStep(env: Env, s: Store, items: Message, last: Part)
    ensures AfterItems(env, s, items + [last]) ==
            if last.RangeItem? then InsertAll(AfterItems(env, s, items), Accepted(env, last.values))
            else AfterItems(env, s, items)
  {
    assert (items + [last])[..|items|] == items;
  }

  /** The replies to the items, each computed before its own values are stored. */
  ghost function ItemReplies(env: Env, s: Store, message: Message): (reply: seq<Part>)
  {
    if message == [] then []
    else
      var init, last := message[..|message| - 1], message[|message| - 1];
      ItemReplies(env, s, init) +
      if last.RangeItem? then ReplyToItem(env, AfterItems(env, s, init), last) else []
  }

  lemma ItemRepliesStep(env: Env, s: Store, items: Message, last: Part)
    ensures ItemReplies(env, s, items + [last]) ==
            ItemReplies(env, s, items) +
            if last.RangeItem? then ReplyToItem(env, AfterItems(env, s, items), last) else []
  {
    assert (items + [last])[..|items|] == items;
  }

  ghost function Summary(env: Env, s: Store, r: Range): (part: Part)
  {
    RangeFingerprint(r, LocalFingerprint(env, s, r))
  }

  ghost function Describe(env: Env, s: Store, r: Range): (part: Part)
  {
    var chunk := LocalEntries(env, s, r);
    if |chunk| > env.config.WithDefaults().maxSetSize then Summary(env, s, r) else RangeItem(r, chunk, false)
  }

  ghost function DescribeAll(env: Env, s: Store, ranges: seq<Range>): (parts: seq<Part>)
  {
    if ranges == [] then []
    else DescribeAll(env, s, ranges[..|ranges| - 1]) + [Describe(env, s, ranges[|ranges| - 1])]
  }

  ghost function ReplyToFingerprint(env: Env, s: Store, remote: Part): (reply: seq<Part>)
    requires remote.RangeFingerprint?
  {
    var r := remote.range;
    var entries := LocalEntries(env, s, r);
    if LocalFingerprint(env, s, r) == remote.fingerprint then []
    else if |entries| <= 1 || remote.fingerprint == env.hashing.empty then [RangeItem(r, entries, false)]
    else DescribeAll(env, s, SplitRange(entries, r, env.config.WithDefaults().splitFactor))
  }

  ghost function FingerprintReplies(env: Env, s: Store, message: Message): (reply: seq<Part>)
  {
    if message == [] then []
    else
      var last := message[|message| - 1];
      FingerprintReplies(env, s, message[..|message| - 1]) +
      if last.RangeFingerprint? then ReplyToFingerprint(env, s, last) else []
  }

  /** The reply before it is cut to one frame. */
  ghost function Answer(env: Env, s: Store, message: Message): (parts: seq<Part>)
  {
    ItemReplies(env, s, message) + FingerprintReplies(env, AfterItems(env, s, message), message)
  }

  // ----- fitting a reply into one frame (boundedMessage)

  ghost function SummarizeAll(env: Env, s: Store, ranges: seq<Range>): (parts: seq<Part>)
  {
    if ranges == [] then []
    else SummarizeAll(env, s, ranges[..|ranges| - 1]) + [Summary(env, s, ranges[|ranges| - 1])]
  }

  predicate Oversized(env: Env, p: Part)
  {
    env.size(p) > BUDGET && p.RangeItem? && |p.values| >= 2
  }

  ghost function SplitOversized(env: Env, s: Store, parts: seq<Part>): (split: seq<Part>)
  {
    if parts == [] then []
    else
      var last := parts[|parts| - 1];
      SplitOversized(env, s, parts[..|parts| - 1]) +
      if Oversized(env, last)
      then SummarizeAll(env, s, SplitRange(LocalEntries(env, s, last.range), last.range, 2))
      else [last]
  }

  function TotalSize(env: Env, parts: seq<Part>): (n: nat)
  {
    if parts == [] then 0 else TotalSize(env, parts[..|parts| - 1]) + env.size(parts[|parts| - 1])
  }

  ghost function SummarizeOverflow(env: Env, s: Store, parts: seq<Part>): (fitted: seq<Part>)
  {
    if parts == [] then []
    else
      var init, last := SummarizeOverflow(env, s, parts[..|parts| - 1]), parts[|parts| - 1];
      init + [if TotalSize(env, init) + env.size(last) > BUDGET && last.RangeItem?
              then Summary(env, s, last.range) else last]
  }

  /** One more part, given what the parts before it were cut to. */
  lemma OverflowStep(env: Env, s: Store, parts: seq<Part>, i: nat, fitted: seq<Part>)
    requires i < |parts| && fitted == SummarizeOverflow(env, s, parts[..i])
    ensures SummarizeOverflow(env, s, parts[..i + 1]) ==
            fitted + [if TotalSize(env, fitted) + env.size(parts[i]) > BUDGET && parts[i].RangeItem?
                      then Summary(env, s, parts[i].range) else parts[i]]
  {
    assert parts[..i + 1][..i] == parts[..i];
  }

  lemma TotalSizeStep(env: Env, parts: seq<Part>, part: Part)
    ensures TotalSize(env, parts + [part]) == TotalSize(env, parts) + env.size(part)
  {
    assert (parts + [part])[..|parts|] == parts;
  }

  ghost function Bounded(env: Env, s: Store, parts: seq<Part>): (fitted: seq<Part>)
  {
    SummarizeOverflow(env, s, SplitOversized(env, s, parts))
  }

  /** The reply to a message; an empty reply ends the exchange. */
  ghost function Reply(env: Env, s: Store, message: Message): (reply: Message)
  {
    Bounded(env, AfterItems(env, s, message), Answer(env, s, message))
  }

  function ZeroId(): (id: RecordIdentifier)
  {
    RecordIdentifier(seq(32, _ => 0), seq(32, _ => 0), [])
  }

  ghost function InitialMessage(env: Env, s: Store): (message: Message)
  {
    var entries := Sorted(Scoped(s, env.scope));
    var first := if entries == [] then ZeroId() else entries[0].id;
    [RangeFingerprint(Range(first, first), FingerprintOf(env.hashing, Scoped(s, env.scope)))]
  }
}
