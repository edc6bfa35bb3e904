/** The in-memory document store (docs/store.go) and the sync loop over it (docs/net.go). */
module DocsStore {
  import opened Bytes
  import opened DocsEntry
  import opened DocsCrdt
  import opened DocsRange
  import opened DocsMessage

  datatype OriginKind = InsertLocal | InsertRemote

  /** Where an entry came from. */
  datatype Origin = Origin(kind: OriginKind, from: Bytes32, status: ContentStatus)

  lemma BeforeTheRest(sorted: seq<Entry>, e: Entry)
    requires SortedById(sorted)
    requires forall x :: x in sorted ==> x.id != e.id
    ensures forall j :: FirstAtLeast(sorted, e.id) <= j < |sorted| ==> Before(e.id, sorted[j].id)
  {
    var k := FirstAtLeast(sorted, e.id);
    forall j | k <= j < |sorted|
      ensures Before(e.id, sorted[j].id)
    {
      BeforeLater(e.id, sorted[k].id, sorted[j].id, j == k);
    }
  }

  lemma BeforeLater(a: RecordIdentifier, b: RecordIdentifier, c: RecordIdentifier, same: bool)
    requires !Before(b, a) && a != b && (if same then c == b else Before(b, c))
    ensures Before(a, c)
  {
    IdentifierOrder(a, b, c);
    IdentifierOrder(a, c, b);
  }

  lemma SortedInsertion(a: seq<Entry>, e: Entry, b: seq<Entry>)
    requires SortedById(a + b)
    requires forall x :: x in a ==> Before(x.id, e.id)
    requires forall x :: x in b ==> Before(e.id, x.id)
    ensures SortedById(a + [e] + b)
  {
    var t := a + [e] + b;
    forall i, j | 0 <= i < j < |t|
      ensures Before(t[i].id, t[j].id)
    {
      if i == |a| {
        assert t[j] in b;
      } else if j == |a| {
        assert t[i] in a;
      } else {
        assert t[i] == (a + b)[if i < |a| then i else i - 1];
        assert t[j] == (a + b)[if j < |a| then j else j - 1];
      }
    }
  }

  lemma ValuesAfterUpdate<K, V>(m: map<K, V>, k: K, v: V)
    requires k !in m
    ensures m[k := v].Values == m.Values + {v}
  {
    forall x | x in m.Values
      ensures x in m[k := v].Values
    {
      var j :| j in m && m[j] == x;
      assert m[k := v][j] == x;
    }
    assert m[k := v][k] == v;
  }

  predicate DistinctIds(found: seq<Entry>)
  {
    forall i, j :: 0 <= i < j < |found| ==> found[i].id != found[j].id
  }

  /** The order slices.SortFunc establishes; the identifiers of a store are distinct. */
  method SortEntries(found: seq<Entry>) returns (sorted: seq<Entry>)
    requires DistinctIds(found)
    ensures SortedById(sorted)
    ensures forall e :: e in sorted <==> e in found
  {
    sorted := [];
    for i := 0 to |found|
      invariant SortedById(sorted)
      invariant forall e :: e in sorted <==> e in found[..i]
    {
      var e := found[i];
      var k := FirstAtLeast(sorted, e.id);
      assert forall x :: x in found[..i] ==> x.id != e.id;
      BeforeTheRest(sorted, e);
      assert sorted == sorted[..k] + sorted[k..];
      SortedInsertion(sorted[..k], e, sorted[k..]);
      sorted := sorted[..k] + [e] + sorted[k..];
      assert found[..i + 1] == found[..i] + [e];
    }
    assert found[..|found|] == found;
  }

  /** Assigns f the bytewise xor of f and other. */
  method XorInPlace(f: array<Byte>, other: Fingerprint)
    requires f.Length == 32
    modifies f
    ensures f[..] == Xor(old(f[..]), other)
  {
    for i := 0 to 32
      invariant forall k :: 0 <= k < i ==> f[k] == XorByte(old(f[k]), other[k])
      invariant forall k :: i <= k < 32 ==> f[k] == old(f[k])
    {
      f[i] := XorByte(f[i], other[i]);
    }
  }

  method XorEntries(h: Hashing, list: seq<Entry>) returns (f: Fingerprint)
    ensures f == XorAll(h, list)
  {
    var acc := new Byte[32](i requires 0 <= i < 32 => h.empty[i]);
    assert acc[..] == h.empty;
    for i := 0 to |list|
      invariant acc[..] == XorAll(h, list[..i])
    {
      assert list[..i + 1][..i] == list[..i];
      XorInPlace(acc, h.of(list[i]));
    }
    assert list[..|list|] == list;
    f := acc[..];
  }

  class MemoryStore {
    var entries: map<seq<Byte>, Entry>
    var origins: map<seq<Byte>, Origin>

    /** Keys are the wire form of the identifiers, and no entry shadows another. */
    ghost predicate Valid()
      reads this
    {
      && (forall k :: k in entries ==> k == entries[k].id.Bytes())
      && Antichain(entries.Values)
      && origins.Keys <= entries.Keys
    }

    ghost function Contents(): (s: Store)
      reads this
      requires Valid()
    {
      entries.Values
    }

    constructor ()
      ensures Valid() && Contents() == {}
    {
      entries := map[];
      origins := map[];
    }

    /** Last-writer-wins insertion: the contents become exactly Insert of the contents before. */
    method PutEntry(entry: Entry, origin: Origin, notify: bool) returns (inserted: bool, removed: nat)
      requires Valid()
      modifies this
      ensures Valid()
      ensures Contents() == Insert(old(Contents()), entry)
      ensures inserted == !Shadowed(old(Contents()), entry)
      ensures |entries| == |old(entries)| + (if inserted then 1 else 0) - removed
      ensures !inserted ==> entries == old(entries) && origins == old(origins)
      ensures forall k :: k != entry.id.Bytes() ==>
                && (k in origins <==> k in old(origins) && k in entries)
                && (k in origins ==> origins[k] == old(origins)[k])
      ensures inserted ==> (entry.id.Bytes() in origins <==> notify)
      ensures inserted && notify ==> origins[entry.id.Bytes()] == origin
    {
      var shadowed := IsShadowed(entry);
      if shadowed {
        return false, 0;
      }
      inserted := true;
      removed := RemoveShadowed(entry);
      StoreEntry(entry, origin, notify);
    }

    /** The ancestor check of PutEntry. */
    method IsShadowed(entry: Entry) returns (shadowed: bool)
      requires Valid()
      ensures shadowed == Shadowed(Contents(), entry)
    {
      var todo := entries.Keys;
      while todo != {}
        invariant todo <= entries.Keys
        invariant forall k :: k in entries && k !in todo ==> !Shadows(entries[k], entry)
        decreases |todo|
      {
        var k :| k in todo;
        if Shadows(entries[k], entry) {
          assert entries[k] in Contents();
          return true;
        }
        todo := todo - {k};
      }
      return false;
    }

    /** The final stores of PutEntry, once nothing shadows the entry or is shadowed by it. */
    method StoreEntry(entry: Entry, origin: Origin, notify: bool)
      requires Valid() && !Shadowed(Contents(), entry)
      requires forall x :: x in Contents() ==> !Shadows(entry, x)
      modifies this
      ensures Valid() && Contents() == old(Contents()) + {entry}
      ensures |entries| == |old(entries)| + 1
      ensures entries.Keys == old(entries).Keys + {entry.id.Bytes()}
      ensures origins == if notify then old(origins)[entry.id.Bytes() := origin] else old(origins) - {entry.id.Bytes()}
    {
      var key := entry.id.Bytes();
      KeyIsFree(entry);
      ValuesAfterUpdate(entries, key, entry);
      assert Insert(Contents(), entry) == Contents() + {entry};
      entries := entries[key := entry];
      origins := if notify then origins[key := origin] else origins - {key};
    }

    /** An entry with the same identifier would shadow or be shadowed. */
    lemma KeyIsFree(entry: Entry)
      requires Valid() && !Shadowed(Contents(), entry)
      requires forall x :: x in Contents() ==> !Shadows(entry, x)
      ensures entry.id.Bytes() !in entries
    {
      var key := entry.id.Bytes();
      if key in entries {
        var held := entries[key];
        assert held in Contents();
        BytesInjective(held.id, entry.id);
        RecordOrder(held.record, entry.record, entry.record);
        assert false;
      }
    }

    /** The deletion loop of PutEntry; Go allows deleting while ranging over a map. */
    method RemoveShadowed(entry: Entry) returns (removed: nat)
      requires Valid()
      modifies this
      ensures forall k :: k in entries <==> k in old(entries) && !Shadows(entry, old(entries)[k])
      ensures forall k :: k in entries ==> entries[k] == old(entries)[k]
      ensures forall k :: k in origins <==> k in old(origins) && k in entries
      ensures forall k :: k in origins ==> origins[k] == old(origins)[k]
      ensures |entries| + removed == |old(entries)|
      ensures Valid()
      ensures Contents() == (set x | x in old(Contents()) && !Shadows(entry, x))
    {
      removed := 0;
      var todo := entries.Keys;
      while todo != {}
        invariant todo <= old(entries).Keys
        invariant forall k :: k in entries <==> k in old(entries) && (k in todo || !Shadows(entry, old(entries)[k]))
        invariant forall k :: k in entries ==> entries[k] == old(entries)[k]
        invariant forall k :: k in origins <==> k in old(origins) && k in entries
        invariant forall k :: k in origins ==> origins[k] == old(origins)[k]
        invariant |entries| + removed == |old(entries)|
        decreases |todo|
      {
        var k :| k in todo;
        assert k in entries;
        if Shadows(entry, entries[k]) {
          entries := entries - {k};
          origins := origins - {k};
          removed := removed + 1;
        }
        todo := todo - {k};
      }
      forall x | x in old(entries).Values && !Shadows(entry, x)
        ensures x in entries.Values
      {
        var k :| k in old(entries) && old(entries)[k] == x;
        assert entries[k] == x;
      }
    }

    predicate Wanted(scope: Scope, r: Range, e: Entry)
    {
      scope.Admits(e) && r.Contains(e.id)
    }

    /** The map scan of ScopeRange, in any order. */
    method Collect(scope: Scope, r: Range) returns (found: seq<Entry>)
      requires Valid()
      ensures forall e :: e in found <==> e in InRange(Contents(), scope, r)
      ensures DistinctIds(found)
    {
      found := [];
      var todo := entries.Keys;
      while todo != {}
        invariant todo <= entries.Keys
        invariant forall e :: e in found ==> e in Contents() && Wanted(scope, r, e) && e.id.Bytes() !in todo
        invariant forall k :: k in entries && k !in todo && Wanted(scope, r, entries[k]) ==> entries[k] in found
        invariant DistinctIds(found)
        decreases |todo|
      {
        var k :| k in todo;
        var e := entries[k];
        if Wanted(scope, r, e) {
          assert forall x :: x in found ==> x.id != e.id;
          found := found + [e];
        }
        todo := todo - {k};
      }
    }

    /** The entries of scope in r, in document order. */
    method ScopeRange(scope: Scope, r: Range) returns (result: seq<Entry>)
      requires Valid()
      ensures result == Sorted(InRange(Contents(), scope, r))
    {
      var found := Collect(scope, r);
      result := SortEntries(found);
      SortedIsUnique(InRange(Contents(), scope, r), result);
    }

    method ScopeFingerprint(env: Env, r: Range) returns (f: Fingerprint)
      requires Valid()
      ensures f == LocalFingerprint(env, Contents(), r)
    {
      var list := ScopeRange(env.scope, r);
      f := XorEntries(env.hashing, list);
    }

    method InitialMessage(env: Env) returns (message: Message)
      requires Valid()
      ensures message == DocsMessage.InitialMessage(env, Contents())
    {
      var zero := ZeroId();
      var everything := Range(zero, zero);
      IdentifierOrder(zero, zero, zero);
      assert InRange(Contents(), env.scope, everything) == Scoped(Contents(), env.scope);
      var list := ScopeRange(env.scope, everything);
      var f := ScopeFingerprint(env, everything);
      var first := if list == [] then zero else list[0].id;
      message := [RangeFingerprint(Range(first, first), f)];
    }

    /** The source's pivot loops, equal to the ranges between the split points. */
    method SplitRange(scope: Scope, r: Range, splitFactor: int) returns (ranges: seq<Range>)
      requires Valid()
      ensures ranges == DocsRange.SplitRange(Sorted(InRange(Contents(), scope, r)), r, splitFactor)
    {
      var factor := if splitFactor < 2 then 2 else splitFactor;
      var list := ScopeRange(scope, r);
      if list == [] {
        return [];
      }
      var start := FindStart(list, r);
      if r.IsAll() {
        ranges := CycleRanges(list, r, start, factor);
      } else {
        ranges := ChainRanges(list, r, start, factor);
      }
    }

    method FindStart(list: seq<Entry>, r: Range) returns (start: nat)
      requires list != []
      ensures start == SplitStart(list, r)
    {
      start := 0;
      while start < |list| && list[start].id.CompareTo(r.start) < 0
        invariant start <= |list|
        invariant FirstAtLeast(list, r.start) == start + FirstAtLeast(list[start..], r.start)
      {
        start := start + 1;
      }
      if start == |list| {
        start := 0;
      }
    }

    /** The branch of SplitRange for the whole set: every pivot to the next, around the circle. */
    method CycleRanges(list: seq<Entry>, r: Range, start: nat, factor: nat) returns (ranges: seq<Range>)
      requires list != [] && factor >= 2 && start == SplitStart(list, r) && r.IsAll()
      ensures ranges == RangesBetween(SplitPoints(list, r, factor))
    {
      ghost var points := SplitPoints(list, r, factor);
      ranges := [];
      for i := 0 to factor
        invariant |points| == factor + 1
        invariant ranges == RangesBetween(points[..i + 1])
      {
        PivotIsCut(list, r, factor, i);
        PivotIsCut(list, r, factor, i + 1);
        var x, y := Pivot(list, start, factor, i), Pivot(list, start, factor, i + 1);
        BetweenStep(points, i + 1);
        if x.CompareTo(y) != 0 {
          ranges := ranges + [Range(x, y)];
        }
      }
      assert points[..factor + 1] == points;
    }

    /** One more range, unless it is empty. */
    method AppendPiece(ranges: seq<Range>, x: RecordIdentifier, y: RecordIdentifier,
                       ghost points: seq<RecordIdentifier>, ghost n: nat)
      returns (more: seq<Range>)
      requires 1 <= n < |points| && x == points[n - 1] && y == points[n]
      requires NonEmpty(ranges) == RangesBetween(points[..n])
      ensures NonEmpty(more) == RangesBetween(points[..n + 1])
    {
      BetweenStep(points, n);
      NonEmptyStep(ranges, Range(x, y));
      more := if x.CompareTo(y) != 0 then ranges + [Range(x, y)] else ranges;
    }

    /** The branch of SplitRange for a proper range: start to the first pivot, on to the end. */
    method ChainRanges(list: seq<Entry>, r: Range, start: nat, factor: nat) returns (ranges: seq<Range>)
      requires list != [] && factor >= 2 && start == SplitStart(list, r) && !r.IsAll()
      ensures ranges == RangesBetween(SplitPoints(list, r, factor))
    {
      ghost var points := SplitPoints(list, r, factor);
      PivotIsPoint(list, r, factor, 0);
      ranges := [Range(r.start, Pivot(list, start, factor, 0))];
      FirstBetween(points, ranges[0]);
      for i := 0 to factor - 2
        invariant NonEmpty(ranges) == RangesBetween(points[..i + 2])
      {
        PivotIsPoint(list, r, factor, i);
        PivotIsPoint(list, r, factor, i + 1);
        ranges := AppendPiece(ranges, Pivot(list, start, factor, i), Pivot(list, start, factor, i + 1), points, i + 2);
      }
      PivotIsPoint(list, r, factor, factor - 2);
      BetweenStep(points, factor);
      assert points[..factor + 1] == points;
      var last := Range(Pivot(list, start, factor, factor - 2), r.end);
      NonEmptyStep(ranges, last);
      ranges := ranges + [last];
      ranges := NonEmptyRanges(ranges);
    }

    /** The entries that the peer did not list at least as new. */
    method Diff(values: seq<Entry>, list: seq<Entry>) returns (diff: seq<Entry>)
      ensures diff == Unheld(values, list)
    {
      diff := [];
      for i := 0 to |list|
        invariant diff == Unheld(values, list[..i])
      {
        assert list[..i + 1][..i] == list[..i];
        if !PeerHasNewerValue(values, list[i]) {
          diff := diff + [list[i]];
        }
      }
      assert list[..|list|] == list;
    }

    method PutValues(env: Env, values: seq<Entry>)
      requires Valid()
      modifies this
      ensures Valid() && Contents() == InsertAll(old(Contents()), Accepted(env, values))
    {
      ghost var taken: seq<Entry> := [];
      for i := 0 to |values|
        invariant Valid()
        invariant taken == Accepted(env, values[..i])
        invariant Contents() == InsertAll(old(Contents()), taken)
      {
        assert values[..i + 1][..i] == values[..i];
        if env.scope.Admits(values[i]) && env.accept(values[i]) {
          var _, _ := PutEntry(values[i], Origin(InsertRemote, env.peer, env.statusOf(values[i])), true);
          assert (taken + [values[i]])[..|taken|] == taken;
          taken := taken + [values[i]];
        }
      }
      assert values[..|values|] == values;
    }

    /** One item: the difference is taken first, then the values are stored. */
    method ProcessItem(env: Env, item: Part) returns (reply: seq<Part>)
      requires Valid() && item.RangeItem?
      modifies this
      ensures Valid() && Contents() == InsertAll(old(Contents()), Accepted(env, item.values))
      ensures reply == ReplyToItem(env, old(Contents()), item)
    {
      var diff: seq<Entry> := [];
      if !item.haveLocal {
        var list := ScopeRange(env.scope, item.range);
        diff := Diff(item.values, list);
      }
      PutValues(env, item.values);
      reply := if diff == [] then [] else [RangeItem(item.range, diff, true)];
    }

    /** A piece of a split range: a fingerprint, or its entries when they are few. */
    method DescribeRange(env: Env, r: Range) returns (part: Part)
      requires Valid()
      ensures part == Describe(env, Contents(), r)
    {
      var chunk := ScopeRange(env.scope, r);
      if |chunk| > env.config.WithDefaults().maxSetSize {
        var f := ScopeFingerprint(env, r);
        part := RangeFingerprint(r, f);
      } else {
        part := RangeItem(r, chunk, false);
      }
    }

    method DescribeRanges(env: Env, ranges: seq<Range>) returns (parts: seq<Part>)
      requires Valid()
      ensures parts == DescribeAll(env, Contents(), ranges)
    {
      ghost var s := Contents();
      parts := [];
      for i := 0 to |ranges|
        invariant Valid() && Contents() == s
        invariant parts == DescribeAll(env, s, ranges[..i])
      {
        assert ranges[..i + 1][..i] == ranges[..i];
        var part := DescribeRange(env, ranges[i]);
        parts := parts + [part];
      }
      assert ranges[..|ranges|] == ranges;
    }

    method ProcessFingerprint(env: Env, remote: Part) returns (reply: seq<Part>)
      requires Valid() && remote.RangeFingerprint?
      ensures reply == ReplyToFingerprint(env, Contents(), remote)
    {
      ghost var s := Contents();
      var f := ScopeFingerprint(env, remote.range);
      if f == remote.fingerprint {
        return [];
      }
      var list := ScopeRange(env.scope, remote.range);
      if |list| <= 1 || remote.fingerprint == env.hashing.empty {
        return [RangeItem(remote.range, list, false)];
      }
      var ranges := SplitRange(env.scope, remote.range, env.config.WithDefaults().splitFactor);
      reply := DescribeRanges(env, ranges);
    }

    /** The summaries that replace an oversized item. */
    method SummarizeRanges(env: Env, ranges: seq<Range>) returns (parts: seq<Part>)
      requires Valid()
      ensures parts == SummarizeAll(env, Contents(), ranges)
    {
      ghost var s := Contents();
      parts := [];
      for i := 0 to |ranges|
        invariant Valid() && Contents() == s
        invariant parts == SummarizeAll(env, s, ranges[..i])
      {
        assert ranges[..i + 1][..i] == ranges[..i];
        var f := ScopeFingerprint(env, ranges[i]);
        parts := parts + [RangeFingerprint(ranges[i], f)];
      }
      assert ranges[..|ranges|] == ranges;
    }

    /** Replaces what does not fit one frame by fingerprints. */
    method BoundedMessage(env: Env, parts: seq<Part>) returns (fitted: Message)
      requires Valid()
      ensures fitted == Bounded(env, Contents(), parts)
    {
      var split: seq<Part> := [];
      for i := 0 to |parts|
        invariant split == SplitOversized(env, Contents(), parts[..i])
      {
        assert parts[..i + 1][..i] == parts[..i];
        var part := parts[i];
        if env.size(part) <= BUDGET || !part.RangeItem? || |part.values| < 2 {
          split := split + [part];
        } else {
          var ranges := SplitRange(env.scope, part.range, 2);
          var summaries := SummarizeRanges(env, ranges);
          split := split + summaries;
        }
      }
      assert parts[..|parts|] == parts;
      fitted := FitParts(env, split);
    }

    /** The size loop of BoundedMessage. */
    method FitParts(env: Env, split: seq<Part>) returns (fitted: Message)
      requires Valid()
      ensures fitted == SummarizeOverflow(env, Contents(), split)
    {
      fitted := [];
      var size := 0;
      for i := 0 to |split|
        invariant fitted == SummarizeOverflow(env, Contents(), split[..i])
        invariant size == TotalSize(env, fitted)
      {
        OverflowStep(env, Contents(), split, i, fitted);
        var part := FitPart(env, split[i], size);
        TotalSizeStep(env, fitted, part);
        size := size + env.size(part);
        fitted := fitted + [part];
      }
      assert split[..|split|] == split;
    }

    method FitPart(env: Env, part: Part, size: nat) returns (fit: Part)
      requires Valid()
      ensures fit == if size + env.size(part) > BUDGET && part.RangeItem?
                     then Summary(env, Contents(), part.range) else part
    {
      fit := part;
      if size + env.size(part) > BUDGET && part.RangeItem? {
        var f := ScopeFingerprint(env, part.range);
        fit := RangeFingerprint(part.range, f);
      }
    }

    method ProcessItems(env: Env, items: seq<Part>) returns (out: seq<Part>)
      requires Valid() && forall p :: p in items ==> p.RangeItem?
      modifies this
      ensures Valid() && Contents() == AfterItems(env, old(Contents()), items)
      ensures out == ItemReplies(env, old(Contents()), items)
    {
      ghost var s := Contents();
      out := [];
      for i := 0 to |items|
        invariant Valid() && Contents() == AfterItems(env, s, items[..i])
        invariant out == ItemReplies(env, s, items[..i])
      {
        assert items[..i + 1][..i] == items[..i];
        var reply := ProcessItem(env, items[i]);
        out := out + reply;
      }
      assert items[..|items|] == items;
    }

    method ProcessFingerprints(env: Env, parts: seq<Part>) returns (out: seq<Part>)
      requires Valid() && forall p :: p in parts ==> p.RangeFingerprint?
      ensures out == FingerprintReplies(env, Contents(), parts)
    {
      ghost var s := Contents();
      out := [];
      for i := 0 to |parts|
        invariant Valid() && Contents() == s
        invariant out == FingerprintReplies(env, s, parts[..i])
      {
        assert parts[..i + 1][..i] == parts[..i];
        var reply := ProcessFingerprint(env, parts[i]);
        out := out + reply;
      }
      assert parts[..|parts|] == parts;
    }

    /** One step of the protocol: the store and the reply are those of the specification. */
    method ProcessMessage(env: Env, message: Message) returns (reply: Message)
      requires Valid()
      modifies this
      ensures Valid() && Contents() == AfterItems(env, old(Contents()), message)
      ensures reply == Reply(env, old(Contents()), message)
    {
      ItemsSuffice(env, Contents(), message);
      FingerprintsSuffice(env, AfterItems(env, Contents(), message), message);
      var items, fingerprints := SortParts(message);
      var out := ProcessItems(env, items);
      var more := ProcessFingerprints(env, fingerprints);
      reply := BoundedMessage(env, out + more);
    }
  }

  function ItemsOf(message: Message): (items: seq<Part>)
    ensures forall p :: p in items ==> p.RangeItem?
  {
    if message == [] then []
    else
      var last := message[|message| - 1];
      ItemsOf(message[..|message| - 1]) + if last.RangeItem? then [last] else []
  }

  function FingerprintsOf(message: Message): (parts: seq<Part>)
    ensures forall p :: p in parts ==> p.RangeFingerprint?
  {
    if message == [] then []
    else
      var last := message[|message| - 1];
      FingerprintsOf(message[..|message| - 1]) + if last.RangeFingerprint? then [last] else []
  }

  /** Items and fingerprints are processed as two separate lists. */
  method SortParts(message: Message) returns (items: seq<Part>, fingerprints: seq<Part>)
    ensures items == ItemsOf(message) && fingerprints == FingerprintsOf(message)
  {
    items, fingerprints := [], [];
    for i := 0 to |message|
      invariant items == ItemsOf(message[..i]) && fingerprints == FingerprintsOf(message[..i])
    {
      assert message[..i + 1][..i] == message[..i];
      match message[i]
      case RangeItem(_, _, _) => items := items + [message[i]];
      case RangeFingerprint(_, _) => fingerprints := fingerprints + [message[i]];
    }
    assert message[..|message|] == message;
  }

  lemma ItemsSuffice(env: Env, s: Store, message: Message)
    ensures AfterItems(env, s, ItemsOf(message)) == AfterItems(env, s, message)
    ensures ItemReplies(env, s, ItemsOf(message)) == ItemReplies(env, s, message)
  {
    ItemsStore(env, s, message);
    ItemsReply(env, s, message);
  }

  lemma LastItem(message: Message)
    requires message != []
    ensures var init, last := ItemsOf(message[..|message| - 1]), message[|message| - 1];
            ItemsOf(message) == if last.RangeItem? then init + [last] else init
  {
  }

  lemma {:induction false} ItemsStore(env: Env, s: Store, message: Message)
    ensures AfterItems(env, s, ItemsOf(message)) == AfterItems(env, s, message)
    decreases |message|
  {
    if message != [] {
      var init, last := message[..|message| - 1], message[|message| - 1];
      ItemsStore(env, s, init);
      LastItem(message);
      if last.RangeItem? {
        AfterItemsStep(env, s, ItemsOf(init), last);
      }
    }
  }

  lemma {:induction false} ItemsReply(env: Env, s: Store, message: Message)
    ensures ItemReplies(env, s, ItemsOf(message)) == ItemReplies(env, s, message)
    decreases |message|
  {
    if message != [] {
      var init, last := message[..|message| - 1], message[|message| - 1];
      ItemsReply(env, s, init);
      ItemsStore(env, s, init);
      LastItem(message);
      if last.RangeItem? {
        ItemRepliesStep(env, s, ItemsOf(init), last);
      } else {
        assert ItemReplies(env, s, message) == ItemReplies(env, s, init) + [];
      }
    }
  }

  lemma {:induction false} FingerprintsSuffice(env: Env, s: Store, message: Message)
    ensures FingerprintReplies(env, s, FingerprintsOf(message)) == FingerprintReplies(env, s, message)
    decreases |message|
  {
    if message != [] {
      var init, last := message[..|message| - 1], message[|message| - 1];
      var parts := FingerprintsOf(init);
      FingerprintsSuffice(env, s, init);
      if last.RangeFingerprint? {
        assert FingerprintsOf(message) == parts + [last];
        assert (parts + [last])[..|parts|] == parts;
      } else {
        assert FingerprintsOf(message) == parts;
      }
    }
  }

  function NonEmpty(ranges: seq<Range>): (kept: seq<Range>)
  {
    if ranges == [] then []
    else
      var last := ranges[|ranges| - 1];
      NonEmpty(ranges[..|ranges| - 1]) + Piece(last.start, last.end)
  }

  lemma NonEmptyStep(ranges: seq<Range>, r: Range)
    ensures NonEmpty(ranges + [r]) == NonEmpty(ranges) + Piece(r.start, r.end)
    ensures r.start.CompareTo(r.end) == 0 ==> NonEmpty(ranges) + Piece(r.start, r.end) == NonEmpty(ranges)
  {
    assert (ranges + [r])[..|ranges|] == ranges;
  }

  lemma FirstBetween(points: seq<RecordIdentifier>, r: Range)
    requires |points| >= 2 && r == Range(points[0], points[1])
    ensures NonEmpty([r]) == RangesBetween(points[..2])
  {
    NonEmptyStep([], r);
    BetweenStep(points, 1);
    assert [] + [r] == [r];
  }

  /** Off the whole circle, the pivots are the points after the first. */
  lemma PivotIsPoint(list: seq<Entry>, r: Range, factor: nat, i: nat)
    requires list != [] && factor >= 2 && i <= factor - 2 && !r.IsAll()
    ensures var points := SplitPoints(list, r, factor);
            && |points| == factor + 1 && points[0] == r.start && points[factor] == r.end
            && Pivot(list, SplitStart(list, r), factor, i) == points[i + 1]
  {
    PivotIsCut(list, r, factor, i);
  }

  lemma BetweenStep(points: seq<RecordIdentifier>, n: nat)
    requires 1 <= n < |points|
    ensures RangesBetween(points[..n + 1]) == RangesBetween(points[..n]) + Piece(points[n - 1], points[n])
  {
    assert points[..n + 1][..n] == points[..n];
  }

  method NonEmptyRanges(ranges: seq<Range>) returns (kept: seq<Range>)
    ensures kept == NonEmpty(ranges)
  {
    kept := [];
    for i := 0 to |ranges|
      invariant kept == NonEmpty(ranges[..i])
    {
      assert ranges[..i + 1][..i] == ranges[..i];
      if ranges[i].start.CompareTo(ranges[i].end) != 0 {
        kept := kept + [ranges[i]];
      }
    }
    assert ranges[..|ranges|] == ranges;
  }
}
