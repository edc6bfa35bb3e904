/**
 Wraparound identifier ranges (docs/ranger.go) and how a range is split around
 local entries (MemoryStore.splitRange in docs/store.go).
 */
module DocsRange {
  import opened Arith
  import opened DocsEntry

  datatype Range = Range(start: RecordIdentifier, end: RecordIdentifier) {

    predicate IsAll()
    {
      start.CompareTo(end) == 0
    }

    predicate Contains(id: RecordIdentifier)
    {
      var c := start.CompareTo(end);
      if c == 0 then true
      else if c < 0 then start.CompareTo(id) <= 0 && id.CompareTo(end) < 0
      else start.CompareTo(id) <= 0 || id.CompareTo(end) < 0
    }
  }

  /** x comes before y when the identifier circle is read from base. */
  predicate CircleBefore(base: RecordIdentifier, x: RecordIdentifier, y: RecordIdentifier)
  {
    if Before(x, base) == Before(y, base) then Before(x, y) else Before(y, base)
  }

  lemma CircleOrder(base: RecordIdentifier)
    ensures forall a, b :: CircleBefore(base, a, b) <==> !CircleBefore(base, b, a) && a != b
    ensures forall a, b, c :: CircleBefore(base, a, b) && CircleBefore(base, b, c) ==> CircleBefore(base, a, c)
    ensures forall a :: !CircleBefore(base, a, base)
  {
    IdentifierOrderAll();
  }

  /** Any range, read from any base, is an interval of the circle or the complement of one. */
  lemma RangeOnCircle(base: RecordIdentifier, r: Range, z: RecordIdentifier)
    requires r.start != r.end
    ensures r.Contains(z) <==>
            if CircleBefore(base, r.start, r.end)
            then !CircleBefore(base, z, r.start) && CircleBefore(base, z, r.end)
            else !CircleBefore(base, z, r.start) || CircleBefore(base, z, r.end)
  {
    IdentifierOrder(r.start, r.end, z);
    IdentifierOrder(r.start, z, r.end);
    IdentifierOrder(z, r.end, r.end);
    IdentifierOrderAll();
  }

  // ----- splitting

  predicate SortedById(entries: seq<Entry>)
  {
    forall i, j :: 0 <= i < j < |entries| ==> Before(entries[i].id, entries[j].id)
  }

  /** The first index whose identifier is at least id, or |entries|. */
  function FirstAtLeast(entries: seq<Entry>, id: RecordIdentifier): (i: nat)
    ensures i <= |entries|
    ensures forall j :: 0 <= j < i ==> Before(entries[j].id, id)
    ensures i < |entries| ==> !Before(entries[i].id, id)
  {
    if entries == [] || entries[0].id.CompareTo(id) >= 0 then 0 else 1 + FirstAtLeast(entries[1..], id)
  }

  function SplitStart(entries: seq<Entry>, r: Range): (from: nat)
    requires entries != []
    ensures from < |entries|
  {
    var i := FirstAtLeast(entries, r.start);
    if i == |entries| then 0 else i
  }

  /** The local entries, rotated to start at r.start. */
  function Rotation(entries: seq<Entry>, r: Range): (rot: seq<Entry>)
    requires entries != []
    ensures |rot| == |entries|
    ensures forall e :: e in rot <==> e in entries
  {
    var from := SplitStart(entries, r);
    assert entries == entries[..from] + entries[from..];
    entries[from..] + entries[..from]
  }

  function Offset(n: nat, factor: nat, i: nat): (o: nat)
    requires factor > 0
  {
    (n * (i % factor + 1)) / factor
  }

  /** Where n entries are cut into factor parts. */
  function Cuts(n: nat, factor: nat): (cuts: seq<nat>)
    requires factor >= 2
  {
    seq(factor - 1, i requires 0 <= i => Offset(n, factor, i))
  }

  predicate CutsInOrder(cuts: seq<nat>, n: nat)
  {
    && cuts != []
    && (forall i :: 0 <= i < |cuts| ==> cuts[i] < n)
    && (forall i, j :: 0 <= i < j < |cuts| ==> cuts[i] <= cuts[j])
  }

  function IdsAt(rot: seq<Entry>, cuts: seq<nat>): (ids: seq<RecordIdentifier>)
    requires CutsInOrder(cuts, |rot|)
  {
    seq(|cuts|, i requires 0 <= i < |cuts| => rot[cuts[i]].id)
  }

  /** The boundaries of the pieces, in circle order from r.start, ends included. */
  function PointsOf(rot: seq<Entry>, cuts: seq<nat>, r: Range): (points: seq<RecordIdentifier>)
    requires CutsInOrder(cuts, |rot|)
    ensures |points| == |cuts| + 2
  {
    assert cuts[0] < |rot|;
    if r.IsAll() then IdsAt(rot, cuts) + [rot[0].id, rot[cuts[0]].id]
    else [r.start] + IdsAt(rot, cuts) + [r.end]
  }

  function SplitPoints(entries: seq<Entry>, r: Range, factor: nat): (points: seq<RecordIdentifier>)
    requires entries != [] && factor >= 2
  {
    CutsAreInOrder(|entries|, factor);
    PointsOf(Rotation(entries, r), Cuts(|entries|, factor), r)
  }

  function Piece(x: RecordIdentifier, y: RecordIdentifier): (ranges: seq<Range>)
  {
    if x.CompareTo(y) != 0 then [Range(x, y)] else []
  }

  function RangesBetween(points: seq<RecordIdentifier>): (ranges: seq<Range>)
  {
    if |points| < 2 then []
    else RangesBetween(points[..|points| - 1]) + Piece(points[|points| - 2], points[|points| - 1])
  }

  function SplitRange(entries: seq<Entry>, r: Range, factor: int): (ranges: seq<Range>)
  {
    if entries == [] then [] else RangesBetween(SplitPoints(entries, r, if factor < 2 then 2 else factor))
  }

  /** How many of the ranges contain id. */
  function Hits(ranges: seq<Range>, id: RecordIdentifier): (n: nat)
  {
    if ranges == [] then 0
    else Hits(ranges[..|ranges| - 1], id) + if ranges[|ranges| - 1].Contains(id) then 1 else 0
  }

  function Indicator(b: bool): nat { if b then 1 else 0 }

  lemma HitsPiece(ranges: seq<Range>, x: RecordIdentifier, y: RecordIdentifier, id: RecordIdentifier)
    ensures Hits(ranges + Piece(x, y), id) == Hits(ranges, id) + Indicator(x != y && Range(x, y).Contains(id))
  {
    IdentifierOrder(x, y, y);
    if x == y {
      assert ranges + Piece(x, y) == ranges;
    } else {
      assert (ranges + [Range(x, y)])[..|ranges|] == ranges;
    }
  }

  lemma PieceExtends(base: RecordIdentifier, a: RecordIdentifier, x: RecordIdentifier, y: RecordIdentifier,
                     id: RecordIdentifier)
    requires !CircleBefore(base, x, a) && !CircleBefore(base, y, x)
    ensures Indicator(!CircleBefore(base, id, a) && CircleBefore(base, id, x)) +
            Indicator(x != y && Range(x, y).Contains(id)) ==
            Indicator(!CircleBefore(base, id, a) && CircleBefore(base, id, y))
  {
    CircleOrder(base);
    if x != y {
      RangeOnCircle(base, Range(x, y), id);
    }
  }

  /** Points in circle order cut out exactly the interval from the first to the last. */
  lemma {:induction false} ChainCovers(base: RecordIdentifier, points: seq<RecordIdentifier>, id: RecordIdentifier)
    requires points != []
    requires forall i, j :: 0 <= i < j < |points| ==> !CircleBefore(base, points[j], points[i])
    ensures Hits(RangesBetween(points), id) ==
            Indicator(!CircleBefore(base, id, points[0]) && CircleBefore(base, id, points[|points| - 1]))
    decreases |points|
  {
    if |points| == 1 {
      CircleOrder(base);
    } else {
      var n := |points|;
      var init, x, y := points[..n - 1], points[n - 2], points[n - 1];
      ChainCovers(base, init, id);
      HitsPiece(RangesBetween(init), x, y, id);
      assert !CircleBefore(base, x, points[0]) by { CircleOrder(base); }
      PieceExtends(base, points[0], x, y, id);
    }
  }

  lemma OffsetBounds(n: nat, factor: nat, i: nat)
    requires factor >= 2 && n > 0
    ensures i + 1 < factor ==> Offset(n, factor, i) < n
    ensures i + 1 == factor ==> Offset(n, factor, i) == n
    ensures i == factor ==> Offset(n, factor, i) == Offset(n, factor, 0)
    ensures i + 2 == factor && n >= 2 ==> Offset(n, factor, i) >= 1
  {
    if i + 1 == factor {
      ModSmall(i, factor);
      DivUnique(n * factor, factor, n);
    } else if i == factor {
      DivUnique(factor, factor, 1);
      ModSmall(0, factor);
    } else if i + 1 < factor {
      ModSmall(i, factor);
      MulMonotone(n, i + 1, factor);
      DivLess(n * (i + 1), n, factor);
      if i + 2 == factor && n >= 2 {
        MulMonotone(i + 1, 2, n);
        DivMonotone(factor, n * (i + 1), factor);
        DivUnique(factor, factor, 1);
      }
    }
  }

  lemma OffsetMonotone(n: nat, factor: nat, i: nat, j: nat)
    requires factor >= 2 && i <= j < factor
    ensures Offset(n, factor, i) <= Offset(n, factor, j)
  {
    ModSmall(i, factor);
    ModSmall(j, factor);
    MulMonotone(n, i + 1, j + 1);
    DivMonotone(n * (i + 1), n * (j + 1), factor);
  }

  lemma CutsAreInOrder(n: nat, factor: nat)
    requires factor >= 2 && n > 0
    ensures CutsInOrder(Cuts(n, factor), n)
    ensures n >= 2 ==> Cuts(n, factor)[factor - 2] >= 1
  {
    forall i | 0 <= i < factor - 1
      ensures Cuts(n, factor)[i] < n
      ensures i == factor - 2 && n >= 2 ==> Cuts(n, factor)[i] >= 1
    {
      OffsetBounds(n, factor, i);
    }
    forall i, j | 0 <= i < j < factor - 1
      ensures Cuts(n, factor)[i] <= Cuts(n, factor)[j]
    {
      OffsetMonotone(n, factor, i, j);
    }
  }

  /** The pivot expression of the source, an index taken modulo the number of entries. */
  function Pivot(entries: seq<Entry>, from: nat, factor: nat, i: nat): (id: RecordIdentifier)
    requires entries != [] && factor > 0
  {
    entries[(from + Offset(|entries|, factor, i)) % |entries|].id
  }

  lemma RotationAt(entries: seq<Entry>, r: Range, i: nat)
    requires entries != [] && i <= |entries|
    ensures var from := SplitStart(entries, r);
            i < |entries| ==> Rotation(entries, r)[i] == entries[(from + i) % |entries|]
    ensures var from := SplitStart(entries, r);
            i == |entries| ==> Rotation(entries, r)[0] == entries[(from + i) % |entries|]
  {
    var from := SplitStart(entries, r);
    if from + i < |entries| {
      ModSmall(from + i, |entries|);
    } else {
      ModOnce(from + i, |entries|);
    }
  }

  /** The source's pivots are the cuts of the rotation, closing the cycle at the last two indices. */
  lemma PivotIsCut(entries: seq<Entry>, r: Range, factor: nat, i: nat)
    requires entries != [] && factor >= 2 && i <= factor
    ensures CutsInOrder(Cuts(|entries|, factor), |entries|)
    ensures Pivot(entries, SplitStart(entries, r), factor, i) ==
            (IdsAt(Rotation(entries, r), Cuts(|entries|, factor)) +
             [Rotation(entries, r)[0].id, Rotation(entries, r)[Cuts(|entries|, factor)[0]].id])[i]
  {
    CutsAreInOrder(|entries|, factor);
    OffsetBounds(|entries|, factor, i);
    RotationAt(entries, r, Offset(|entries|, factor, i));
  }

  // ----- the pieces partition the range

  predicate InCircleOrder(base: RecordIdentifier, rot: seq<Entry>)
  {
    forall i, j :: 0 <= i < j < |rot| ==> CircleBefore(base, rot[i].id, rot[j].id)
  }

  lemma RotationInCircleOrder(entries: seq<Entry>, r: Range)
    requires entries != [] && SortedById(entries)
    ensures InCircleOrder(r.start, Rotation(entries, r))
  {
    var rot, from, first := Rotation(entries, r), SplitStart(entries, r), FirstAtLeast(entries, r.start);
    forall k | first <= k < |entries|
      ensures !Before(entries[k].id, r.start)
    {
      IdentifierOrder(entries[first].id, entries[k].id, r.start);
    }
    forall i, j | 0 <= i < j < |rot|
      ensures CircleBefore(r.start, rot[i].id, rot[j].id)
    {
      var gap := |entries| - from;
      assert rot[i] == if i < gap then entries[from + i] else entries[i - gap];
      assert rot[j] == if j < gap then entries[from + j] else entries[j - gap];
    }
  }

  lemma CutsAreOrdered(base: RecordIdentifier, rot: seq<Entry>, cuts: seq<nat>, i: nat, j: nat)
    requires CutsInOrder(cuts, |rot|) && InCircleOrder(base, rot) && i <= j < |cuts|
    ensures !CircleBefore(base, rot[cuts[j]].id, rot[cuts[i]].id)
  {
    CircleOrder(base);
    assert cuts[i] <= cuts[j];
  }

  /** An entry of a proper range lies before its end on the circle. */
  lemma EntryBeforeEnd(r: Range, id: RecordIdentifier)
    requires !r.IsAll() && r.Contains(id)
    ensures CircleBefore(r.start, id, r.end)
    ensures id != r.end
  {
    IdentifierOrder(r.start, r.end, r.end);
    IdentifierOrder(r.end, r.end, r.end);
    RangeOnCircle(r.start, r, id);
  }

  /** The points of a proper range are in circle order from r.start. */
  lemma PointsAreOrdered(rot: seq<Entry>, cuts: seq<nat>, r: Range, i: nat, j: nat)
    requires CutsInOrder(cuts, |rot|) && InCircleOrder(r.start, rot) && !r.IsAll()
    requires forall e :: e in rot ==> r.Contains(e.id)
    requires i < j <= |cuts| + 1
    ensures !CircleBefore(r.start, PointsOf(rot, cuts, r)[j], PointsOf(rot, cuts, r)[i])
  {
    if i == 0 {
      CircleOrder(r.start);
    } else if j == |cuts| + 1 {
      EntryBeforeEnd(r, rot[cuts[i - 1]].id);
      CircleOrder(r.start);
    } else {
      CutsAreOrdered(r.start, rot, cuts, i - 1, j - 1);
    }
  }

  lemma ProperRangeCovered(rot: seq<Entry>, cuts: seq<nat>, r: Range, id: RecordIdentifier)
    requires CutsInOrder(cuts, |rot|) && InCircleOrder(r.start, rot) && !r.IsAll()
    requires forall e :: e in rot ==> r.Contains(e.id)
    ensures Hits(RangesBetween(PointsOf(rot, cuts, r)), id) == Indicator(r.Contains(id))
  {
    var points := PointsOf(rot, cuts, r);
    forall i, j | 0 <= i < j < |points|
      ensures !CircleBefore(r.start, points[j], points[i])
    {
      PointsAreOrdered(rot, cuts, r, i, j);
    }
    ChainCovers(r.start, points, id);
    IdentifierOrder(r.start, r.end, r.end);
    RangeOnCircle(r.start, r, id);
    CircleOrder(r.start);
  }

  /** Stepping back to first and on to again covers the rest of the circle once. */
  lemma ClosingPieces(base: RecordIdentifier, last: RecordIdentifier, first: RecordIdentifier,
                      again: RecordIdentifier, id: RecordIdentifier)
    requires CircleBefore(base, first, last)
    requires !CircleBefore(base, again, first) && !CircleBefore(base, last, again)
    ensures last != first
    ensures Indicator(Range(last, first).Contains(id)) +
            Indicator(first != again && Range(first, again).Contains(id)) ==
            1 - Indicator(!CircleBefore(base, id, again) && CircleBefore(base, id, last))
  {
    CircleOrder(base);
    RangeOnCircle(base, Range(last, first), id);
    if first != again {
      RangeOnCircle(base, Range(first, again), id);
    }
  }

  lemma WholeSetCovered(rot: seq<Entry>, cuts: seq<nat>, r: Range, id: RecordIdentifier)
    requires CutsInOrder(cuts, |rot|) && InCircleOrder(r.start, rot) && r.IsAll()
    requires cuts[|cuts| - 1] >= 1
    ensures Hits(RangesBetween(PointsOf(rot, cuts, r)), id) == 1
  {
    var points, ids, n := PointsOf(rot, cuts, r), IdsAt(rot, cuts), |cuts|;
    var last, first, again := ids[n - 1], rot[0].id, ids[0];
    forall i, j | 0 <= i < j < n
      ensures !CircleBefore(r.start, ids[j], ids[i])
    {
      CutsAreOrdered(r.start, rot, cuts, i, j);
    }
    ChainCovers(r.start, ids, id);
    assert points[..n + 1][..n] == ids;
    HitsPiece(RangesBetween(ids), last, first, id);
    HitsPiece(RangesBetween(points[..n + 1]), first, again, id);
    CutsAreOrdered(r.start, rot, cuts, 0, n - 1);
    CircleOrder(r.start);
    assert !CircleBefore(r.start, again, first);
    ClosingPieces(r.start, last, first, again, id);
  }

  /**
   Exact cover: the pieces of a split contain each identifier of the range exactly
   once and no other identifier.
   */
  lemma SplitCoversExactly(entries: seq<Entry>, r: Range, factor: int, id: RecordIdentifier)
    requires SortedById(entries) && entries != []
    requires forall e :: e in entries ==> r.Contains(e.id)
    requires r.IsAll() ==> |entries| >= 2
    ensures Hits(SplitRange(entries, r, factor), id) == Indicator(r.Contains(id))
  {
    var k := if factor < 2 then 2 else factor;
    RotationInCircleOrder(entries, r);
    CutsAreInOrder(|entries|, k);
    if r.IsAll() {
      WholeSetCovered(Rotation(entries, r), Cuts(|entries|, k), r, id);
    } else {
      ProperRangeCovered(Rotation(entries, r), Cuts(|entries|, k), r, id);
    }
  }

  /** What a caller must see to before it splits a range. */
  predicate Splittable(entries: seq<Entry>, r: Range)
  {
    if r.IsAll() then |entries| >= 2 else entries != []
  }

  /** Exactly then a split covers its range: a range without entries and a whole set of one entry have no pieces. */
  lemma SplitCoversIff(entries: seq<Entry>, r: Range, factor: int)
    requires SortedById(entries) && forall e :: e in entries ==> r.Contains(e.id)
    ensures (forall id :: Hits(SplitRange(entries, r, factor), id) == Indicator(r.Contains(id))) <==>
            Splittable(entries, r)
  {
    if Splittable(entries, r) {
      forall id
        ensures Hits(SplitRange(entries, r, factor), id) == Indicator(r.Contains(id))
      {
        SplitCoversExactly(entries, r, factor, id);
      }
    } else {
      IdentifierOrder(r.start, r.start, r.start);
      IdentifierOrder(r.start, r.end, r.end);
      assert r.Contains(r.start);
      OneEntryHasNoPieces(entries, r, factor);
      assert Hits([], r.start) == 0;
    }
  }

  lemma OneEntryHasNoPieces(entries: seq<Entry>, r: Range, factor: int)
    requires entries == [] || (r.IsAll() && |entries| == 1)
    ensures SplitRange(entries, r, factor) == []
  {
    if entries != [] {
      var k := if factor < 2 then 2 else factor;
      CutsAreInOrder(|entries|, k);
      LonePoints(Rotation(entries, r), Cuts(|entries|, k), r);
      EqualPointsHaveNoPieces(PointsOf(Rotation(entries, r), Cuts(|entries|, k), r));
    }
  }

  lemma LonePoints(rot: seq<Entry>, cuts: seq<nat>, r: Range)
    requires |rot| == 1 && CutsInOrder(cuts, 1) && r.IsAll()
    ensures forall p :: p in PointsOf(rot, cuts, r) ==> p == rot[0].id
  {
  }

  lemma {:induction false} EqualPointsHaveNoPieces(points: seq<RecordIdentifier>)
    requires forall i, j :: 0 <= i < j < |points| ==> points[i] == points[j]
    ensures RangesBetween(points) == []
    decreases |points|
  {
    if |points| >= 2 {
      EqualPointsHaveNoPieces(points[..|points| - 1]);
      IdentifierOrder(points[|points| - 2], points[|points| - 1], points[|points| - 1]);
    }
  }

  // ----- and each is smaller than the range

  /** Every piece has distinct ends, and its end is a later point of the split. */
  lemma {:induction false} PiecesAreBetweenPoints(points: seq<RecordIdentifier>, piece: Range)
    requires piece in RangesBetween(points)
    ensures piece.start != piece.end
    ensures exists i :: 0 < i < |points| && piece == Range(points[i - 1], points[i])
    decreases |points|
  {
    var n := |points|;
    if piece in RangesBetween(points[..n - 1]) {
      PiecesAreBetweenPoints(points[..n - 1], piece);
      var i :| 0 < i < n - 1 && piece == Range(points[..n - 1][i - 1], points[..n - 1][i]);
      assert piece == Range(points[i - 1], points[i]);
    } else {
      IdentifierOrder(points[n - 2], points[n - 1], points[n - 1]);
    }
  }

  lemma EndNotContained(r: Range)
    requires r.start != r.end
    ensures !r.Contains(r.end)
  {
    IdentifierOrder(r.start, r.end, r.end);
    IdentifierOrder(r.end, r.end, r.end);
  }

  /** The last piece of a proper range leaves out the first local entry. */
  lemma LastPieceIsSmaller(rot: seq<Entry>, r: Range, o: nat)
    requires InCircleOrder(r.start, rot) && 1 <= o < |rot| && !r.IsAll()
    requires forall e :: e in rot ==> r.Contains(e.id)
    ensures !Range(rot[o].id, r.end).Contains(rot[0].id)
  {
    EntryBeforeEnd(r, rot[o].id);
    CircleOrder(r.start);
    RangeOnCircle(r.start, Range(rot[o].id, r.end), rot[0].id);
  }

  /** Every point of a split after the first, but r.end, is the identifier of a local entry. */
  lemma InnerPointIsEntry(rot: seq<Entry>, cuts: seq<nat>, r: Range, i: nat) returns (e: Entry)
    requires CutsInOrder(cuts, |rot|) && 0 < i <= |cuts| + 1 && (r.IsAll() || i <= |cuts|)
    ensures e in rot && e.id == PointsOf(rot, cuts, r)[i]
  {
    var n := |cuts|;
    if !r.IsAll() {
      e := rot[cuts[i - 1]];
    } else {
      e := if i < n then rot[cuts[i]] else if i == n then rot[0] else rot[cuts[0]];
    }
  }

  /** The ends aside, the points of a split are identifiers of entries. */
  lemma PointIsEndOrEntry(rot: seq<Entry>, cuts: seq<nat>, r: Range, i: nat) returns (e: Entry)
    requires CutsInOrder(cuts, |rot|) && i < |cuts| + 2
    ensures e in rot
    ensures var point := PointsOf(rot, cuts, r)[i]; point == r.start || point == r.end || point == e.id
  {
    var n := |cuts|;
    if r.IsAll() {
      e := if i < n then rot[cuts[i]] else if i == n then rot[0] else rot[cuts[0]];
    } else {
      e := if 1 <= i <= n then rot[cuts[i - 1]] else rot[cuts[0]];
    }
  }

  lemma PieceEnds(rot: seq<Entry>, cuts: seq<nat>, r: Range, piece: Range) returns (a: Entry, b: Entry)
    requires CutsInOrder(cuts, |rot|) && piece in RangesBetween(PointsOf(rot, cuts, r))
    ensures a in rot && b in rot
    ensures piece.start == r.start || piece.start == r.end || piece.start == a.id
    ensures piece.end == r.start || piece.end == r.end || piece.end == b.id
  {
    var points := PointsOf(rot, cuts, r);
    PiecesAreBetweenPoints(points, piece);
    var i :| 0 < i < |points| && piece == Range(points[i - 1], points[i]);
    a := PointIsEndOrEntry(rot, cuts, r, i - 1);
    b := PointIsEndOrEntry(rot, cuts, r, i);
  }

  /** A piece starts and ends at an end of the range or at an entry. */
  lemma SplitPieceEnds(entries: seq<Entry>, r: Range, factor: int, piece: Range) returns (a: Entry, b: Entry)
    requires piece in SplitRange(entries, r, factor)
    ensures a in entries && b in entries
    ensures piece.start == r.start || piece.start == r.end || piece.start == a.id
    ensures piece.end == r.start || piece.end == r.end || piece.end == b.id
  {
    var k := if factor < 2 then 2 else factor;
    CutsAreInOrder(|entries|, k);
    a, b := PieceEnds(Rotation(entries, r), Cuts(|entries|, k), r, piece);
  }

  lemma LastPoints(rot: seq<Entry>, cuts: seq<nat>, r: Range)
    requires CutsInOrder(cuts, |rot|) && !r.IsAll()
    ensures |PointsOf(rot, cuts, r)| == |cuts| + 2
    ensures PointsOf(rot, cuts, r)[|cuts|] == rot[cuts[|cuts| - 1]].id && PointsOf(rot, cuts, r)[|cuts| + 1] == r.end
  {
  }

  lemma PieceIsSmaller(rot: seq<Entry>, cuts: seq<nat>, r: Range, piece: Range) returns (left: Entry)
    requires CutsInOrder(cuts, |rot|) && InCircleOrder(r.start, rot) && cuts[|cuts| - 1] >= 1
    requires forall e :: e in rot ==> r.Contains(e.id)
    requires piece in RangesBetween(PointsOf(rot, cuts, r))
    ensures piece.start != piece.end
    ensures left in rot && !piece.Contains(left.id)
  {
    var points, n := PointsOf(rot, cuts, r), |cuts|;
    PiecesAreBetweenPoints(points, piece);
    var i :| 0 < i < |points| && piece == Range(points[i - 1], points[i]);
    if !r.IsAll() && i == n + 1 {
      LastPoints(rot, cuts, r);
      LastPieceIsSmaller(rot, r, cuts[n - 1]);
      left := rot[0];
    } else {
      left := InnerPointIsEntry(rot, cuts, r, i);
      EndNotContained(piece);
    }
  }

  /** Every piece of a split leaves out at least one local entry, and none has equal ends. */
  lemma SplitPieceIsSmaller(entries: seq<Entry>, r: Range, factor: int, piece: Range) returns (left: Entry)
    requires SortedById(entries) && |entries| >= 2
    requires forall e :: e in entries ==> r.Contains(e.id)
    requires piece in SplitRange(entries, r, factor)
    ensures piece.start != piece.end
    ensures left in entries && !piece.Contains(left.id)
  {
    var k := if factor < 2 then 2 else factor;
    RotationInCircleOrder(entries, r);
    CutsAreInOrder(|entries|, k);
    left := PieceIsSmaller(Rotation(entries, r), Cuts(|entries|, k), r, piece);
  }
}
