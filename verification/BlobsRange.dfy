/** Chunk-range sets and their canonical form (blobs/range.go, blobs/bitfield.go). */
module BlobsRange {
  import opened Bytes

  const MAX64: int := 0xFFFF_FFFF_FFFF_FFFF

  type U64 = x: int | 0 <= x <= MAX64

  datatype ChunkRange = ChunkRange(start: U64, end: U64)

  datatype ChunkRanges = ChunkRanges(ranges: seq<ChunkRange>, open: Option<U64>)

  /** r selects chunk c. */
  predicate Holds(r: ChunkRanges, c: int)
  {
    HoldsFinite(r.ranges, c) || (r.open.Some? && r.open.value <= c)
  }

  predicate HoldsFinite(ranges: seq<ChunkRange>, c: int)
  {
    exists i :: 0 <= i < |ranges| && ranges[i].start <= c < ranges[i].end
  }

  ghost predicate SameSet(a: ChunkRanges, b: ChunkRanges)
  {
    forall c: U64 :: Holds(a, c) <==> Holds(b, c)
  }

  /** Nonempty ranges in order with a gap before each next one. */
  predicate Separated(ranges: seq<ChunkRange>)
  {
    && (forall i :: 0 <= i < |ranges| ==> ranges[i].start < ranges[i].end)
    && (forall i, j :: 0 <= i < j < |ranges| ==> ranges[i].end < ranges[j].start)
  }

  predicate Canonical(r: ChunkRanges)
  {
    && Separated(r.ranges)
    && (r.open.Some? ==> forall i :: 0 <= i < |r.ranges| ==> r.ranges[i].end < r.open.value)
  }

  // ----- normalize

  predicate Ordered(ranges: seq<ChunkRange>)
  {
    forall i, j :: 0 <= i < j < |ranges| ==> ranges[i].start <= ranges[j].start
  }

  /** The sort order: by start, then end. */
  predicate LessEq(a: ChunkRange, b: ChunkRange)
  {
    a.start < b.start || (a.start == b.start && a.end <= b.end)
  }

  function InsertSorted(ranges: seq<ChunkRange>, r: ChunkRange): (out: seq<ChunkRange>)
    ensures |out| == |ranges| + 1
  {
    if ranges == [] || LessEq(r, ranges[0]) then [r] + ranges else [ranges[0]] + InsertSorted(ranges[1..], r)
  }

  function SortRanges(ranges: seq<ChunkRange>): (out: seq<ChunkRange>)
  {
    if ranges == [] then [] else InsertSorted(SortRanges(ranges[1..]), ranges[0])
  }

  /** One step of the merge loop. */
  function MergeStep(out: seq<ChunkRange>, r: ChunkRange): (next: seq<ChunkRange>)
  {
    if r.start >= r.end then out
    else if out == [] || r.start > out[|out| - 1].end then out + [r]
    else if r.end > out[|out| - 1].end then
      out[..|out| - 1] + [ChunkRange(out[|out| - 1].start, r.end)]
    else out
  }

  function Merge(ranges: seq<ChunkRange>): (out: seq<ChunkRange>)
  {
    if ranges == [] then [] else MergeStep(Merge(ranges[..|ranges| - 1]), ranges[|ranges| - 1])
  }

  /** The open range swallows the finite ranges it touches. */
  function Absorb(ranges: seq<ChunkRange>, start: U64): (r: ChunkRanges)
  {
    if ranges != [] && ranges[|ranges| - 1].end >= start then
      var last := ranges[|ranges| - 1];
      Absorb(ranges[..|ranges| - 1], if last.start < start then last.start else start)
    else ChunkRanges(ranges, Some(start))
  }

  function Normalize(r: ChunkRanges): (n: ChunkRanges)
  {
    var merged := Merge(SortRanges(r.ranges));
    match r.open
    case None => ChunkRanges(merged, None)
    case Some(start) => Absorb(merged, start)
  }

  lemma {:induction false} InsertSortedOk(ranges: seq<ChunkRange>, r: ChunkRange)
    requires Ordered(ranges)
    ensures Ordered(InsertSorted(ranges, r))
    ensures forall x :: x in InsertSorted(ranges, r) <==> x in ranges || x == r
    decreases |ranges|
  {
    if ranges != [] && !LessEq(r, ranges[0]) {
      InsertSortedOk(ranges[1..], r);
      assert ranges == [ranges[0]] + ranges[1..];
      var rest := InsertSorted(ranges[1..], r);
      forall j | 0 <= j < |rest|
        ensures ranges[0].start <= rest[j].start
      {
        assert rest[j] in rest;
      }
    }
  }

  lemma {:induction false} SortRangesOk(ranges: seq<ChunkRange>)
    ensures Ordered(SortRanges(ranges))
    ensures forall x :: x in SortRanges(ranges) <==> x in ranges
    decreases |ranges|
  {
    if ranges != [] {
      SortRangesOk(ranges[1..]);
      InsertSortedOk(SortRanges(ranges[1..]), ranges[0]);
      assert ranges == [ranges[0]] + ranges[1..];
    }
  }

  lemma HoldsByMember(a: seq<ChunkRange>, b: seq<ChunkRange>)
    requires forall x :: x in a <==> x in b
    ensures forall c :: HoldsFinite(a, c) <==> HoldsFinite(b, c)
  {
    forall c | HoldsFinite(a, c)
      ensures HoldsFinite(b, c)
    {
      var i :| 0 <= i < |a| && a[i].start <= c < a[i].end;
      assert a[i] in b;
    }
    forall c | HoldsFinite(b, c)
      ensures HoldsFinite(a, c)
    {
      var i :| 0 <= i < |b| && b[i].start <= c < b[i].end;
      assert b[i] in a;
    }
  }

  lemma HoldsAppend(a: seq<ChunkRange>, r: ChunkRange, c: int)
    ensures HoldsFinite(a + [r], c) <==> HoldsFinite(a, c) || r.start <= c < r.end
  {
    if HoldsFinite(a, c) {
      var i :| 0 <= i < |a| && a[i].start <= c < a[i].end;
      assert (a + [r])[i] == a[i];
    }
    assert (a + [r])[|a|] == r;
  }

  lemma MergeStepOk(out: seq<ChunkRange>, r: ChunkRange)
    requires Separated(out) && (out != [] ==> out[|out| - 1].start <= r.start)
    ensures Separated(MergeStep(out, r))
    ensures forall c :: HoldsFinite(MergeStep(out, r), c) <==> HoldsFinite(out, c) || r.start <= c < r.end
    ensures MergeStep(out, r) != [] ==> MergeStep(out, r)[|MergeStep(out, r)| - 1].start <= r.start
  {
    forall c
      ensures HoldsFinite(MergeStep(out, r), c) <==> HoldsFinite(out, c) || r.start <= c < r.end
    {
      HoldsAppend(out, r, c);
      if out != [] {
        var init, last := out[..|out| - 1], out[|out| - 1];
        assert out == init + [last];
        HoldsAppend(init, last, c);
        HoldsAppend(init, ChunkRange(last.start, r.end), c);
      }
    }
  }

  lemma {:induction false} MergeOk(ranges: seq<ChunkRange>)
    requires Ordered(ranges)
    ensures Separated(Merge(ranges))
    ensures forall c :: HoldsFinite(Merge(ranges), c) <==> HoldsFinite(ranges, c)
    ensures Merge(ranges) != [] ==>
              ranges != [] && Merge(ranges)[|Merge(ranges)| - 1].start <= ranges[|ranges| - 1].start
    decreases |ranges|
  {
    if ranges != [] {
      var init, last := ranges[..|ranges| - 1], ranges[|ranges| - 1];
      assert ranges == init + [last];
      MergeOk(init);
      MergeStepOk(Merge(init), last);
      forall c
        ensures HoldsFinite(ranges, c) <==> HoldsFinite(init, c) || last.start <= c < last.end
      {
        HoldsAppend(init, last, c);
      }
    }
  }

  lemma {:induction false} AbsorbOk(ranges: seq<ChunkRange>, start: U64)
    requires Separated(ranges)
    ensures Canonical(Absorb(ranges, start))
    ensures forall c :: Holds(Absorb(ranges, start), c) <==> Holds(ChunkRanges(ranges, Some(start)), c)
    decreases |ranges|
  {
    if ranges != [] && ranges[|ranges| - 1].end >= start {
      var init, last := ranges[..|ranges| - 1], ranges[|ranges| - 1];
      assert ranges == init + [last];
      AbsorbOk(init, if last.start < start then last.start else start);
      forall c
        ensures HoldsFinite(ranges, c) <==> HoldsFinite(init, c) || last.start <= c < last.end
      {
        HoldsAppend(init, last, c);
      }
    }
  }

  /** Normalizing gives a canonical form and selects exactly the same chunks. */
  lemma NormalizeOk(r: ChunkRanges)
    ensures Canonical(Normalize(r))
    ensures forall c :: Holds(Normalize(r), c) <==> Holds(r, c)
  {
    var sorted := SortRanges(r.ranges);
    SortRangesOk(r.ranges);
    HoldsByMember(sorted, r.ranges);
    MergeOk(sorted);
    if r.open.Some? {
      AbsorbOk(Merge(sorted), r.open.value);
    }
  }

  // ----- the canonical form is unique

  lemma FirstPointHeld(r: ChunkRanges)
    requires Canonical(r) && r.ranges != []
    ensures forall c :: Holds(r, c) ==> c >= r.ranges[0].start
    ensures forall c :: r.ranges[0].start <= c < r.ranges[0].end ==> Holds(r, c)
    ensures !Holds(r, r.ranges[0].end)
  {
  }

  lemma DropFirst(r: ChunkRanges)
    requires Canonical(r) && r.ranges != []
    ensures Canonical(r.(ranges := r.ranges[1..]))
    ensures forall c :: Holds(r.(ranges := r.ranges[1..]), c) <==> Holds(r, c) && c >= r.ranges[0].end
  {
    forall c
      ensures Holds(r.(ranges := r.ranges[1..]), c) <==> Holds(r, c) && c >= r.ranges[0].end
    {
      DropFirstHolds(r, c);
    }
  }

  lemma DropFirstHolds(r: ChunkRanges, c: int)
    requires Canonical(r) && r.ranges != []
    ensures Holds(r.(ranges := r.ranges[1..]), c) <==> Holds(r, c) && c >= r.ranges[0].end
  {
    var rest := r.(ranges := r.ranges[1..]);
    if HoldsFinite(r.ranges, c) && c >= r.ranges[0].end {
      var i :| 0 <= i < |r.ranges| && r.ranges[i].start <= c < r.ranges[i].end;
      assert rest.ranges[i - 1] == r.ranges[i];
    }
    if HoldsFinite(rest.ranges, c) {
      var i :| 0 <= i < |rest.ranges| && rest.ranges[i].start <= c < rest.ranges[i].end;
      assert r.ranges[i + 1] == rest.ranges[i];
    }
  }

  lemma SameFirst(a: ChunkRanges, b: ChunkRanges)
    requires Canonical(a) && Canonical(b) && SameSet(a, b) && a.ranges != []
    ensures b.ranges != [] && a.ranges[0] == b.ranges[0]
  {
    FirstPointHeld(a);
    assert Holds(a, a.ranges[0].start) && Holds(b, a.ranges[0].start);
    assert !Holds(b, a.ranges[0].end);
    if b.ranges != [] {
      FirstPointHeld(b);
      assert Holds(b, b.ranges[0].start) && Holds(a, b.ranges[0].start);
      assert !Holds(a, b.ranges[0].end);
    }
  }

  /** Two canonical forms that select the same 64-bit chunk indices are equal. */
  lemma {:induction false} CanonicalIsUnique(a: ChunkRanges, b: ChunkRanges)
    requires Canonical(a) && Canonical(b) && SameSet(a, b)
    ensures a == b
    decreases |a.ranges|
  {
    if a.ranges != [] {
      SameFirst(a, b);
      DropFirst(a);
      DropFirst(b);
      CanonicalIsUnique(a.(ranges := a.ranges[1..]), b.(ranges := b.ranges[1..]));
      assert a.ranges == [a.ranges[0]] + a.ranges[1..] && b.ranges == [b.ranges[0]] + b.ranges[1..];
    } else if b.ranges != [] {
      SameFirst(b, a);
    } else {
      assert a.open.Some? ==> Holds(a, a.open.value) && Holds(b, a.open.value);
      assert b.open.Some? ==> Holds(b, b.open.value) && Holds(a, b.open.value);
    }
  }

  lemma NormalizeIsIdempotent(r: ChunkRanges)
    ensures Canonical(r) ==> Normalize(r) == r
    ensures Normalize(Normalize(r)) == Normalize(r)
  {
    NormalizeOk(r);
    NormalizeOk(Normalize(r));
    CanonicalIsUnique(Normalize(Normalize(r)), Normalize(r));
    if Canonical(r) {
      CanonicalIsUnique(Normalize(r), r);
    }
  }

  /** Comparing normal forms decides set equality. */
  lemma EqualityDecidesSameSet(a: ChunkRanges, b: ChunkRanges)
    ensures Normalize(a) == Normalize(b) <==> SameSet(a, b)
  {
    NormalizeOk(a);
    NormalizeOk(b);
    if SameSet(a, b) {
      CanonicalIsUnique(Normalize(a), Normalize(b));
    }
  }
}
