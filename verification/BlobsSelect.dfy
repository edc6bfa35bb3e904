/** Chunk selections and their fast counting (blobs/chunkrange_bao.go). */
module BlobsSelect {
  import opened Bytes
  import opened BlobsRange
  import opened BlobsRangeOps

  /** Nonempty intervals in increasing order, possibly adjacent. */
  predicate Sorted(sel: seq<ChunkRange>)
  {
    && (forall i :: 0 <= i < |sel| ==> sel[i].start < sel[i].end)
    && (forall i, j :: 0 <= i < j < |sel| ==> sel[i].end <= sel[j].start)
  }

  predicate Selects(sel: seq<ChunkRange>, c: int)
  {
    HoldsFinite(sel, c)
  }

  function Min(a: U64, b: U64): (m: U64) { if a < b then a else b }
  function Max(a: U64, b: U64): (m: U64) { if a < b then b else a }

  // ----- naive counting

  function CountNaive(sel: seq<ChunkRange>, lo: int, hi: int): (n: nat)
    decreases hi - lo
  {
    if lo >= hi then 0 else CountNaive(sel, lo, hi - 1) + if Selects(sel, hi - 1) then 1 else 0
  }

  predicate NoneSelected(sel: seq<ChunkRange>, lo: int, hi: int)
  {
    forall c :: lo <= c < hi ==> !Selects(sel, c)
  }

  predicate AllSelected(sel: seq<ChunkRange>, lo: int, hi: int)
  {
    forall c :: lo <= c < hi ==> Selects(sel, c)
  }

  lemma {:induction false} CountDecides(sel: seq<ChunkRange>, lo: int, hi: int)
    requires lo <= hi
    ensures CountNaive(sel, lo, hi) <= hi - lo
    ensures CountNaive(sel, lo, hi) == 0 <==> NoneSelected(sel, lo, hi)
    ensures CountNaive(sel, lo, hi) == hi - lo <==> AllSelected(sel, lo, hi)
    decreases hi - lo
  {
    if lo < hi {
      CountDecides(sel, lo, hi - 1);
      assert NoneSelected(sel, lo, hi) <==> NoneSelected(sel, lo, hi - 1) && !Selects(sel, hi - 1);
      assert AllSelected(sel, lo, hi) <==> AllSelected(sel, lo, hi - 1) && Selects(sel, hi - 1);
    }
  }

  lemma {:induction false} CountAgrees(a: seq<ChunkRange>, b: seq<ChunkRange>, lo: int, hi: int)
    requires forall c :: lo <= c < hi ==> (Selects(a, c) <==> Selects(b, c))
    ensures CountNaive(a, lo, hi) == CountNaive(b, lo, hi)
    decreases hi - lo
  {
    if lo < hi {
      CountAgrees(a, b, lo, hi - 1);
    }
  }

  function Overlap(r: ChunkRange, lo: int, hi: int): (n: nat)
  {
    var a, b := if r.start < lo then lo else r.start, if r.end < hi then r.end else hi;
    if a < b then b - a else 0
  }

  /** Counting a disjoint interval adds its overlap. */
  lemma {:induction false} CountAppend(sel: seq<ChunkRange>, r: ChunkRange, lo: int, hi: int)
    requires Sorted(sel + [r])
    ensures CountNaive(sel + [r], lo, hi) == CountNaive(sel, lo, hi) + Overlap(r, lo, hi)
    decreases hi - lo
  {
    if lo < hi {
      CountAppend(sel, r, lo, hi - 1);
      HoldsAppend(sel, r, hi - 1);
      assert forall i :: 0 <= i < |sel| ==> (sel + [r])[i] == sel[i] && sel[i].end <= (sel + [r])[|sel|].start;
    }
  }

  // ----- binary search

  /** The first interval that ends after lo. */
  method SearchEnd(sel: seq<ChunkRange>, lo: U64) returns (first: nat)
    requires Sorted(sel)
    ensures first <= |sel|
    ensures forall i :: 0 <= i < first ==> sel[i].end <= lo
    ensures forall i :: first <= i < |sel| ==> sel[i].end > lo
  {
    var i, j := 0, |sel|;
    while i < j
      invariant 0 <= i <= j <= |sel|
      invariant forall k :: 0 <= k < i ==> sel[k].end <= lo
      invariant forall k :: j <= k < |sel| ==> sel[k].end > lo
    {
      var h := (i + j) / 2;
      if !(sel[h].end > lo) {
        assert forall k :: 0 <= k < h ==> sel[k].end <= sel[h].start < sel[h].end;
        i := h + 1;
      } else {
        assert forall k :: h < k < |sel| ==> sel[h].end <= sel[k].start < sel[k].end;
        j := h;
      }
    }
    first := i;
  }

  /** The first interval from first on that starts at hi or later. */
  method SearchStart(sel: seq<ChunkRange>, first: nat, hi: U64) returns (last: nat)
    requires Sorted(sel) && first <= |sel|
    ensures first <= last <= |sel|
    ensures forall i :: first <= i < last ==> sel[i].start < hi
    ensures forall i :: last <= i < |sel| ==> sel[i].start >= hi
  {
    var i, j := 0, |sel| - first;
    while i < j
      invariant 0 <= i <= j <= |sel| - first
      invariant forall k :: first <= k < first + i ==> sel[k].start < hi
      invariant forall k :: first + j <= k < |sel| ==> sel[k].start >= hi
    {
      var h := (i + j) / 2;
      if !(sel[first + h].start >= hi) {
        assert forall k :: first <= k < first + h ==> sel[k].start < sel[k].end <= sel[first + h].start;
        i := h + 1;
      } else {
        assert forall k :: first + h < k < |sel| ==> sel[first + h].start < sel[first + h].end <= sel[k].start;
        j := h;
      }
    }
    last := first + i;
  }

  /** Narrowing keeps the selection inside [lo, hi), whatever was narrowed away before. */
  method Intersecting(sel: seq<ChunkRange>, lo: U64, hi: U64) returns (part: seq<ChunkRange>)
    requires Sorted(sel)
    ensures Sorted(part)
    ensures forall c :: lo <= c < hi ==> (Selects(part, c) <==> Selects(sel, c))
    ensures forall r :: r in part ==> r in sel && r.start < hi && r.end > lo
  {
    if lo >= hi || |sel| == 0 {
      return [];
    }
    var first := SearchEnd(sel, lo);
    var last := SearchStart(sel, first, hi);
    part := sel[first..last];
    forall c | lo <= c < hi && Selects(sel, c)
      ensures Selects(part, c)
    {
      var i :| 0 <= i < |sel| && sel[i].start <= c < sel[i].end;
      assert part[i - first] == sel[i];
    }
  }

  /** The sum over the overlapping intervals is the number of selected chunks. */
  method Count(sel: seq<ChunkRange>, lo: U64, hi: U64) returns (n: nat)
    requires Sorted(sel)
    ensures n == CountNaive(sel, lo, hi)
  {
    var part := Intersecting(sel, lo, hi);
    CountAgrees(part, sel, lo, hi);
    CountOfNothing(lo, hi);
    n := 0;
    for i := 0 to |part|
      invariant n == CountNaive(part[..i], lo, hi)
    {
      assert part[..i + 1] == part[..i] + [part[i]];
      CountAppend(part[..i], part[i], lo, hi);
      var a, b := Max(part[i].start, lo), Min(part[i].end, hi);
      if a < b {
        n := n + (b - a);
      }
    }
    assert part[..|part|] == part;
  }

  lemma {:induction false} CountOfNothing(lo: int, hi: int)
    ensures CountNaive([], lo, hi) == 0
    decreases hi - lo
  {
    if lo < hi {
      CountOfNothing(lo, hi - 1);
    }
  }

  // ----- selectChunks

  /** The finite ranges and the open range, ended at the largest index. */
  function Inputs(n: ChunkRanges): (input: seq<ChunkRange>)
  {
    n.ranges + if n.open.Some? && n.open.value != MAX64 then [ChunkRange(n.open.value, MAX64)] else []
  }

  predicate LastOnly(n: ChunkRanges)
  {
    n.open == Some(MAX64)
  }

  /** The clipping loop; an interval that ends by last also starts before chunks. */
  function Clip(input: seq<ChunkRange>, chunks: U64): (out: seq<ChunkRange>)
    requires chunks > 0
  {
    if input == [] then []
    else
      var r, last := input[0], chunks - 1;
      if r.start >= r.end then Clip(input[1..], chunks)
      else if r.end > last then [ChunkRange(Min(r.start, last), chunks)]
      else [ChunkRange(r.start, Min(r.end, chunks))] + Clip(input[1..], chunks)
  }

  function SelectChunks(ranges: ChunkRanges, chunks: U64): (sel: seq<ChunkRange>)
  {
    if chunks == 0 then []
    else
      var n := Normalize(ranges);
      WithLast(Clip(Inputs(n), chunks), LastOnly(n), chunks)
  }

  /** Adds the last chunk when only it is asked for and nothing selects it yet. */
  function WithLast(out: seq<ChunkRange>, lastOnly: bool, chunks: U64): (sel: seq<ChunkRange>)
    requires chunks > 0
  {
    if lastOnly && !Selects(out, chunks - 1) then out + [ChunkRange(chunks - 1, chunks)] else out
  }

  predicate Reaches(input: seq<ChunkRange>, last: int)
  {
    exists i :: 0 <= i < |input| && input[i].end > last
  }

  lemma {:induction false} ClipSorted(input: seq<ChunkRange>, chunks: U64)
    requires chunks > 0 && Sorted(input)
    ensures Sorted(Clip(input, chunks))
    ensures forall i :: 0 <= i < |Clip(input, chunks)| ==> Clip(input, chunks)[i].end <= chunks
    ensures input != [] ==> forall i :: 0 <= i < |Clip(input, chunks)| ==>
              Clip(input, chunks)[i].start >= Min(input[0].start, chunks - 1)
    decreases |input|
  {
    if input != [] {
      ClipSorted(input[1..], chunks);
    }
  }

  /** Below the last chunk, clipping changes nothing. */
  lemma {:induction false} ClipSelects(input: seq<ChunkRange>, chunks: U64, c: int)
    requires chunks > 0 && Sorted(input) && c < chunks - 1
    ensures Selects(Clip(input, chunks), c) <==> Selects(input, c)
    decreases |input|
  {
    if input != [] {
      var r, rest, last := input[0], input[1..], chunks - 1;
      assert input == [r] + rest;
      HoldsCons(r, rest, c);
      if r.end > last {
        HoldsCons(ChunkRange(Min(r.start, last), chunks), [], c);
        assert forall i :: 0 <= i < |rest| ==> rest[i] == input[i + 1] && rest[i].start >= r.end;
      } else {
        ClipSelects(rest, chunks, c);
        HoldsCons(r, Clip(rest, chunks), c);
      }
    }
  }

  /** The last chunk is selected exactly when some interval reaches it or goes beyond. */
  lemma {:induction false} ClipReaches(input: seq<ChunkRange>, chunks: U64)
    requires chunks > 0 && Sorted(input)
    ensures Selects(Clip(input, chunks), chunks - 1) <==> Reaches(input, chunks - 1)
    decreases |input|
  {
    if input != [] {
      var r, rest, last := input[0], input[1..], chunks - 1;
      assert input == [r] + rest;
      ReachesCons(r, rest, last);
      if r.end > last {
        HoldsCons(ChunkRange(Min(r.start, last), chunks), [], last);
      } else {
        ClipReaches(rest, chunks);
        HoldsCons(r, Clip(rest, chunks), last);
      }
    }
  }

  lemma InputsOk(n: ChunkRanges)
    requires Canonical(n)
    ensures Sorted(Inputs(n))
    ensures forall c :: c < MAX64 ==> (Selects(Inputs(n), c) <==> Holds(n, c))
  {
    forall c | c < MAX64
      ensures Selects(Inputs(n), c) <==> Holds(n, c)
    {
      if n.open.Some? && n.open.value != MAX64 {
        HoldsAppend(n.ranges, ChunkRange(n.open.value, MAX64), c);
      } else {
        assert Inputs(n) == n.ranges;
      }
    }
  }

  /** ranges select some chunk at last or beyond. */
  ghost predicate ReachesBeyond(ranges: ChunkRanges, last: int)
  {
    exists c: U64 :: c >= last && Holds(ranges, c)
  }

  lemma InputsReach(n: ChunkRanges, last: U64)
    requires Canonical(n) && last < MAX64
    ensures Reaches(Inputs(n), last) || LastOnly(n) <==> ReachesBeyond(n, last)
  {
    InputsOk(n);
    if Reaches(Inputs(n), last) {
      var i :| 0 <= i < |Inputs(n)| && Inputs(n)[i].end > last;
      var c: U64 := Inputs(n)[i].end - 1;
      assert Selects(Inputs(n), c) && Holds(n, c);
    }
    if LastOnly(n) {
      assert Holds(n, MAX64);
    }
    if ReachesBeyond(n, last) && !LastOnly(n) {
      var c: U64 :| c >= last && Holds(n, c);
      var d: U64 := if c == MAX64 then MAX64 - 1 else c;
      assert Holds(n, d);
      assert Selects(Inputs(n), d);
    }
  }

  lemma SameReach(ranges: ChunkRanges, last: int)
    ensures ReachesBeyond(Normalize(ranges), last) <==> ReachesBeyond(ranges, last)
  {
    NormalizeOk(ranges);
  }

  /** The clipped intervals alone, for canonical ranges. */
  lemma ClippedOk(n: ChunkRanges, chunks: U64)
    requires chunks > 0 && Canonical(n)
    ensures Sorted(Clip(Inputs(n), chunks))
    ensures forall i :: 0 <= i < |Clip(Inputs(n), chunks)| ==> Clip(Inputs(n), chunks)[i].end <= chunks
    ensures forall c :: 0 <= c < chunks - 1 ==> (Selects(Clip(Inputs(n), chunks), c) <==> Holds(n, c))
    ensures Selects(Clip(Inputs(n), chunks), chunks - 1) || LastOnly(n) <==> ReachesBeyond(n, chunks - 1)
  {
    InputsOk(n);
    InputsReach(n, chunks - 1);
    ClipSorted(Inputs(n), chunks);
    ClipReaches(Inputs(n), chunks);
    forall c | 0 <= c < chunks - 1
      ensures Selects(Clip(Inputs(n), chunks), c) <==> Holds(n, c)
    {
      ClipSelects(Inputs(n), chunks, c);
    }
  }

  /**
   The selection is sorted, disjoint and inside the blob. It holds a chunk below the
   last exactly when the ranges do, and the last chunk exactly when they reach it.
   */
  lemma SelectChunksOk(ranges: ChunkRanges, chunks: U64)
    requires chunks > 0
    ensures Sorted(SelectChunks(ranges, chunks))
    ensures forall c :: Selects(SelectChunks(ranges, chunks), c) ==> 0 <= c < chunks
    ensures forall c :: 0 <= c < chunks - 1 ==> (Selects(SelectChunks(ranges, chunks), c) <==> Holds(ranges, c))
    ensures Selects(SelectChunks(ranges, chunks), chunks - 1) <==> ReachesBeyond(ranges, chunks - 1)
  {
    var n := Normalize(ranges);
    NormalizeOk(ranges);
    SameReach(ranges, chunks - 1);
    ClippedOk(n, chunks);
    WithLastOk(Clip(Inputs(n), chunks), LastOnly(n), chunks);
  }

  lemma WithLastOk(out: seq<ChunkRange>, lastOnly: bool, chunks: U64)
    requires chunks > 0 && Sorted(out) && forall i :: 0 <= i < |out| ==> out[i].end <= chunks
    ensures Sorted(WithLast(out, lastOnly, chunks))
    ensures forall c :: Selects(WithLast(out, lastOnly, chunks), c) ==> 0 <= c < chunks
    ensures forall c :: 0 <= c < chunks - 1 ==> (Selects(WithLast(out, lastOnly, chunks), c) <==> Selects(out, c))
    ensures Selects(WithLast(out, lastOnly, chunks), chunks - 1) <==> Selects(out, chunks - 1) || lastOnly
  {
    if lastOnly && !Selects(out, chunks - 1) {
      NothingAtLast(out, chunks);
      forall c
        ensures Selects(out + [ChunkRange(chunks - 1, chunks)], c) <==> Selects(out, c) || c == chunks - 1
      {
        HoldsAppend(out, ChunkRange(chunks - 1, chunks), c);
      }
    }
  }

  lemma NothingAtLast(out: seq<ChunkRange>, chunks: U64)
    requires chunks > 0 && Sorted(out) && !Selects(out, chunks - 1)
    requires forall i :: 0 <= i < |out| ==> out[i].end <= chunks
    ensures Sorted(out + [ChunkRange(chunks - 1, chunks)])
  {
    forall i | 0 <= i < |out|
      ensures out[i].end <= chunks - 1
    {
      assert !(out[i].start <= chunks - 1 < out[i].end);
    }
  }

  /** The loop of selectChunks. */
  method ClipLoop(input: seq<ChunkRange>, chunks: U64) returns (sel: seq<ChunkRange>)
    requires chunks > 0
    ensures sel == Clip(input, chunks)
  {
    var last := chunks - 1;
    sel := [];
    var i := 0;
    while i < |input|
      invariant 0 <= i <= |input|
      invariant sel + Clip(input[i..], chunks) == Clip(input, chunks)
    {
      var r := input[i];
      assert input[i..][1..] == input[i + 1..];
      if r.start >= r.end {
      } else if r.end > last {
        sel := sel + [ChunkRange(Min(r.start, last), chunks)];
        return;
      } else {
        sel := sel + [ChunkRange(r.start, Min(r.end, chunks))];
      }
      i := i + 1;
    }
  }

  method ComputeSelection(ranges: ChunkRanges, chunks: U64) returns (sel: seq<ChunkRange>)
    ensures sel == SelectChunks(ranges, chunks)
  {
    var n := NormalizeRanges(ranges);
    if chunks == 0 {
      return [];
    }
    ClippedOk(n, chunks);
    sel := ClipLoop(Inputs(n), chunks);
    if LastOnly(n) {
      var last := chunks - 1;
      var held := Count(sel, last, chunks);
      CountDecides(sel, last, chunks);
      assert NoneSelected(sel, last, chunks) <==> !Selects(sel, last);
      if held == 0 {
        sel := sel + [ChunkRange(last, chunks)];
      }
    }
  }

  lemma HoldsCons(r: ChunkRange, rest: seq<ChunkRange>, c: int)
    ensures HoldsFinite([r] + rest, c) <==> HoldsFinite(rest, c) || r.start <= c < r.end
  {
    if HoldsFinite(rest, c) {
      var i :| 0 <= i < |rest| && rest[i].start <= c < rest[i].end;
      assert ([r] + rest)[i + 1] == rest[i];
    }
    assert ([r] + rest)[0] == r;
  }

  lemma ReachesCons(r: ChunkRange, rest: seq<ChunkRange>, last: int)
    ensures Reaches([r] + rest, last) <==> Reaches(rest, last) || r.end > last
  {
    if Reaches(rest, last) {
      var i :| 0 <= i < |rest| && rest[i].end > last;
      assert ([r] + rest)[i + 1] == rest[i];
    }
    assert ([r] + rest)[0] == r;
  }
}
