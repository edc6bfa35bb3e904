/** The loops of blobs/range.go and blobs/bitfield.go over chunk ranges, against their meaning. */
module BlobsRangeOps {
  import opened Bytes
  import opened BlobsRange

  method NormalizeRanges(r: ChunkRanges) returns (n: ChunkRanges)
    ensures n == Normalize(r)
    ensures Canonical(n)
    ensures forall c :: Holds(n, c) <==> Holds(r, c)
  {
    NormalizeOk(r);
    var sorted := SortRanges(r.ranges);
    var out: seq<ChunkRange> := [];
    for i := 0 to |sorted|
      invariant out == Merge(sorted[..i])
    {
      assert sorted[..i + 1][..i] == sorted[..i];
      var cr := sorted[i];
      if cr.start >= cr.end {
      } else if out == [] || cr.start > out[|out| - 1].end {
        out := out + [cr];
      } else if cr.end > out[|out| - 1].end {
        out := out[|out| - 1 := ChunkRange(out[|out| - 1].start, cr.end)];
      }
    }
    assert sorted[..|sorted|] == sorted;
    match r.open
    case None => n := ChunkRanges(out, None);
    case Some(open) =>
      var start := open;
      while out != [] && out[|out| - 1].end >= start
        invariant Absorb(out, start) == Normalize(r)
        decreases |out|
      {
        if out[|out| - 1].start < start {
          start := out[|out| - 1].start;
        }
        out := out[..|out| - 1];
      }
      n := ChunkRanges(out, Some(start));
  }

  method ChunkRangesEqual(a: ChunkRanges, b: ChunkRanges) returns (equal: bool)
    ensures equal <==> SameSet(a, b)
  {
    EqualityDecidesSameSet(a, b);
    var x := NormalizeRanges(a);
    var y := NormalizeRanges(b);
    if |x.ranges| != |y.ranges| {
      return false;
    }
    for i := 0 to |x.ranges|
      invariant x.ranges[..i] == y.ranges[..i]
    {
      if x.ranges[i] != y.ranges[i] {
        return false;
      }
    }
    assert x.ranges == x.ranges[..|x.ranges|] == y.ranges[..|y.ranges|] == y.ranges;
    if x.open == None || y.open == None {
      return x.open == None && y.open == None;
    }
    return x.open.value == y.open.value;
  }

  method ContainsChunk(r: ChunkRanges, chunk: U64) returns (held: bool)
    ensures held <==> Holds(r, chunk)
  {
    var n := NormalizeRanges(r);
    for i := 0 to |n.ranges|
      invariant forall j :: 0 <= j < i ==> !(n.ranges[j].start <= chunk < n.ranges[j].end)
    {
      if n.ranges[i].start <= chunk && chunk < n.ranges[i].end {
        return true;
      }
    }
    if n.open.Some? && n.open.value <= chunk {
      return true;
    }
    return false;
  }

  ghost predicate Within(r: ChunkRange, have: ChunkRanges)
  {
    forall c :: r.start <= c < r.end ==> Holds(have, c)
  }

  /** In canonical ranges, an interval is held whole only inside one range or after the open start. */
  lemma WithinOneRange(r: ChunkRange, have: ChunkRanges)
    requires Canonical(have) && r.start < r.end && Within(r, have)
    requires !(have.open.Some? && have.open.value <= r.start)
    ensures exists i :: 0 <= i < |have.ranges| && have.ranges[i].start <= r.start && r.end <= have.ranges[i].end
  {
    assert Holds(have, r.start);
    var i :| 0 <= i < |have.ranges| && have.ranges[i].start <= r.start < have.ranges[i].end;
    assert !Holds(have, have.ranges[i].end);
  }

  /** r lies in one of the ranges, or after the open start. */
  predicate InOneRange(r: ChunkRange, have: ChunkRanges)
  {
    || r.start >= r.end
    || (exists i :: 0 <= i < |have.ranges| && have.ranges[i].start <= r.start && r.end <= have.ranges[i].end)
    || (have.open.Some? && have.open.value <= r.start)
  }

  /** Exact for canonical ranges; of others it may miss a range that several cover together. */
  method ChunkRangeCovered(r: ChunkRange, have: ChunkRanges) returns (covered: bool)
    ensures covered <==> InOneRange(r, have)
    ensures covered ==> Within(r, have)
    ensures Canonical(have) ==> (covered <==> Within(r, have))
  {
    if r.start >= r.end {
      return true;
    }
    for i := 0 to |have.ranges|
      invariant forall j :: 0 <= j < i ==> !(have.ranges[j].start <= r.start && r.end <= have.ranges[j].end)
    {
      if have.ranges[i].start <= r.start && r.end <= have.ranges[i].end {
        return true;
      }
    }
    covered := have.open.Some? && have.open.value <= r.start;
    if Canonical(have) && !covered && Within(r, have) {
      WithinOneRange(r, have);
      assert false;
    }
  }

  /** Decides inclusion of the selected chunk indices. */
  method ChunkRangesSubset(need: ChunkRanges, have: ChunkRanges) returns (subset: bool)
    ensures subset <==> forall c: U64 :: Holds(need, c) ==> Holds(have, c)
  {
    var n := NormalizeRanges(need);
    var h := NormalizeRanges(have);
    for i := 0 to |n.ranges|
      invariant forall j :: 0 <= j < i ==> Within(n.ranges[j], h)
    {
      var covered := ChunkRangeCovered(n.ranges[i], h);
      if !covered {
        NotWithin(n, i, h);
        return false;
      }
    }
    if n.open.Some? {
      if h.open == None || h.open.value > n.open.value {
        assert Holds(n, MAX64) && Holds(n, n.open.value);
        OpenNotWithin(n, h);
        return false;
      }
    }
    forall c: U64 | Holds(n, c)
      ensures Holds(h, c)
    {
      if HoldsFinite(n.ranges, c) {
        var i :| 0 <= i < |n.ranges| && n.ranges[i].start <= c < n.ranges[i].end;
        assert Within(n.ranges[i], h);
      }
    }
    return true;
  }

  lemma NotWithin(n: ChunkRanges, i: nat, h: ChunkRanges)
    requires i < |n.ranges| && !Within(n.ranges[i], h)
    ensures exists c: U64 :: Holds(n, c) && !Holds(h, c)
  {
    var c :| n.ranges[i].start <= c < n.ranges[i].end && !Holds(h, c);
    var d: U64 := c;
    assert Holds(n, d);
  }

  /** An open need is not met by finite ranges, nor by a later open start. */
  lemma OpenNotWithin(n: ChunkRanges, h: ChunkRanges)
    requires Canonical(h) && n.open.Some? && (h.open == None || h.open.value > n.open.value)
    ensures exists c: U64 :: Holds(n, c) && !Holds(h, c)
  {
    var c: U64 := if h.open == None then MAX64 else h.open.value - 1;
    assert Holds(n, c);
  }
}
