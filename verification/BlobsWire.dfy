/** The wire form of requests (blobs/ticket.go, blobs/range.go, blobs/protocol.go) as functions on bytes. */
module BlobsWire {
  import opened Bytes
  import opened BlobsRange

  datatype Error = Truncated | VarintOverflow | TrailingBytes | Unsupported | Missing

  /** A decoded value and the bytes after it. */
  datatype Parsed<+T> = Ok(value: T, rest: seq<Byte>) | Err(error: Error)

  // ----- varints

  /** Little-endian groups of seven bits, the high bit set on all but the last. */
  function Varint(n: U64): (b: seq<Byte>)
    ensures b != []
  {
    if n < 0x80 then [n] else [n % 0x80 + 0x80] + Varint(n / 0x80)
  }

  /** Reads a varint whose first i groups have been read; at most ten groups, the tenth at most one. */
  function ParseVarint(s: seq<Byte>, i: nat): (r: Parsed<nat>)
  {
    if s == [] then Err(Truncated)
    else if s[0] < 0x80 then
      if i > 9 || (i == 9 && s[0] > 1) then Err(VarintOverflow) else Ok(s[0], s[1..])
    else
      match ParseVarint(s[1..], i + 1)
      case Ok(v, rest) => Ok(s[0] % 0x80 + 0x80 * v, rest)
      case Err(e) => Err(e)
  }

  /** The largest value that fits the groups left after i. */
  function Limit(i: nat): (n: nat)
    requires i <= 9
    ensures n >= 2
    decreases 9 - i
  {
    if i == 9 then 2 else 0x80 * Limit(i + 1)
  }

  lemma LimitIsU64()
    ensures Limit(0) == MAX64 + 1
  {
    assert Limit(8) == 0x100;
    assert Limit(6) == 0x40_0000;
    assert Limit(4) == 0x10_0000_0000;
    assert Limit(2) == 0x4_0000_0000_0000;
  }

  lemma {:induction false} VarintRoundTripAt(n: U64, rest: seq<Byte>, i: nat)
    requires i <= 9 && n < Limit(i)
    ensures ParseVarint(Varint(n) + rest, i) == Ok(n, rest) && |Varint(n)| <= 10 - i
    decreases n
  {
    var s := Varint(n) + rest;
    if n < 0x80 {
      assert s[1..] == rest;
    } else {
      assert s[1..] == Varint(n / 0x80) + rest;
      VarintRoundTripAt(n / 0x80, rest, i + 1);
    }
  }

  /** Any 64-bit value survives, in at most ten bytes, and nothing after it is consumed. */
  lemma VarintRoundTrip(n: U64, rest: seq<Byte>)
    ensures ParseVarint(Varint(n) + rest, 0) == Ok(n, rest) && |Varint(n)| <= 10
  {
    LimitIsU64();
    VarintRoundTripAt(n, rest, 0);
  }

  lemma {:induction false} ParseVarintBounds(s: seq<Byte>, i: nat)
    ensures ParseVarint(s, i).Ok? ==> i <= 9 && ParseVarint(s, i).value < Limit(i)
    decreases |s|
  {
    if s != [] && s[0] >= 0x80 {
      ParseVarintBounds(s[1..], i + 1);
    }
  }

  /** What is read is a 64-bit value. */
  function ReadVarint(s: seq<Byte>): (r: Parsed<U64>)
  {
    ParseVarintBounds(s, 0);
    LimitIsU64();
    match ParseVarint(s, 0)
    case Ok(v, rest) => Ok(v, rest)
    case Err(e) => Err(e)
  }

  // ----- lists of varints

  function Varints(xs: seq<U64>): (b: seq<Byte>)
    ensures |b| >= |xs|
  {
    if xs == [] then [] else Varint(xs[0]) + Varints(xs[1..])
  }

  function ReadVarints(s: seq<Byte>, n: nat): (r: Parsed<seq<U64>>)
    ensures r.Ok? ==> |r.value| == n
    decreases n
  {
    if n == 0 then Ok([], s)
    else
      match ReadVarint(s)
      case Err(e) => Err(e)
      case Ok(x, s') =>
        match ReadVarints(s', n - 1)
        case Err(e) => Err(e)
        case Ok(xs, rest) => Ok([x] + xs, rest)
  }

  lemma ReadVarintsStep(s: seq<Byte>, n: nat, x: U64, tail: seq<Byte>, xs: seq<U64>, rest: seq<Byte>)
    requires ReadVarint(s) == Ok(x, tail) && ReadVarints(tail, n) == Ok(xs, rest)
    ensures ReadVarints(s, n + 1) == Ok([x] + xs, rest)
  {
  }

  lemma {:induction false} VarintsRoundTrip(xs: seq<U64>, rest: seq<Byte>)
    ensures ReadVarints(Varints(xs) + rest, |xs|) == Ok(xs, rest)
    decreases |xs|
  {
    if xs == [] {
      assert Varints(xs) + rest == rest;
    } else {
      var x, tail := xs[0], Varints(xs[1..]) + rest;
      assert Varints(xs) + rest == Varint(x) + tail;
      VarintRoundTrip(x, tail);
      VarintsRoundTrip(xs[1..], rest);
      ReadVarintsStep(Varint(x) + tail, |xs| - 1, x, tail, xs[1..], rest);
      assert xs == [x] + xs[1..];
    }
  }

  // ----- range specs

  datatype RangeSpec = RangeSpec(spans: seq<U64>)

  function Boundaries(ranges: seq<ChunkRange>): (b: seq<U64>)
    ensures |b| == 2 * |ranges|
  {
    if ranges == [] then []
    else
      var last := ranges[|ranges| - 1];
      Boundaries(ranges[..|ranges| - 1]) + [last.start, last.end]
  }

  function AllBoundaries(r: ChunkRanges): (b: seq<U64>)
  {
    Boundaries(r.ranges) + if r.open.Some? then [r.open.value] else []
  }

  /** 64-bit addition and subtraction. */
  function WrapAdd(a: U64, b: U64): (c: U64)
  {
    if a + b <= MAX64 then a + b else a + b - MAX64 - 1
  }

  function WrapSub(a: U64, b: U64): (c: U64)
    ensures WrapAdd(b, c) == a
  {
    if a >= b then a - b else a - b + MAX64 + 1
  }

  function LastOr(xs: seq<U64>, x: U64): (last: U64)
  {
    if xs == [] then x else xs[|xs| - 1]
  }

  /** Differences of successive boundaries. */
  function Deltas(bounds: seq<U64>): (spans: seq<U64>)
    ensures |spans| == |bounds|
  {
    if bounds == [] then []
    else
      var init := bounds[..|bounds| - 1];
      Deltas(init) + [WrapSub(bounds[|bounds| - 1], LastOr(init, 0))]
  }

  function SpecFromRanges(r: ChunkRanges): (s: RangeSpec)
  {
    RangeSpec(Deltas(AllBoundaries(Normalize(r))))
  }

  /** The state of the span loop: position, whether the span is selected, ranges so far. */
  datatype Spans = Spans(current: U64, on: bool, ranges: seq<ChunkRange>)

  function SpanStep(s: Spans, width: U64): (t: Spans)
  {
    var next := WrapAdd(s.current, width);
    Spans(next, !s.on, if s.on && next > s.current then s.ranges + [ChunkRange(s.current, next)] else s.ranges)
  }

  function SpanRun(spans: seq<U64>): (s: Spans)
  {
    if spans == [] then Spans(0, false, []) else SpanStep(SpanRun(spans[..|spans| - 1]), spans[|spans| - 1])
  }

  function SpecRanges(spec: RangeSpec): (r: ChunkRanges)
  {
    var s := SpanRun(spec.spans);
    Normalize(ChunkRanges(s.ranges, if s.on then Some(s.current) else None))
  }

  /** The position after the spans of a boundary list is the last boundary. */
  lemma SpanRunAppend(bounds: seq<U64>, bound: U64)
    requires SpanRun(Deltas(bounds)).current == LastOr(bounds, 0)
    ensures SpanRun(Deltas(bounds + [bound])) ==
            SpanStep(SpanRun(Deltas(bounds)), WrapSub(bound, LastOr(bounds, 0)))
    ensures SpanRun(Deltas(bounds + [bound])).current == bound == LastOr(bounds + [bound], 0)
  {
    assert (bounds + [bound])[..|bounds|] == bounds;
    var d := WrapSub(bound, LastOr(bounds, 0));
    assert Deltas(bounds + [bound]) == Deltas(bounds) + [d];
    assert (Deltas(bounds) + [d])[..|bounds|] == Deltas(bounds);
  }

  lemma RangeRebuilt(bounds: seq<U64>, ranges: seq<ChunkRange>, r: ChunkRange)
    requires SpanRun(Deltas(bounds)) == Spans(LastOr(bounds, 0), false, ranges) && r.start < r.end
    ensures SpanRun(Deltas(bounds + [r.start, r.end])) == Spans(r.end, false, ranges + [r])
  {
    SpanRunAppend(bounds, r.start);
    var mid := bounds + [r.start];
    assert SpanRun(Deltas(mid)) == Spans(r.start, true, ranges);
    SpanRunAppend(mid, r.end);
    assert mid + [r.end] == bounds + [r.start, r.end];
  }

  /** Running the spans of nonempty ranges rebuilds the ranges. */
  lemma {:induction false} SpansRebuild(ranges: seq<ChunkRange>)
    requires Separated(ranges)
    ensures SpanRun(Deltas(Boundaries(ranges))) == Spans(LastOr(Boundaries(ranges), 0), false, ranges)
    decreases |ranges|
  {
    if ranges != [] {
      var init, last := ranges[..|ranges| - 1], ranges[|ranges| - 1];
      SpansRebuild(init);
      var b := Boundaries(init);
      RangeRebuilt(b, init, last);
      assert Boundaries(ranges) == b + [last.start, last.end];
      assert LastOr(b + [last.start, last.end], 0) == last.end;
      assert ranges == init + [last];
    }
  }

  /** Converting to spans and back gives the canonical form of the same selection. */
  lemma SpecRoundTrip(r: ChunkRanges)
    ensures SpecRanges(SpecFromRanges(r)) == Normalize(r)
  {
    var n := Normalize(r);
    NormalizeOk(r);
    SpansRebuild(n.ranges);
    SpansOfCanonical(n);
    NormalizeIsIdempotent(n);
  }

  lemma SpansOfCanonical(n: ChunkRanges)
    requires SpanRun(Deltas(Boundaries(n.ranges))) == Spans(LastOr(Boundaries(n.ranges), 0), false, n.ranges)
    ensures var s := SpanRun(Deltas(AllBoundaries(n)));
            ChunkRanges(s.ranges, if s.on then Some(s.current) else None) == n
  {
    if n.open.Some? {
      SpanRunAppend(Boundaries(n.ranges), n.open.value);
    } else {
      assert AllBoundaries(n) == Boundaries(n.ranges);
    }
  }

  function EncodeSpec(spec: RangeSpec): (b: seq<Byte>)
    requires |spec.spans| <= MAX64
    ensures b != []
  {
    Varint(|spec.spans|) + Varints(spec.spans)
  }

  function ReadSpec(s: seq<Byte>): (r: Parsed<RangeSpec>)
  {
    match ReadVarint(s)
    case Err(e) => Err(e)
    case Ok(n, s') =>
      if n > |s'| then Err(Truncated)
      else
        match ReadVarints(s', n)
        case Err(e) => Err(e)
        case Ok(spans, rest) => Ok(RangeSpec(spans), rest)
  }

  lemma EncodeSpecRoundTrip(spec: RangeSpec, rest: seq<Byte>)
    requires |spec.spans| <= MAX64
    ensures ReadSpec(EncodeSpec(spec) + rest) == Ok(spec, rest)
  {
    var n := |spec.spans|;
    assert EncodeSpec(spec) + rest == Varint(n) + (Varints(spec.spans) + rest);
    VarintRoundTrip(n, Varints(spec.spans) + rest);
    VarintsRoundTrip(spec.spans, rest);
  }
}
