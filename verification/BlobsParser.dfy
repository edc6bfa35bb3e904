/** The cursor that decodes requests and the loops that encode them (blobs/ticket.go, blobs/protocol.go). */
module BlobsParser {
  import opened Bytes
  import opened BlobsRange
  import opened BlobsRangeOps
  import opened BlobsWire
  import opened BlobsRequest

  datatype Result<+T> = Value(value: T) | Fail(error: Error)

  method AppendVarint(b: seq<Byte>, n: U64) returns (out: seq<Byte>)
    ensures out == b + Varint(n)
  {
    out := b;
    var rest := n;
    while rest >= 0x80
      invariant 0 <= rest <= MAX64
      invariant out + Varint(rest) == b + Varint(n)
      decreases rest
    {
      out := out + [rest % 0x80 + 0x80];
      rest := rest / 0x80;
    }
    out := out + [rest];
  }

  method EncodeRangeSpec(b: seq<Byte>, spec: RangeSpec) returns (out: seq<Byte>)
    requires |spec.spans| <= MAX64
    ensures out == b + EncodeSpec(spec)
  {
    out := AppendVarint(b, |spec.spans|);
    var i := 0;
    while i < |spec.spans|
      invariant 0 <= i <= |spec.spans|
      invariant out + Varints(spec.spans[i..]) == b + EncodeSpec(spec)
    {
      out := AppendVarint(out, spec.spans[i]);
      i := i + 1;
    }
  }

  method ChunkRangeBoundaries(n: ChunkRanges) returns (bounds: seq<U64>)
    ensures bounds == AllBoundaries(n)
  {
    bounds := [];
    for i := 0 to |n.ranges|
      invariant bounds == Boundaries(n.ranges[..i])
    {
      assert n.ranges[..i + 1][..i] == n.ranges[..i];
      bounds := bounds + [n.ranges[i].start, n.ranges[i].end];
    }
    assert n.ranges[..|n.ranges|] == n.ranges;
    if n.open.Some? {
      bounds := bounds + [n.open.value];
    }
  }

  method Differences(bounds: seq<U64>) returns (spans: seq<U64>)
    ensures spans == Deltas(bounds)
  {
    spans := [];
    var prev: U64 := 0;
    for i := 0 to |bounds|
      invariant spans == Deltas(bounds[..i]) && prev == LastOr(bounds[..i], 0)
    {
      assert bounds[..i + 1][..i] == bounds[..i];
      spans := spans + [WrapSub(bounds[i], prev)];
      prev := bounds[i];
    }
    assert bounds[..|bounds|] == bounds;
  }

  /** The spans of the canonical boundaries; reading them back gives the canonical ranges. */
  method RangeSpecFromRanges(r: ChunkRanges) returns (spec: RangeSpec)
    ensures spec == SpecFromRanges(r)
    ensures SpecRanges(spec) == Normalize(r)
  {
    SpecRoundTrip(r);
    var n := NormalizeRanges(r);
    var bounds := ChunkRangeBoundaries(n);
    var spans := Differences(bounds);
    spec := RangeSpec(spans);
  }

  /** The span loop of RangeSpec.ChunkRanges. */
  method RangesOfSpec(spec: RangeSpec) returns (r: ChunkRanges)
    ensures r == SpecRanges(spec) && Canonical(r)
  {
    var current: U64, on := 0, false;
    var ranges: seq<ChunkRange> := [];
    for i := 0 to |spec.spans|
      invariant Spans(current, on, ranges) == SpanRun(spec.spans[..i])
    {
      assert spec.spans[..i + 1][..i] == spec.spans[..i];
      var next := WrapAdd(current, spec.spans[i]);
      if on && next > current {
        ranges := ranges + [ChunkRange(current, next)];
      }
      current, on := next, !on;
    }
    assert spec.spans[..|spec.spans|] == spec.spans;
    r := NormalizeRanges(ChunkRanges(ranges, if on then Some(current) else None));
  }

  method EncodeSeqEntry(b: seq<Byte>, e: SeqEntry, offset: U64) returns (out: seq<Byte>)
    requires |SpecFromRanges(e.ranges).spans| <= MAX64
    ensures out == b + EncodeEntry(e, offset)
  {
    out := AppendVarint(b, WrapSub(e.offset, offset));
    var spec := RangeSpecFromRanges(e.ranges);
    out := EncodeRangeSpec(out, spec);
    JoinAssociates(b, Varint(WrapSub(e.offset, offset)), EncodeSpec(spec));
  }

  method EncodeRangesSeq(b: seq<Byte>, s: ChunkRangesSeq) returns (out: seq<Byte>)
    requires Encodable(s.entries)
    ensures out == b + EncodeSeq(s)
  {
    out := AppendVarint(b, |s.entries|);
    var offset: U64, i := 0, 0;
    while i < |s.entries|
      invariant 0 <= i <= |s.entries|
      invariant out + EncodeEntries(s.entries[i..], offset) == b + EncodeSeq(s)
    {
      var e := s.entries[i];
      assert s.entries[i..][1..] == s.entries[i + 1..];
      ghost var before := out;
      out := EncodeSeqEntry(out, e, offset);
      JoinAssociates(before, EncodeEntry(e, offset), EncodeEntries(s.entries[i + 1..], e.offset));
      offset, i := e.offset, i + 1;
    }
    assert out + [] == out;
  }

  class Parser {
    const b: seq<Byte>
    var off: nat

    ghost predicate Valid()
      reads this
    {
      off <= |b|
    }

    constructor (b: seq<Byte>)
      ensures Valid() && this.b == b && off == 0
    {
      this.b := b;
      off := 0;
    }

    /** The bytes not yet read. */
    function Rest(): (rest: seq<Byte>)
      reads this
      requires Valid()
    {
      b[off..]
    }

    method Done() returns (done: bool)
      requires Valid()
      ensures done <==> Rest() == []
    {
      return off == |b|;
    }

    /** Go drops bits shifted past 64, but only on inputs whose varint ends in overflow. */
    method ReadVarint() returns (r: Result<U64>)
      requires Valid()
      modifies `off
      ensures Valid()
      ensures match BlobsWire.ReadVarint(old(Rest()))
              case Ok(v, rest) => r == Value(v) && Rest() == rest
              case Err(e) => r == Fail(e)
    {
      ghost var s := Rest();
      ParseVarintBounds(s, 0);
      LimitIsU64();
      var x: nat, scale: nat, i: nat := 0, 1, 0;
      while true
        invariant off <= |b|
        invariant ParseVarint(s, 0) == Scaled(ParseVarint(b[off..], i), x, scale)
        decreases |b| - off
      {
        if off >= |b| {
          return Fail(Truncated);
        }
        VarintGroup(s, b, off, i, x, scale);
        var c := b[off];
        off := off + 1;
        if c < 0x80 {
          if i > 9 || (i == 9 && c > 1) {
            return Fail(VarintOverflow);
          }
          return Value(x + c * scale);
        }
        x, scale, i := x + (c % 0x80) * scale, scale * 0x80, i + 1;
      }
    }

    method ReadBytes(n: nat) returns (r: Result<seq<Byte>>)
      requires Valid()
      modifies `off
      ensures Valid()
      ensures if |old(Rest())| < n then r == Fail(Truncated) && off == old(off)
              else r == Value(old(Rest())[..n]) && Rest() == old(Rest())[n..]
    {
      if |b| - off < n {
        return Fail(Truncated);
      }
      r := Value(b[off..off + n]);
      assert b[off..off + n] == b[off..][..n];
      off := off + n;
    }

    method ReadVarints(n: nat) returns (r: Result<seq<U64>>)
      requires Valid()
      modifies `off
      ensures Valid()
      ensures match BlobsWire.ReadVarints(old(Rest()), n)
              case Ok(v, rest) => r == Value(v) && Rest() == rest
              case Err(e) => r == Fail(e)
    {
      ghost var s := Rest();
      var xs: seq<U64> := [];
      PrependedNone(BlobsWire.ReadVarints(s, n));
      for i := 0 to n
        invariant Valid()
        invariant BlobsWire.ReadVarints(s, n) == Prepended(xs, BlobsWire.ReadVarints(Rest(), n - i))
      {
        var x := ReadVarint();
        if x.Fail? {
          return Fail(x.error);
        }
        PrependedTwice(xs, x.value, BlobsWire.ReadVarints(Rest(), n - i - 1));
        xs := xs + [x.value];
      }
      PrependedToNone(xs, Rest());
      return Value(xs);
    }

    method ReadRangeSpec() returns (r: Result<RangeSpec>)
      requires Valid()
      modifies `off
      ensures Valid()
      ensures match ReadSpec(old(Rest()))
              case Ok(v, rest) => r == Value(v) && Rest() == rest
              case Err(e) => r == Fail(e)
    {
      var n := ReadVarint();
      if n.Fail? {
        return Fail(n.error);
      }
      if n.value > |b| - off {
        return Fail(Truncated);
      }
      var spans := ReadVarints(n.value);
      if spans.Fail? {
        return Fail(spans.error);
      }
      return Value(RangeSpec(spans.value));
    }

    method ReadSeqEntry(offset: U64) returns (r: Result<SeqEntry>)
      requires Valid()
      modifies `off
      ensures Valid()
      ensures match ReadEntry(old(Rest()), offset)
              case Ok(v, rest) => r == Value(v) && Rest() == rest
              case Err(e) => r == Fail(e)
    {
      var delta := ReadVarint();
      if delta.Fail? {
        return Fail(delta.error);
      }
      var spec := ReadRangeSpec();
      if spec.Fail? {
        return Fail(spec.error);
      }
      var ranges := RangesOfSpec(spec.value);
      return Value(SeqEntry(WrapAdd(offset, delta.value), ranges));
    }

    method ReadSeqEntries(n: nat) returns (r: Result<seq<SeqEntry>>)
      requires Valid()
      modifies `off
      ensures Valid()
      ensures match ReadEntries(old(Rest()), n, 0)
              case Ok(v, rest) => r == Value(v) && Rest() == rest
              case Err(e) => r == Fail(e)
    {
      ghost var s := Rest();
      var entries: seq<SeqEntry>, offset: U64 := [], 0;
      PrependedNone(ReadEntries(s, n, 0));
      for i := 0 to n
        invariant Valid()
        invariant ReadEntries(s, n, 0) == Prepended(entries, ReadEntries(Rest(), n - i, offset))
      {
        var entry := ReadSeqEntry(offset);
        if entry.Fail? {
          return Fail(entry.error);
        }
        PrependedTwice(entries, entry.value, ReadEntries(Rest(), n - i - 1, entry.value.offset));
        entries, offset := entries + [entry.value], entry.value.offset;
      }
      PrependedToNone(entries, Rest());
      return Value(entries);
    }

    method ReadRangesSeq() returns (r: Result<ChunkRangesSeq>)
      requires Valid()
      modifies `off
      ensures Valid()
      ensures match ReadSeq(old(Rest()))
              case Ok(v, rest) => r == Value(v) && Rest() == rest
              case Err(e) => r == Fail(e)
    {
      var n := ReadVarint();
      if n.Fail? {
        return Fail(n.error);
      }
      if n.value > |b| - off {
        return Fail(Truncated);
      }
      var entries := ReadSeqEntries(n.value);
      if entries.Fail? {
        return Fail(entries.error);
      }
      return Value(ChunkRangesSeq(entries.value));
    }

    method ReadHash() returns (r: Result<Bytes32>)
      requires Valid()
      modifies `off
      ensures Valid()
      ensures match BlobsRequest.ReadHash(old(Rest()))
              case Ok(v, rest) => r == Value(v) && Rest() == rest
              case Err(e) => r == Fail(e)
    {
      var h := ReadBytes(HASH_SIZE);
      if h.Fail? {
        return Fail(h.error);
      }
      return Value(h.value);
    }

    method ReadHashes(n: nat) returns (r: Result<seq<Bytes32>>)
      requires Valid()
      modifies `off
      ensures Valid()
      ensures match BlobsRequest.ReadHashes(old(Rest()), n)
              case Ok(v, rest) => r == Value(v) && Rest() == rest
              case Err(e) => r == Fail(e)
    {
      ghost var s := Rest();
      var hashes: seq<Bytes32> := [];
      PrependedNone(BlobsRequest.ReadHashes(s, n));
      for i := 0 to n
        invariant Valid()
        invariant BlobsRequest.ReadHashes(s, n) == Prepended(hashes, BlobsRequest.ReadHashes(Rest(), n - i))
      {
        var h := ReadHash();
        if h.Fail? {
          return Fail(h.error);
        }
        PrependedTwice(hashes, h.value, BlobsRequest.ReadHashes(Rest(), n - i - 1));
        hashes := hashes + [h.value];
      }
      PrependedToNone(hashes, Rest());
      return Value(hashes);
    }

    method ReadGetRequest() returns (r: Result<GetRequest>)
      requires Valid()
      modifies `off
      ensures Valid()
      ensures match ReadGet(old(Rest()))
              case Ok(v, rest) => r == Value(v) && Rest() == rest
              case Err(e) => r == Fail(e)
    {
      var h := ReadHash();
      if h.Fail? {
        return Fail(h.error);
      }
      var ranges := ReadRangesSeq();
      if ranges.Fail? {
        return Fail(ranges.error);
      }
      return Value(GetRequest(h.value, ranges.value));
    }

    method ReadObserveRequest() returns (r: Result<ObserveRequest>)
      requires Valid()
      modifies `off
      ensures Valid()
      ensures match ReadObserve(old(Rest()))
              case Ok(v, rest) => r == Value(v) && Rest() == rest
              case Err(e) => r == Fail(e)
    {
      var h := ReadHash();
      if h.Fail? {
        return Fail(h.error);
      }
      var spec := ReadRangeSpec();
      if spec.Fail? {
        return Fail(spec.error);
      }
      return Value(ObserveRequest(h.value, spec.value));
    }

    method ReadGetManyRequest() returns (r: Result<GetManyRequest>)
      requires Valid()
      modifies `off
      ensures Valid()
      ensures match ReadGetMany(old(Rest()))
              case Ok(v, rest) => r == Value(v) && Rest() == rest
              case Err(e) => r == Fail(e)
    {
      var n := ReadVarint();
      if n.Fail? {
        return Fail(n.error);
      }
      if n.value > (|b| - off) / HASH_SIZE {
        return Fail(Truncated);
      }
      var hashes := ReadHashes(n.value);
      if hashes.Fail? {
        return Fail(hashes.error);
      }
      var ranges := ReadRangesSeq();
      if ranges.Fail? {
        return Fail(ranges.error);
      }
      return Value(GetManyRequest(hashes.value, ranges.value));
    }
  }

  /** Decodes a whole message; bytes left over are an error. */
  method DecodeRequestBytes(b: seq<Byte>) returns (r: Result<Request>)
    ensures match DecodeRequest(b)
            case Ok(v, _) => r == Value(v)
            case Err(e) => r == Fail(e)
  {
    var p := new Parser(b);
    assert p.Rest() == b;
    var kind := p.ReadVarint();
    if kind.Fail? {
      return Fail(kind.error);
    }
    if kind.value == REQUEST_GET {
      var g := p.ReadGetRequest();
      if g.Fail? {
        return Fail(g.error);
      }
      r := Value(Request(REQUEST_GET, Some(g.value), None, None));
    } else if kind.value == REQUEST_OBSERVE {
      var o := p.ReadObserveRequest();
      if o.Fail? {
        return Fail(o.error);
      }
      r := Value(Request(REQUEST_OBSERVE, None, Some(o.value), None));
    } else if kind.value == REQUEST_GET_MANY {
      var g := p.ReadGetManyRequest();
      if g.Fail? {
        return Fail(g.error);
      }
      r := Value(Request(REQUEST_GET_MANY, None, None, Some(g.value)));
    } else {
      return Fail(Unsupported);
    }
    var done := p.Done();
    if !done {
      return Fail(TrailingBytes);
    }
  }

  method EncodeGetRequestBytes(r: GetRequest) returns (b: seq<Byte>)
    requires Encodable(r.ranges.entries)
    ensures b == Varint(REQUEST_GET) + r.hash + EncodeSeq(r.ranges)
  {
    b := AppendVarint([], REQUEST_GET);
    b := EncodeRangesSeq(b + r.hash, r.ranges);
  }

  method EncodeObserveRequestBytes(r: ObserveRequest) returns (b: seq<Byte>)
    requires |r.ranges.spans| <= MAX64
    ensures b == Varint(REQUEST_OBSERVE) + r.hash + EncodeSpec(r.ranges)
  {
    b := AppendVarint([], REQUEST_OBSERVE);
    b := EncodeRangeSpec(b + r.hash, r.ranges);
  }

  method EncodeGetManyRequestBytes(r: GetManyRequest) returns (b: seq<Byte>)
    requires |r.hashes| <= MAX64 && Encodable(r.ranges.entries)
    ensures b == Varint(REQUEST_GET_MANY) + Varint(|r.hashes|) + EncodeHashes(r.hashes) + EncodeSeq(r.ranges)
  {
    b := AppendVarint([], REQUEST_GET_MANY);
    b := AppendVarint(b, |r.hashes|);
    b := AppendHashes(b, r.hashes);
    b := EncodeRangesSeq(b, r.ranges);
  }

  method EncodeRequestBytes(req: Request) returns (e: Encoded)
    requires FitsCounts(req)
    ensures e == EncodeRequest(req)
    ensures e.Bytes? ==> DecodeRequest(e.bytes) == Ok(CanonicalRequest(req), [])
  {
    if EncodeRequest(req).Bytes? {
      RequestRoundTrip(req);
    }
    var b: seq<Byte>;
    if req.kind == REQUEST_GET {
      if req.get == None {
        return Failed(Missing);
      }
      b := EncodeGetRequestBytes(req.get.value);
    } else if req.kind == REQUEST_OBSERVE {
      if req.observe == None {
        return Failed(Missing);
      }
      b := EncodeObserveRequestBytes(req.observe.value);
    } else if req.kind == REQUEST_GET_MANY {
      if req.getMany == None {
        return Failed(Missing);
      }
      b := EncodeGetManyRequestBytes(req.getMany.value);
    } else {
      return Failed(Unsupported);
    }
    e := Encoded.Bytes(b);
  }

  method AppendHashes(b: seq<Byte>, hashes: seq<Bytes32>) returns (out: seq<Byte>)
    ensures out == b + EncodeHashes(hashes)
  {
    out := b;
    for i := 0 to |hashes|
      invariant out + EncodeHashes(hashes[i..]) == b + EncodeHashes(hashes)
    {
      assert hashes[i..][1..] == hashes[i + 1..];
      JoinAssociates(out, hashes[i], EncodeHashes(hashes[i + 1..]));
      out := out + hashes[i];
    }
    assert out + [] == out;
  }

  /** A parsed list with xs already read before it. */
  function Prepended<T>(xs: seq<T>, r: Parsed<seq<T>>): (s: Parsed<seq<T>>)
  {
    match r
    case Ok(ys, rest) => Ok(xs + ys, rest)
    case Err(e) => Err(e)
  }

  lemma PrependedNone<T>(r: Parsed<seq<T>>)
    ensures Prepended([], r) == r
  {
    if r.Ok? {
      assert [] + r.value == r.value;
    }
  }

  lemma PrependedToNone<T>(xs: seq<T>, rest: seq<Byte>)
    ensures Prepended(xs, Ok([], rest)) == Ok(xs, rest)
  {
    assert xs + [] == xs;
  }

  lemma PrependedTwice<T>(xs: seq<T>, x: T, r: Parsed<seq<T>>)
    ensures Prepended(xs, Prepended([x], r)) == Prepended(xs + [x], r)
  {
    if r.Ok? {
      assert xs + ([x] + r.value) == xs + [x] + r.value;
    }
  }

  /** A parse result with x already accumulated below scale. */
  function Scaled(r: Parsed<nat>, x: nat, scale: nat): (s: Parsed<nat>)
  {
    match r
    case Ok(v, rest) => Ok(x + v * scale, rest)
    case Err(e) => Err(e)
  }

  lemma ParseVarintStep(b: seq<Byte>, off: nat, i: nat)
    requires off < |b|
    ensures b[off] >= 0x80 ==>
              ParseVarint(b[off..], i) == Scaled(ParseVarint(b[off + 1..], i + 1), b[off] % 0x80, 0x80)
    ensures b[off] < 0x80 ==>
              ParseVarint(b[off..], i) ==
              if i > 9 || (i == 9 && b[off] > 1) then Err(VarintOverflow) else Ok(b[off], b[off + 1..])
  {
    assert b[off..][1..] == b[off + 1..];
  }

  /** One more group, with the ones before it accumulated. */
  lemma VarintGroup(s: seq<Byte>, b: seq<Byte>, off: nat, i: nat, x: nat, scale: nat)
    requires off < |b| && ParseVarint(s, 0) == Scaled(ParseVarint(b[off..], i), x, scale)
    ensures b[off] >= 0x80 ==>
              ParseVarint(s, 0) == Scaled(ParseVarint(b[off + 1..], i + 1), x + (b[off] % 0x80) * scale, scale * 0x80)
    ensures b[off] < 0x80 ==>
              ParseVarint(s, 0) ==
              if i > 9 || (i == 9 && b[off] > 1) then Err(VarintOverflow) else Ok(x + b[off] * scale, b[off + 1..])
  {
    ParseVarintStep(b, off, i);
    Rescaled(ParseVarint(b[off + 1..], i + 1), x, scale, b[off] % 0x80);
  }

  lemma Rescaled(r: Parsed<nat>, x: nat, scale: nat, c: nat)
    ensures Scaled(Scaled(r, c, 0x80), x, scale) == Scaled(r, x + c * scale, scale * 0x80)
  {
    if r.Ok? {
      var v := r.value;
      assert (c + v * 0x80) * scale == c * scale + v * (scale * 0x80);
    }
  }
}
