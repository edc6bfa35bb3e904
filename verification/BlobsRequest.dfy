/** Range sequences and provider requests on the wire (blobs/range.go, blobs/protocol.go). */
module BlobsRequest {
  import opened Bytes
  import opened BlobsRange
  import opened BlobsWire

  // ----- range sequences

  datatype SeqEntry = SeqEntry(offset: U64, ranges: ChunkRanges)

  datatype ChunkRangesSeq = ChunkRangesSeq(entries: seq<SeqEntry>)

  /** Lengths that fit their 64-bit count, as every Go slice does. */
  predicate Encodable(entries: seq<SeqEntry>)
  {
    |entries| <= MAX64 && forall e :: e in entries ==> |SpecFromRanges(e.ranges).spans| <= MAX64
  }

  function EncodeEntry(e: SeqEntry, offset: U64): (b: seq<Byte>)
    requires |SpecFromRanges(e.ranges).spans| <= MAX64
    ensures b != []
  {
    Varint(WrapSub(e.offset, offset)) + EncodeSpec(SpecFromRanges(e.ranges))
  }

  /** Entries with offsets as 64-bit differences from the one before. */
  function EncodeEntries(entries: seq<SeqEntry>, offset: U64): (b: seq<Byte>)
    requires forall e :: e in entries ==> |SpecFromRanges(e.ranges).spans| <= MAX64
    ensures |b| >= |entries|
  {
    if entries == [] then []
    else EncodeEntry(entries[0], offset) + EncodeEntries(entries[1..], entries[0].offset)
  }

  function EncodeSeq(s: ChunkRangesSeq): (b: seq<Byte>)
    requires Encodable(s.entries)
  {
    Varint(|s.entries|) + EncodeEntries(s.entries, 0)
  }

  function ReadEntry(s: seq<Byte>, offset: U64): (r: Parsed<SeqEntry>)
  {
    match ReadVarint(s)
    case Err(e) => Err(e)
    case Ok(delta, s1) =>
      match ReadSpec(s1)
      case Err(e) => Err(e)
      case Ok(spec, s2) => Ok(SeqEntry(WrapAdd(offset, delta), SpecRanges(spec)), s2)
  }

  function ReadEntries(s: seq<Byte>, n: nat, offset: U64): (r: Parsed<seq<SeqEntry>>)
    ensures r.Ok? ==> |r.value| == n
    decreases n
  {
    if n == 0 then Ok([], s)
    else
      match ReadEntry(s, offset)
      case Err(e) => Err(e)
      case Ok(entry, s1) =>
        match ReadEntries(s1, n - 1, entry.offset)
        case Err(e) => Err(e)
        case Ok(entries, rest) => Ok([entry] + entries, rest)
  }

  function ReadSeq(s: seq<Byte>): (r: Parsed<ChunkRangesSeq>)
  {
    match ReadVarint(s)
    case Err(e) => Err(e)
    case Ok(n, s1) =>
      if n > |s1| then Err(Truncated)
      else
        match ReadEntries(s1, n, 0)
        case Err(e) => Err(e)
        case Ok(entries, rest) => Ok(ChunkRangesSeq(entries), rest)
  }

  function CanonicalEntry(e: SeqEntry): (c: SeqEntry)
  {
    SeqEntry(e.offset, Normalize(e.ranges))
  }

  /** The same selection with every range set in canonical form. */
  function CanonicalEntries(entries: seq<SeqEntry>): (c: seq<SeqEntry>)
  {
    if entries == [] then [] else [CanonicalEntry(entries[0])] + CanonicalEntries(entries[1..])
  }

  function CanonicalSeq(s: ChunkRangesSeq): (c: ChunkRangesSeq)
  {
    ChunkRangesSeq(CanonicalEntries(s.entries))
  }

  lemma EntryRoundTrip(e: SeqEntry, offset: U64, rest: seq<Byte>)
    requires |SpecFromRanges(e.ranges).spans| <= MAX64
    ensures ReadEntry(EncodeEntry(e, offset) + rest, offset) == Ok(CanonicalEntry(e), rest)
  {
    var delta, spec := WrapSub(e.offset, offset), SpecFromRanges(e.ranges);
    var s1 := EncodeSpec(spec) + rest;
    assert EncodeEntry(e, offset) + rest == Varint(delta) + s1;
    VarintRoundTrip(delta, s1);
    EncodeSpecRoundTrip(spec, rest);
    SpecRoundTrip(e.ranges);
  }

  lemma ReadEntriesStep(s: seq<Byte>, n: nat, offset: U64, entry: SeqEntry, tail: seq<Byte>,
                        entries: seq<SeqEntry>, rest: seq<Byte>)
    requires ReadEntry(s, offset) == Ok(entry, tail) && ReadEntries(tail, n, entry.offset) == Ok(entries, rest)
    ensures ReadEntries(s, n + 1, offset) == Ok([entry] + entries, rest)
  {
  }

  lemma EncodeEntriesStep(entries: seq<SeqEntry>, offset: U64, rest: seq<Byte>)
    requires entries != [] && forall e :: e in entries ==> |SpecFromRanges(e.ranges).spans| <= MAX64
    ensures EncodeEntries(entries, offset) + rest ==
            EncodeEntry(entries[0], offset) + (EncodeEntries(entries[1..], entries[0].offset) + rest)
  {
    JoinAssociates(EncodeEntry(entries[0], offset), EncodeEntries(entries[1..], entries[0].offset), rest);
  }

  lemma {:induction false} EntriesRoundTrip(entries: seq<SeqEntry>, offset: U64, rest: seq<Byte>)
    requires forall e :: e in entries ==> |SpecFromRanges(e.ranges).spans| <= MAX64
    ensures ReadEntries(EncodeEntries(entries, offset) + rest, |entries|, offset) == Ok(CanonicalEntries(entries), rest)
    decreases |entries|
  {
    if entries == [] {
      assert EncodeEntries(entries, offset) + rest == rest;
    } else {
      var e, more := entries[0], EncodeEntries(entries[1..], entries[0].offset);
      EncodeEntriesStep(entries, offset, rest);
      EntryRoundTrip(e, offset, more + rest);
      EntriesRoundTrip(entries[1..], e.offset, rest);
      ReadEntriesStep(EncodeEntry(e, offset) + (more + rest), |entries| - 1, offset, CanonicalEntry(e), more + rest,
                      CanonicalEntries(entries[1..]), rest);
    }
  }

  /** Offsets survive in any order, because their differences wrap; ranges come back canonical. */
  lemma SeqRoundTrip(s: ChunkRangesSeq, rest: seq<Byte>)
    requires Encodable(s.entries)
    ensures ReadSeq(EncodeSeq(s) + rest) == Ok(CanonicalSeq(s), rest)
  {
    var n, tail := |s.entries|, EncodeEntries(s.entries, 0) + rest;
    assert EncodeSeq(s) + rest == Varint(n) + tail;
    VarintRoundTrip(n, tail);
    EntriesRoundTrip(s.entries, 0, rest);
  }

  // ----- hashes

  const HASH_SIZE: nat := 32

  function ReadHash(s: seq<Byte>): (r: Parsed<Bytes32>)
  {
    if |s| < HASH_SIZE then Err(Truncated) else Ok(s[..HASH_SIZE], s[HASH_SIZE..])
  }

  function EncodeHashes(hashes: seq<Bytes32>): (b: seq<Byte>)
    ensures |b| == HASH_SIZE * |hashes|
  {
    if hashes == [] then [] else hashes[0] + EncodeHashes(hashes[1..])
  }

  function ReadHashes(s: seq<Byte>, n: nat): (r: Parsed<seq<Bytes32>>)
    ensures r.Ok? ==> |r.value| == n
    decreases n
  {
    if n == 0 then Ok([], s)
    else
      match ReadHash(s)
      case Err(e) => Err(e)
      case Ok(h, s1) =>
        match ReadHashes(s1, n - 1)
        case Err(e) => Err(e)
        case Ok(hashes, rest) => Ok([h] + hashes, rest)
  }

  lemma {:induction false} HashesRoundTrip(hashes: seq<Bytes32>, rest: seq<Byte>)
    ensures ReadHashes(EncodeHashes(hashes) + rest, |hashes|) == Ok(hashes, rest)
    decreases |hashes|
  {
    if hashes == [] {
      assert EncodeHashes(hashes) + rest == rest;
    } else {
      var tail := EncodeHashes(hashes[1..]) + rest;
      var s := EncodeHashes(hashes) + rest;
      assert s == hashes[0] + tail;
      assert s[..HASH_SIZE] == hashes[0] && s[HASH_SIZE..] == tail;
      HashesRoundTrip(hashes[1..], rest);
      assert hashes == [hashes[0]] + hashes[1..];
    }
  }

  // ----- requests

  datatype GetRequest = GetRequest(hash: Bytes32, ranges: ChunkRangesSeq)
  datatype ObserveRequest = ObserveRequest(hash: Bytes32, ranges: RangeSpec)
  datatype GetManyRequest = GetManyRequest(hashes: seq<Bytes32>, ranges: ChunkRangesSeq)

  const REQUEST_GET: U64 := 0
  const REQUEST_OBSERVE: U64 := 1
  const REQUEST_GET_MANY: U64 := 9

  datatype Request = Request(kind: U64, get: Option<GetRequest>, observe: Option<ObserveRequest>,
                             getMany: Option<GetManyRequest>)

  datatype Encoded = Bytes(bytes: seq<Byte>) | Failed(error: Error)

  predicate FitsCounts(req: Request)
  {
    && (req.get.Some? ==> Encodable(req.get.value.ranges.entries))
    && (req.observe.Some? ==> |req.observe.value.ranges.spans| <= MAX64)
    && (req.getMany.Some? ==> |req.getMany.value.hashes| <= MAX64 && Encodable(req.getMany.value.ranges.entries))
  }

  function EncodeRequest(req: Request): (e: Encoded)
    requires FitsCounts(req)
  {
    if req.kind == REQUEST_GET then
      match req.get
      case None => Failed(Missing)
      case Some(r) => Bytes(Varint(REQUEST_GET) + r.hash + EncodeSeq(r.ranges))
    else if req.kind == REQUEST_OBSERVE then
      match req.observe
      case None => Failed(Missing)
      case Some(r) => Bytes(Varint(REQUEST_OBSERVE) + r.hash + EncodeSpec(r.ranges))
    else if req.kind == REQUEST_GET_MANY then
      match req.getMany
      case None => Failed(Missing)
      case Some(r) =>
        Bytes(Varint(REQUEST_GET_MANY) + Varint(|r.hashes|) + EncodeHashes(r.hashes) + EncodeSeq(r.ranges))
    else Failed(Unsupported)
  }

  function ReadGet(s: seq<Byte>): (r: Parsed<GetRequest>)
  {
    match ReadHash(s)
    case Err(e) => Err(e)
    case Ok(hash, s1) =>
      match ReadSeq(s1)
      case Err(e) => Err(e)
      case Ok(ranges, rest) => Ok(GetRequest(hash, ranges), rest)
  }

  function ReadObserve(s: seq<Byte>): (r: Parsed<ObserveRequest>)
  {
    match ReadHash(s)
    case Err(e) => Err(e)
    case Ok(hash, s1) =>
      match ReadSpec(s1)
      case Err(e) => Err(e)
      case Ok(ranges, rest) => Ok(ObserveRequest(hash, ranges), rest)
  }

  function ReadGetMany(s: seq<Byte>): (r: Parsed<GetManyRequest>)
  {
    match ReadVarint(s)
    case Err(e) => Err(e)
    case Ok(n, s1) =>
      if n > |s1| / HASH_SIZE then Err(Truncated)
      else
        match ReadHashes(s1, n)
        case Err(e) => Err(e)
        case Ok(hashes, s2) =>
          match ReadSeq(s2)
          case Err(e) => Err(e)
          case Ok(ranges, rest) => Ok(GetManyRequest(hashes, ranges), rest)
  }

  function ReadRequest(s: seq<Byte>): (r: Parsed<Request>)
  {
    match ReadVarint(s)
    case Err(e) => Err(e)
    case Ok(kind, s1) =>
      if kind == REQUEST_GET then
        match ReadGet(s1)
        case Err(e) => Err(e)
        case Ok(g, rest) => Ok(Request(REQUEST_GET, Some(g), None, None), rest)
      else if kind == REQUEST_OBSERVE then
        match ReadObserve(s1)
        case Err(e) => Err(e)
        case Ok(o, rest) => Ok(Request(REQUEST_OBSERVE, None, Some(o), None), rest)
      else if kind == REQUEST_GET_MANY then
        match ReadGetMany(s1)
        case Err(e) => Err(e)
        case Ok(g, rest) => Ok(Request(REQUEST_GET_MANY, None, None, Some(g)), rest)
      else Err(Unsupported)
  }

  /** Decoding must use every byte. */
  function DecodeRequest(s: seq<Byte>): (r: Parsed<Request>)
  {
    match ReadRequest(s)
    case Err(e) => Err(e)
    case Ok(req, rest) => if rest != [] then Err(TrailingBytes) else Ok(req, rest)
  }

  /** What comes back: the part named by the kind, with canonical ranges. */
  function CanonicalRequest(req: Request): (c: Request)
    requires FitsCounts(req) && EncodeRequest(req).Bytes?
  {
    if req.kind == REQUEST_GET then
      Request(REQUEST_GET, Some(GetRequest(req.get.value.hash, CanonicalSeq(req.get.value.ranges))), None, None)
    else if req.kind == REQUEST_OBSERVE then
      Request(REQUEST_OBSERVE, None, req.observe, None)
    else
      var r := req.getMany.value;
      Request(REQUEST_GET_MANY, None, None, Some(GetManyRequest(r.hashes, CanonicalSeq(r.ranges))))
  }

  lemma GetRoundTrip(r: GetRequest)
    requires Encodable(r.ranges.entries)
    ensures ReadGet(r.hash + EncodeSeq(r.ranges)) == Ok(GetRequest(r.hash, CanonicalSeq(r.ranges)), [])
  {
    var s := r.hash + EncodeSeq(r.ranges);
    assert s[..HASH_SIZE] == r.hash && s[HASH_SIZE..] == EncodeSeq(r.ranges);
    assert EncodeSeq(r.ranges) + [] == EncodeSeq(r.ranges);
    SeqRoundTrip(r.ranges, []);
  }

  lemma ObserveRoundTrip(r: ObserveRequest)
    requires |r.ranges.spans| <= MAX64
    ensures ReadObserve(r.hash + EncodeSpec(r.ranges)) == Ok(r, [])
  {
    var s := r.hash + EncodeSpec(r.ranges);
    assert s[..HASH_SIZE] == r.hash && s[HASH_SIZE..] == EncodeSpec(r.ranges);
    assert EncodeSpec(r.ranges) + [] == EncodeSpec(r.ranges);
    EncodeSpecRoundTrip(r.ranges, []);
  }

  lemma GetManyRoundTrip(r: GetManyRequest)
    requires |r.hashes| <= MAX64 && Encodable(r.ranges.entries)
    ensures ReadGetMany(Varint(|r.hashes|) + EncodeHashes(r.hashes) + EncodeSeq(r.ranges)) ==
            Ok(GetManyRequest(r.hashes, CanonicalSeq(r.ranges)), [])
  {
    var n, tail := |r.hashes|, EncodeSeq(r.ranges);
    var s1 := EncodeHashes(r.hashes) + tail;
    assert Varint(n) + EncodeHashes(r.hashes) + tail == Varint(n) + s1;
    VarintRoundTrip(n, s1);
    assert n <= |s1| / HASH_SIZE;
    HashesRoundTrip(r.hashes, tail);
    assert tail + [] == tail;
    SeqRoundTrip(r.ranges, []);
  }

  /**
   Every request that can be encoded decodes, from all of its bytes, to the same
   request with its ranges in canonical form.
   */
  lemma RequestRoundTrip(req: Request)
    requires FitsCounts(req) && EncodeRequest(req).Bytes?
    ensures DecodeRequest(EncodeRequest(req).bytes) == Ok(CanonicalRequest(req), [])
  {
    if req.kind == REQUEST_GET {
      var r := req.get.value;
      assert EncodeRequest(req).bytes == Varint(REQUEST_GET) + (r.hash + EncodeSeq(r.ranges));
      VarintRoundTrip(REQUEST_GET, r.hash + EncodeSeq(r.ranges));
      GetRoundTrip(r);
    } else if req.kind == REQUEST_OBSERVE {
      var r := req.observe.value;
      assert EncodeRequest(req).bytes == Varint(REQUEST_OBSERVE) + (r.hash + EncodeSpec(r.ranges));
      VarintRoundTrip(REQUEST_OBSERVE, r.hash + EncodeSpec(r.ranges));
      ObserveRoundTrip(r);
    } else {
      var r := req.getMany.value;
      var body := Varint(|r.hashes|) + EncodeHashes(r.hashes) + EncodeSeq(r.ranges);
      assert EncodeRequest(req).bytes == Varint(REQUEST_GET_MANY) + body;
      VarintRoundTrip(REQUEST_GET_MANY, body);
      GetManyRoundTrip(r);
    }
  }
}
