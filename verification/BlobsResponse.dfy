/** Whole responses: EncodeBlobChunks and DecodeBlobChunksToWriter (blobs/chunkrange_bao.go). */
module BlobsResponse {
  import opened Bytes
  import opened BlobsRange
  import opened BlobsSelect
  import opened BlobsTree
  import opened BlobsCodec
  import opened BlobsRoundTrip
  import opened BlobsSound
  import opened BlobsOutboard

  const MAX_INT64: int := 0x7FFF_FFFF_FFFF_FFFF

  datatype Verdict = Accepted | Unsupported | Rejected

  /** What an encoder wrote, and how it ended. */
  datatype Response = Response(verdict: Verdict, out: seq<Byte>)

  /** What a decoder reports and wrote, and what it left unread. */
  datatype Received = Received(verdict: Verdict, size: nat, out: seq<Byte>, rest: seq<Byte>)

  function Judge(ok: bool): (v: Verdict) { if ok then Accepted else Rejected }

  /** The size fits, so its chunk count and all offsets below it do. */
  function ChunksIn(size: nat): (n: U64)
    requires size <= MAX_INT64
    ensures size > 0 ==> n > 0
  {
    ChunkCount(size)
  }

  /** The selected chunks of a blob, for the size a response states. */
  function Selected(d: seq<Byte>, size: nat, ranges: ChunkRanges): (b: seq<Byte>)
    requires size <= MAX_INT64
  {
    Picked(ChunksOf(d), SelectChunks(ranges, ChunksIn(size)), 0, ChunksIn(size))
  }

  ghost function EncodeBlob(h: Hasher, hash: Bytes32, src: Source, ranges: ChunkRanges): (r: Response)
  {
    if src.size > MAX_INT64 then Response(Unsupported, [])
    else if src.size == 0 then Response(Judge(hash == RootHash(h, [])), LeBytes(0, 8))
    else
      var sel := SelectChunks(ranges, ChunksIn(src.size));
      if sel == [] then Response(Unsupported, LeBytes(src.size, 8))
      else
        var e := EncodeSubtree(h, src, sel, BlobTree(src.size), true, 8, BytesToCv(hash));
        Response(Judge(e.ok), LeBytes(src.size, 8) + e.out)
  }

  ghost function DecodeBlob(h: Hasher, hash: Bytes32, input: seq<Byte>, ranges: ChunkRanges): (r: Received)
  {
    if |input| < 8 then Received(Rejected, 0, [], input)
    else
      var size, body := LeValue(input[..8]), input[8..];
      if size > MAX_INT64 then Received(Unsupported, 0, [], body)
      else if size == 0 then Received(Judge(hash == RootHash(h, [])), 0, [], body)
      else
        var sel := SelectChunks(ranges, ChunksIn(size));
        if sel == [] then Received(Rejected, 0, [], body)
        else
          var d := Decode(h, size, sel, BlobTree(size), true, BytesToCv(hash), body);
          if d.ok then Received(Accepted, size, d.out, d.rest) else Received(Rejected, 0, d.out, d.rest)
  }

  // ----- round trip

  lemma SizeRoundTrip(size: nat, rest: seq<Byte>)
    requires size <= MAX_INT64
    ensures LeValue((LeBytes(size, 8) + rest)[..8]) == size && (LeBytes(size, 8) + rest)[8..] == rest
  {
    assert Pow256(4) == 0x1_0000_0000;
    assert Pow256(8) == 0x1_0000_0000_0000_0000;
    LeRoundTrip(size, 8);
    assert (LeBytes(size, 8) + rest)[..8] == LeBytes(size, 8);
  }

  /** The decoder after the size prefix. */
  lemma DecodeBody(h: Hasher, hash: Bytes32, size: nat, body: seq<Byte>, ranges: ChunkRanges, d: Decoded)
    requires 0 < size <= MAX_INT64 && SelectChunks(ranges, ChunksIn(size)) != []
    requires d == Decode(h, size, SelectChunks(ranges, ChunksIn(size)), BlobTree(size), true, BytesToCv(hash), body)
    ensures d.ok ==> DecodeBlob(h, hash, LeBytes(size, 8) + body, ranges) == Received(Accepted, size, d.out, d.rest)
  {
    SizeRoundTrip(size, body);
  }

  /**
   Whatever the data and the outboard: a response that the encoder completes is accepted with the
   same hash and ranges. It is read to its last byte, states the encoder's size and gives the selected chunks.
   */
  lemma BlobRoundTrip(h: Hasher, hash: Bytes32, src: Source, ranges: ChunkRanges, rest: seq<Byte>)
    requires EncodeBlob(h, hash, src, ranges).verdict == Accepted
    ensures DecodeBlob(h, hash, EncodeBlob(h, hash, src, ranges).out + rest, ranges) ==
            Received(Accepted, src.size, Selected(src.Blob(), src.size, ranges), rest)
  {
    if src.size == 0 {
      SizeRoundTrip(0, rest);
    } else {
      BodyRoundTrip(h, hash, src, ranges, rest);
    }
  }

  lemma BodyRoundTrip(h: Hasher, hash: Bytes32, src: Source, ranges: ChunkRanges, rest: seq<Byte>)
    requires EncodeBlob(h, hash, src, ranges).verdict == Accepted && src.size > 0
    ensures DecodeBlob(h, hash, EncodeBlob(h, hash, src, ranges).out + rest, ranges) ==
            Received(Accepted, src.size, Selected(src.Blob(), src.size, ranges), rest)
  {
    var sel, t := SelectChunks(ranges, ChunksIn(src.size)), BlobTree(src.size);
    var e := EncodeSubtree(h, src, sel, t, true, 8, BytesToCv(hash));
    SubtreeRoundTrip(h, src, sel, t, true, 8, BytesToCv(hash), rest);
    EncodeBody(h, hash, src, ranges, rest, e);
    DecodeBody(h, hash, src.size, e.out + rest, ranges, Decoded(true, PickedIn(ChunksOf(src.Blob()), sel, t), rest));
  }

  /** The encoder after the size prefix. */
  lemma EncodeBody(h: Hasher, hash: Bytes32, src: Source, ranges: ChunkRanges, rest: seq<Byte>, e: Encoded)
    requires 0 < src.size <= MAX_INT64 && SelectChunks(ranges, ChunksIn(src.size)) != []
    requires e == EncodeSubtree(h, src, SelectChunks(ranges, ChunksIn(src.size)), BlobTree(src.size), true, 8,
                                BytesToCv(hash))
    ensures EncodeBlob(h, hash, src, ranges).out + rest == LeBytes(src.size, 8) + (e.out + rest)
  {
    JoinAssociates(LeBytes(src.size, 8), e.out, rest);
  }

  // ----- honest senders

  /** The size and the pairs, as the encoder expects them. */
  ghost function Outboard(h: Hasher, d: seq<Byte>): (b: seq<Byte>)
  {
    LeBytes(|d|, 8) + Preorder(h, ChunksOf(d), BlobTree(|d|))
  }

  ghost predicate AsksForSomething(ranges: ChunkRanges)
  {
    exists c: U64 :: Holds(ranges, c)
  }

  /** Every nonempty request selects a chunk of every nonempty blob. */
  lemma SelectsSomething(ranges: ChunkRanges, chunks: U64)
    requires chunks > 0
    ensures SelectChunks(ranges, chunks) != [] <==> AsksForSomething(ranges)
  {
    var sel := SelectChunks(ranges, chunks);
    SelectChunksOk(ranges, chunks);
    if sel != [] {
      var c := sel[0].start;
      assert Selects(sel, c);
      if c == chunks - 1 {
        var beyond: U64 :| beyond >= chunks - 1 && Holds(ranges, beyond);
      }
    }
    if AsksForSomething(ranges) {
      var c: U64 :| Holds(ranges, c);
      var held := if c < chunks - 1 then c else chunks - 1;
      assert Selects(sel, held);
    }
  }

  /** A sender that has the blob and its outboard completes every request it supports. */
  lemma HonestSenderCompletes(h: Hasher, d: seq<Byte>, ranges: ChunkRanges)
    ensures EncodeBlob(h, RootHash(h, d), Source(d, Outboard(h, d), |d|), ranges).verdict ==
            if |d| <= MAX_INT64 && (d == [] || AsksForSomething(ranges)) then Accepted else Unsupported
  {
    var src, t := Source(d, Outboard(h, d), |d|), BlobTree(|d|);
    assert src.Blob() == d;
    if 0 < |d| <= MAX_INT64 {
      SelectsSomething(ranges, ChunksIn(|d|));
      CvRoundTrip(Node(h, ChunksOf(d), t, true));
      OutboardRecords(h, d);
      HonestSubtree(h, src, SelectChunks(ranges, ChunksIn(|d|)), t, true, 8);
    }
  }

  lemma OutboardRecords(h: Hasher, d: seq<Byte>)
    ensures StandsAt(Outboard(h, d), 8, Preorder(h, ChunksOf(d), BlobTree(|d|)))
  {
    StandsAfter(LeBytes(|d|, 8), Preorder(h, ChunksOf(d), BlobTree(|d|)));
  }

  lemma StandsAfter(prefix: seq<Byte>, records: seq<Byte>)
    ensures StandsAt(prefix + records, |prefix|, records)
  {
  }

  // ----- soundness

  /**
   Under the root hash of d, with no second preimage for the nodes of its tree: what any stream makes
   the decoder write is a prefix of true chunks, and what it accepts is all of the selection.
   */
  lemma ReceivedIsTrue(h: Hasher, d: seq<Byte>, input: seq<Byte>, ranges: ChunkRanges)
    requires Unforgeable(h, ChunksOf(d), BlobTree(|d|), true)
    ensures var r := DecodeBlob(h, RootHash(h, d), input, ranges);
            if StatesSize(input)
            then var size := LeValue(input[..8]);
                 && r.out <= Selected(d, size, ranges)
                 && (r.verdict == Accepted ==> r.size == size && r.out == Selected(d, size, ranges))
            else r.out == [] && r.verdict != Accepted
  {
    if StatesSize(input) {
      var size := LeValue(input[..8]);
      if size > 0 {
        DecodeBlobSound(h, d, size, SelectChunks(ranges, ChunksIn(size)), input[8..]);
      }
      ReceivedFrom(h, RootHash(h, d), input, ranges, size, Selected(d, size, ranges));
    }
  }

  /** The stream starts with a supported size. */
  predicate StatesSize(input: seq<Byte>)
  {
    |input| >= 8 && LeValue(input[..8]) <= MAX_INT64
  }

  lemma ReceivedFrom(h: Hasher, hash: Bytes32, input: seq<Byte>, ranges: ChunkRanges, size: nat, picked: seq<Byte>)
    requires |input| >= 8 && LeValue(input[..8]) == size <= MAX_INT64
    requires size == 0 ==> picked == []
    requires size > 0 ==>
      var b := Decode(h, size, SelectChunks(ranges, ChunksIn(size)), BlobTree(size), true, BytesToCv(hash), input[8..]);
      b.out <= picked && (b.ok ==> b.out == picked)
    ensures var r := DecodeBlob(h, hash, input, ranges);
            r.out <= picked && (r.verdict == Accepted ==> r.size == size && r.out == picked)
  {
  }

  lemma DecodeBlobSound(h: Hasher, d: seq<Byte>, size: nat, sel: Selection, body: seq<Byte>)
    requires Unforgeable(h, ChunksOf(d), BlobTree(|d|), true) && 0 < size
    ensures Sound(ChunksOf(d), size, sel, BlobTree(size), BlobTree(|d|),
                  Decode(h, size, sel, BlobTree(size), true, BytesToCv(RootHash(h, d)), body))
  {
    var want := Node(h, ChunksOf(d), BlobTree(|d|), true);
    CvRoundTrip(want);
    DecodeSound(h, ChunksOf(d), size, sel, BlobTree(size), BlobTree(|d|), true, want, body,
                Decode(h, size, sel, BlobTree(size), true, want, body));
  }

  /** No chunk that an accepted response gives lies outside the blob, whatever size it states. */
  lemma AcceptedChunksExist(h: Hasher, d: seq<Byte>, input: seq<Byte>, ranges: ChunkRanges, c: nat)
    requires Unforgeable(h, ChunksOf(d), BlobTree(|d|), true)
    requires var r := DecodeBlob(h, RootHash(h, d), input, ranges);
             r.verdict == Accepted && 0 < r.size <= MAX_INT64 && Selects(SelectChunks(ranges, ChunksIn(r.size)), c)
    ensures c < BlobTree(|d|).End()
  {
    var r := DecodeBlob(h, RootHash(h, d), input, ranges);
    var sel := SelectChunks(ranges, ChunksIn(r.size));
    SelectChunksOk(ranges, ChunksIn(r.size));
    var b := Decode(h, r.size, sel, BlobTree(r.size), true, BytesToCv(RootHash(h, d)), input[8..]);
    assert b.ok;
    DecodeBlobSound(h, d, r.size, sel, input[8..]);
    LocatedExists(sel, BlobTree(r.size), BlobTree(|d|), b, c);
  }

  lemma LocatedExists(sel: Selection, t: Tree, u: Tree, d: Decoded, c: nat)
    requires Locates(sel, t, u, d) && d.ok && Selects(sel, c) && t.Start() <= c < t.End()
    ensures c < u.End()
  {
  }

  /** An accepted response whose ranges reach the end of the size it states, states the true size. */
  lemma AcceptedSizeIsTrue(h: Hasher, d: seq<Byte>, input: seq<Byte>, ranges: ChunkRanges)
    requires Unforgeable(h, ChunksOf(d), BlobTree(|d|), true)
    ensures var r := DecodeBlob(h, RootHash(h, d), input, ranges);
            r.verdict == Accepted && (r.size == 0 || ReachesBeyond(ranges, ChunkCount(r.size) - 1)) ==> r.size == |d|
  {
    var r := DecodeBlob(h, RootHash(h, d), input, ranges);
    if r.verdict == Accepted && r.size == 0 {
      EmptyIsEmpty(h, d);
    } else if r.verdict == Accepted && ReachesBeyond(ranges, ChunkCount(r.size) - 1) {
      var sel := SelectChunks(ranges, ChunksIn(r.size));
      SelectChunksOk(ranges, ChunksIn(r.size));
      DecodeBlobSound(h, d, r.size, sel, input[8..]);
      LastChunkSize(d, r.size);
    }
  }

  lemma LastChunkSize(d: seq<Byte>, size: nat)
    requires size > 0 && BlobTree(size).End() == BlobTree(|d|).End()
    requires |ChunksOf(d)(ChunkCount(size) - 1)| == SizeForChunk(size, ChunkCount(size) - 1)
    ensures size == |d|
  {
  }

  /** No other blob has the hash of the empty one. */
  lemma EmptyIsEmpty(h: Hasher, d: seq<Byte>)
    requires Unforgeable(h, ChunksOf(d), BlobTree(|d|), true) && RootHash(h, d) == RootHash(h, [])
    ensures d == []
  {
    var u, e := BlobTree(|d|), BlobTree(0);
    CvRoundTrip(Node(h, ChunksOf(d), u, true));
    CvRoundTrip(Node(h, ChunksOf([]), e, true));
    TreeIsGenuine(h, ChunksOf(d), u, ChunksOf([]), e, true);
    assert ChunksOf([])(0) == ChunksOf(d)(0);
  }

  /** The two ends together: the honest answer reads back as the blob's own chunks and size. */
  lemma HonestDelivery(h: Hasher, d: seq<Byte>, ranges: ChunkRanges)
    requires |d| <= MAX_INT64 && AsksForSomething(ranges)
    ensures DecodeBlob(h, RootHash(h, d), EncodeBlob(h, RootHash(h, d), Source(d, Outboard(h, d), |d|), ranges).out,
                       ranges)
            == Received(Accepted, |d|, Selected(d, |d|, ranges), [])
  {
    var src := Source(d, Outboard(h, d), |d|);
    HonestSenderCompletes(h, d, ranges);
    BlobRoundTrip(h, RootHash(h, d), src, ranges, []);
    assert src.Blob() == d;
    var out := EncodeBlob(h, RootHash(h, d), src, ranges).out;
    assert out + [] == out;
  }
}
