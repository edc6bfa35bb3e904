/** The encoder and the decoder as they run, over streams (blobs/chunkrange_bao.go). */
module BlobsCoder {
  import opened Bytes
  import opened BlobsRange
  import opened BlobsSelect
  import opened BlobsTree
  import opened BlobsCodec
  import opened BlobsRoundTrip
  import opened BlobsAgree
  import opened BlobsResponse

  // ----- hashing a buffer

  ghost predicate TreeAt(t: Tree, start: nat, n: nat)
  {
    WellShaped(t) && t.Start() == start && t.Len() == n > 0
  }

  /** One shifted by the bit length of n - 1, less one: where the tree over n chunks forks. */
  method LeftChunksOf(n: nat, ghost t: Tree, ghost start: nat) returns (left: nat)
    requires n >= 2 && TreeAt(t, start, n)
    ensures t.Fork? && TreeAt(t.left, start, left) && TreeAt(t.right, start + left, n - left)
  {
    LeftChunksIsShift(n);
    LeftIsUnique(LeftChunks(n), t.left.Len(), n);
    left := Pow2(BitLen(n - 1) - 1);
  }

  /** Hashing a buffer gives the value of the tree over its chunks. */
  method HashChunkSubtree(h: Hasher, data: seq<Byte>, first: nat, local: nat, n: nat, root: bool, ghost t: Tree)
    returns (cv: CV)
    requires TreeAt(t, first + local, n)
    ensures cv == Node(h, BufferChunks(data, first), t, root)
    decreases n
  {
    if n == 1 {
      assert first + local - first == local;
      return h.chunk(LocalChunk(data, local), first + local, root);
    }
    var left := LeftChunksOf(n, t, first + local);
    var l := HashChunkSubtree(h, data, first, local, left, false, t.left);
    var r := HashChunkSubtree(h, data, first, local + left, n - left, false, t.right);
    cv := h.parent(l, r, root);
  }

  /** A block of a blob has the value of its node. */
  lemma NodeOfSlice(h: Hasher, d: seq<Byte>, t: Tree, root: bool)
    requires WellShaped(t)
    ensures t.Len() > 0
    ensures Node(h, BufferChunks(Slice(d, t.Start(), t.End()), t.Start()), t, root) == Node(h, ChunksOf(d), t, root)
  {
    var block := Slice(d, t.Start(), t.End());
    SliceAgrees(d, t.Start(), t.End());
    NodeAgrees(h, BufferChunks(block, t.Start()), ChunksOf(d), t, root, t.Start(), t.End());
  }

  // ----- encoding

  lemma SliceSplits(d: seq<Byte>, lo: nat, mid: nat, hi: nat)
    requires lo <= mid <= hi
    ensures var block, cut := Slice(d, lo, hi), MinNat((mid - lo) * 1024, |Slice(d, lo, hi)|);
            block[..cut] == Slice(d, lo, mid) && block[cut..] == Slice(d, mid, hi)
  {
    var a, b, c := MinNat(lo * 1024, |d|), MinNat(mid * 1024, |d|), MinNat(hi * 1024, |d|);
    assert d[a..c] == d[a..b] + d[b..c];
  }

  /** The counts that the coders test. */
  method CountIn(sel: Selection, start: U64, n: nat, ghost t: Tree) returns (selected: nat)
    requires BlobsSelect.Sorted(sel) && TreeAt(t, start, n) && start + n <= MAX64
    ensures selected == 0 <==> NoneIn(sel, t)
    ensures selected == n <==> AllIn(sel, t)
  {
    selected := Count(sel, start, start + n);
    CountDecides(sel, start, start + n);
  }

  /** encodePartialBlock, writing to its own buffer. */
  method EncodePartialBlock(h: Hasher, sel: Selection, start: U64, n: nat, data: seq<Byte>, root: bool,
                            ghost t: Tree, ghost d: seq<Byte>)
    returns (cv: CV, out: seq<Byte>)
    requires BlobsSelect.Sorted(sel) && TreeAt(t, start, n) && start + n <= MAX64
    requires data == Slice(d, start, start + n)
    ensures Proof(cv, out) == EncodePartial(h, sel, t, ChunksOf(d), root)
    decreases n, 2
  {
    var selected := CountIn(sel, start, n, t);
    if selected == 0 {
      NodeOfSlice(h, d, t, root);
      cv := HashChunkSubtree(h, data, start, 0, n, root, t);
      return cv, [];
    }
    if n == 1 {
      JoinedIsSlice(d, start, start + 1);
      return h.chunk(data, start, root), data;
    }
    if selected == n {
      WholePartial(h, sel, t, d, root);
      cv := HashChunkSubtree(h, data, start, 0, n, root, t);
      return cv, data;
    }
    var l, r := EncodePartialChildren(h, sel, start, n, data, t, d);
    out := CvBytes(l.cv) + CvBytes(r.cv) + (l.bytes + r.bytes);
    cv := h.parent(l.cv, r.cv, root);
  }

  method EncodePartialChildren(h: Hasher, sel: Selection, start: U64, n: nat, data: seq<Byte>, ghost t: Tree,
                               ghost d: seq<Byte>)
    returns (l: Proof, r: Proof)
    requires BlobsSelect.Sorted(sel) && TreeAt(t, start, n) && start + n <= MAX64 && t.Fork?
    requires data == Slice(d, start, start + n)
    ensures l == EncodePartial(h, sel, t.left, ChunksOf(d), false)
    ensures r == EncodePartial(h, sel, t.right, ChunksOf(d), false)
    decreases n, 1
  {
    var left := LeftChunksOf(n, t, start);
    var leftLen := MinNat(left * 1024, |data|);
    SliceSplits(d, start, start + left, start + n);
    l, r := EncodePartialSiblings(h, sel, start, left, n - left, data[..leftLen], data[leftLen..], t.left, t.right, d);
  }

  method EncodePartialSiblings(h: Hasher, sel: Selection, start: U64, left: nat, right: nat, leftData: seq<Byte>,
                               rightData: seq<Byte>, ghost a: Tree, ghost b: Tree, ghost d: seq<Byte>)
    returns (l: Proof, r: Proof)
    requires BlobsSelect.Sorted(sel) && TreeAt(a, start, left) && TreeAt(b, start + left, right)
    requires start + left + right <= MAX64
    requires leftData == Slice(d, start, start + left) && rightData == Slice(d, start + left, start + left + right)
    ensures l == EncodePartial(h, sel, a, ChunksOf(d), false)
    ensures r == EncodePartial(h, sel, b, ChunksOf(d), false)
    decreases left + right, 0
  {
    l := EncodePartialChild(h, sel, start, left, leftData, a, d);
    r := EncodePartialChild(h, sel, start + left, right, rightData, b, d);
  }

  method EncodePartialChild(h: Hasher, sel: Selection, start: U64, n: nat, data: seq<Byte>, ghost t: Tree,
                            ghost d: seq<Byte>)
    returns (p: Proof)
    requires BlobsSelect.Sorted(sel) && TreeAt(t, start, n) && start + n <= MAX64
    requires data == Slice(d, start, start + n)
    ensures p == EncodePartial(h, sel, t, ChunksOf(d), false)
    decreases n, 3
  {
    var part := Intersecting(sel, start, start + n);
    PartialNarrows(h, part, sel, t, ChunksOf(d), false, start, start + n);
    var cv, out := EncodePartialBlock(h, part, start, n, data, false, t, d);
    p := Proof(cv, out);
  }

  /** A fully selected block is its own proof. */
  lemma WholePartial(h: Hasher, sel: Selection, t: Tree, d: seq<Byte>, root: bool)
    requires WellShaped(t) && AllIn(sel, t) && !NoneIn(sel, t)
    ensures var block := Slice(d, t.Start(), t.End());
            EncodePartial(h, sel, t, ChunksOf(d), root) ==
            Proof(Node(h, BufferChunks(block, t.Start()), t, root), block)
  {
    NodeOfSlice(h, d, t, root);
    JoinedIsSlice(d, t.Start(), t.End());
  }

  /** chunkRangeEncoder: readers, and what has been written so far. */
  class ChunkRangeEncoder {
    const h: Hasher
    const src: Source
    var w: seq<Byte>

    constructor (h: Hasher, src: Source, w: seq<Byte>)
      ensures this.h == h && this.src == src && this.w == w
    {
      this.h, this.src, this.w := h, src, w;
    }

    /** Reads all of a block, or fails. */
    method ReadBlock(start: nat, n: nat) returns (ok: bool, block: seq<Byte>)
      requires n > 0 && start * 1024 < src.size
      ensures ok <==> MinNat((start + n) * 1024, src.size) <= |src.data|
      ensures ok ==> block == Slice(src.Blob(), start, start + n)
    {
      var lo := start * 1024;
      var length := MinNat(n * 1024, src.size - lo);
      ok, block := lo + length <= |src.data|, [];
      if ok {
        block := src.data[lo..lo + length];
        SubSlice(src.data, 0, MinNat(src.size, |src.data|), lo, lo + length);
        assert src.data[0..MinNat(src.size, |src.data|)] == src.Blob();
      }
    }

    method Block(sel: Selection, start: U64, n: nat, root: bool, want: CV, ghost t: Tree, selected: nat)
      returns (ok: bool)
      requires BlobsSelect.Sorted(sel) && TreeAt(t, start, n) && start + n <= MAX64 && (start + n - 1) * 1024 < src.size
      requires (selected == n <==> AllIn(sel, t)) && !NoneIn(sel, t)
      modifies this
      ensures var p := EncodePartial(h, sel, t, ChunksOf(src.Blob()), root);
              && (ok <==> Readable(src, t) && p.cv == want)
              && w == if ok then old(w) + p.bytes else old(w)
    {
      var read, block := ReadBlock(start, n);
      if !read {
        return false;
      }
      var cv, proof := Prove(sel, start, n, block, root, t, selected);
      ok := cv == want;
      if ok {
        w := w + proof;
      }
    }

    method Prove(sel: Selection, start: U64, n: nat, block: seq<Byte>, root: bool, ghost t: Tree, selected: nat)
      returns (cv: CV, proof: seq<Byte>)
      requires BlobsSelect.Sorted(sel) && TreeAt(t, start, n) && start + n <= MAX64
      requires block == Slice(src.Blob(), start, start + n)
      requires (selected == n <==> AllIn(sel, t)) && !NoneIn(sel, t)
      ensures Proof(cv, proof) == EncodePartial(h, sel, t, ChunksOf(src.Blob()), root)
    {
      if selected == n {
        WholePartial(h, sel, t, src.Blob(), root);
        proof := block;
        cv := HashChunkSubtree(h, block, start, 0, n, root, t);
      } else {
        cv, proof := EncodePartialBlock(h, sel, start, n, block, root, t, src.Blob());
      }
    }

    /** The recursion over the tree: narrowed selections, outboard offsets, one write per pair or block. */
    method Subtree(sel: Selection, start: U64, n: nat, root: bool, off: nat, want: CV, ghost t: Tree) returns (ok: bool)
      requires BlobsSelect.Sorted(sel) && TreeAt(t, start, n) && start + n <= MAX64 && (start + n - 1) * 1024 < src.size
      modifies this
      ensures Encoded(ok, w) == var e := EncodeSubtree(h, src, sel, t, root, off, want); Encoded(e.ok, old(w) + e.out)
      decreases n, 2
    {
      var selected := CountIn(sel, start, n, t);
      if selected == 0 {
        return true;
      }
      if n <= 16 {
        ok := Block(sel, start, n, root, want, t, selected);
        return;
      }
      if off + 64 > |src.outboard| {
        return false;
      }
      var pair := PairAt(src, off);
      if h.parent(LeftOf(pair), RightOf(pair), root) != want {
        return false;
      }
      w := w + pair;
      ok := Children(sel, start, n, off, LeftOf(pair), RightOf(pair), t);
      EncodeForks(h, src, sel, t, root, off, want, old(w));
    }

    method Children(sel: Selection, start: U64, n: nat, off: nat, leftCv: CV, rightCv: CV, ghost t: Tree)
      returns (ok: bool)
      requires BlobsSelect.Sorted(sel) && TreeAt(t, start, n) && start + n <= MAX64 && (start + n - 1) * 1024 < src.size
      requires t.Fork?
      modifies this
      ensures var a := EncodeSubtree(h, src, sel, t.left, false, off + 64, leftCv);
              var b := EncodeSubtree(h, src, sel, t.right, false, RightOffset(t, off), rightCv);
              ok == (a.ok && b.ok) && w == old(w) + a.out + if a.ok then b.out else []
      decreases n, 1
    {
      var left := LeftChunksOf(n, t, start);
      var rightOff := off + 64 + 64 * Parents(left);
      ok := Siblings(sel, start, left, n - left, off + 64, rightOff, leftCv, rightCv, t.left, t.right);
    }

    method Siblings(sel: Selection, start: U64, left: nat, right: nat, leftOff: nat, rightOff: nat, leftCv: CV,
                    rightCv: CV, ghost a: Tree, ghost b: Tree)
      returns (ok: bool)
      requires BlobsSelect.Sorted(sel) && TreeAt(a, start, left) && TreeAt(b, start + left, right)
      requires start + left + right <= MAX64 && (start + left + right - 1) * 1024 < src.size
      modifies this
      ensures var l := EncodeSubtree(h, src, sel, a, false, leftOff, leftCv);
              var r := EncodeSubtree(h, src, sel, b, false, rightOff, rightCv);
              ok == (l.ok && r.ok) && w == old(w) + l.out + if l.ok then r.out else []
      decreases left + right, 0
    {
      ok := Child(sel, start, left, leftOff, leftCv, a);
      if ok {
        ok := Child(sel, start + left, right, rightOff, rightCv, b);
      }
    }

    /** Narrows the selection and goes on. */
    method Child(sel: Selection, start: U64, n: nat, off: nat, want: CV, ghost t: Tree) returns (ok: bool)
      requires BlobsSelect.Sorted(sel) && TreeAt(t, start, n) && start + n <= MAX64 && (start + n - 1) * 1024 < src.size
      modifies this
      ensures Encoded(ok, w) == var e := EncodeSubtree(h, src, sel, t, false, off, want); Encoded(e.ok, old(w) + e.out)
      decreases n, 3
    {
      var part := Intersecting(sel, start, start + n);
      EncodeNarrows(h, src, part, sel, t, false, off, want, start, start + n);
      ok := Subtree(part, start, n, false, off, want, t);
    }
  }

  /** One level of the encoder above a block, where the pair matches. */
  lemma EncodeForks(h: Hasher, src: Source, sel: Selection, t: Tree, root: bool, off: nat, want: CV, w: seq<Byte>)
    requires WellShaped(t) && !NoneIn(sel, t) && t.Len() > 16 && t.Fork? && off + 64 <= |src.outboard|
    requires var pair := PairAt(src, off); h.parent(LeftOf(pair), RightOf(pair), root) == want
    ensures var pair := PairAt(src, off);
            var a := EncodeSubtree(h, src, sel, t.left, false, off + 64, LeftOf(pair));
            var b := EncodeSubtree(h, src, sel, t.right, false, RightOffset(t, off), RightOf(pair));
            var e := EncodeSubtree(h, src, sel, t, root, off, want);
            e.ok == (a.ok && b.ok) && w + e.out == w + pair + a.out + if a.ok then b.out else []
  {
    var pair := PairAt(src, off);
    var a := EncodeSubtree(h, src, sel, t.left, false, off + 64, LeftOf(pair));
    var b := EncodeSubtree(h, src, sel, t.right, false, RightOffset(t, off), RightOf(pair));
    FourParts(w, pair, a.out, if a.ok then b.out else []);
  }

  lemma FourParts(a: seq<Byte>, b: seq<Byte>, c: seq<Byte>, d: seq<Byte>)
    ensures a + (b + c + d) == a + b + c + d
    ensures d == [] ==> b + c + d == b + c
  {
  }

  // ----- decoding

  /** chunkRangeDecoder: what is left to read, and what has been written so far. */
  class ChunkRangeDecoder {
    const h: Hasher
    const size: nat
    var r: seq<Byte>
    var w: seq<Byte>

    constructor (h: Hasher, size: nat, r: seq<Byte>)
      ensures this.h == h && this.size == size && this.r == r && this.w == []
    {
      this.h, this.size, this.r, this.w := h, size, r, [];
    }

    /** Reads n bytes, or consumes what there is and fails. */
    method ReadFull(n: nat) returns (ok: bool, b: seq<Byte>)
      modifies this`r
      ensures ok <==> n <= |old(r)|
      ensures ok ==> b == old(r)[..n] && r == old(r)[n..]
    {
      if n <= |r| {
        ok, b := true, r[..n];
        r := r[n..];
      } else {
        ok, b := false, r;
        r := [];
      }
    }

    /** Reads the pair of a node and compares it with the wanted value. */
    method ReadPair(root: bool, want: CV) returns (ok: bool, leftCv: CV, rightCv: CV)
      modifies this`r
      ensures ok <==> |old(r)| >= 64 && h.parent(BytesToCv(old(r)[..32]), BytesToCv(old(r)[32..64]), root) == want
      ensures ok ==> leftCv == BytesToCv(old(r)[..32]) && rightCv == BytesToCv(old(r)[32..64]) && r == old(r)[64..]
    {
      var first, second;
      leftCv, rightCv := 0, 0;
      ok, first := ReadFull(32);
      if !ok {
        return;
      }
      ok, second := ReadFull(32);
      if !ok {
        return;
      }
      assert second == old(r)[32..64] && r == old(r)[64..];
      leftCv, rightCv := BytesToCv(first), BytesToCv(second);
      ok := h.parent(leftCv, rightCv, root) == want;
    }

    /** Reads a whole block, of the length the stated size gives it, and writes it if its hash matches. */
    method WholeBlock(start: nat, n: nat, root: bool, want: CV, ghost t: Tree) returns (ok: bool)
      requires TreeAt(t, start, n)
      modifies this
      ensures var len := BlockLength(size, start, start + n);
              && (ok <==> len <= |old(r)| && Node(h, BufferChunks(old(r)[..len], start), t, root) == want)
              && (ok ==> w == old(w) + old(r)[..len] && r == old(r)[len..])
              && (!ok ==> w == old(w))
    {
      var length := 0;
      for i := start to start + n
        invariant length == BlockLength(size, start, i)
        invariant r == old(r) && w == old(w)
      {
        length := length + MinNat(1024, SizeForChunk(size, i));
      }
      var buf;
      ok, buf := ReadFull(length);
      if !ok {
        return;
      }
      var cv := HashChunkSubtree(h, buf, start, 0, n, root, t);
      ok := cv == want;
      if ok {
        w := w + buf;
      }
    }

    /** The recursions above and inside a block, which differ only in whether a whole node may be read at once. */
    method Subtree(sel: Selection, start: U64, n: nat, root: bool, want: CV, ghost t: Tree) returns (ok: bool)
      requires BlobsSelect.Sorted(sel) && TreeAt(t, start, n) && start + n <= MAX64
      modifies this
      ensures var d := Decode(h, size, sel, t, root, want, old(r));
              ok == d.ok && w == old(w) + d.out && (ok ==> r == d.rest)
      decreases n, 1
    {
      var selected := CountIn(sel, start, n, t);
      if selected == 0 {
        return true;
      }
      if n <= 16 && selected == n {
        ok := WholeBlock(start, n, root, want, t);
        return;
      }
      var leftCv, rightCv;
      ok, leftCv, rightCv := ReadPair(root, want);
      if !ok {
        return;
      }
      ghost var a := Decode(h, size, sel, t.left, false, leftCv, r);
      ghost var b := Decode(h, size, sel, t.right, false, rightCv, a.rest);
      ok := Children(sel, start, n, leftCv, rightCv, t);
      JoinAssociates(old(w), a.out, if a.ok then b.out else []);
    }

    method Children(sel: Selection, start: U64, n: nat, leftCv: CV, rightCv: CV, ghost t: Tree) returns (ok: bool)
      requires BlobsSelect.Sorted(sel) && TreeAt(t, start, n) && start + n <= MAX64 && t.Fork?
      modifies this
      ensures var a := Decode(h, size, sel, t.left, false, leftCv, old(r));
              var b := Decode(h, size, sel, t.right, false, rightCv, a.rest);
              && ok == (a.ok && b.ok)
              && w == old(w) + a.out + (if a.ok then b.out else [])
              && (ok ==> r == b.rest)
      decreases n, 0
    {
      var left := LeftChunksOf(n, t, start);
      ok := Child(sel, start, left, leftCv, t.left);
      if ok {
        ok := Child(sel, start + left, n - left, rightCv, t.right);
      }
    }

    /** Narrows the selection and goes on. */
    method Child(sel: Selection, start: U64, n: nat, want: CV, ghost t: Tree) returns (ok: bool)
      requires BlobsSelect.Sorted(sel) && TreeAt(t, start, n) && start + n <= MAX64
      modifies this
      ensures var d := Decode(h, size, sel, t, false, want, old(r));
              ok == d.ok && w == old(w) + d.out && (ok ==> r == d.rest)
      decreases n, 2
    {
      var part := Intersecting(sel, start, start + n);
      DecodeNarrows(h, size, part, sel, t, false, want, r, start, start + n);
      ok := Subtree(part, start, n, false, want, t);
    }
  }

  // ----- whole responses

  /** The hash of no bytes. */
  lemma EmptyHash(h: Hasher)
    ensures RootHash(h, []) == CvBytes(h.chunk([], 0, true))
  {
  }

  lemma WholeTree(size: nat)
    requires 0 < size <= MAX_INT64
    ensures TreeAt(BlobTree(size), 0, ChunksIn(size)) && (ChunksIn(size) - 1) * 1024 < size
  {
  }

  method EncodeBlobChunks(h: Hasher, hash: Bytes32, src: Source, ranges: ChunkRanges) returns (r: Response)
    ensures r == EncodeBlob(h, hash, src, ranges)
  {
    if src.size > MAX_INT64 {
      return Response(Unsupported, []);
    }
    var w := LeBytes(src.size, 8);
    var chunks := ChunkCount(src.size);
    if chunks == 0 {
      EmptyHash(h);
      return Response(Judge(hash == CvBytes(h.chunk([], 0, true))), w);
    }
    var sel := ComputeSelection(ranges, chunks);
    if |sel| == 0 {
      return Response(Unsupported, w);
    }
    SelectChunksOk(ranges, chunks);
    WholeTree(src.size);
    var e := new ChunkRangeEncoder(h, src, w);
    var ok := e.Subtree(sel, 0, chunks, true, 8, BytesToCv(hash), BlobTree(src.size));
    r := Response(Judge(ok), e.w);
  }

  /** On failure the source gives no size and its reader is left anywhere. */
  method DecodeBlobChunksToWriter(h: Hasher, expected: Bytes32, input: seq<Byte>, ranges: ChunkRanges)
    returns (verdict: Verdict, size: nat, out: seq<Byte>, rest: seq<Byte>)
    ensures var d := DecodeBlob(h, expected, input, ranges);
            verdict == d.verdict && size == d.size && out == d.out && (verdict == Accepted ==> rest == d.rest)
  {
    if |input| < 8 {
      return Rejected, 0, [], [];
    }
    var claimed := LeValue(input[..8]);
    rest := input[8..];
    if claimed > MAX_INT64 {
      return Unsupported, 0, [], rest;
    }
    var chunks := ChunkCount(claimed);
    if chunks == 0 {
      EmptyHash(h);
      return Judge(expected == CvBytes(h.chunk([], 0, true))), 0, [], rest;
    }
    var sel := ComputeSelection(ranges, chunks);
    if |sel| == 0 {
      return Rejected, 0, [], rest;
    }
    SelectChunksOk(ranges, chunks);
    WholeTree(claimed);
    var d := new ChunkRangeDecoder(h, claimed, rest);
    var ok := d.Subtree(sel, 0, chunks, true, BytesToCv(expected), BlobTree(claimed));
    verdict, size, out, rest := Judge(ok), if ok then claimed else 0, d.w, d.r;
  }

  /** The whole input must be one response. */
  method DecodeBlobChunks(h: Hasher, expected: Bytes32, encoded: seq<Byte>, ranges: ChunkRanges)
    returns (verdict: Verdict, size: nat, out: seq<Byte>)
    ensures var d := DecodeBlob(h, expected, encoded, ranges);
            && (verdict == Accepted <==> d.verdict == Accepted && d.rest == [])
            && (verdict == Accepted ==> size == d.size && out == d.out)
            && (verdict != Accepted ==> size == 0 && out == [])
  {
    var rest;
    verdict, size, out, rest := DecodeBlobChunksToWriter(h, expected, encoded, ranges);
    if verdict == Accepted && |rest| != 0 {
      verdict := Rejected;
    }
    if verdict != Accepted {
      size, out := 0, [];
    }
  }
}
