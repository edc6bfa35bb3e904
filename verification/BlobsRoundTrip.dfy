/** Whatever the encoder accepts, the decoder reads back, with no assumption on the hash functions. */
module BlobsRoundTrip {
  import opened Bytes
  import opened BlobsTree
  import opened BlobsCodec

  lemma {:induction false} JoinedIsSlice(d: seq<Byte>, lo: nat, hi: nat)
    requires lo <= hi
    ensures Joined(ChunksOf(d), lo, hi) == Slice(d, lo, hi)
    decreases hi
  {
    if lo < hi {
      JoinedIsSlice(d, lo, hi - 1);
      SliceExtends(d, lo, hi - 1);
    }
  }

  lemma SliceExtends(d: seq<Byte>, lo: nat, hi: nat)
    requires lo <= hi
    ensures Slice(d, lo, hi + 1) == Slice(d, lo, hi) + Slice(d, hi, hi + 1)
  {
    var a, b, c := MinNat(lo * 1024, |d|), MinNat(hi * 1024, |d|), MinNat((hi + 1) * 1024, |d|);
    assert d[a..c] == d[a..b] + d[b..c];
  }

  /** The blob's bytes below the size are there up to chunk end. */
  predicate Has(d: seq<Byte>, size: nat, end: nat)
  {
    |d| <= size && MinNat(end * 1024, size) <= |d|
  }

  lemma SliceLength(d: seq<Byte>, size: nat, lo: nat, hi: nat)
    requires lo <= hi && Has(d, size, hi)
    ensures |Slice(d, lo, hi)| == BlockLength(size, lo, hi)
  {
    BlockLengthIs(size, lo, hi);
  }

  /** A whole block written as it is decodes as it is. */
  lemma BlockRoundTrip(h: Hasher, sel: Selection, t: Tree, d: seq<Byte>, size: nat, root: bool, rest: seq<Byte>)
    requires WellShaped(t) && Has(d, size, t.End())
    requires !NoneIn(sel, t) && (t.Leaf? || (t.Len() <= 16 && AllIn(sel, t)))
    ensures Decode(h, size, sel, t, root, Node(h, ChunksOf(d), t, root),
                   Joined(ChunksOf(d), t.Start(), t.End()) + rest) ==
            Decoded(true, Joined(ChunksOf(d), t.Start(), t.End()), rest)
  {
    var lo, hi := t.Start(), t.End();
    var block := Slice(d, lo, hi);
    JoinedIsSlice(d, lo, hi);
    SliceLength(d, size, lo, hi);
    assert (block + rest)[..|block|] == block && (block + rest)[|block|..] == rest;
    SliceAgrees(d, lo, hi);
    NodeAgrees(h, BufferChunks(block, lo), ChunksOf(d), t, root, lo, hi);
  }

  lemma PickedWhole(sel: Selection, t: Tree, chunks: nat -> seq<Byte>)
    requires !NoneIn(sel, t) && (t.Leaf? || AllIn(sel, t))
    ensures PickedIn(chunks, sel, t) == Joined(chunks, t.Start(), t.End())
  {
    assert AllIn(sel, t);
    PickedAll(chunks, sel, t.Start(), t.End());
  }

  /** One level of the decoder, where the pair matches and both children decode. */
  lemma DecodeFork(h: Hasher, size: nat, sel: Selection, t: Tree, root: bool, l: CV, r: CV, input: seq<Byte>,
                   a: Decoded, b: Decoded)
    requires t.Fork? && !NoneIn(sel, t) && (t.Len() <= 16 ==> !AllIn(sel, t)) && |input| >= 64
    requires l == BytesToCv(input[..32]) && r == BytesToCv(input[32..64])
    requires a == Decode(h, size, sel, t.left, false, l, input[64..]) && a.ok
    requires b == Decode(h, size, sel, t.right, false, r, a.rest)
    ensures Decode(h, size, sel, t, root, h.parent(l, r, root), input) == Decoded(b.ok, a.out + b.out, b.rest)
  {
  }

  lemma PairSlices(pair: seq<Byte>, a: seq<Byte>, b: seq<Byte>, rest: seq<Byte>)
    requires |pair| == 64
    ensures var input := pair + a + b + rest;
            input[..32] == pair[..32] && input[32..64] == pair[32..] && input[64..] == a + (b + rest)
  {
    var input := pair + a + b + rest;
    assert input == pair + (a + (b + rest));
  }

  /** Reading a pair and then two children that decode. */
  lemma PairRoundTrip(h: Hasher, size: nat, sel: Selection, t: Tree, root: bool, pair: seq<Byte>, l: CV, r: CV,
                      a: seq<Byte>, b: seq<Byte>, rest: seq<Byte>, outA: seq<Byte>, outB: seq<Byte>)
    requires t.Fork? && !NoneIn(sel, t) && (t.Len() <= 16 ==> !AllIn(sel, t)) && |pair| == 64
    requires l == LeftOf(pair) && r == RightOf(pair)
    requires Decode(h, size, sel, t.left, false, l, a + (b + rest)) == Decoded(true, outA, b + rest)
    requires Decode(h, size, sel, t.right, false, r, b + rest) == Decoded(true, outB, rest)
    ensures Decode(h, size, sel, t, root, h.parent(l, r, root), pair + a + b + rest) == Decoded(true, outA + outB, rest)
  {
    PairSlices(pair, a, b, rest);
    DecodeFork(h, size, sel, t, root, l, r, pair + a + b + rest, Decoded(true, outA, b + rest),
               Decoded(true, outB, rest));
  }

  lemma {:induction false} PartialIsNode(h: Hasher, sel: Selection, t: Tree, chunks: nat -> seq<Byte>, root: bool)
    ensures EncodePartial(h, sel, t, chunks, root).cv == Node(h, chunks, t, root)
    decreases t
  {
    if t.Fork? {
      PartialIsNode(h, sel, t.left, chunks, false);
      PartialIsNode(h, sel, t.right, chunks, false);
    }
  }

  lemma {:induction false} PartialRoundTrip(h: Hasher, sel: Selection, t: Tree, d: seq<Byte>, size: nat,
                                            root: bool, rest: seq<Byte>)
    requires WellShaped(t) && Has(d, size, t.End()) && t.Len() <= 16
    ensures var p := EncodePartial(h, sel, t, ChunksOf(d), root);
            Decode(h, size, sel, t, root, p.cv, p.bytes + rest) == Decoded(true, PickedIn(ChunksOf(d), sel, t), rest)
    decreases t
  {
    var chunks := ChunksOf(d);
    if NoneIn(sel, t) {
      PickedNone(chunks, sel, t.Start(), t.End());
      assert [] + rest == rest;
    } else if t.Leaf? || AllIn(sel, t) {
      BlockRoundTrip(h, sel, t, d, size, root, rest);
      PickedWhole(sel, t, chunks);
    } else {
      PartialForkRoundTrip(h, sel, t, d, size, root, rest);
    }
  }

  lemma {:induction false} PartialForkRoundTrip(h: Hasher, sel: Selection, t: Tree, d: seq<Byte>, size: nat,
                                                root: bool, rest: seq<Byte>)
    requires WellShaped(t) && Has(d, size, t.End()) && t.Len() <= 16
    requires !NoneIn(sel, t) && !AllIn(sel, t) && t.Fork?
    ensures var p := EncodePartial(h, sel, t, ChunksOf(d), root);
            Decode(h, size, sel, t, root, p.cv, p.bytes + rest) == Decoded(true, PickedIn(ChunksOf(d), sel, t), rest)
    decreases t, 0
  {
    var chunks := ChunksOf(d);
    var l, r := EncodePartial(h, sel, t.left, chunks, false), EncodePartial(h, sel, t.right, chunks, false);
    PartialRoundTrip(h, sel, t.left, d, size, false, r.bytes + rest);
    PartialRoundTrip(h, sel, t.right, d, size, false, rest);
    var pair := CvBytes(l.cv) + CvBytes(r.cv);
    CvRoundTrip(l.cv);
    CvRoundTrip(r.cv);
    assert pair[..32] == CvBytes(l.cv) && pair[32..] == CvBytes(r.cv);
    PairRoundTrip(h, size, sel, t, root, pair, l.cv, r.cv, l.bytes, r.bytes, rest,
                  PickedIn(chunks, sel, t.left), PickedIn(chunks, sel, t.right));
    assert pair + (l.bytes + r.bytes) + rest == pair + l.bytes + r.bytes + rest;
    PickedForks(sel, t, chunks);
  }

  /** The encoder's output, followed by anything, decodes to the selected chunks and leaves the rest. */
  lemma {:induction false} SubtreeRoundTrip(h: Hasher, src: Source, sel: Selection, t: Tree, root: bool, off: nat,
                                            want: CV, rest: seq<Byte>)
    requires WellShaped(t) && EncodeSubtree(h, src, sel, t, root, off, want).ok
    ensures Decode(h, src.size, sel, t, root, want, EncodeSubtree(h, src, sel, t, root, off, want).out + rest) ==
            Decoded(true, PickedIn(ChunksOf(src.Blob()), sel, t), rest)
    decreases t
  {
    var chunks := ChunksOf(src.Blob());
    if NoneIn(sel, t) {
      PickedNone(chunks, sel, t.Start(), t.End());
      assert [] + rest == rest;
    } else if t.Len() <= 16 || t.Leaf? {
      PartialRoundTrip(h, sel, t, src.Blob(), src.size, root, rest);
    } else {
      SubtreeForkRoundTrip(h, src, sel, t, root, off, want, rest);
    }
  }

  lemma {:induction false} SubtreeForkRoundTrip(h: Hasher, src: Source, sel: Selection, t: Tree, root: bool, off: nat,
                                                want: CV, rest: seq<Byte>)
    requires WellShaped(t) && EncodeSubtree(h, src, sel, t, root, off, want).ok
    requires !NoneIn(sel, t) && t.Len() > 16 && t.Fork?
    ensures Decode(h, src.size, sel, t, root, want, EncodeSubtree(h, src, sel, t, root, off, want).out + rest) ==
            Decoded(true, PickedIn(ChunksOf(src.Blob()), sel, t), rest)
    decreases t, 0
  {
    var chunks, pair := ChunksOf(src.Blob()), PairAt(src, off);
    var l, r := LeftOf(pair), RightOf(pair);
    var a := EncodeSubtree(h, src, sel, t.left, false, off + 64, l);
    var b := EncodeSubtree(h, src, sel, t.right, false, RightOffset(t, off), r);
    EncodeForkParts(h, src, sel, t, root, off, want);
    SubtreeRoundTrip(h, src, sel, t.left, false, off + 64, l, b.out + rest);
    SubtreeRoundTrip(h, src, sel, t.right, false, RightOffset(t, off), r, rest);
    PairRoundTrip(h, src.size, sel, t, root, pair, l, r, a.out, b.out, rest,
                  PickedIn(chunks, sel, t.left), PickedIn(chunks, sel, t.right));
    PickedForks(sel, t, chunks);
  }

  /** One level of the encoder, where it succeeds above a block. */
  lemma EncodeForkParts(h: Hasher, src: Source, sel: Selection, t: Tree, root: bool, off: nat, want: CV)
    requires WellShaped(t) && EncodeSubtree(h, src, sel, t, root, off, want).ok
    requires !NoneIn(sel, t) && t.Len() > 16 && t.Fork?
    ensures off + 64 <= |src.outboard|
    ensures var pair := PairAt(src, off);
            var a := EncodeSubtree(h, src, sel, t.left, false, off + 64, LeftOf(pair));
            var b := EncodeSubtree(h, src, sel, t.right, false, RightOffset(t, off), RightOf(pair));
            want == h.parent(LeftOf(pair), RightOf(pair), root) && a.ok && b.ok &&
            EncodeSubtree(h, src, sel, t, root, off, want).out == pair + a.out + b.out
  {
  }
}
