/**
 What a decoder accepts is the blob. The only assumption on the hash functions is that
 the nodes of the blob's own tree have no second preimage; the byte stream and the
 claimed size are arbitrary.
 */
module BlobsSound {
  import opened Bytes
  import opened BlobsSelect
  import opened BlobsTree
  import opened BlobsCodec

  /** No other input of either compression function has the value of a node of u. */
  ghost predicate Unforgeable(h: Hasher, chunks: nat -> seq<Byte>, u: Tree, root: bool)
  {
    var cv := Node(h, chunks, u, root);
    match u
    case Leaf(i) =>
      && (forall d, c, b :: h.chunk(d, c, b) == cv ==> d == chunks(i) && c == i && b == root)
      && (forall l, r, b :: h.parent(l, r, b) != cv)
    case Fork(_, _, left, right) =>
      && (forall d, c, b :: h.chunk(d, c, b) != cv)
      && (forall l, r, b :: h.parent(l, r, b) == cv ==>
            l == Node(h, chunks, left, false) && r == Node(h, chunks, right, false) && b == root)
      && Unforgeable(h, chunks, left, false) && Unforgeable(h, chunks, right, false)
  }

  /** A tree with the value of an unforgeable one is that tree over the same chunks. */
  lemma {:induction false} TreeIsGenuine(h: Hasher, chunks: nat -> seq<Byte>, u: Tree, other: nat -> seq<Byte>, t: Tree,
                                         root: bool)
    requires Unforgeable(h, chunks, u, root) && WellShaped(u) && WellShaped(t)
    requires Node(h, other, t, root) == Node(h, chunks, u, root)
    ensures t.Start() == u.Start() && t.Len() == u.Len()
    ensures Agree(other, chunks, t.Start(), t.End())
    decreases t
  {
    if t.Fork? && u.Fork? {
      TreeIsGenuine(h, chunks, u.left, other, t.left, false);
      TreeIsGenuine(h, chunks, u.right, other, t.right, false);
    }
  }

  lemma {:induction false} JoinedAgrees(a: nat -> seq<Byte>, b: nat -> seq<Byte>, lo: nat, hi: nat, top: nat)
    requires Agree(a, b, lo, top) && hi <= top
    ensures Joined(a, lo, hi) == Joined(b, lo, hi)
    decreases hi
  {
    if lo < hi {
      JoinedAgrees(a, b, lo, hi - 1, top);
    }
  }

  /** A buffer is the join of its own chunks. */
  lemma {:induction false} BufferIsJoined(data: seq<Byte>, start: nat, k: nat)
    ensures Joined(BufferChunks(data, start), start, start + k) == data[..MinNat(k * 1024, |data|)]
    decreases k
  {
    if k > 0 {
      BufferIsJoined(data, start, k - 1);
      var lo, hi := MinNat((k - 1) * 1024, |data|), MinNat(k * 1024, |data|);
      assert data[..hi] == data[..lo] + data[lo..hi];
      assert LocalChunk(data, k - 1) == data[lo..hi];
      assert start + k - 1 - start == k - 1;
    }
  }

  /** The claimed and the true subtree start together or do not meet at all. */
  predicate Aligned(t: Tree, u: Tree)
  {
    t.Start() == u.Start() || t.End() <= u.Start() || u.End() <= t.Start()
  }

  /** Where two trees start together, so do their left children, and their right ones unless they do not meet. */
  lemma ChildrenAligned(t: Tree, u: Tree)
    requires WellShaped(t) && WellShaped(u) && t.Fork? && u.Fork? && Aligned(t, u)
    ensures Aligned(t.left, u.left) && Aligned(t.right, u.right)
    ensures t.Start() != u.Start() ==> t.left.Start() != u.left.Start() && t.right.Start() != u.right.Start()
  {
    if t.Start() == u.Start() {
      if t.left.Len() < u.left.Len() {
        Pow2Apart(t.left.Len(), u.left.Len());
      } else if u.left.Len() < t.left.Len() {
        Pow2Apart(u.left.Len(), t.left.Len());
      }
    }
  }

  /** Chunk k of a block read at a claimed size has the length that size gives it. */
  lemma LocalChunkLength(data: seq<Byte>, size: nat, start: nat, k: nat, n: nat)
    requires k < n && |data| == BlockLength(size, start, start + n)
    ensures |BufferChunks(data, start)(start + k)| == SizeForChunk(size, start + k)
  {
    BlockLengthIs(size, start, start + n);
    assert |LocalChunk(data, k)| == SizeForChunk(size, start + k);
    assert start + k - start == k;
  }

  // ----- what a decoder's result says about the true tree

  /** All that was written is true data, in order; success means all of the selection. */
  ghost predicate WritesTruth(chunks: nat -> seq<Byte>, sel: Selection, t: Tree, d: Decoded)
  {
    && d.out <= PickedIn(chunks, sel, t)
    && (d.ok ==> d.out == PickedIn(chunks, sel, t))
  }

  /** Where something is selected, success puts the claimed subtree where the true one is. */
  ghost predicate Locates(sel: Selection, t: Tree, u: Tree, d: Decoded)
  {
    && (d.ok && !NoneIn(sel, t) ==> t.Start() == u.Start() && NoneSelected(sel, u.End(), t.End()))
    && (t.Start() != u.Start() ==> d.out == [])
  }

  /** Where the last claimed chunk is selected, success makes it the last true chunk, of the claimed length. */
  ghost predicate ProvesEnd(chunks: nat -> seq<Byte>, size: nat, sel: Selection, t: Tree, u: Tree, d: Decoded)
  {
    d.ok && Selects(sel, t.End() - 1) ==>
      t.End() == u.End() && |chunks(t.End() - 1)| == SizeForChunk(size, t.End() - 1)
  }

  /** A buffer of true chunks is their join. */
  lemma BlockIsJoined(chunks: nat -> seq<Byte>, size: nat, start: nat, n: nat, data: seq<Byte>)
    requires n > 0 && |data| == BlockLength(size, start, start + n)
    requires Agree(BufferChunks(data, start), chunks, start, start + n)
    ensures data == Joined(chunks, start, start + n)
    ensures |chunks(start + n - 1)| == SizeForChunk(size, start + n - 1)
  {
    var buffer := BufferChunks(data, start);
    LocalChunkLength(data, size, start, n - 1, n);
    JoinedAgrees(buffer, chunks, start, start + n, start + n);
    BufferIsJoined(data, start, n);
    BlockLengthIs(size, start, start + n);
  }

  /** A block accepted whole is the true block. */
  lemma BlockSound(h: Hasher, chunks: nat -> seq<Byte>, size: nat, t: Tree, u: Tree, root: bool, data: seq<Byte>,
                   buffer: nat -> seq<Byte>, start: nat, n: nat)
    requires Unforgeable(h, chunks, u, root) && WellShaped(t) && WellShaped(u)
    requires t.Start() == start && t.Len() == n && n > 0
    requires |data| == BlockLength(size, start, start + n) && buffer == BufferChunks(data, start)
    requires Node(h, buffer, t, root) == Node(h, chunks, u, root)
    ensures start == u.Start() && n == u.Len() && data == Joined(chunks, start, start + n)
    ensures |chunks(start + n - 1)| == SizeForChunk(size, start + n - 1)
  {
    TreeIsGenuine(h, chunks, u, buffer, t, root);
    BlockIsJoined(chunks, size, start, n, data);
  }

  lemma PositiveLength(t: Tree)
    requires WellShaped(t)
    ensures t.Len() > 0
  {
  }

  ghost predicate Sound(chunks: nat -> seq<Byte>, size: nat, sel: Selection, t: Tree, u: Tree, d: Decoded)
  {
    WritesTruth(chunks, sel, t, d) && Locates(sel, t, u, d) && ProvesEnd(chunks, size, sel, t, u, d)
  }

  lemma NoneSound(chunks: nat -> seq<Byte>, size: nat, sel: Selection, t: Tree, u: Tree, d: Decoded)
    requires WellShaped(t) && NoneIn(sel, t) && d.out == []
    ensures Sound(chunks, size, sel, t, u, d)
  {
    PositiveLength(t);
    PickedNone(chunks, sel, t.Start(), t.End());
    assert t.Start() <= t.End() - 1 < t.End();
  }

  lemma WholeSound(chunks: nat -> seq<Byte>, size: nat, sel: Selection, t: Tree, u: Tree, d: Decoded)
    requires WellShaped(t) && !NoneIn(sel, t) && (t.Leaf? || AllIn(sel, t))
    requires t.Start() == u.Start() && t.End() == u.End() && d.out == Joined(chunks, t.Start(), t.End())
    requires |chunks(t.End() - 1)| == SizeForChunk(size, t.End() - 1)
    ensures Sound(chunks, size, sel, t, u, d)
  {
    assert AllIn(sel, t);
    PickedAll(chunks, sel, t.Start(), t.End());
  }

  /** Two sound children make a sound parent. */
  lemma ForkSound(chunks: nat -> seq<Byte>, size: nat, sel: Selection, t: Tree, u: Tree, a: Decoded, b: Decoded,
                  d: Decoded)
    requires WellShaped(t) && WellShaped(u) && t.Fork? && u.Fork? && Aligned(t, u) && !NoneIn(sel, t)
    requires Sound(chunks, size, sel, t.left, u.left, a)
    requires a.ok ==> Sound(chunks, size, sel, t.right, u.right, b)
    requires d == if a.ok then Decoded(b.ok, a.out + b.out, b.rest) else a
    ensures Sound(chunks, size, sel, t, u, d)
  {
    ChildrenAligned(t, u);
    PickedForks(sel, t, chunks);
    ForkWritesTruth(chunks, sel, t, a, b, d);
    ForkLocates(sel, t, u, a, b, d);
    ForkProvesEnd(chunks, size, sel, t, u, a, b, d);
  }

  lemma ForkProvesEnd(chunks: nat -> seq<Byte>, size: nat, sel: Selection, t: Tree, u: Tree, a: Decoded, b: Decoded,
                      d: Decoded)
    requires WellShaped(t) && WellShaped(u) && t.Fork? && u.Fork?
    requires a.ok ==> ProvesEnd(chunks, size, sel, t.right, u.right, b)
    requires d == if a.ok then Decoded(b.ok, a.out + b.out, b.rest) else a
    ensures ProvesEnd(chunks, size, sel, t, u, d)
  {
  }

  lemma ForkWritesTruth(chunks: nat -> seq<Byte>, sel: Selection, t: Tree, a: Decoded, b: Decoded, d: Decoded)
    requires t.Fork?
    requires PickedIn(chunks, sel, t) == PickedIn(chunks, sel, t.left) + PickedIn(chunks, sel, t.right)
    requires WritesTruth(chunks, sel, t.left, a) && (a.ok ==> WritesTruth(chunks, sel, t.right, b))
    requires d == if a.ok then Decoded(b.ok, a.out + b.out, b.rest) else a
    ensures WritesTruth(chunks, sel, t, d)
  {
  }

  lemma ForkLocates(sel: Selection, t: Tree, u: Tree, a: Decoded, b: Decoded, d: Decoded)
    requires WellShaped(t) && WellShaped(u) && t.Fork? && u.Fork? && !NoneIn(sel, t)
    requires Aligned(t.left, u.left) && Aligned(t.right, u.right)
    requires t.Start() != u.Start() ==> t.left.Start() != u.left.Start() && t.right.Start() != u.right.Start()
    requires Locates(sel, t.left, u.left, a) && (a.ok ==> Locates(sel, t.right, u.right, b))
    requires d == if a.ok then Decoded(b.ok, a.out + b.out, b.rest) else a
    ensures Locates(sel, t, u, d)
  {
    if d.ok {
      assert NoneIn(sel, t) <==> NoneIn(sel, t.left) && NoneIn(sel, t.right);
    }
  }

  /** A pair with the value of an unforgeable node is the pair of its children. */
  lemma PairSound(h: Hasher, chunks: nat -> seq<Byte>, u: Tree, root: bool, l: CV, r: CV)
    requires Unforgeable(h, chunks, u, root) && h.parent(l, r, root) == Node(h, chunks, u, root)
    ensures u.Fork? && l == Node(h, chunks, u.left, false) && r == Node(h, chunks, u.right, false)
    ensures Unforgeable(h, chunks, u.left, false) && Unforgeable(h, chunks, u.right, false)
  {
  }

  /** What the decoder has checked of a whole block it wrote. */
  lemma BlockParts(h: Hasher, size: nat, sel: Selection, t: Tree, root: bool, want: CV, input: seq<Byte>, d: Decoded)
    requires d == Decode(h, size, sel, t, root, want, input) && (d.ok || d.out != [])
    requires !NoneIn(sel, t) && (t.Leaf? || (t.Len() <= 16 && AllIn(sel, t)))
    ensures |d.out| == BlockLength(size, t.Start(), t.Start() + t.Len())
    ensures Node(h, BufferChunks(d.out, t.Start()), t, root) == want
  {
  }

  /** What the decoder has checked of a pair it went on from. */
  lemma ForkParts(h: Hasher, size: nat, sel: Selection, t: Tree, root: bool, want: CV, input: seq<Byte>, d: Decoded)
    requires d == Decode(h, size, sel, t, root, want, input) && (d.ok || d.out != [])
    requires !NoneIn(sel, t) && t.Fork? && (t.Len() <= 16 ==> !AllIn(sel, t))
    ensures |input| >= 64
    ensures var l, r := BytesToCv(input[..32]), BytesToCv(input[32..64]);
            var a := Decode(h, size, sel, t.left, false, l, input[64..]);
            var b := Decode(h, size, sel, t.right, false, r, a.rest);
            h.parent(l, r, root) == want && d == if a.ok then Decoded(b.ok, a.out + b.out, b.rest) else a
  {
  }

  lemma DecodeBlockSound(h: Hasher, chunks: nat -> seq<Byte>, size: nat, sel: Selection, t: Tree, u: Tree, root: bool,
                         d: Decoded)
    requires Unforgeable(h, chunks, u, root) && WellShaped(t) && WellShaped(u)
    requires !NoneIn(sel, t) && (t.Leaf? || AllIn(sel, t))
    requires |d.out| == BlockLength(size, t.Start(), t.Start() + t.Len())
    requires Node(h, BufferChunks(d.out, t.Start()), t, root) == Node(h, chunks, u, root)
    ensures Sound(chunks, size, sel, t, u, d)
  {
    PositiveLength(t);
    BlockSound(h, chunks, size, t, u, root, d.out, BufferChunks(d.out, t.Start()), t.Start(), t.Len());
    WholeSound(chunks, size, sel, t, u, d);
  }

  /** Decoding against the value of an unforgeable tree is sound, whatever the input, the claimed tree and size. */
  lemma {:induction false} DecodeSound(h: Hasher, chunks: nat -> seq<Byte>, size: nat, sel: Selection, t: Tree, u: Tree,
                                       root: bool, want: CV, input: seq<Byte>, d: Decoded)
    requires Unforgeable(h, chunks, u, root) && WellShaped(t) && WellShaped(u) && Aligned(t, u)
    requires want == Node(h, chunks, u, root) && d == Decode(h, size, sel, t, root, want, input)
    ensures Sound(chunks, size, sel, t, u, d)
    decreases t
  {
    if NoneIn(sel, t) {
      NoneSound(chunks, size, sel, t, u, d);
    } else if t.Leaf? || (t.Len() <= 16 && AllIn(sel, t)) {
      if d.ok || d.out != [] {
        BlockParts(h, size, sel, t, root, want, input, d);
        DecodeBlockSound(h, chunks, size, sel, t, u, root, d);
      }
    } else if d.ok || d.out != [] {
      ForkParts(h, size, sel, t, root, want, input, d);
      var l, r := BytesToCv(input[..32]), BytesToCv(input[32..64]);
      DecodeForkSound(h, chunks, size, sel, t, u, root, l, r, input[64..], d);
    }
  }

  lemma {:induction false} DecodeForkSound(h: Hasher, chunks: nat -> seq<Byte>, size: nat, sel: Selection, t: Tree,
                                           u: Tree, root: bool, l: CV, r: CV, input: seq<Byte>, d: Decoded)
    requires Unforgeable(h, chunks, u, root) && WellShaped(t) && WellShaped(u) && Aligned(t, u)
    requires !NoneIn(sel, t) && t.Fork? && h.parent(l, r, root) == Node(h, chunks, u, root)
    requires var a := Decode(h, size, sel, t.left, false, l, input);
             var b := Decode(h, size, sel, t.right, false, r, a.rest);
             d == if a.ok then Decoded(b.ok, a.out + b.out, b.rest) else a
    ensures Sound(chunks, size, sel, t, u, d)
    decreases t, 0
  {
    var a := Decode(h, size, sel, t.left, false, l, input);
    var b := Decode(h, size, sel, t.right, false, r, a.rest);
    PairSound(h, chunks, u, root, l, r);
    ChildrenAligned(t, u);
    DecodeSound(h, chunks, size, sel, t.left, u.left, false, l, input, a);
    DecodeSound(h, chunks, size, sel, t.right, u.right, false, r, a.rest, b);
    ForkSound(chunks, size, sel, t, u, a, b, d);
  }
}
