/** The chunk-range encoder and decoder (blobs/chunkrange_bao.go) as functions over the tree. */
module BlobsCodec {
  import opened Bytes
  import opened BlobsRange
  import opened BlobsSelect
  import opened BlobsTree

  type Selection = seq<ChunkRange>

  predicate NoneIn(sel: Selection, t: Tree)
  {
    NoneSelected(sel, t.Start(), t.End())
  }

  predicate AllIn(sel: Selection, t: Tree)
  {
    AllSelected(sel, t.Start(), t.End())
  }

  // ----- what a selection of a blob is

  /** All chunks from lo to hi, joined. */
  function Joined(chunks: nat -> seq<Byte>, lo: nat, hi: nat): (b: seq<Byte>)
    decreases hi
  {
    if lo >= hi then [] else Joined(chunks, lo, hi - 1) + chunks(hi - 1)
  }

  /** The selected chunks from lo to hi, joined in increasing order. */
  function Picked(chunks: nat -> seq<Byte>, sel: Selection, lo: nat, hi: nat): (b: seq<Byte>)
    decreases hi
  {
    if lo >= hi then []
    else Picked(chunks, sel, lo, hi - 1) + if Selects(sel, hi - 1) then chunks(hi - 1) else []
  }

  function PickedIn(chunks: nat -> seq<Byte>, sel: Selection, t: Tree): (b: seq<Byte>)
  {
    Picked(chunks, sel, t.Start(), t.End())
  }

  lemma {:induction false} PickedSplits(chunks: nat -> seq<Byte>, sel: Selection, lo: nat, mid: nat, hi: nat)
    requires lo <= mid <= hi
    ensures Picked(chunks, sel, lo, hi) == Picked(chunks, sel, lo, mid) + Picked(chunks, sel, mid, hi)
    decreases hi
  {
    if mid < hi {
      PickedSplits(chunks, sel, lo, mid, hi - 1);
    } else {
      assert Picked(chunks, sel, mid, hi) == [];
    }
  }

  lemma {:induction false} PickedNone(chunks: nat -> seq<Byte>, sel: Selection, lo: nat, hi: nat)
    requires NoneSelected(sel, lo, hi)
    ensures Picked(chunks, sel, lo, hi) == []
    decreases hi
  {
    if lo < hi {
      PickedNone(chunks, sel, lo, hi - 1);
    }
  }

  lemma {:induction false} PickedAll(chunks: nat -> seq<Byte>, sel: Selection, lo: nat, hi: nat)
    requires AllSelected(sel, lo, hi)
    ensures Picked(chunks, sel, lo, hi) == Joined(chunks, lo, hi)
    decreases hi
  {
    if lo < hi {
      PickedAll(chunks, sel, lo, hi - 1);
    }
  }

  lemma PickedForks(sel: Selection, t: Tree, chunks: nat -> seq<Byte>)
    requires WellShaped(t) && t.Fork?
    ensures PickedIn(chunks, sel, t) == PickedIn(chunks, sel, t.left) + PickedIn(chunks, sel, t.right)
  {
    PickedSplits(chunks, sel, t.Start(), t.left.End(), t.End());
  }

  // ----- encoding

  /** A block's chaining value and its proof bytes. */
  datatype Proof = Proof(cv: CV, bytes: seq<Byte>)

  /** encodePartialBlock: selected chunks and, where a subtree is split, the pair of its children. */
  function EncodePartial(h: Hasher, sel: Selection, t: Tree, chunks: nat -> seq<Byte>, root: bool): (p: Proof)
    decreases t
  {
    if NoneIn(sel, t) then Proof(Node(h, chunks, t, root), [])
    else if AllIn(sel, t) || t.Leaf? then Proof(Node(h, chunks, t, root), Joined(chunks, t.Start(), t.End()))
    else
      var l := EncodePartial(h, sel, t.left, chunks, false);
      var r := EncodePartial(h, sel, t.right, chunks, false);
      Proof(h.parent(l.cv, r.cv, root), CvBytes(l.cv) + CvBytes(r.cv) + (l.bytes + r.bytes))
  }

  /** What was written, and whether the encoder went on to the end. */
  datatype Encoded = Encoded(ok: bool, out: seq<Byte>)

  /** The readers the encoder works from. */
  datatype Source = Source(data: seq<Byte>, outboard: seq<Byte>, size: nat) {

    /** The bytes that belong to the blob. */
    function Blob(): (d: seq<Byte>)
    {
      data[..MinNat(size, |data|)]
    }
  }

  /** A block can be read: its bytes up to the size are there. */
  predicate Readable(src: Source, t: Tree)
  {
    MinNat(t.End() * 1024, src.size) <= |src.data|
  }

  /** Outboard records of a subtree of n chunks. */
  function Parents(n: nat): (k: nat)
    requires n > 0
  {
    (n + 15) / 16 - 1
  }

  /** The outboard record at off, when it is there. */
  function PairAt(src: Source, off: nat): (pair: seq<Byte>)
    requires off + 64 <= |src.outboard|
    ensures |pair| == 64
  {
    src.outboard[off..off + 64]
  }

  function LeftOf(pair: seq<Byte>): (cv: CV)
    requires |pair| == 64
  {
    BytesToCv(pair[..32])
  }

  function RightOf(pair: seq<Byte>): (cv: CV)
    requires |pair| == 64
  {
    BytesToCv(pair[32..])
  }

  /** Where the right child's records start. */
  ghost function RightOffset(t: Tree, off: nat): (o: nat)
    requires t.Fork? && WellShaped(t)
  {
    off + 64 + 64 * Parents(t.left.Len())
  }

  /** The encoder: pairs come from the outboard above one block, from the data inside a block. */
  ghost function EncodeSubtree(h: Hasher, src: Source, sel: Selection, t: Tree, root: bool, off: nat, want: CV)
    : (e: Encoded)
    requires WellShaped(t)
    decreases t
  {
    if NoneIn(sel, t) then Encoded(true, [])
    else if t.Len() <= 16 || t.Leaf? then
      if !Readable(src, t) then Encoded(false, [])
      else
        var p := EncodePartial(h, sel, t, ChunksOf(src.Blob()), root);
        if p.cv != want then Encoded(false, []) else Encoded(true, p.bytes)
    else if off + 64 > |src.outboard| then Encoded(false, [])
    else
      var pair := PairAt(src, off);
      if h.parent(LeftOf(pair), RightOf(pair), root) != want then Encoded(false, [])
      else
        var a := EncodeSubtree(h, src, sel, t.left, false, off + 64, LeftOf(pair));
        if !a.ok then Encoded(false, pair + a.out)
        else
          var b := EncodeSubtree(h, src, sel, t.right, false, RightOffset(t, off), RightOf(pair));
          Encoded(b.ok, pair + a.out + b.out)
  }

  // ----- decoding

  /** What was written, what is left to read, and whether all hashes matched. */
  datatype Decoded = Decoded(ok: bool, out: seq<Byte>, rest: seq<Byte>)

  /** The size a claimed blob size gives a chunk. */
  function SizeForChunk(size: nat, c: nat): (n: nat)
  {
    if c * 1024 >= size then 0 else MinNat(1024, size - c * 1024)
  }

  function BlockLength(size: nat, lo: nat, hi: nat): (n: nat)
    decreases hi
  {
    if lo >= hi then 0 else BlockLength(size, lo, hi - 1) + SizeForChunk(size, hi - 1)
  }

  lemma {:induction false} BlockLengthIs(size: nat, lo: nat, hi: nat)
    requires lo <= hi
    ensures BlockLength(size, lo, hi) == MinNat(hi * 1024, size) - MinNat(lo * 1024, size)
    decreases hi
  {
    if lo < hi {
      BlockLengthIs(size, lo, hi - 1);
    }
  }

  /**
   The decoder. A whole block is read at once and hashed; otherwise the pair of
   children is read, checked against the wanted value, and each child is decoded.
   */
  function Decode(h: Hasher, size: nat, sel: Selection, t: Tree, root: bool, want: CV, input: seq<Byte>): (d: Decoded)
    decreases t
  {
    if NoneIn(sel, t) then Decoded(true, [], input)
    else if t.Leaf? || (t.Len() <= 16 && AllIn(sel, t)) then
      var n := BlockLength(size, t.Start(), t.End());
      if |input| < n || Node(h, BufferChunks(input[..n], t.Start()), t, root) != want then Decoded(false, [], input)
      else Decoded(true, input[..n], input[n..])
    else if |input| < 64 then Decoded(false, [], input)
    else
      var l, r := BytesToCv(input[..32]), BytesToCv(input[32..64]);
      if h.parent(l, r, root) != want then Decoded(false, [], input)
      else
        var a := Decode(h, size, sel, t.left, false, l, input[64..]);
        if !a.ok then a
        else
          var b := Decode(h, size, sel, t.right, false, r, a.rest);
          Decoded(b.ok, a.out + b.out, b.rest)
  }
}
