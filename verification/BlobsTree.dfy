/**
 The hash tree of a blob (blobs/chunkrange_bao.go): 1024-byte chunks, sixteen to a block, under a binary
 tree whose left subtrees are complete, as in section 2.1 of the BLAKE3 specification.
 */
module BlobsTree {
  import opened Bytes


  // ----- little-endian integers

  function LeBytes(n: nat, k: nat): (b: seq<Byte>)
    ensures |b| == k
  {
    if k == 0 then [] else [n % 256] + LeBytes(n / 256, k - 1)
  }

  function LeValue(b: seq<Byte>): (n: nat)
  {
    if b == [] then 0 else b[0] + 256 * LeValue(b[1..])
  }

  function Pow256(k: nat): (n: nat)
    ensures n > 0
  {
    if k == 0 then 1 else 256 * Pow256(k - 1)
  }

  lemma {:induction false} LeRoundTrip(n: nat, k: nat)
    requires n < Pow256(k)
    ensures LeValue(LeBytes(n, k)) == n
    decreases k
  {
    if k > 0 {
      LeRoundTrip(n / 256, k - 1);
      assert LeBytes(n, k)[1..] == LeBytes(n / 256, k - 1);
    }
  }

  lemma {:induction false} LeValueBound(b: seq<Byte>)
    ensures LeValue(b) < Pow256(|b|)
    decreases |b|
  {
    if b != [] {
      LeValueBound(b[1..]);
    }
  }

  // ----- chaining values

  /** Eight little-endian 32-bit words, taken together as one little-endian integer. */
  type CV = x: int | 0 <= x < TWO256

  const TWO256: int := 0x1_0000000000000000_0000000000000000_0000000000000000_0000000000000000

  lemma CvRange()
    ensures Pow256(32) == TWO256
  {
    assert Pow256(4) == 0x1_0000_0000;
    assert Pow256(8) == 0x1_0000_0000_0000_0000;
    Pow256Add(8, 8);
    Pow256Add(16, 16);
  }

  lemma {:induction false} Pow256Add(a: nat, b: nat)
    ensures Pow256(a + b) == Pow256(a) * Pow256(b)
    decreases a
  {
    if a > 0 {
      Pow256Add(a - 1, b);
      assert Pow256(a) * Pow256(b) == 256 * (Pow256(a - 1) * Pow256(b));
    }
  }

  function CvBytes(cv: CV): (b: Bytes32)
  {
    LeBytes(cv, 32)
  }

  function BytesToCv(b: Bytes32): (cv: CV)
  {
    LeValueBound(b);
    CvRange();
    LeValue(b)
  }

  /** Reading back the bytes of a chaining value gives the value. */
  lemma CvRoundTrip(cv: CV)
    ensures BytesToCv(CvBytes(cv)) == cv
  {
    CvRange();
    LeRoundTrip(cv, 32);
  }

  // ----- tree shape

  function BitLen(x: nat): (n: nat)
  {
    if x == 0 then 0 else 1 + BitLen(x / 2)
  }

  function Pow2(k: nat): (n: nat)
    ensures n > 0
  {
    if k == 0 then 1 else 2 * Pow2(k - 1)
  }

  lemma {:induction false} Pow2Monotone(a: nat, b: nat)
    requires a < b
    ensures 2 * Pow2(a) <= Pow2(b)
    decreases b
  {
    if a < b - 1 {
      Pow2Monotone(a, b - 1);
    }
  }

  ghost predicate IsPow2(x: nat)
  {
    exists k: nat :: x == Pow2(k)
  }

  lemma {:induction false} BitLenBounds(x: nat)
    requires x > 0
    ensures BitLen(x) > 0 && Pow2(BitLen(x) - 1) <= x < 2 * Pow2(BitLen(x) - 1)
    decreases x
  {
    if x > 1 {
      BitLenBounds(x / 2);
    }
  }

  /** left is the largest power of two below n. */
  ghost predicate IsLeft(left: nat, n: nat)
  {
    0 < left < n <= 2 * left && IsPow2(left)
  }

  ghost function LeftChunks(n: nat): (left: nat)
    requires n >= 2
    ensures IsLeft(left, n)
  {
    BitLenBounds(n - 1);
    assert IsPow2(Pow2(BitLen(n - 1) - 1));
    assert IsLeft(Pow2(BitLen(n - 1) - 1), n);
    var left: nat :| IsLeft(left, n);
    left
  }

  /** Powers of two are equal or at least a factor two apart. */
  lemma Pow2Apart(a: nat, b: nat)
    requires IsPow2(a) && IsPow2(b) && a < b
    ensures 2 * a <= b
  {
    var i: nat :| a == Pow2(i);
    var j: nat :| b == Pow2(j);
    if i < j {
      Pow2Monotone(i, j);
    } else if j < i {
      Pow2Monotone(j, i);
      assert false;
    }
  }

  lemma LeftIsUnique(a: nat, b: nat, n: nat)
    requires IsLeft(a, n) && IsLeft(b, n)
    ensures a == b
  {
    if a < b {
      Pow2Apart(a, b);
      assert false;
    } else if b < a {
      Pow2Apart(b, a);
      assert false;
    }
  }

  /** The source's form of it: one shifted by the bit length of n - 1, less one. */
  lemma LeftChunksIsShift(n: nat)
    requires n >= 2
    ensures BitLen(n - 1) > 0 && LeftChunks(n) == Pow2(BitLen(n - 1) - 1)
  {
    BitLenBounds(n - 1);
    assert IsPow2(Pow2(BitLen(n - 1) - 1));
    LeftIsUnique(LeftChunks(n), Pow2(BitLen(n - 1) - 1), n);
  }

  lemma {:induction false} Pow2Of16(k: nat)
    requires k >= 4
    ensures Pow2(k) % 16 == 0
    decreases k
  {
    if k == 4 {
      assert Pow2(4) == 16;
    } else {
      Pow2Of16(k - 1);
    }
  }

  /** Above one block, left subtrees are whole blocks. */
  lemma LeftIsBlocks(left: nat, n: nat)
    requires n > 16 && IsLeft(left, n)
    ensures left % 16 == 0 && left >= 16
  {
    var k: nat :| left == Pow2(k);
    assert Pow2(4) == 16;
    if k < 4 {
      Pow2Monotone(k, 4);
      assert false;
    }
    Pow2Of16(k);
  }

  /** The tree over n chunks from start. */
  datatype Tree = Leaf(at: nat) | Fork(from: nat, n: nat, left: Tree, right: Tree) {

    function Start(): (s: nat) { if Leaf? then at else from }
    function Len(): (k: nat) { if Leaf? then 1 else n }
    function End(): (e: nat) { Start() + Len() }
  }

  /** t has the shape that the source's recursion walks. */
  ghost predicate WellShaped(t: Tree)
  {
    match t
    case Leaf(_) => true
    case Fork(from, n, left, right) =>
      && IsLeft(left.Len(), n)
      && left.Start() == from && right.Start() == left.End() && right.End() == t.End()
      && WellShaped(left) && WellShaped(right)
  }

  ghost function Shape(start: nat, n: nat): (t: Tree)
    requires n > 0
    ensures t.Start() == start && t.Len() == n && WellShaped(t)
    decreases n
  {
    if n == 1 then Leaf(start)
    else
      var left := LeftChunks(n);
      Fork(start, n, Shape(start, left), Shape(start + left, n - left))
  }

  // ----- hashing

  /** The two compression functions, left uninterpreted. */
  datatype Hasher = Hasher(chunk: (seq<Byte>, nat, bool) -> CV, parent: (CV, CV, bool) -> CV)

  /** The value of a tree node over the given chunks. */
  function Node(h: Hasher, chunks: nat -> seq<Byte>, t: Tree, root: bool): (cv: CV)
  {
    match t
    case Leaf(i) => h.chunk(chunks(i), i, root)
    case Fork(_, _, left, right) => h.parent(Node(h, chunks, left, false), Node(h, chunks, right, false), root)
  }

  function MinNat(a: nat, b: nat): (m: nat) { if a < b then a else b }

  /** The bytes of chunks lo up to hi that exist. */
  function Slice(d: seq<Byte>, lo: nat, hi: nat): (s: seq<Byte>)
    requires lo <= hi
  {
    d[MinNat(lo * 1024, |d|)..MinNat(hi * 1024, |d|)]
  }

  /** The chunks of a blob, by index. */
  function ChunksOf(d: seq<Byte>): (f: nat -> seq<Byte>)
  {
    (c: nat) => Slice(d, c, c + 1)
  }

  /** Chunk i of a buffer. */
  function LocalChunk(data: seq<Byte>, i: nat): (s: seq<Byte>)
  {
    var lo := MinNat(i * 1024, |data|);
    var hi := MinNat(lo + 1024, |data|);
    data[lo..hi]
  }

  /** The chunks of a buffer whose first chunk has index start. */
  function BufferChunks(data: seq<Byte>, start: nat): (f: nat -> seq<Byte>)
  {
    (c: nat) => if c < start then [] else LocalChunk(data, c - start)
  }

  function ChunkCount(size: nat): (n: nat)
  {
    (size + 1023) / 1024
  }

  /** The tree of a blob; no bytes still make one chunk. */
  ghost function BlobTree(size: nat): (t: Tree)
    ensures t.Start() == 0 && WellShaped(t)
  {
    Shape(0, if size == 0 then 1 else ChunkCount(size))
  }

  ghost function RootHash(h: Hasher, d: seq<Byte>): (hash: Bytes32)
  {
    CvBytes(Node(h, ChunksOf(d), BlobTree(|d|), true))
  }

  /** The two chunk functions agree on the chunks from lo to hi. */
  ghost predicate Agree(a: nat -> seq<Byte>, b: nat -> seq<Byte>, lo: nat, hi: nat)
  {
    forall i: nat :: lo <= i < hi ==> a(i) == b(i)
  }

  lemma {:induction false} NodeAgrees(h: Hasher, a: nat -> seq<Byte>, b: nat -> seq<Byte>, t: Tree, root: bool,
                                      lo: nat, hi: nat)
    requires Agree(a, b, lo, hi) && WellShaped(t) && lo <= t.Start() && t.End() <= hi
    ensures Node(h, a, t, root) == Node(h, b, t, root)
    decreases t
  {
    match t
    case Leaf(_) =>
    case Fork(_, _, left, right) =>
      NodeAgrees(h, a, b, left, false, lo, hi);
      NodeAgrees(h, a, b, right, false, lo, hi);
  }

  lemma SubSlice(d: seq<Byte>, a: nat, b: nat, lo: nat, hi: nat)
    requires a <= b <= |d| && lo <= hi <= b - a
    ensures d[a..b][lo..hi] == d[a + lo..a + hi]
  {
    forall i | 0 <= i < hi - lo
      ensures d[a..b][lo..hi][i] == d[a + lo..a + hi][i]
    {
    }
  }

  lemma LocalChunkOfSlice(d: seq<Byte>, first: nat, total: nat, i: nat)
    requires i < total
    ensures LocalChunk(Slice(d, first, first + total), i) == Slice(d, first + i, first + i + 1)
  {
    var a, b := MinNat(first * 1024, |d|), MinNat((first + total) * 1024, |d|);
    var lo := MinNat(i * 1024, b - a);
    var hi := MinNat(lo + 1024, b - a);
    SubSlice(d, a, b, lo, hi);
    assert a + lo == MinNat((first + i) * 1024, |d|);
    assert a + hi == MinNat((first + i + 1) * 1024, |d|);
  }

  /** A slice of a blob, read as a buffer, holds the blob's chunks. */
  lemma SliceAgrees(d: seq<Byte>, lo: nat, hi: nat)
    requires lo <= hi
    ensures Agree(BufferChunks(Slice(d, lo, hi), lo), ChunksOf(d), lo, hi)
  {
    var buffer := BufferChunks(Slice(d, lo, hi), lo);
    forall c: nat | lo <= c < hi
      ensures buffer(c) == ChunksOf(d)(c)
    {
      LocalChunkOfSlice(d, lo, hi - lo, c - lo);
    }
  }
}
