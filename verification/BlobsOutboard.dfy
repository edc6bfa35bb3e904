/** The outboard of a blob, and why encoding from an honest one never fails a check. */
module BlobsOutboard {
  import opened Bytes
  import opened BlobsTree
  import opened BlobsCodec
  import opened BlobsRoundTrip

  /** The record of a subtree: the values of its two children. */
  function PairOf(h: Hasher, chunks: nat -> seq<Byte>, t: Tree): (b: seq<Byte>)
    requires t.Fork?
    ensures |b| == 64
  {
    CvBytes(Node(h, chunks, t.left, false)) + CvBytes(Node(h, chunks, t.right, false))
  }

  /** The pairs above the blocks, parents before children. */
  function Preorder(h: Hasher, chunks: nat -> seq<Byte>, t: Tree): (b: seq<Byte>)
    decreases t
  {
    if t.Leaf? || t.Len() <= 16 then []
    else PairOf(h, chunks, t) + Preorder(h, chunks, t.left) + Preorder(h, chunks, t.right)
  }

  lemma ParentsAdd(left: nat, n: nat)
    requires 0 < left < n && left % 16 == 0
    ensures Parents(n) == 1 + Parents(left) + Parents(n - left)
  {
  }

  lemma ForkParents(t: Tree)
    requires WellShaped(t) && t.Fork? && t.Len() > 16
    ensures t.left.Len() > 0 && t.right.Len() > 0
    ensures Parents(t.Len()) == 1 + Parents(t.left.Len()) + Parents(t.right.Len())
  {
    LeftIsBlocks(t.left.Len(), t.Len());
    ParentsAdd(t.left.Len(), t.Len());
  }

  /** A subtree over n chunks has a record for each block but one. */
  lemma {:induction false} PreorderLength(h: Hasher, chunks: nat -> seq<Byte>, t: Tree)
    requires WellShaped(t)
    ensures t.Len() > 0 && |Preorder(h, chunks, t)| == 64 * Parents(t.Len())
    decreases t
  {
    if t.Fork? && t.Len() > 16 {
      PreorderLength(h, chunks, t.left);
      PreorderLength(h, chunks, t.right);
      ForkParents(t);
    }
  }

  predicate StandsAt(s: seq<Byte>, off: nat, part: seq<Byte>)
  {
    off + |part| <= |s| && s[off..off + |part|] == part
  }

  lemma ThreeParts(s: seq<Byte>, off: nat, a: seq<Byte>, b: seq<Byte>, c: seq<Byte>)
    requires StandsAt(s, off, a + b + c)
    ensures StandsAt(s, off, a) && StandsAt(s, off + |a|, b) && StandsAt(s, off + |a| + |b|, c)
  {
    var all, n := a + b + c, |a| + |b|;
    assert all[..|a|] == a && all[|a|..n] == b && all[n..n + |c|] == c;
    SubSlice(s, off, off + |all|, 0, |a|);
    SubSlice(s, off, off + |all|, |a|, n);
    SubSlice(s, off, off + |all|, n, n + |c|);
  }

  /** The offsets that the encoder passes on are where the children's records are. */
  lemma ChildRecords(h: Hasher, chunks: nat -> seq<Byte>, outboard: seq<Byte>, t: Tree, off: nat)
    requires WellShaped(t) && t.Fork? && t.Len() > 16
    requires StandsAt(outboard, off, Preorder(h, chunks, t))
    ensures StandsAt(outboard, off, PairOf(h, chunks, t))
    ensures StandsAt(outboard, off + 64, Preorder(h, chunks, t.left))
    ensures StandsAt(outboard, RightOffset(t, off), Preorder(h, chunks, t.right))
  {
    PreorderLength(h, chunks, t.left);
    ThreeParts(outboard, off, PairOf(h, chunks, t), Preorder(h, chunks, t.left), Preorder(h, chunks, t.right));
  }

  /** From an honest outboard and all the data, every selection encodes. */
  lemma {:induction false} HonestSubtree(h: Hasher, src: Source, sel: Selection, t: Tree, root: bool, off: nat)
    requires WellShaped(t) && src.size <= |src.data|
    requires StandsAt(src.outboard, off, Preorder(h, ChunksOf(src.Blob()), t))
    ensures EncodeSubtree(h, src, sel, t, root, off, Node(h, ChunksOf(src.Blob()), t, root)).ok
    decreases t
  {
    var chunks := ChunksOf(src.Blob());
    if t.Fork? && t.Len() > 16 {
      var l, r := Node(h, chunks, t.left, false), Node(h, chunks, t.right, false);
      ChildRecords(h, chunks, src.outboard, t, off);
      var pair := PairAt(src, off);
      assert pair[..32] == CvBytes(l) && pair[32..] == CvBytes(r);
      CvRoundTrip(l);
      CvRoundTrip(r);
      HonestSubtree(h, src, sel, t.left, false, off + 64);
      HonestSubtree(h, src, sel, t.right, false, RightOffset(t, off));
    } else {
      PartialIsNode(h, sel, t, chunks, root);
    }
  }
}
