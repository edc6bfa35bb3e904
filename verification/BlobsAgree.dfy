/** Narrowing a selection on the way down the tree changes nothing the codec does below. */
module BlobsAgree {
  import opened Bytes
  import opened BlobsSelect
  import opened BlobsTree
  import opened BlobsCodec

  ghost predicate SameIn(a: Selection, b: Selection, lo: nat, hi: nat)
  {
    forall c :: lo <= c < hi ==> (Selects(a, c) <==> Selects(b, c))
  }

  lemma SameTests(a: Selection, b: Selection, t: Tree, lo: nat, hi: nat)
    requires SameIn(a, b, lo, hi) && lo <= t.Start() && t.End() <= hi
    ensures NoneIn(a, t) <==> NoneIn(b, t)
    ensures AllIn(a, t) <==> AllIn(b, t)
  {
  }

  lemma {:induction false} PartialNarrows(h: Hasher, a: Selection, b: Selection, t: Tree, chunks: nat -> seq<Byte>,
                                          root: bool, lo: nat, hi: nat)
    requires WellShaped(t) && SameIn(a, b, lo, hi) && lo <= t.Start() && t.End() <= hi
    ensures EncodePartial(h, a, t, chunks, root) == EncodePartial(h, b, t, chunks, root)
    decreases t
  {
    SameTests(a, b, t, lo, hi);
    if t.Fork? {
      PartialNarrows(h, a, b, t.left, chunks, false, lo, hi);
      PartialNarrows(h, a, b, t.right, chunks, false, lo, hi);
    }
  }

  lemma {:induction false} EncodeNarrows(h: Hasher, src: Source, a: Selection, b: Selection, t: Tree, root: bool,
                                         off: nat, want: CV, lo: nat, hi: nat)
    requires WellShaped(t) && SameIn(a, b, lo, hi) && lo <= t.Start() && t.End() <= hi
    ensures EncodeSubtree(h, src, a, t, root, off, want) == EncodeSubtree(h, src, b, t, root, off, want)
    decreases t
  {
    SameTests(a, b, t, lo, hi);
    PartialNarrows(h, a, b, t, ChunksOf(src.Blob()), root, lo, hi);
    if t.Fork? && off + 64 <= |src.outboard| {
      var pair := PairAt(src, off);
      EncodeNarrows(h, src, a, b, t.left, false, off + 64, LeftOf(pair), lo, hi);
      EncodeNarrows(h, src, a, b, t.right, false, RightOffset(t, off), RightOf(pair), lo, hi);
    }
  }

  lemma {:induction false} DecodeNarrows(h: Hasher, size: nat, a: Selection, b: Selection, t: Tree, root: bool,
                                         want: CV, input: seq<Byte>, lo: nat, hi: nat)
    requires WellShaped(t) && SameIn(a, b, lo, hi) && lo <= t.Start() && t.End() <= hi
    ensures Decode(h, size, a, t, root, want, input) == Decode(h, size, b, t, root, want, input)
    decreases t
  {
    SameTests(a, b, t, lo, hi);
    if t.Fork? && |input| >= 64 {
      var l, r := BytesToCv(input[..32]), BytesToCv(input[32..64]);
      DecodeNarrows(h, size, a, b, t.left, false, l, input[64..], lo, hi);
      DecodeNarrows(h, size, a, b, t.right, false, r, Decode(h, size, a, t.left, false, l, input[64..]).rest, lo, hi);
    }
  }
}
