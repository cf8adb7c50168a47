/**
  The boundary-tag layout of the arena. The buffer of N bytes is seen as a
  sequence of tag slots indexed by byte offset; a block occupies
  [leading tag][payload][trailing tag] and both tags hold the payload length,
  positive when the block is free and negated when it is allocated.
 */
module Blocks {

  /** Width in bytes of one tag, sizeof(int). */
  const W: nat := 4

  /** Largest value a tag (a C++ int) can hold. */
  const IntMax: int := 0x7fff_ffff

  /** One block of the arena: its payload length in bytes and its state. */
  datatype Block = Block(size: nat, free: bool)

  function Abs(x: int): nat
  {
    if x < 0 then -x else x
  }

  /** The value both tags of a block hold. */
  function Tag(b: Block): int
  {
    if b.free then b.size else -(b.size as int)
  }

  /** Bytes a block occupies, its two tags included. */
  function Span(b: Block): nat
  {
    b.size + 2 * W
  }

  /** Bytes a run of back-to-back blocks occupies. */
  function Extent(bs: seq<Block>): nat
  {
    if |bs| == 0 then 0 else Span(bs[0]) + Extent(bs[1..])
  }

  /** Byte offset of the leading tag of block k. */
  function Start(bs: seq<Block>, k: nat): nat
    requires k <= |bs|
  {
    Extent(bs[..k])
  }

  /** Both tags of block b, placed at offset i, are in the buffer m. */
  predicate TagsAt(m: seq<int>, i: nat, b: Block)
  {
    i + Span(b) <= |m| && m[i] == Tag(b) && m[i + W + b.size] == Tag(b)
  }

  /** The blocks bs lie back to back in m from offset i, each with matching tags. */
  predicate Covers(m: seq<int>, bs: seq<Block>, i: nat)
    decreases |bs|
  {
    |bs| == 0 || (TagsAt(m, i, bs[0]) && Covers(m, bs[1..], i + Span(bs[0])))
  }

  /** The blocks bs tile the whole buffer m: they start at 0 and end exactly at |m|. */
  predicate Tiles(m: seq<int>, bs: seq<Block>)
  {
    Covers(m, bs, 0) && Extent(bs) == |m|
  }

  /** No two neighbouring blocks among the first j are both free. */
  predicate NoFreePairBefore(bs: seq<Block>, j: int)
  {
    forall t :: 0 < t < j && t < |bs| ==> !(bs[t - 1].free && bs[t].free)
  }

  /** No two neighbouring blocks are both free. */
  predicate NoAdjacentFree(bs: seq<Block>)
  {
    NoFreePairBefore(bs, |bs|)
  }

  /** Every payload holds at least s bytes. */
  predicate MinPayload(bs: seq<Block>, s: nat)
  {
    forall k :: 0 <= k < |bs| ==> bs[k].size >= s
  }

  /** m2 agrees with m everywhere outside the byte range [lo, hi). */
  predicate SameOutside(m: seq<int>, m2: seq<int>, lo: int, hi: int)
  {
    |m2| == |m| && forall x :: 0 <= x < |m| && !(lo <= x < hi) ==> m2[x] == m[x]
  }

  lemma {:induction false} ExtentAppend(xs: seq<Block>, ys: seq<Block>)
    ensures Extent(xs + ys) == Extent(xs) + Extent(ys)
  {
    if xs == [] {
      assert xs + ys == ys;
    } else {
      assert (xs + ys)[0] == xs[0];
      assert (xs + ys)[1..] == xs[1..] + ys;
      ExtentAppend(xs[1..], ys);
    }
  }

  lemma {:induction false} ExtentSingle(b: Block)
    ensures Extent([b]) == Span(b)
  {
    assert [b][1..] == [];
  }

  lemma {:induction false} ExtentPair(b: Block, c: Block)
    ensures Extent([b, c]) == Span(b) + Span(c)
  {
    assert [b, c][1..] == [c];
    ExtentSingle(c);
  }

  /** Each block starts where the one before it ends. */
  lemma {:induction false} StartStep(bs: seq<Block>, k: nat)
    requires k < |bs|
    ensures Start(bs, k + 1) == Start(bs, k) + Span(bs[k])
  {
    assert bs[..k + 1] == bs[..k] + [bs[k]];
    ExtentAppend(bs[..k], [bs[k]]);
    ExtentSingle(bs[k]);
  }

  /** Every block ends within the extent of the whole run. */
  lemma {:induction false} StartBound(bs: seq<Block>, k: nat)
    requires k < |bs|
    ensures Start(bs, k) + Span(bs[k]) <= Extent(bs)
  {
    assert bs == bs[..k] + bs[k..];
    ExtentAppend(bs[..k], bs[k..]);
    assert bs[k..][0] == bs[k];
  }

  lemma {:induction false} CoversAppend(m: seq<int>, xs: seq<Block>, ys: seq<Block>, i: nat)
    ensures Covers(m, xs + ys, i) <==> Covers(m, xs, i) && Covers(m, ys, i + Extent(xs))
  {
    if xs == [] {
      assert xs + ys == ys;
    } else {
      assert (xs + ys)[0] == xs[0];
      assert (xs + ys)[1..] == xs[1..] + ys;
      CoversAppend(m, xs[1..], ys, i + Span(xs[0]));
    }
  }

  /** Writing only outside the bytes a run of blocks occupies leaves its tags intact. */
  lemma {:induction false} CoversFrame(m: seq<int>, m2: seq<int>, bs: seq<Block>, i: nat, lo: int, hi: int)
    requires Covers(m, bs, i)
    requires SameOutside(m, m2, lo, hi)
    requires i + Extent(bs) <= lo || hi <= i
    ensures Covers(m2, bs, i)
  {
    if bs != [] {
      CoversFrame(m, m2, bs[1..], i + Span(bs[0]), lo, hi);
    }
  }

  /** A tiled buffer holds the tags of block k at Start(bs, k). */
  lemma {:induction false} TilesAt(m: seq<int>, bs: seq<Block>, k: nat)
    requires Tiles(m, bs)
    requires k < |bs|
    ensures TagsAt(m, Start(bs, k), bs[k])
    ensures Start(bs, k + 1) == Start(bs, k) + Span(bs[k])
  {
    assert bs == bs[..k] + bs[k..];
    CoversAppend(m, bs[..k], bs[k..], 0);
    assert bs[k..][0] == bs[k];
    StartStep(bs, k);
  }

  /**
    Replacing the run mid by a run mid2 of the same extent, when the buffer
    changes only inside mid's bytes and holds mid2's tags there, keeps the
    buffer tiled.
   */
  lemma {:induction false} TilesReplace(m: seq<int>, m2: seq<int>, pre: seq<Block>, mid: seq<Block>, mid2: seq<Block>, post: seq<Block>)
    requires Tiles(m, pre + mid + post)
    requires Extent(mid2) == Extent(mid)
    requires SameOutside(m, m2, Extent(pre), Extent(pre) + Extent(mid))
    requires Covers(m2, mid2, Extent(pre))
    ensures Tiles(m2, pre + mid2 + post)
  {
    CoversReplace(m, m2, pre, mid, mid2, post, 0);
    Extent3(pre, mid, post);
    Extent3(pre, mid2, post);
  }

  lemma {:induction false} CoversReplace(m: seq<int>, m2: seq<int>, pre: seq<Block>, mid: seq<Block>, mid2: seq<Block>, post: seq<Block>, i: nat)
    requires Covers(m, pre + mid + post, i)
    requires Extent(mid2) == Extent(mid)
    requires SameOutside(m, m2, i + Extent(pre), i + Extent(pre) + Extent(mid))
    requires Covers(m2, mid2, i + Extent(pre))
    ensures Covers(m2, pre + mid2 + post, i)
  {
    var lo, hi := i + Extent(pre), i + Extent(pre) + Extent(mid);
    CoversSplit3(m, pre, mid, post, i);
    CoversFrame(m, m2, pre, i, lo, hi);
    CoversFrame(m, m2, post, hi, lo, hi);
    CoversJoin3(m2, pre, mid2, post, i);
  }

  lemma {:induction false} Extent3(pre: seq<Block>, mid: seq<Block>, post: seq<Block>)
    ensures Extent(pre + mid + post) == Extent(pre) + Extent(mid) + Extent(post)
  {
    ExtentAppend(pre, mid);
    ExtentAppend(pre + mid, post);
  }

  lemma {:induction false} CoversSplit3(m: seq<int>, pre: seq<Block>, mid: seq<Block>, post: seq<Block>, i: nat)
    requires Covers(m, pre + mid + post, i)
    ensures Covers(m, pre, i) && Covers(m, mid, i + Extent(pre)) && Covers(m, post, i + Extent(pre) + Extent(mid))
  {
    var front := pre + mid;
    CoversSplit(m, front, post, i);
    CoversSplit(m, pre, mid, i);
    ExtentAppend(pre, mid);
  }

  lemma {:induction false} CoversJoin3(m: seq<int>, pre: seq<Block>, mid: seq<Block>, post: seq<Block>, i: nat)
    requires Covers(m, pre, i) && Covers(m, mid, i + Extent(pre)) && Covers(m, post, i + Extent(pre) + Extent(mid))
    ensures Covers(m, pre + mid + post, i)
  {
    ExtentAppend(pre, mid);
    CoversJoin(m, pre, mid, i);
    assert Covers(m, post, i + Extent(pre + mid));
    CoversJoin(m, pre + mid, post, i);
  }

  lemma {:induction false} CoversSplit(m: seq<int>, xs: seq<Block>, ys: seq<Block>, i: nat)
    requires Covers(m, xs + ys, i)
    ensures Covers(m, xs, i) && Covers(m, ys, i + Extent(xs))
  {
    CoversAppend(m, xs, ys, i);
  }

  lemma {:induction false} CoversJoin(m: seq<int>, xs: seq<Block>, ys: seq<Block>, i: nat)
    requires Covers(m, xs, i) && Covers(m, ys, i + Extent(xs))
    ensures Covers(m, xs + ys, i)
  {
    CoversAppend(m, xs, ys, i);
  }
}
