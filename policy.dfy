/**
  The block-level meaning of allocate and deallocate: the first-fit choice,
  the split-or-absorb policy, and coalescing of neighbouring free blocks.
 */
module Policy {
  import opened Blocks
  import opened Outcomes

  // ---------- allocate ----------

  /**
    The test allocate applies to each block: the bytes the block can hand back,
    its tag plus both tags (space_available), reach the bytes a request of need
    payload bytes takes with its tags (space_needed).
   */
  predicate Fits(b: Block, need: int)
  {
    Tag(b) + 2 * W >= need + 2 * W
  }

  /** The first block, in buffer order, that fits a request of need bytes. */
  function FirstFit(bs: seq<Block>, need: int): (r: Option<nat>)
    ensures r.Some? ==> r.value < |bs| && Fits(bs[r.value], need)
    ensures r.Some? ==> forall j :: 0 <= j < r.value ==> !Fits(bs[j], need)
    ensures r.None? ==> forall j :: 0 <= j < |bs| ==> !Fits(bs[j], need)
  {
    if |bs| == 0 then None
    else if Fits(bs[0], need) then Some(0)
    else
      match FirstFit(bs[1..], need)
      case None => None
      case Some(k) => Some(k + 1)
  }

  /** For a request of at least one byte, only a free block large enough fits: an allocated tag is negative. */
  lemma {:induction false} FitsOnlyFree(b: Block, need: int)
    requires need >= 1
    ensures Fits(b, need) <==> b.free && b.size >= need
  {
    if !b.free {
      assert Tag(b) <= 0;
    }
  }

  /**
    The blocks after allocate has taken block k for a request of need bytes,
    s being sizeof(T). When the bytes left over (space_available minus
    space_needed) are fewer than a viable block, s + 2 * W, the whole block is
    marked allocated with its size unchanged; otherwise it is split into an
    allocated block of exactly need bytes followed by a free block holding the
    rest minus its two tags.
   */
  function Carve(bs: seq<Block>, k: nat, need: nat, s: nat): seq<Block>
    requires k < |bs| && need >= 1 && Fits(bs[k], need)
  {
    var b := bs[k];
    var left := (Tag(b) + 2 * W) - (need + 2 * W);
    if left < s + 2 * W then
      bs[..k] + [Block(b.size, false)] + bs[k + 1..]
    else
      bs[..k] + [Block(need, false), Block(left - 2 * W, true)] + bs[k + 1..]
  }

  /**
    What allocate hands out: block k becomes allocated with at least need
    payload bytes, starting where the free block started; the blocks before it
    are untouched and, after it, either the old neighbours follow (the block
    was absorbed whole, because the rest could not form a viable block) or a
    free block of at least s payload bytes does (the block was split).
   */
  lemma {:induction false} CarveShape(bs: seq<Block>, k: nat, need: nat, s: nat)
    requires k < |bs| && need >= 1 && Fits(bs[k], need)
    ensures var r := Carve(bs, k, need, s);
      && k < |r| && !r[k].free && r[k].size >= need
      && r[..k] == bs[..k] && Start(r, k) == Start(bs, k)
      && (|r| == |bs| ==> r[k].size == bs[k].size && bs[k].size - need < s + 2 * W && r[k + 1..] == bs[k + 1..])
      && (|r| == |bs| + 1 ==> r[k].size == need && r[k + 1].free && r[k + 1].size >= s
                              && Span(r[k]) + Span(r[k + 1]) == Span(bs[k]) && r[k + 2..] == bs[k + 1..])
      && (|r| == |bs| || |r| == |bs| + 1)
  {
    FitsOnlyFree(bs[k], need);
    var r := Carve(bs, k, need, s);
    assert r[..k] == bs[..k];
  }

  /** Splicing a run mid in place of bs[lo..hi] keeps "no two free neighbours" when mid's ends meet no free block. */
  lemma {:induction false} SpliceNoAdjacentFree(bs: seq<Block>, lo: nat, hi: nat, mid: seq<Block>)
    requires lo <= hi <= |bs| && |mid| > 0
    requires NoAdjacentFree(bs) && NoAdjacentFree(mid)
    requires lo > 0 && mid[0].free ==> !bs[lo - 1].free
    requires hi < |bs| && mid[|mid| - 1].free ==> !bs[hi].free
    ensures NoAdjacentFree(bs[..lo] + mid + bs[hi..])
  {
    var r := bs[..lo] + mid + bs[hi..];
    forall t | 0 < t < |r|
      ensures !(r[t - 1].free && r[t].free)
    {
      if t < lo {
        assert r[t - 1] == bs[t - 1] && r[t] == bs[t];
      } else if t == lo {
        assert r[t - 1] == bs[lo - 1] && r[t] == mid[0];
      } else if t < lo + |mid| {
        assert r[t - 1] == mid[t - 1 - lo] && r[t] == mid[t - lo];
      } else if t == lo + |mid| {
        assert r[t - 1] == mid[|mid| - 1] && r[t] == bs[hi];
      } else {
        assert r[t - 1] == bs[t - 1 - lo - |mid| + hi] && r[t] == bs[t - lo - |mid| + hi];
      }
    }
  }

  lemma {:induction false} SpliceMinPayload(bs: seq<Block>, lo: nat, hi: nat, mid: seq<Block>, s: nat)
    requires lo <= hi <= |bs|
    requires MinPayload(bs, s) && MinPayload(mid, s)
    ensures MinPayload(bs[..lo] + mid + bs[hi..], s)
  {
    var r := bs[..lo] + mid + bs[hi..];
    forall t | 0 <= t < |r|
      ensures r[t].size >= s
    {
      if t < lo {
        assert r[t] == bs[t];
      } else if t < lo + |mid| {
        assert r[t] == mid[t - lo];
      } else {
        assert r[t] == bs[t - lo - |mid| + hi];
      }
    }
  }

  /**
    Allocation keeps the arena's invariant: the blocks still cover the same
    bytes, no two free blocks are neighbours, and every payload still holds at
    least s bytes when the request is a whole number of elements of s bytes.
   */
  lemma {:induction false} CarveKeepsInvariant(bs: seq<Block>, k: nat, need: nat, s: nat)
    requires k < |bs| && need >= 1 && Fits(bs[k], need)
    requires NoAdjacentFree(bs) && MinPayload(bs, s) && need >= s
    ensures Extent(Carve(bs, k, need, s)) == Extent(bs)
    ensures NoAdjacentFree(Carve(bs, k, need, s))
    ensures MinPayload(Carve(bs, k, need, s), s)
  {
    FitsOnlyFree(bs[k], need);
    var b := bs[k];
    var left := b.size - need;
    var mid := if left < s + 2 * W then [Block(b.size, false)]
               else [Block(need, false), Block(left - 2 * W, true)];
    assert Carve(bs, k, need, s) == bs[..k] + mid + bs[k + 1..];
    assert Extent(mid) == Span(b) by {
      if |mid| == 1 {
        ExtentSingle(mid[0]);
      } else {
        ExtentPair(mid[0], mid[1]);
      }
    }
    SpliceKeepsExtent(bs, k, mid);
    assert k > 0 ==> !bs[k - 1].free;
    assert k + 1 < |bs| ==> !bs[k + 1].free;
    SpliceNoAdjacentFree(bs, k, k + 1, mid);
    SpliceMinPayload(bs, k, k + 1, mid, s);
  }

  /** Replacing block k by a run of the same extent keeps the extent of the whole. */
  lemma {:induction false} SpliceKeepsExtent(bs: seq<Block>, k: nat, mid: seq<Block>)
    requires k < |bs| && Extent(mid) == Span(bs[k])
    ensures Extent(bs[..k] + mid + bs[k + 1..]) == Extent(bs)
  {
    assert bs == bs[..k] + [bs[k]] + bs[k + 1..];
    Extent3(bs[..k], [bs[k]], bs[k + 1..]);
    ExtentSingle(bs[k]);
    Extent3(bs[..k], mid, bs[k + 1..]);
  }

  // ---------- deallocate ----------

  /** Block k with its tags flipped to free, as deallocate does first. */
  function Freed(bs: seq<Block>, k: nat): seq<Block>
    requires k < |bs|
  {
    bs[k := Block(bs[k].size, true)]
  }

  /** The first neighbouring pair (j, j + 1) of free blocks, in buffer order. */
  function FirstFreePair(bs: seq<Block>): (r: Option<nat>)
    ensures r.Some? ==> r.value + 1 < |bs| && bs[r.value].free && bs[r.value + 1].free
    ensures r.Some? ==> NoFreePairBefore(bs, r.value + 1)
    ensures r.None? ==> NoAdjacentFree(bs)
  {
    if |bs| < 2 then None
    else if bs[0].free && bs[1].free then Some(0)
    else
      match FirstFreePair(bs[1..])
      case None => None
      case Some(j) => Some(j + 1)
  }

  /** Two neighbouring free blocks j and j + 1 merged into one: the inner tags join the payload. */
  function MergeAt(bs: seq<Block>, j: nat): seq<Block>
    requires j + 1 < |bs|
  {
    bs[..j] + [Block(bs[j].size + bs[j + 1].size + 2 * W, true)] + bs[j + 2..]
  }

  lemma {:induction false} MergeKeepsExtent(bs: seq<Block>, j: nat)
    requires j + 1 < |bs|
    ensures Extent(MergeAt(bs, j)) == Extent(bs)
    ensures |MergeAt(bs, j)| == |bs| - 1
  {
    var pair := [bs[j], bs[j + 1]];
    var merged := Block(bs[j].size + bs[j + 1].size + 2 * W, true);
    assert bs == bs[..j] + pair + bs[j + 2..];
    Extent3(bs[..j], pair, bs[j + 2..]);
    Extent3(bs[..j], [merged], bs[j + 2..]);
    ExtentPair(bs[j], bs[j + 1]);
    ExtentSingle(merged);
  }

  /**
    The coalescing pass of deallocate: merge the first pair of neighbouring
    free blocks and start again from the beginning, until no two neighbours
    are free. The bytes covered do not change.
   */
  function Coalesce(bs: seq<Block>): (r: seq<Block>)
    ensures NoAdjacentFree(r)
    ensures Extent(r) == Extent(bs)
    ensures |r| <= |bs|
    decreases |bs|
  {
    match FirstFreePair(bs)
    case None => bs
    case Some(j) =>
      MergeKeepsExtent(bs, j);
      Coalesce(MergeAt(bs, j))
  }

  /** Coalescing never makes a payload smaller. */
  lemma {:induction false} CoalesceMinPayload(bs: seq<Block>, s: nat)
    requires MinPayload(bs, s)
    ensures MinPayload(Coalesce(bs), s)
    decreases |bs|
  {
    match FirstFreePair(bs)
    case None =>
    case Some(j) =>
      var mid := [Block(bs[j].size + bs[j + 1].size + 2 * W, true)];
      SpliceMinPayload(bs, j, j + 2, mid, s);
      MergeKeepsExtent(bs, j);
      CoalesceMinPayload(MergeAt(bs, j), s);
  }

  /** With no two free neighbours there is nothing to coalesce. */
  lemma {:induction false} CoalesceSettled(bs: seq<Block>)
    requires NoAdjacentFree(bs)
    ensures Coalesce(bs) == bs
  {
    assert FirstFreePair(bs) == None;
  }

  /** A free pair with none before it is the pair coalescing merges first. */
  lemma {:induction false} FirstFreePairIs(bs: seq<Block>, j: nat)
    requires j + 1 < |bs| && bs[j].free && bs[j + 1].free
    requires NoFreePairBefore(bs, j + 1)
    ensures FirstFreePair(bs) == Some(j)
  {
  }

  /** Merging the two blocks that follow pre. */
  lemma {:induction false} MergeSplice(pre: seq<Block>, x: Block, y: Block, post: seq<Block>)
    ensures MergeAt(pre + [x, y] + post, |pre|) == pre + [Block(x.size + y.size + 2 * W, true)] + post
  {
    var bs := pre + [x, y] + post;
    assert bs[..|pre|] == pre;
    assert bs[|pre| + 2..] == post;
    assert bs[|pre|] == x && bs[|pre| + 1] == y;
  }

  /**
    Deallocate merges the freed block with each free neighbour: in a state
    with no two free neighbours, freeing allocated block k and coalescing
    leaves one free block in place of the freed block and its free
    neighbours, whose payload is the sum of theirs plus the two tags each
    merge absorbs; every other block is kept.
   */
  lemma {:induction false} FreeMergesNeighbours(bs: seq<Block>, k: nat)
    requires k < |bs| && NoAdjacentFree(bs) && !bs[k].free
    ensures var leftFree := k > 0 && bs[k - 1].free;
            var rightFree := k + 1 < |bs| && bs[k + 1].free;
            var lo := if leftFree then k - 1 else k;
            var hi := if rightFree then k + 2 else k + 1;
            var size := bs[k].size + (if leftFree then bs[k - 1].size + 2 * W else 0)
                                   + (if rightFree then bs[k + 1].size + 2 * W else 0);
            Coalesce(Freed(bs, k)) == bs[..lo] + [Block(size, true)] + bs[hi..]
  {
    var leftFree := k > 0 && bs[k - 1].free;
    var rightFree := k + 1 < |bs| && bs[k + 1].free;
    if !leftFree && !rightFree {
      FreeAlone(bs, k);
    } else if leftFree && !rightFree {
      FreeWithLeft(bs, k);
    } else if !leftFree && rightFree {
      FreeWithRight(bs, k);
    } else {
      FreeWithBoth(bs, k);
    }
  }

  lemma {:induction false} FreeAlone(bs: seq<Block>, k: nat)
    requires k < |bs| && NoAdjacentFree(bs) && !bs[k].free
    requires k > 0 ==> !bs[k - 1].free
    requires k + 1 < |bs| ==> !bs[k + 1].free
    ensures Coalesce(Freed(bs, k)) == bs[..k] + [Block(bs[k].size, true)] + bs[k + 1..]
  {
    var c := Block(bs[k].size, true);
    var f := Freed(bs, k);
    assert f == bs[..k] + [c] + bs[k + 1..];
    SpliceNoAdjacentFree(bs, k, k + 1, [c]);
    CoalesceSettled(f);
  }

  /** Freeing block k next to a free block k - 1 first merges the two. */
  lemma {:induction false} FreeLeftFirst(bs: seq<Block>, k: nat)
    requires k < |bs| && NoAdjacentFree(bs) && !bs[k].free
    requires k > 0 && bs[k - 1].free
    ensures Coalesce(Freed(bs, k))
         == Coalesce(bs[..k - 1] + [Block(bs[k - 1].size + bs[k].size + 2 * W, true)] + bs[k + 1..])
  {
    var c := Block(bs[k].size, true);
    LeftPairSplice(bs, k, c);
    NoAdjacentFreeParts(bs, k - 1, k - 1);
    assert k > 1 ==> !bs[k - 2].free;
    CoalesceFirstMerge(bs[..k - 1], bs[k - 1], c, bs[k + 1..]);
  }

  lemma {:induction false} FreeWithLeft(bs: seq<Block>, k: nat)
    requires k < |bs| && NoAdjacentFree(bs) && !bs[k].free
    requires k > 0 && bs[k - 1].free
    requires k + 1 < |bs| ==> !bs[k + 1].free
    ensures Coalesce(Freed(bs, k)) == bs[..k - 1] + [Block(bs[k - 1].size + bs[k].size + 2 * W, true)] + bs[k + 1..]
  {
    var x := Block(bs[k - 1].size + bs[k].size + 2 * W, true);
    FreeLeftFirst(bs, k);
    assert k > 1 ==> !bs[k - 2].free;
    SpliceNoAdjacentFree(bs, k - 1, k + 1, [x]);
    CoalesceSettled(bs[..k - 1] + [x] + bs[k + 1..]);
  }

  lemma {:induction false} FreeWithRight(bs: seq<Block>, k: nat)
    requires k < |bs| && NoAdjacentFree(bs) && !bs[k].free
    requires k > 0 ==> !bs[k - 1].free
    requires k + 1 < |bs| && bs[k + 1].free
    ensures Coalesce(Freed(bs, k)) == bs[..k] + [Block(bs[k].size + bs[k + 1].size + 2 * W, true)] + bs[k + 2..]
  {
    var c := Block(bs[k].size, true);
    var x := Block(bs[k].size + bs[k + 1].size + 2 * W, true);
    var f, g := Freed(bs, k), bs[..k] + [x] + bs[k + 2..];
    RightPairSplice(bs, k, c);
    NoAdjacentFreeParts(bs, k, k);
    CoalesceFirstMerge(bs[..k], c, bs[k + 1], bs[k + 2..]);
    assert Coalesce(f) == Coalesce(g);
    assert k + 2 < |bs| ==> !bs[k + 2].free;
    SpliceNoAdjacentFree(bs, k, k + 2, [x]);
    CoalesceSettled(g);
  }

  lemma {:induction false} FreeWithBoth(bs: seq<Block>, k: nat)
    requires k < |bs| && NoAdjacentFree(bs) && !bs[k].free
    requires k > 0 && bs[k - 1].free
    requires k + 1 < |bs| && bs[k + 1].free
    ensures Coalesce(Freed(bs, k))
         == bs[..k - 1] + [Block(bs[k - 1].size + bs[k].size + bs[k + 1].size + 4 * W, true)] + bs[k + 2..]
  {
    var y := Block(bs[k - 1].size + bs[k].size + 2 * W, true);
    FreeLeftFirst(bs, k);
    TailPairSplice(bs[..k - 1], y, bs, k + 1);
    NoAdjacentFreeParts(bs, k - 1, k + 2);
    assert k > 1 ==> !bs[k - 2].free;
    assert k + 2 < |bs| ==> !bs[k + 2].free;
    MergeSettles(bs[..k - 1], y, bs[k + 1], bs[k + 2..]);
  }

  /** The runs before lo and from hi on keep "no two free neighbours". */
  lemma {:induction false} NoAdjacentFreeParts(bs: seq<Block>, lo: nat, hi: nat)
    requires lo <= hi <= |bs| && NoAdjacentFree(bs)
    ensures NoAdjacentFree(bs[..lo]) && NoAdjacentFree(bs[hi..])
  {
    forall t | 0 < t < lo ensures !(bs[..lo][t - 1].free && bs[..lo][t].free) {
      assert bs[..lo][t - 1] == bs[t - 1] && bs[..lo][t] == bs[t];
    }
    forall t | 0 < t < |bs| - hi ensures !(bs[hi..][t - 1].free && bs[hi..][t].free) {
      assert bs[hi..][t - 1] == bs[hi + t - 1] && bs[hi..][t] == bs[hi + t];
    }
  }

  /**
    When the run before two free blocks holds no free pair and ends allocated,
    those two blocks are the first pair Coalesce merges.
   */
  lemma {:induction false} CoalesceFirstMerge(pre: seq<Block>, x: Block, y: Block, post: seq<Block>)
    requires x.free && y.free
    requires NoAdjacentFree(pre)
    requires |pre| > 0 ==> !pre[|pre| - 1].free
    ensures Coalesce(pre + [x, y] + post) == Coalesce(pre + [Block(x.size + y.size + 2 * W, true)] + post)
  {
    var g := pre + [x, y] + post;
    PairsClearBefore(pre, [x, y] + post);
    assert g == pre + ([x, y] + post);
    FirstFreePairIs(g, |pre|);
    MergeSplice(pre, x, y, post);
  }

  /** Two free blocks between runs that end and start allocated coalesce into one. */
  lemma {:induction false} MergeSettles(pre: seq<Block>, y: Block, z: Block, post: seq<Block>)
    requires y.free && z.free
    requires NoAdjacentFree(pre) && NoAdjacentFree(post)
    requires |pre| > 0 ==> !pre[|pre| - 1].free
    requires |post| > 0 ==> !post[0].free
    ensures Coalesce(pre + [y, z] + post) == pre + [Block(y.size + z.size + 2 * W, true)] + post
  {
    var x := Block(y.size + z.size + 2 * W, true);
    CoalesceFirstMerge(pre, y, z, post);
    JoinNoAdjacentFree(pre, x, post);
    CoalesceSettled(pre + [x] + post);
  }

  /** No free pair lies within pre or at its boundary with a following run. */
  lemma {:induction false} PairsClearBefore(pre: seq<Block>, rest: seq<Block>)
    requires NoAdjacentFree(pre)
    requires |pre| > 0 ==> !pre[|pre| - 1].free
    ensures NoFreePairBefore(pre + rest, |pre| + 1)
  {
    var g := pre + rest;
    forall t | 0 < t < |pre| + 1 && t < |g| ensures !(g[t - 1].free && g[t].free) {
      assert g[t - 1] == pre[t - 1];
      if t < |pre| {
        assert g[t] == pre[t];
      }
    }
  }

  /** A block placed between two runs that end and start allocated has no free neighbour. */
  lemma {:induction false} JoinNoAdjacentFree(pre: seq<Block>, x: Block, post: seq<Block>)
    requires NoAdjacentFree(pre) && NoAdjacentFree(post)
    requires |pre| > 0 ==> !pre[|pre| - 1].free
    requires |post| > 0 ==> !post[0].free
    ensures NoAdjacentFree(pre + [x] + post)
  {
    var r := pre + [x] + post;
    forall t | 0 < t < |r| ensures !(r[t - 1].free && r[t].free) {
      if t < |pre| {
        assert r[t - 1] == pre[t - 1] && r[t] == pre[t];
      } else if t == |pre| {
        assert r[t - 1] == pre[|pre| - 1];
      } else if t == |pre| + 1 {
        assert r[t] == post[0];
      } else {
        assert r[t - 1] == post[t - 2 - |pre|] && r[t] == post[t - 1 - |pre|];
      }
    }
  }

  /**
    Round trip: allocating a block and deallocating it straight away gives
    back exactly the blocks there were before the allocation.
   */
  lemma {:induction false} AllocateThenFree(bs: seq<Block>, need: nat, s: nat)
    requires NoAdjacentFree(bs) && need >= 1
    requires FirstFit(bs, need).Some?
    ensures var k := FirstFit(bs, need).value;
            Coalesce(Freed(Carve(bs, k, need, s), k)) == bs
  {
    var k := FirstFit(bs, need).value;
    FitsOnlyFree(bs[k], need);
    if bs[k].size - need < s + 2 * W {
      AbsorbThenFree(bs, k, need, s);
    } else {
      SplitThenFree(bs, k, need, s);
    }
  }

  lemma {:induction false} AbsorbThenFree(bs: seq<Block>, k: nat, need: nat, s: nat)
    requires NoAdjacentFree(bs) && need >= 1 && k < |bs| && bs[k].free && bs[k].size >= need
    requires bs[k].size - need < s + 2 * W
    ensures Coalesce(Freed(Carve(bs, k, need, s), k)) == bs
  {
    assert Freed(Carve(bs, k, need, s), k) == bs;
    CoalesceSettled(bs);
  }

  lemma {:induction false} SplitThenFree(bs: seq<Block>, k: nat, need: nat, s: nat)
    requires NoAdjacentFree(bs) && need >= 1 && k < |bs| && bs[k].free && bs[k].size >= need
    requires bs[k].size - need >= s + 2 * W
    ensures Coalesce(Freed(Carve(bs, k, need, s), k)) == bs
  {
    var b := bs[k];
    var x, y := Block(need, true), Block(b.size - need - 2 * W, true);
    var carved := bs[..k] + [Block(need, false), y] + bs[k + 1..];
    assert Carve(bs, k, need, s) == carved;
    UpdateFirstOfPair(bs[..k], Block(need, false), x, y, bs[k + 1..]);
    assert Freed(carved, k) == bs[..k] + [x, y] + bs[k + 1..];
    NoAdjacentFreeParts(bs, k, k);
    assert k > 0 ==> !bs[k - 1].free;
    CoalesceFirstMerge(bs[..k], x, y, bs[k + 1..]);
    Reassemble(bs, k);
    assert Block(x.size + y.size + 2 * W, true) == b;
    CoalesceSettled(bs);
  }

  lemma {:induction false} LeftPairSplice(bs: seq<Block>, k: nat, c: Block)
    requires 0 < k < |bs|
    ensures bs[k := c] == bs[..k - 1] + [bs[k - 1], c] + bs[k + 1..]
  {
    var r := bs[..k - 1] + [bs[k - 1], c] + bs[k + 1..];
    assert |r| == |bs|;
    forall t | 0 <= t < |bs| ensures bs[k := c][t] == r[t] {
      if t < k - 1 {
        assert r[t] == bs[..k - 1][t];
      } else if t > k {
        assert r[t] == bs[k + 1..][t - k - 1];
      }
    }
  }

  lemma {:induction false} RightPairSplice(bs: seq<Block>, k: nat, c: Block)
    requires k + 1 < |bs|
    ensures bs[k := c] == bs[..k] + [c, bs[k + 1]] + bs[k + 2..]
  {
    var r := bs[..k] + [c, bs[k + 1]] + bs[k + 2..];
    assert |r| == |bs|;
    forall t | 0 <= t < |bs| ensures bs[k := c][t] == r[t] {
      if t < k {
        assert r[t] == bs[..k][t];
      } else if t > k + 1 {
        assert r[t] == bs[k + 2..][t - k - 2];
      }
    }
  }

  lemma {:induction false} TailPairSplice(pre: seq<Block>, y: Block, bs: seq<Block>, h: nat)
    requires h < |bs|
    ensures pre + [y] + bs[h..] == pre + [y, bs[h]] + bs[h + 1..]
  {
    assert bs[h..] == [bs[h]] + bs[h + 1..];
    assert [y] + ([bs[h]] + bs[h + 1..]) == [y, bs[h]] + bs[h + 1..];
  }

  lemma {:induction false} UpdateFirstOfPair(pre: seq<Block>, a: Block, x: Block, y: Block, post: seq<Block>)
    ensures (pre + [a, y] + post)[|pre| := x] == pre + [x, y] + post
  {
    var l, r := (pre + [a, y] + post)[|pre| := x], pre + [x, y] + post;
    assert |l| == |r|;
    forall t | 0 <= t < |l| ensures l[t] == r[t] {
      if t < |pre| {
        assert l[t] == pre[t] == r[t];
      } else if t > |pre| + 1 {
        assert l[t] == post[t - |pre| - 2] == r[t];
      }
    }
  }

  lemma {:induction false} Reassemble(bs: seq<Block>, k: nat)
    requires k < |bs|
    ensures bs[..k] + [bs[k]] + bs[k + 1..] == bs
  {
    var r := bs[..k] + [bs[k]] + bs[k + 1..];
    assert |r| == |bs|;
    forall t | 0 <= t < |bs| ensures r[t] == bs[t] {
      if t < k {
        assert r[t] == bs[..k][t];
      } else if t > k {
        assert r[t] == bs[k + 1..][t - k - 1];
      }
    }
  }
}
