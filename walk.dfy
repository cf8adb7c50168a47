/**
  The consistency check valid(): a walk over the tag chain from offset 0 that
  compares each block's two tags and rejects two free blocks in a row.
 */
module Consistency {
  import opened Blocks

  /**
    The walk of valid() from offset i, where last is the trailing tag of the
    block before i (0 before the first block). The loop stops as soon as i
    reaches the end of the buffer. A tag read that would cross the end of the
    buffer, which the source performs without a check, makes the walk fail.
   */
  function WalkFrom(m: seq<int>, i: nat, last: int): bool
    decreases |m| - i
  {
    if i >= |m| then true
    else if i + W > |m| then false
    else if last > 0 && m[i] > 0 then false
    else
      var j := i + W + Abs(m[i]);
      if j + W > |m| then false
      else if m[i] != m[j] then false
      else WalkFrom(m, j + W, m[j])
  }

  /** What valid() returns on the buffer m. */
  function Walk(m: seq<int>): bool
  {
    WalkFrom(m, 0, 0)
  }

  /** The blocks the walk reads from offset i: a tag's magnitude is the payload, its sign the state. */
  function ParseFrom(m: seq<int>, i: nat): seq<Block>
    decreases |m| - i
  {
    if i + W > |m| then []
    else
      var j := i + W + Abs(m[i]);
      if j + W > |m| then [] else [Block(Abs(m[i]), m[i] > 0)] + ParseFrom(m, j + W)
  }

  /** The walk accepts every buffer tiled by blocks of which no two neighbours are free. */
  lemma {:induction false} WalkAccepts(m: seq<int>, bs: seq<Block>, i: nat, last: int)
    requires Covers(m, bs, i) && i + Extent(bs) == |m|
    requires NoAdjacentFree(bs)
    requires last > 0 && |bs| > 0 ==> Tag(bs[0]) <= 0
    ensures WalkFrom(m, i, last)
    decreases |bs|
  {
    if |bs| > 0 {
      var b, rest := bs[0], bs[1..];
      assert m[i] == Tag(b) && m[i + W + b.size] == Tag(b);
      assert Abs(Tag(b)) == b.size;
      assert NoAdjacentFree(rest) by {
        forall t | 0 < t < |rest|
          ensures !(rest[t - 1].free && rest[t].free)
        {
          assert rest[t - 1] == bs[t] && rest[t] == bs[t + 1];
        }
      }
      assert Tag(b) > 0 && |rest| > 0 ==> b.free && bs[1].free == rest[0].free;
      WalkAccepts(m, rest, i + Span(b), Tag(b));
    }
  }

  /** Whatever the walk accepts is tiled by the blocks it read, no two free neighbours among them. */
  lemma {:induction false} WalkSound(m: seq<int>, i: nat, last: int)
    requires WalkFrom(m, i, last) && i <= |m|
    ensures Covers(m, ParseFrom(m, i), i) && i + Extent(ParseFrom(m, i)) == |m|
    ensures NoAdjacentFree(ParseFrom(m, i))
    ensures last > 0 && |ParseFrom(m, i)| > 0 ==> !ParseFrom(m, i)[0].free
    decreases |m| - i
  {
    if i < |m| {
      var j := i + W + Abs(m[i]);
      var b := Block(Abs(m[i]), m[i] > 0);
      var rest := ParseFrom(m, j + W);
      assert Tag(b) == m[i];
      WalkSound(m, j + W, m[j]);
      var bs := ParseFrom(m, i);
      assert bs == [b] + rest;
      assert bs[1..] == rest;
      ExtentSingle(b);
      ExtentAppend([b], rest);
      assert NoAdjacentFree(bs) by {
        forall t | 0 < t < |bs|
          ensures !(bs[t - 1].free && bs[t].free)
        {
          if t > 1 {
            assert bs[t - 1] == rest[t - 2] && bs[t] == rest[t - 1];
          }
        }
      }
    }
  }

  /** valid() holds exactly when some run of blocks tiles the buffer with no two free neighbours. */
  lemma {:induction false} WalkIffTiled(m: seq<int>)
    ensures Walk(m) <==> exists bs :: Tiles(m, bs) && NoAdjacentFree(bs)
  {
    if Walk(m) {
      WalkSound(m, 0, 0);
      var bs := ParseFrom(m, 0);
      assert Tiles(m, bs) && NoAdjacentFree(bs);
    }
    if exists bs :: Tiles(m, bs) && NoAdjacentFree(bs) {
      var bs :| Tiles(m, bs) && NoAdjacentFree(bs);
      WalkAccepts(m, bs, 0, 0);
    }
  }
}
