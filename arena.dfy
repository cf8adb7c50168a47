/**
  my_allocator<T, N>: a fixed buffer of N bytes managed with boundary tags.
  The buffer is an array with one slot per byte offset; the slot at offset i
  stands for the int read or written through operator[](i). Only the slots of
  tags matter, and a ghost sequence of blocks records how the tags tile the
  buffer.
 */
module Arena {
  import opened Outcomes
  import opened Blocks
  import opened Consistency
  import opened Policy

  /** A pointer handed to deallocate: null, or a byte offset into the buffer. */
  datatype Pointer = Null | At(offset: int)

  /** The run of blocks reaches exactly to the end of its extent. */
  lemma {:induction false} StartEnd(bs: seq<Block>)
    ensures Start(bs, |bs|) == Extent(bs)
  {
    assert bs[..|bs|] == bs;
  }

  /** A block k fits, and none before it does: k is the first fit. */
  lemma {:induction false} FirstFitIs(bs: seq<Block>, need: int, k: nat)
    requires k < |bs| && Fits(bs[k], need)
    requires forall j :: 0 <= j < k ==> !Fits(bs[j], need)
    ensures FirstFit(bs, need) == Some(k)
  {
  }

  lemma {:induction false} CoversOne(m: seq<int>, x: Block, i: nat)
    requires TagsAt(m, i, x)
    ensures Covers(m, [x], i) && Extent([x]) == Span(x)
  {
    assert [x][1..] == [];
    ExtentSingle(x);
  }

  lemma {:induction false} CoversPair(m: seq<int>, x: Block, y: Block, i: nat)
    requires TagsAt(m, i, x) && TagsAt(m, i + Span(x), y)
    ensures Covers(m, [x, y], i) && Extent([x, y]) == Span(x) + Span(y)
  {
    CoversOne(m, y, i + Span(x));
    assert [x, y][1..] == [y];
    ExtentPair(x, y);
  }

  /**
    Rewriting the tags inside the bytes of block k so that they describe the
    blocks mid, which occupy the same bytes, leaves the buffer tiled by the
    blocks with k replaced by mid.
   */
  lemma {:induction false} SpliceTiles(m: seq<int>, m2: seq<int>, bs: seq<Block>, k: nat, mid: seq<Block>)
    requires Tiles(m, bs) && k < |bs| && Extent(mid) == Span(bs[k])
    requires SameOutside(m, m2, Start(bs, k), Start(bs, k) + Span(bs[k]))
    requires Covers(m2, mid, Start(bs, k))
    ensures Tiles(m2, bs[..k] + mid + bs[k + 1..])
  {
    assert bs == bs[..k] + [bs[k]] + bs[k + 1..];
    ExtentSingle(bs[k]);
    TilesReplace(m, m2, bs[..k], [bs[k]], mid, bs[k + 1..]);
  }

  /**
    Rewriting the outer tags of the free neighbours j and j + 1 to the merged
    size leaves the buffer tiled by the merged blocks.
   */
  lemma {:induction false} MergeTiles(m: seq<int>, m2: seq<int>, bs: seq<Block>, j: nat)
    requires Tiles(m, bs) && j + 1 < |bs|
    requires SameOutside(m, m2, Start(bs, j), Start(bs, j) + Span(bs[j]) + Span(bs[j + 1]))
    requires TagsAt(m2, Start(bs, j), Block(bs[j].size + bs[j + 1].size + 2 * W, true))
    ensures Tiles(m2, MergeAt(bs, j))
  {
    var pair := [bs[j], bs[j + 1]];
    var merged := Block(bs[j].size + bs[j + 1].size + 2 * W, true);
    assert bs == bs[..j] + pair + bs[j + 2..];
    ExtentPair(bs[j], bs[j + 1]);
    CoversOne(m2, merged, Start(bs, j));
    TilesReplace(m, m2, bs[..j], pair, [merged], bs[j + 2..]);
  }

  /** The scan's first step: the second block starts one block span past offset 0. */
  lemma {:induction false} FirstStep(m: seq<int>, bs: seq<Block>, s: nat)
    requires Tiles(m, bs) && MinPayload(bs, s) && s >= 1 && |bs| >= 1
    ensures Start(bs, 0) == 0 && Start(bs, 1) == Abs(m[0]) + 2 * W
  {
    TilesAt(m, bs, 0);
    TagSign(bs, 0, s);
  }

  /**
    At the leading tag of block j, the scan reads the state of blocks j and
    j - 1 from the signs of the two tags around offset Start(bs, j), and the
    size of block j from the first.
   */
  lemma {:induction false} ScanStep(m: seq<int>, bs: seq<Block>, i: nat, j: nat, s: nat)
    requires Tiles(m, bs) && MinPayload(bs, s) && s >= 1
    requires 1 <= j <= |bs| && i == Start(bs, j) && i < |m|
    requires NoFreePairBefore(bs, j)
    ensures j < |bs| && i >= W
    ensures m[i] > 0 <==> bs[j].free
    ensures m[i - W] > 0 <==> bs[j - 1].free
    ensures Start(bs, j + 1) == i + Abs(m[i]) + 2 * W
    ensures !(m[i] > 0 && m[i - W] > 0) ==> NoFreePairBefore(bs, j + 1)
  {
    StartEnd(bs);
    TilesAt(m, bs, j);
    TilesAt(m, bs, j - 1);
    TagSign(bs, j, s);
    TagSign(bs, j - 1, s);
    if !(bs[j - 1].free && bs[j].free) {
      PairsClearExtend(bs, j);
    }
  }

  /**
    Merging the first free pair, blocks j - 1 and j, is the first step of
    Coalesce: what remains to coalesce is unchanged, one block fewer.
   */
  lemma {:induction false} MergeProgress(bs: seq<Block>, j: nat, s: nat)
    requires 1 <= j < |bs| && bs[j - 1].free && bs[j].free
    requires NoFreePairBefore(bs, j) && MinPayload(bs, s)
    ensures Coalesce(MergeAt(bs, j - 1)) == Coalesce(bs)
    ensures |MergeAt(bs, j - 1)| == |bs| - 1 >= 1
    ensures MinPayload(MergeAt(bs, j - 1), s)
  {
    FirstFreePairIs(bs, j - 1);
    MergeKeepsExtent(bs, j - 1);
    var r := MergeAt(bs, j - 1);
    forall t | 0 <= t < |r|
      ensures r[t].size >= s
    {
      if t >= j {
        assert r[t] == bs[t + 1];
      }
    }
  }

  lemma {:induction false} PairsClearExtend(bs: seq<Block>, j: nat)
    requires 1 <= j < |bs| && NoFreePairBefore(bs, j)
    requires !(bs[j - 1].free && bs[j].free)
    ensures NoFreePairBefore(bs, j + 1)
  {
  }

  lemma {:induction false} AtLeastOne(n: nat, s: nat)
    requires n >= 1
    ensures n * s >= s
  {
  }

  /** When every payload is non-empty, a tag is positive exactly when its block is free. */
  lemma {:induction false} TagSign(bs: seq<Block>, k: nat, s: nat)
    requires MinPayload(bs, s) && s >= 1 && k < |bs|
    ensures Tag(bs[k]) > 0 <==> bs[k].free
    ensures Abs(Tag(bs[k])) == bs[k].size
  {
  }

  class Allocator {
    /** N, the size of the buffer in bytes. */
    const N: nat
    /** sizeof(T), the bytes of one element. */
    const S: nat
    /** The buffer, char a[N], one slot per byte offset. */
    const a: array<int>
    /** The blocks that tile the buffer, in buffer order. */
    ghost var blocks: seq<Block>

    /**
      The allocator's invariant: the tags tile the buffer, no two neighbouring
      blocks are free, every payload holds at least one element, and every
      size fits in an int.
     */
    ghost predicate Valid()
      reads this, a
    {
      a.Length == N && S >= 1 && N <= IntMax
      && Tiles(a[..], blocks) && NoAdjacentFree(blocks) && MinPayload(blocks, S)
    }

    /** The default constructor once the size check has passed: one free block spans the buffer. */
    constructor (n: nat, elemSize: nat)
      requires elemSize >= 1 && n <= IntMax
      requires n >= elemSize + 2 * W
      ensures Valid() && fresh(a)
      ensures N == n && S == elemSize
      ensures blocks == [Block(n - 2 * W, true)]
      ensures a[0] == n - 2 * W && a[n - W] == n - 2 * W
      ensures Walk(a[..])
    {
      N, S := n, elemSize;
      a := new int[n];
      new;
      a[0] := n - 2 * W;
      a[n - W] := n - 2 * W;
      blocks := [Block(n - 2 * W, true)];
      CoversOne(a[..], Block(n - 2 * W, true), 0);
      WalkIffTiled(a[..]);
    }

    /**
      valid(): walk the tags from offset 0, rejecting mismatched tags and two
      free blocks in a row. A tag read that would cross the end of the buffer
      rejects the buffer.
     */
    method IsValid() returns (ok: bool)
      requires a.Length == N
      ensures ok == Walk(a[..])
      ensures ok <==> exists bs :: Tiles(a[..], bs) && NoAdjacentFree(bs)
    {
      WalkIffTiled(a[..]);
      var i: nat := 0;
      var last := 0;
      while i < N
        invariant Walk(a[..]) == WalkFrom(a[..], i, last)
        decreases N - i
      {
        if i + W > N {
          return false;
        }
        var leading := a[i];
        if last > 0 && leading > 0 {
          return false;
        }
        i := i + W + Abs(leading);
        if i + W > N {
          return false;
        }
        var trailing := a[i];
        if leading != trailing {
          return false;
        }
        last := trailing;
        i := i + W;
      }
      return true;
    }

    /**
      allocate(n): take the first block whose tag leaves room for n elements,
      absorbing it whole when the rest could not form a viable block and
      splitting it otherwise, and return the offset just past its leading tag.
     */
    method Allocate(n: nat) returns (r: Result<nat>)
      requires Valid()
      requires n * S + 2 * W <= IntMax
      modifies this, a
      ensures Valid() && Walk(a[..])
      ensures r.Err? <==> n == 0 || FirstFit(old(blocks), n * S).None?
      ensures r.Err? ==> r.error == BadAlloc && blocks == old(blocks) && a[..] == old(a[..])
      ensures r.Ok? ==>
        var k := FirstFit(old(blocks), n * S).value;
        && r.value == Start(old(blocks), k) + W
        && blocks == Carve(old(blocks), k, n * S, S)
        && SameOutside(old(a[..]), a[..], Start(old(blocks), k), Start(old(blocks), k) + Span(old(blocks)[k]))
    {
      WalkIffTiled(a[..]);
      if n == 0 {
        return Err(BadAlloc);
      }
      var need := n * S;
      var spaceNeeded := 2 * W + need;
      var i: nat := 0;
      ghost var k: nat := 0;
      while i < N
        invariant k <= |blocks| && i == Start(blocks, k)
        invariant forall j :: 0 <= j < k ==> !Fits(blocks[j], need)
        invariant blocks == old(blocks) && a[..] == old(a[..])
        decreases N - i
      {
        StartEnd(blocks);
        TilesAt(a[..], blocks, k);
        TagSign(blocks, k, S);
        var spaceAvailable := a[i] + 2 * W;
        if spaceAvailable >= spaceNeeded {
          FirstFitIs(blocks, need, k);
          AtLeastOne(n, S);
          Take(i, need, spaceAvailable, spaceNeeded, k);
          WalkIffTiled(a[..]);
          return Ok(i + W);
        }
        if a[i] > 0 {
          i := i + a[i] + 2 * W;
        } else {
          i := i - a[i] + 2 * W;
        }
        k := k + 1;
      }
      if k < |blocks| {
        StartBound(blocks, k);
      }
      return Err(BadAlloc);
    }

    /**
      allocate once block k at offset i fits: absorb the whole block when the
      bytes left over could not hold a viable block, split it otherwise.
     */
    method Take(i: nat, need: nat, spaceAvailable: int, spaceNeeded: int, ghost k: nat)
      requires Valid() && k < |blocks| && i == Start(blocks, k) && need >= S
      requires spaceAvailable == Tag(blocks[k]) + 2 * W && spaceNeeded == need + 2 * W
      requires spaceAvailable >= spaceNeeded
      modifies this, a
      ensures Valid()
      ensures blocks == Carve(old(blocks), k, need, S)
      ensures SameOutside(old(a[..]), a[..], i, i + Span(old(blocks)[k]))
    {
      TagSign(blocks, k, S);
      if spaceAvailable - spaceNeeded < S + 2 * W {
        TakeWhole(i, spaceAvailable, blocks, k);
        assert Carve(blocks, k, need, S) == blocks[..k] + [Block(blocks[k].size, false)] + blocks[k + 1..];
      } else {
        TakePart(i, need, spaceAvailable, spaceNeeded, blocks, k);
        assert Carve(blocks, k, need, S)
          == blocks[..k] + [Block(need, false), Block(spaceAvailable - spaceNeeded - 2 * W, true)] + blocks[k + 1..];
      }
      CarveKeepsInvariant(blocks, k, need, S);
      blocks := Carve(blocks, k, need, S);
    }

    /** allocate's first branch: flip both tags of the free block at offset i to allocated. */
    method TakeWhole(i: nat, spaceAvailable: int, ghost bs: seq<Block>, ghost k: nat)
      requires a.Length == N && Tiles(a[..], bs) && k < |bs| && i == Start(bs, k)
      requires bs[k].free && spaceAvailable == bs[k].size + 2 * W
      modifies a
      ensures Tiles(a[..], bs[..k] + [Block(bs[k].size, false)] + bs[k + 1..])
      ensures SameOutside(old(a[..]), a[..], i, i + Span(bs[k]))
    {
      TilesAt(a[..], bs, k);
      ghost var m0 := a[..];
      a[i] := a[i] * -1;
      a[i + spaceAvailable - W] := a[i];
      CoversOne(a[..], Block(bs[k].size, false), i);
      assert SameOutside(m0, a[..], i, i + Span(bs[k]));
      SpliceTiles(m0, a[..], bs, k, [Block(bs[k].size, false)]);
    }

    /**
      allocate's second branch: the free block at offset i becomes an allocated
      block of need bytes followed by a free block holding the rest.
     */
    method TakePart(i: nat, need: nat, spaceAvailable: int, spaceNeeded: int, ghost bs: seq<Block>, ghost k: nat)
      requires a.Length == N && Tiles(a[..], bs) && k < |bs| && i == Start(bs, k)
      requires spaceAvailable == bs[k].size + 2 * W && spaceNeeded == need + 2 * W
      requires spaceAvailable - spaceNeeded >= 2 * W
      modifies a
      ensures Tiles(a[..], bs[..k] + [Block(need, false), Block(spaceAvailable - spaceNeeded - 2 * W, true)] + bs[k + 1..])
      ensures SameOutside(old(a[..]), a[..], i, i + Span(bs[k]))
    {
      TilesAt(a[..], bs, k);
      ghost var m0 := a[..];
      a[i] := need * -1;
      a[i + need + W] := need * -1;
      a[i + need + 2 * W] := spaceAvailable - spaceNeeded - 2 * W;
      a[i + need + W + spaceAvailable - spaceNeeded] := spaceAvailable - spaceNeeded - 2 * W;
      ghost var x, y := Block(need, false), Block(spaceAvailable - spaceNeeded - 2 * W, true);
      CoversPair(a[..], x, y, i);
      assert SameOutside(m0, a[..], i, i + Span(bs[k]));
      SpliceTiles(m0, a[..], bs, k, [x, y]);
    }

    /**
      deallocate(p, n): reject a null pointer or one outside the buffer; flip
      the tags of the block at p to free, then repeatedly scan from the start
      and merge the first pair of neighbouring free blocks.
     */
    method Deallocate(p: Pointer, n: nat) returns (r: Outcome)
      requires Valid()
      requires p.At? && 0 <= p.offset <= N - 1 ==>
        exists k :: 0 <= k < |blocks| && Start(blocks, k) + W == p.offset && !blocks[k].free
      modifies this, a
      ensures Valid() && Walk(a[..])
      ensures r.Fail? <==> p.Null? || p.offset < 0 || p.offset > N - 1
      ensures r.Fail? ==> r.error == InvalidArgument && blocks == old(blocks) && a[..] == old(a[..])
      ensures r.Pass? ==> forall k :: 0 <= k < |old(blocks)| && Start(old(blocks), k) + W == p.offset ==>
        blocks == Coalesce(Freed(old(blocks), k))
    {
      WalkIffTiled(a[..]);
      if p.Null? || p.offset < 0 || p.offset > N - 1 {
        return Fail(InvalidArgument);
      }
      var off := p.offset;
      ghost var k :| 0 <= k < |blocks| && Start(blocks, k) + W == off && !blocks[k].free;
      StartsDiffer(blocks, k);
      Release(off, k);
      ghost var freed := Freed(blocks, k);
      CoalesceTags(freed);
      CoalesceMinPayload(freed, S);
      blocks := Coalesce(freed);
      WalkIffTiled(a[..]);
      return Pass;
    }

    /**
      deallocate's first step: both tags of the block at p turn positive. The
      trailing tag is found through the size in the leading tag.
     */
    method Release(off: int, ghost k: nat)
      requires a.Length == N && k < |blocks| && Tiles(a[..], blocks)
      requires Start(blocks, k) + W == off && !blocks[k].free
      modifies a
      ensures Tiles(a[..], Freed(blocks, k))
    {
      TilesAt(a[..], blocks, k);
      ghost var m0 := a[..];
      var neg := a[off - W];
      a[off - W] := neg * -1;
      a[off + neg * -1] := neg * -1;
      ghost var mid := [Block(blocks[k].size, true)];
      CoversOne(a[..], mid[0], off - W);
      assert SameOutside(m0, a[..], off - W, off - W + Span(blocks[k]));
      SpliceTiles(m0, a[..], blocks, k, mid);
      assert Freed(blocks, k) == blocks[..k] + mid + blocks[k + 1..];
    }

    /**
      The coalescing loop of deallocate: from the second block on, compare
      each leading tag with the trailing tag before it; when both are free,
      merge the two blocks and restart from offset 0. The first pass stops
      when the first block already reaches the end of the buffer.
     */
    method CoalesceTags(ghost cur0: seq<Block>)
      requires a.Length == N && S >= 1
      requires Tiles(a[..], cur0) && MinPayload(cur0, S) && |cur0| >= 1
      modifies a
      ensures Tiles(a[..], Coalesce(cur0))
    {
      ghost var cur := cur0;
      var i: nat := 0;
      ghost var j: nat := 0;
      while i < N
        invariant Tiles(a[..], cur) && MinPayload(cur, S) && |cur| >= 1
        invariant Coalesce(cur) == Coalesce(cur0)
        invariant j <= |cur| && i == Start(cur, j) && NoFreePairBefore(cur, j)
        invariant i == 0 <==> j == 0
        decreases |cur|, N - i
      {
        if i == 0 {
          FirstStep(a[..], cur, S);
          i := i + Abs(a[i]) + 2 * W;
          j := 1;
        }
        if i < N {
          ScanStep(a[..], cur, i, j, S);
          var leading := a[i];
          var trailing := a[i - W];
          if leading > 0 && trailing > 0 {
            MergeTags(i, cur, j);
            cur := MergeAt(cur, j - 1);
            i := 0;
            j := 0;
          }
          i := i + Abs(a[i]) + 2 * W;
          j := j + 1;
        }
      }
      if j < |cur| {
        StartBound(cur, j);
      }
      CoalesceSettled(cur);
    }

    /** One merge of deallocate: the outer tags of free blocks j - 1 and j take the merged size. */
    method MergeTags(i: nat, ghost cur: seq<Block>, ghost j: nat)
      requires a.Length == N
      requires Tiles(a[..], cur) && 1 <= j < |cur| && i == Start(cur, j)
      requires cur[j - 1].free && cur[j].free
      requires NoFreePairBefore(cur, j) && MinPayload(cur, S) && S >= 1
      modifies a
      ensures Tiles(a[..], MergeAt(cur, j - 1))
      ensures Coalesce(MergeAt(cur, j - 1)) == Coalesce(cur)
      ensures |MergeAt(cur, j - 1)| == |cur| - 1 >= 1 && MinPayload(MergeAt(cur, j - 1), S)
      ensures Start(MergeAt(cur, j - 1), 0) == 0 && Start(MergeAt(cur, j - 1), 1) == Abs(a[0]) + 2 * W
    {
      MergeProgress(cur, j, S);
      TilesAt(a[..], cur, j);
      TilesAt(a[..], cur, j - 1);
      ghost var m1 := a[..];
      var coalesced := a[i] + a[i - W] + 2 * W;
      a[a[i] + i + W] := coalesced;
      a[i - 2 * W - a[i - W]] := coalesced;
      assert SameOutside(m1, a[..], Start(cur, j - 1), Start(cur, j - 1) + Span(cur[j - 1]) + Span(cur[j]));
      MergeTiles(m1, a[..], cur, j - 1);
      FirstStep(a[..], MergeAt(cur, j - 1), S);
    }
  }

  /**
    my_allocator(): throws bad_alloc when N cannot hold one element and its
    two tags; otherwise one free block spans the buffer.
   */
  method Create(n: nat, elemSize: nat) returns (r: Result<Allocator>)
    requires elemSize >= 1 && n <= IntMax
    ensures r.Err? <==> n < elemSize + 2 * W
    ensures r.Err? ==> r.error == BadAlloc
    ensures r.Ok? ==> fresh(r.value) && fresh(r.value.a) && r.value.Valid()
                      && r.value.N == n && r.value.S == elemSize
                      && r.value.blocks == [Block(n - 2 * W, true)]
  {
    if n < elemSize + 2 * W {
      return Err(BadAlloc);
    }
    var x := new Allocator(n, elemSize);
    return Ok(x);
  }

  /** Blocks start at distinct offsets, so at most one block starts at any offset. */
  lemma {:induction false} StartsDiffer(bs: seq<Block>, k: nat)
    requires k < |bs|
    ensures forall k2 :: 0 <= k2 < |bs| && Start(bs, k2) == Start(bs, k) ==> k2 == k
  {
    forall k2 | 0 <= k2 < |bs| && k2 != k
      ensures Start(bs, k2) != Start(bs, k)
    {
      var lo, hi := if k2 < k then k2 else k, if k2 < k then k else k2;
      assert bs[..hi] == bs[..lo] + bs[lo..hi];
      ExtentAppend(bs[..lo], bs[lo..hi]);
      assert bs[lo..hi][0] == bs[lo];
    }
  }

  /** operator==: no two allocators compare equal, an allocator and itself included. */
  function Equal(x: Allocator, y: Allocator): (r: bool)
    ensures !r
  {
    false
  }

  /** operator!=: the negation of operator==, so it holds for every pair. */
  function NotEqual(x: Allocator, y: Allocator): (r: bool)
    ensures r
  {
    !Equal(x, y)
  }

  /**
    The offset of the first leading tag the coalescing loop of deallocate
    reads, as written: one block span past offset 0, not compared with N.
   */
  function FirstScanOffset(m: seq<int>): nat
    requires |m| > 0
  {
    Abs(m[0]) + 2 * W
  }

  /**
    In a tiled buffer the first scan read lands on the leading tag of the
    second block, and it lands at offset N, past the end, exactly when one
    block spans the whole buffer.
   */
  lemma {:induction false} SingleBlockScanOverruns(m: seq<int>, bs: seq<Block>)
    requires Tiles(m, bs) && |bs| >= 1
    ensures |m| > 0 && FirstScanOffset(m) == Start(bs, 1)
    ensures FirstScanOffset(m) >= |m| <==> |bs| == 1
  {
    TilesAt(m, bs, 0);
    assert bs[..0] == [];
    if |bs| == 1 {
      StartEnd(bs);
    } else {
      StartBound(bs, 1);
    }
  }

  /**
    deallocate's tag flip as written: both tags take the negated leading tag,
    and the trailing one is written bytes past p, bytes being n * sizeof(T)
    for the n the caller passes.
   */
  function FlipAsWritten(m: seq<int>, p: int, bytes: int): seq<int>
    requires W <= p && 0 <= bytes && p + bytes < |m|
  {
    m[p - W := -m[p - W]][p + bytes := -m[p - W]]
  }

  /**
    When n * sizeof(T) is the payload of the allocated block at p, the flip as
    written frees exactly that block: the buffer is tiled by Freed.
   */
  lemma {:induction false} FlipFreesExactBlock(m: seq<int>, bs: seq<Block>, k: nat)
    requires Tiles(m, bs) && k < |bs| && !bs[k].free
    ensures Start(bs, k) + Span(bs[k]) <= |m|
    ensures Tiles(FlipAsWritten(m, Start(bs, k) + W, bs[k].size), Freed(bs, k))
  {
    TilesAt(m, bs, k);
    StartBound(bs, k);
    var i := Start(bs, k);
    var m2 := FlipAsWritten(m, i + W, bs[k].size);
    var mid := [Block(bs[k].size, true)];
    CoversOne(m2, mid[0], i);
    assert SameOutside(m, m2, i, i + Span(bs[k]));
    SpliceTiles(m, m2, bs, k, mid);
    assert Freed(bs, k) == bs[..k] + mid + bs[k + 1..];
  }

  /**
    When n * sizeof(T) is not the payload, the block's real trailing tag keeps
    its allocated value, so the two tags of the block no longer match.
   */
  lemma {:induction false} FlipMissesTrailingTag(m: seq<int>, bs: seq<Block>, k: nat, bytes: nat)
    requires Tiles(m, bs) && k < |bs| && !bs[k].free && bs[k].size >= 1
    requires Start(bs, k) + W + bytes < |m| && bytes != bs[k].size
    ensures Start(bs, k) + Span(bs[k]) <= |m|
    ensures FlipAsWritten(m, Start(bs, k) + W, bytes)[Start(bs, k) + W + bs[k].size] == -(bs[k].size as int)
    ensures !TagsAt(FlipAsWritten(m, Start(bs, k) + W, bytes), Start(bs, k), Block(bs[k].size, true))
  {
    TilesAt(m, bs, k);
    StartBound(bs, k);
  }

  /**
    With N = 100 and sizeof(T) = 8, allocate(1) splits the buffer and
    allocate(9) then absorbs the 76-byte rest whole. deallocate(p, 9) as
    written writes the trailing tag 72 bytes past p, four bytes short of the
    block's real trailing tag, and the buffer no longer passes valid().
   */
  lemma {:induction false} ShortFreeBreaksTags()
    ensures Carve(Carve([Block(92, true)], 0, 8, 8), 1, 72, 8) == [Block(8, false), Block(76, false)]
    ensures var m := seq(100, x => if x == 0 || x == 12 then -8 else if x == 16 || x == 96 then -76 else 0);
      Tiles(m, [Block(8, false), Block(76, false)]) && !Walk(FlipAsWritten(m, 20, 72))
  {
    var bs := [Block(8, false), Block(76, false)];
    var m := seq(100, x => if x == 0 || x == 12 then -8 else if x == 16 || x == 96 then -76 else 0);
    assert TagsAt(m, 0, bs[0]) && TagsAt(m, 16, bs[1]);
    CoversPair(m, bs[0], bs[1], 0);
    var f := FlipAsWritten(m, 20, 72);
    assert f[0] == -8 && f[12] == -8 && f[16] == 76 && f[96] == -76;
    assert WalkFrom(f, 16, -8) == false;
    assert WalkFrom(f, 0, 0) == WalkFrom(f, 16, -8);
  }
}
