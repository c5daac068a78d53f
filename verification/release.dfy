/**
 * `dfree`: the freed header goes back into the address-ordered free list,
 * then absorbs a free successor that starts where its payload ends, and
 * after that is absorbed by a free predecessor that ends where it starts.
 */
module Release {
  import opened Wrappers
  import opened Arena
  import opened Memory
  import opened Layout

  /** `p` is a payload that is handed out: the header in front of it is a
      taken block strictly between the two sentinels. */
  predicate Live(c: Config, h: Heap, p: nat)
    requires c.alignment > 0
  {
    && c.header < p < MaxBytes(c)
    && match Lookup(h.blocks, p - c.header)
       case Some(b) => b.taken
       case None => false
  }

  /** The walk down the free list: the number of leading nodes whose header
      lies below `p`.  The freed header goes in right after them. */
  function InsertPos(fl: seq<nat>, p: nat): (j: nat)
    ensures j <= |fl|
    ensures forall q :: 0 <= q < j ==> fl[q] < p
    ensures j < |fl| ==> p <= fl[j]
  {
    if fl == [] || p <= fl[0] then 0 else 1 + InsertPos(fl[1..], p)
  }

  /** The header at `o` is marked free and linked in at list position `j`. */
  function Relink(h: Heap, o: nat, j: nat): Heap
    requires j <= |h.freeList|
  {
    Heap(Store(h.blocks, Block(o, SizeAt(h.blocks, o), false)), h.freeList[..j] + [o] + h.freeList[j..])
  }

  /** Coalescing case 1: the node at list position `j`, with payload `p`,
      absorbs its list successor when that one is free and its header sits
      exactly where the payload ends. */
  function MergeRight(c: Config, h: Heap, j: nat, p: nat): (r: Heap)
    requires j + 1 < |h.freeList|
    ensures |r.freeList| + 1 >= |h.freeList|
  {
    var o, nx := h.freeList[j], h.freeList[j + 1];
    var size := SizeAt(h.blocks, o);
    if IsFreeAt(h.blocks, nx) && nx == size + p then
      Heap(Store(Discard(h.blocks, nx), Block(o, c.header + size + SizeAt(h.blocks, nx), false)),
           h.freeList[..j + 1] + h.freeList[j + 2..])
    else h
  }

  /** Coalescing case 2: the list predecessor of the node at position `j`
      absorbs it when the predecessor is free and its payload ends exactly
      at the node's header. */
  function MergeLeft(c: Config, h: Heap, j: nat, p: nat): Heap
    requires 0 < j < |h.freeList|
  {
    var pv, o := h.freeList[j - 1], h.freeList[j];
    var size := SizeAt(h.blocks, pv);
    if IsFreeAt(h.blocks, pv) && p == pv + 2 * c.header + size then
      Heap(Store(Discard(h.blocks, o), Block(pv, size + c.header + SizeAt(h.blocks, o), false)),
           h.freeList[..j] + h.freeList[j + 1..])
    else h
  }

  /** dfree: relink the header of `p`, then coalesce to the right, then to
      the left, as the list and the headers say. */
  function Free(c: Config, h: Heap, p: nat): Heap
    requires Wf(c, h) && Live(c, h, p)
  {
    var j := InsertPos(h.freeList, p);
    FreeBounds(c, h, p);
    var h1 := Relink(h, p - c.header, j);
    MergeLeft(c, MergeRight(c, h1, j, p), j, p)
  }

  // ---------------------------------------------------------------------------
  // The same operation said over the arena
  // ---------------------------------------------------------------------------

  /** Blocks `i` and `i + 1` as one free block under `i`'s header: the
      second header's bytes join the payload. */
  function MergeAt(c: Config, bs: seq<Block>, i: nat): seq<Block>
    requires i + 1 < |bs|
  {
    bs[..i] + [Block(bs[i].offset, bs[i].size + c.header + bs[i + 1].size, false)] + bs[i + 2..]
  }

  /** Block `i` handed back: the same header, no longer taken. */
  function Freed(bs: seq<Block>, i: nat): seq<Block>
    requires i < |bs|
  {
    bs[i := bs[i].(taken := false)]
  }

  /** Block `i` absorbs the block after it if that one is free. */
  function AbsorbNext(c: Config, bs: seq<Block>, i: nat): seq<Block>
    requires i + 1 < |bs|
  {
    if !bs[i + 1].taken then MergeAt(c, bs, i) else bs
  }

  /** The block before block `i` absorbs it if that one is free. */
  function AbsorbPrev(c: Config, bs: seq<Block>, i: nat): seq<Block>
    requires 0 < i < |bs|
  {
    if !bs[i - 1].taken then MergeAt(c, bs, i - 1) else bs
  }

  /** The arena after freeing block `i`: it becomes free, joins the block
      after it if that one is free, and then the block before it joins it
      if that one is free. */
  function FreeBlocks(c: Config, bs: seq<Block>, i: nat): seq<Block>
    requires 0 < i < |bs| - 1
  {
    AbsorbPrev(c, AbsorbNext(c, Freed(bs, i), i), i)
  }

  /** The heap whose free list is exactly what the arena says it must be. */
  function Listed(bs: seq<Block>): (h: Heap)
    requires |bs| >= 2
    ensures h.blocks == bs && h.freeList == Offsets(Members(bs))
  {
    Heap(bs, Offsets(Members(bs)))
  }

  // ---------------------------------------------------------------------------
  // Where the freed block is
  // ---------------------------------------------------------------------------

  /** The header of a live payload is an interior, taken block. */
  lemma {:induction false} LiveBlock(c: Config, h: Heap, p: nat) returns (i: nat)
    requires Wf(c, h) && Live(c, h, p)
    ensures 0 < i < |h.blocks| - 1 && h.blocks[i].offset == p - c.header && h.blocks[i].taken
    ensures IndexOf(h.blocks, p - c.header) == i
  {
    var bs := h.blocks;
    TilesIncreasing(c, bs);
    assert Lookup(bs, p - c.header).Some?;
    var m :| 0 <= m < |bs| && bs[m].offset == p - c.header;
    IncreasingBelow(bs, m);
    LookupAt(bs, m);
    IndexOfAt(bs, m);
    i := m;
  }

  /** The walk stops strictly after the prologue and at or before the epilogue. */
  lemma {:induction false} FreeBounds(c: Config, h: Heap, p: nat)
    requires Wf(c, h) && Live(c, h, p)
    ensures 0 < InsertPos(h.freeList, p) < |h.freeList|
  {
    var bs, fl := h.blocks, h.freeList;
    var i := LiveBlock(c, h, p);
    TilesIncreasing(c, bs);
    assert End(c, bs[i]) == bs[i + 1].offset;
    assert fl[0] == 0 && fl[|fl| - 1] == bs[|bs| - 1].offset;
    assert p <= bs[|bs| - 1].offset;
  }

  // ---------------------------------------------------------------------------
  // Relinking the freed header
  // ---------------------------------------------------------------------------

  /** Writing the freed header back as free flips block `i`'s flag and
      nothing else. */
  lemma {:induction false} RelinkBlocks(c: Config, bs: seq<Block>, i: nat)
    requires c.header > 0 && Tiles(c, bs) && i < |bs|
    ensures Store(bs, Block(bs[i].offset, SizeAt(bs, bs[i].offset), false)) == Freed(bs, i)
  {
    TilesIncreasing(c, bs);
    IncreasingBelow(bs, i);
    LookupAt(bs, i);
    StoreAt(bs, i, bs[i].(taken := false));
  }

  /** Freeing a taken interior block adds it to the members, between the
      members below it and those above it. */
  lemma {:induction false} RelinkMembers(bs: seq<Block>, i: nat)
    requires 0 < i < |bs| - 1 && bs[i].taken
    ensures Members(bs) == [bs[0]] + FreeOf(bs[1..i]) + (FreeOf(bs[i + 1..|bs| - 1]) + [bs[|bs| - 1]])
    ensures Members(Freed(bs, i))
      == [bs[0]] + FreeOf(bs[1..i]) + [Freed(bs, i)[i]] + (FreeOf(bs[i + 1..|bs| - 1]) + [bs[|bs| - 1]])
  {
    var b1 := Freed(bs, i);
    MembersAround(bs, i);
    MembersAround(b1, i);
    assert b1[1..i] == bs[1..i] && b1[i + 1..|b1| - 1] == bs[i + 1..|bs| - 1];
    assert FreeOf([bs[i]]) == [] by {
      assert [bs[i]][1..] == [];
    }
    assert FreeOf([b1[i]]) == [b1[i]] by {
      assert [b1[i]][1..] == [];
    }
  }

  /** Flipping a block's flag keeps the arena tiled. */
  lemma {:induction false} FreedTiles(c: Config, bs: seq<Block>, i: nat)
    requires Tiles(c, bs) && i < |bs|
    ensures Tiles(c, Freed(bs, i))
  {
    var b1 := Freed(bs, i);
    forall q | 0 <= q < |b1| - 1 ensures End(c, b1[q]) == b1[q + 1].offset {
      assert End(c, b1[q]) == End(c, bs[q]) && b1[q + 1].offset == bs[q + 1].offset;
    }
  }

  /** Freeing an interior block keeps the arena tiled, with the same sentinels. */
  lemma {:induction false} RelinkWf(c: Config, h: Heap, i: nat)
    requires Wf(c, h) && 0 < i < |h.blocks| - 1
    ensures Wf(c, Listed(Freed(h.blocks, i)))
  {
    var bs := h.blocks;
    var b1 := Freed(bs, i);
    FreedTiles(c, bs, i);
    assert b1[0] == bs[0] && b1[|b1| - 1] == bs[|bs| - 1];
  }

  /** The walk stops at the first node at or above `p`. */
  lemma {:induction false} InsertPosAt(fl: seq<nat>, p: nat, m: nat)
    requires m < |fl| && p <= fl[m] && forall q :: 0 <= q < m ==> fl[q] < p
    ensures InsertPos(fl, p) == m
  {
  }

  /** The members before an interior block all lie below it. */
  lemma {:induction false} FreedBelow(c: Config, bs: seq<Block>, i: nat)
    requires c.header > 0 && Tiles(c, bs) && 0 < i < |bs| - 1
    ensures forall q :: 0 <= q < |([bs[0]] + FreeOf(bs[1..i]))| ==> ([bs[0]] + FreeOf(bs[1..i]))[q].offset < bs[i].offset
  {
    var pre := [bs[0]] + FreeOf(bs[1..i]);
    TilesIncreasing(c, bs);
    FreeOfMembers(bs[1..i]);
    forall q | 0 < q < |pre| ensures pre[q].offset < bs[i].offset {
      assert pre[q] in FreeOf(bs[1..i]);
    }
  }

  /** The first member after an interior block starts at or after its end. */
  lemma {:induction false} FreedAbove(c: Config, bs: seq<Block>, i: nat)
    requires c.header > 0 && Tiles(c, bs) && 0 < i < |bs| - 1
    ensures End(c, bs[i]) <= (FreeOf(bs[i + 1..|bs| - 1]) + [bs[|bs| - 1]])[0].offset
  {
    TilesIncreasing(c, bs);
    assert End(c, bs[i]) == bs[i + 1].offset;
    var inner := bs[i + 1..|bs| - 1];
    if FreeOf(inner) != [] {
      FreeOfMembers(inner);
      assert FreeOf(inner)[0] in inner;
    }
  }

  /** On the offsets of two runs, a point above every header of the first
      run and at or below the second run's first header stops the walk
      right after the first run. */
  lemma {:induction false} InsertPosSplit(pre: seq<Block>, post: seq<Block>, p: nat)
    requires |post| > 0 && p <= post[0].offset
    requires forall q :: 0 <= q < |pre| ==> pre[q].offset < p
    ensures InsertPos(Offsets(pre + post), p) == |pre|
  {
    var fl := Offsets(pre + post);
    forall q | 0 <= q < |pre| ensures fl[q] < p {
      assert (pre + post)[q] == pre[q];
    }
    assert (pre + post)[|pre|] == post[0];
    InsertPosAt(fl, p, |pre|);
  }

  /** The walk stops exactly at the freed block's rank among the free blocks:
      every node before it lies below the freed header, the next node at or
      above the payload. */
  lemma {:induction false} RelinkPosition(c: Config, h: Heap, i: nat)
    requires Wf(c, h) && 0 < i < |h.blocks| - 1 && h.blocks[i].taken
    ensures InsertPos(h.freeList, h.blocks[i].offset + c.header) == 1 + |FreeOf(h.blocks[1..i])|
  {
    var bs := h.blocks;
    var pre, post := [bs[0]] + FreeOf(bs[1..i]), FreeOf(bs[i + 1..|bs| - 1]) + [bs[|bs| - 1]];
    RelinkMembers(bs, i);
    FreedBelow(c, bs, i);
    FreedAbove(c, bs, i);
    InsertPosSplit(pre, post, bs[i].offset + c.header);
  }

  /** dmm.c's relink: the freed header is written back as free and its node
      goes in at its rank, which gives exactly the heap of the arena with
      block `i` free; that heap is well formed. */
  lemma {:induction false} RelinkStep(c: Config, h: Heap, i: nat, j: nat)
    requires Wf(c, h) && 0 < i < |h.blocks| - 1 && h.blocks[i].taken
    requires j == 1 + |FreeOf(h.blocks[1..i])|
    ensures j < |h.freeList|
    ensures Relink(h, h.blocks[i].offset, j) == Listed(Freed(h.blocks, i))
    ensures Wf(c, Listed(Freed(h.blocks, i)))
  {
    var bs, fl := h.blocks, h.freeList;
    var b1 := Freed(bs, i);
    var pre, post := [bs[0]] + FreeOf(bs[1..i]), FreeOf(bs[i + 1..|bs| - 1]) + [bs[|bs| - 1]];
    RelinkMembers(bs, i);
    RelinkBlocks(c, bs, i);
    RelinkWf(c, h, i);
    OffsetsInsert(pre, b1[i], post);
  }

  // ---------------------------------------------------------------------------
  // Coalescing
  // ---------------------------------------------------------------------------

  /** Merging two adjacent blocks keeps the arena tiled, one header shorter,
      with the same sentinels. */
  lemma {:induction false} MergeTiles(c: Config, bs: seq<Block>, i: nat)
    requires Tiles(c, bs) && 0 < i && i + 2 < |bs|
    ensures Tiles(c, MergeAt(c, bs, i))
    ensures |MergeAt(c, bs, i)| == |bs| - 1
    ensures MergeAt(c, bs, i)[0] == bs[0]
    ensures MergeAt(c, bs, i)[|MergeAt(c, bs, i)| - 1] == bs[|bs| - 1]
  {
    var m := Block(bs[i].offset, bs[i].size + c.header + bs[i + 1].size, false);
    assert End(c, bs[i]) == bs[i + 1].offset;
    assert End(c, bs[i + 1]) == bs[i + 2].offset;
    TilesSplice(c, bs, i, i + 2, [m]);
    SpliceInterior(bs, i, i + 2, [m]);
  }

  /** Merging two adjacent free blocks replaces both members by the merged one. */
  lemma {:induction false} MergeMembers(c: Config, bs: seq<Block>, i: nat)
    requires 0 < i && i + 2 < |bs| && !bs[i].taken && !bs[i + 1].taken
    ensures |MergeAt(c, bs, i)| >= 2
    ensures Members(bs) == ([bs[0]] + FreeOf(bs[1..i])) + [bs[i], bs[i + 1]] + (FreeOf(bs[i + 2..|bs| - 1]) + [bs[|bs| - 1]])
    ensures Members(MergeAt(c, bs, i))
         == ([bs[0]] + FreeOf(bs[1..i]))
            + [Block(bs[i].offset, bs[i].size + c.header + bs[i + 1].size, false)]
            + (FreeOf(bs[i + 2..|bs| - 1]) + [bs[|bs| - 1]])
  {
    var m := Block(bs[i].offset, bs[i].size + c.header + bs[i + 1].size, false);
    MembersSplice(bs, i, i + 2, [m]);
    MembersSplice(bs, i, i + 2, [bs[i], bs[i + 1]]);
    assert bs[..i] + [bs[i], bs[i + 1]] + bs[i + 2..] == bs;
    assert FreeOf([m]) == [m] by {
      assert [m][1..] == [];
    }
    assert FreeOf([bs[i], bs[i + 1]]) == [bs[i], bs[i + 1]] by {
      assert [bs[i], bs[i + 1]][1..] == [bs[i + 1]];
      assert [bs[i + 1]][1..] == [];
    }
  }

  /** Two adjacent free interior blocks are neighbours in the free list too,
      and merging them drops the second node: the heap stays well formed. */
  lemma {:induction false} MergeStep(c: Config, h: Heap, i: nat, k: nat)
    requires Wf(c, h) && 0 < i && i + 2 < |h.blocks| && !h.blocks[i].taken && !h.blocks[i + 1].taken
    requires k == 1 + |FreeOf(h.blocks[1..i])|
    ensures k + 1 < |h.freeList|
    ensures h.freeList[k] == h.blocks[i].offset && h.freeList[k + 1] == h.blocks[i + 1].offset
    ensures Heap(MergeAt(c, h.blocks, i), h.freeList[..k + 1] + h.freeList[k + 2..]) == Listed(MergeAt(c, h.blocks, i))
    ensures Wf(c, Listed(MergeAt(c, h.blocks, i)))
  {
    var bs := h.blocks;
    var m := Block(bs[i].offset, bs[i].size + c.header + bs[i + 1].size, false);
    var pre, post := [bs[0]] + FreeOf(bs[1..i]), FreeOf(bs[i + 2..|bs| - 1]) + [bs[|bs| - 1]];
    MergeMembers(c, bs, i);
    MergeTiles(c, bs, i);
    OffsetsDrop(pre, bs[i], bs[i + 1], m, post);
    assert (pre + [bs[i], bs[i + 1]] + post)[|pre|] == bs[i];
    assert (pre + [bs[i], bs[i + 1]] + post)[|pre| + 1] == bs[i + 1];
  }

  /** Forgetting the second header and rewriting the first is `MergeAt`. */
  lemma {:induction false} MergeWrites(c: Config, bs: seq<Block>, i: nat)
    requires Increasing(bs) && i + 1 < |bs|
    ensures Store(Discard(bs, bs[i + 1].offset), Block(bs[i].offset, bs[i].size + c.header + bs[i + 1].size, false))
         == MergeAt(c, bs, i)
  {
    var m := Block(bs[i].offset, bs[i].size + c.header + bs[i + 1].size, false);
    IncreasingBelow(bs, i + 1);
    DiscardAt(bs, i + 1);
    var d := bs[..i + 1] + bs[i + 2..];
    assert d[i] == bs[i];
    assert AllBelow(d, i, m.offset) by {
      forall j | 0 <= j < i ensures d[j].offset < m.offset {
        assert d[j] == bs[j];
      }
    }
    StoreAt(d, i, m);
  }

  /** A free header at the end of block `i` can only be block `i + 1`. */
  lemma {:induction false} FreeAfter(c: Config, bs: seq<Block>, i: nat)
    requires c.header > 0 && Tiles(c, bs) && i + 1 < |bs|
    ensures IsFreeAt(bs, End(c, bs[i])) <==> !bs[i + 1].taken
  {
    TilesIncreasing(c, bs);
    IncreasingBelow(bs, i + 1);
    LookupAt(bs, i + 1);
  }

  /** A free block whose payload ends at block `i`'s header can only be block `i - 1`. */
  lemma {:induction false} FreeBefore(c: Config, bs: seq<Block>, i: nat, pv: nat)
    requires c.header > 0 && Tiles(c, bs) && 0 < i < |bs|
    ensures IsFreeAt(bs, pv) && pv + c.header + SizeAt(bs, pv) == bs[i].offset
            ==> !bs[i - 1].taken && bs[i - 1].offset == pv
  {
    TilesIncreasing(c, bs);
    if IsFreeAt(bs, pv) && pv + c.header + SizeAt(bs, pv) == bs[i].offset {
      var m :| 0 <= m < |bs| && bs[m].offset == pv;
      IncreasingBelow(bs, m);
      LookupAt(bs, m);
      assert m < i;
      assert End(c, bs[m]) == bs[m + 1].offset;
      assert m + 1 == i;
    }
  }

  /** Case 1 merges when the node after the freed one is the free block
      right behind it. */
  lemma {:induction false} MergeRightAt(c: Config, h: Heap, i: nat, j: nat)
    requires c.header > 0 && Tiles(c, h.blocks) && i + 1 < |h.blocks| && j + 1 < |h.freeList|
    requires h.freeList[j] == h.blocks[i].offset && h.freeList[j + 1] == h.blocks[i + 1].offset
    requires !h.blocks[i + 1].taken
    ensures MergeRight(c, h, j, h.blocks[i].offset + c.header)
         == Heap(MergeAt(c, h.blocks, i), h.freeList[..j + 1] + h.freeList[j + 2..])
  {
    var bs := h.blocks;
    TilesIncreasing(c, bs);
    IncreasingBelow(bs, i);
    LookupAt(bs, i);
    IncreasingBelow(bs, i + 1);
    LookupAt(bs, i + 1);
    assert End(c, bs[i]) == bs[i + 1].offset;
    MergeWrites(c, bs, i);
    assert Block(bs[i].offset, c.header + bs[i].size + bs[i + 1].size, false)
        == Block(bs[i].offset, bs[i].size + c.header + bs[i + 1].size, false);
  }

  /** Case 1 leaves the heap alone when the block right behind the freed
      one is taken, whatever node follows in the list. */
  lemma {:induction false} MergeRightNone(c: Config, h: Heap, i: nat, j: nat)
    requires c.header > 0 && Tiles(c, h.blocks) && i + 1 < |h.blocks| && j + 1 < |h.freeList|
    requires h.freeList[j] == h.blocks[i].offset && h.blocks[i + 1].taken
    ensures MergeRight(c, h, j, h.blocks[i].offset + c.header) == h
  {
    var bs := h.blocks;
    TilesIncreasing(c, bs);
    IncreasingBelow(bs, i);
    LookupAt(bs, i);
    FreeAfter(c, bs, i);
  }

  /** Coalescing case 1 on a well-formed heap: the freed block absorbs the
      block after it exactly when that one is free; the heap stays well formed. */
  lemma {:induction false} RightStep(c: Config, bs: seq<Block>, i: nat, j: nat, p: nat)
    requires |bs| >= 2 && Wf(c, Listed(bs)) && 0 < i < |bs| - 1 && !bs[i].taken
    requires j == 1 + |FreeOf(bs[1..i])| && p == bs[i].offset + c.header
    ensures j + 1 < |Listed(bs).freeList|
    ensures MergeRight(c, Listed(bs), j, p) == Listed(AbsorbNext(c, bs, i))
    ensures Wf(c, Listed(AbsorbNext(c, bs, i)))
  {
    var h := Listed(bs);
    MemberPosition(bs, i);
    assert h.freeList[j] == bs[i].offset;
    if !bs[i + 1].taken {
      MergeStep(c, h, i, j);
      MergeRightAt(c, h, i, j);
    } else {
      MergeRightNone(c, h, i, j);
    }
  }

  /** Case 2 merges when the node before the freed one is the free block
      right in front of it. */
  lemma {:induction false} MergeLeftAt(c: Config, h: Heap, i: nat, j: nat)
    requires c.header > 0 && Tiles(c, h.blocks) && 0 < i < |h.blocks| && 0 < j < |h.freeList|
    requires h.freeList[j] == h.blocks[i].offset && h.freeList[j - 1] == h.blocks[i - 1].offset
    requires !h.blocks[i - 1].taken
    ensures MergeLeft(c, h, j, h.blocks[i].offset + c.header)
         == Heap(MergeAt(c, h.blocks, i - 1), h.freeList[..j] + h.freeList[j + 1..])
  {
    var bs := h.blocks;
    TilesIncreasing(c, bs);
    IncreasingBelow(bs, i);
    LookupAt(bs, i);
    IncreasingBelow(bs, i - 1);
    LookupAt(bs, i - 1);
    assert End(c, bs[i - 1]) == bs[i].offset;
    MergeWrites(c, bs, i - 1);
  }

  /** Case 2 leaves the heap alone when the block right in front of the
      freed one is taken, whatever node precedes it in the list. */
  lemma {:induction false} MergeLeftNone(c: Config, h: Heap, i: nat, j: nat)
    requires c.header > 0 && Tiles(c, h.blocks) && 0 < i < |h.blocks| && 0 < j < |h.freeList|
    requires h.freeList[j] == h.blocks[i].offset && h.blocks[i - 1].taken
    ensures MergeLeft(c, h, j, h.blocks[i].offset + c.header) == h
  {
    FreeBefore(c, h.blocks, i, h.freeList[j - 1]);
  }

  /** Coalescing case 2 on a well-formed heap: the block before the freed
      one absorbs it exactly when that block is free; the heap stays well formed. */
  lemma {:induction false} LeftStep(c: Config, bs: seq<Block>, i: nat, j: nat, p: nat)
    requires |bs| >= 2 && Wf(c, Listed(bs)) && 0 < i < |bs| - 1 && !bs[i].taken
    requires j == 1 + |FreeOf(bs[1..i])| && p == bs[i].offset + c.header
    ensures 0 < j < |Listed(bs).freeList|
    ensures MergeLeft(c, Listed(bs), j, p) == Listed(AbsorbPrev(c, bs, i))
    ensures Wf(c, Listed(AbsorbPrev(c, bs, i)))
  {
    MemberPosition(bs, i);
    if !bs[i - 1].taken {
      LeftMerge(c, bs, i, j, p);
    } else {
      assert Listed(bs).freeList[j] == bs[i].offset;
      MergeLeftNone(c, Listed(bs), i, j);
    }
  }

  /** Case 2 when the block before the freed one is free: the two merge and
      the freed block's node leaves the list. */
  lemma {:induction false} LeftMerge(c: Config, bs: seq<Block>, i: nat, j: nat, p: nat)
    requires |bs| >= 2 && Wf(c, Listed(bs)) && 0 < i < |bs| - 1 && !bs[i].taken && !bs[i - 1].taken
    requires j == 1 + |FreeOf(bs[1..i])| && p == bs[i].offset + c.header
    ensures 0 < j < |Listed(bs).freeList|
    ensures MergeLeft(c, Listed(bs), j, p) == Listed(MergeAt(c, bs, i - 1))
    ensures Wf(c, Listed(MergeAt(c, bs, i - 1)))
  {
    var h := Listed(bs);
    assert FreeOf(bs[1..i]) == FreeOf(bs[1..i - 1]) + [bs[i - 1]] by {
      assert bs[1..i] == bs[1..i - 1] + [bs[i - 1]];
      FreeOfConcat(bs[1..i - 1], [bs[i - 1]]);
      assert [bs[i - 1]][1..] == [];
    }
    MergeStep(c, h, i - 1, j - 1);
    MergeLeftAt(c, h, i, j);
  }

  // ---------------------------------------------------------------------------
  // dfree as a whole
  // ---------------------------------------------------------------------------

  /** Absorbing the next block leaves everything up to block `i` in place,
      and block `i` free and interior. */
  lemma {:induction false} AbsorbNextPrefix(c: Config, bs: seq<Block>, i: nat)
    requires 0 < i && i + 1 < |bs| && !bs[i].taken && bs[|bs| - 1].taken
    ensures i < |AbsorbNext(c, bs, i)| - 1
    ensures AbsorbNext(c, bs, i)[1..i] == bs[1..i]
    ensures AbsorbNext(c, bs, i)[i - 1] == bs[i - 1]
    ensures !AbsorbNext(c, bs, i)[i].taken
    ensures AbsorbNext(c, bs, i)[i].offset == bs[i].offset
  {
    var b := AbsorbNext(c, bs, i);
    if !bs[i + 1].taken {
      assert i + 1 < |bs| - 1;
      assert b[..i] == bs[..i];
    }
  }

  /** Freeing an interior block keeps everything before it and the last block in place. */
  lemma {:induction false} FreedPrefix(bs: seq<Block>, i: nat)
    requires 0 < i < |bs| - 1
    ensures Freed(bs, i)[1..i] == bs[1..i] && Freed(bs, i)[|bs| - 1] == bs[|bs| - 1]
  {
  }

  /** The three steps of dfree, spelled out. */
  lemma {:induction false} FreeShape(c: Config, h: Heap, p: nat, j: nat)
    requires Wf(c, h) && Live(c, h, p) && j == InsertPos(h.freeList, p) && 0 < j < |h.freeList|
    ensures Free(c, h, p) == MergeLeft(c, MergeRight(c, Relink(h, p - c.header, j), j, p), j, p)
  {
  }

  /** Freeing block `i` and absorbing the block after it leaves everything
      before block `i` in place, and block `i` free and interior. */
  lemma {:induction false} FreedNextPrefix(c: Config, bs: seq<Block>, i: nat, b2: seq<Block>)
    requires 0 < i < |bs| - 1 && bs[|bs| - 1].taken
    requires b2 == AbsorbNext(c, Freed(bs, i), i)
    ensures 0 < i < |b2| - 1 && b2[1..i] == bs[1..i]
    ensures !b2[i].taken && b2[i].offset == bs[i].offset
  {
    FreedPrefix(bs, i);
    AbsorbNextPrefix(c, Freed(bs, i), i);
  }

  /** Relinking block `i` at its rank and coalescing with the block after
      it gives the arena with block `i` freed and merged forward, and the
      heap stays well formed. */
  lemma {:induction false} RelinkRight(c: Config, h: Heap, i: nat, j: nat, p: nat, b2: seq<Block>)
    requires Wf(c, h) && 0 < i < |h.blocks| - 1 && h.blocks[i].taken
    requires j == 1 + |FreeOf(h.blocks[1..i])| && p == h.blocks[i].offset + c.header
    requires b2 == AbsorbNext(c, Freed(h.blocks, i), i)
    ensures j < |h.freeList| && |b2| >= 2
    ensures MergeRight(c, Relink(h, h.blocks[i].offset, j), j, p) == Listed(b2)
    ensures Wf(c, Listed(b2))
  {
    var bs := h.blocks;
    var b1 := Freed(bs, i);
    RelinkStep(c, h, i, j);
    FreedPrefix(bs, i);
    RightStep(c, b1, i, j, p);
  }

  /** Relinking block `i` at its rank and coalescing on both sides yields
      the arena-level result, and the heap stays well formed. */
  lemma {:induction false} FreeSteps(c: Config, h: Heap, i: nat, j: nat, p: nat)
    requires Wf(c, h) && 0 < i < |h.blocks| - 1 && h.blocks[i].taken
    requires j == 1 + |FreeOf(h.blocks[1..i])| && p == h.blocks[i].offset + c.header
    ensures 0 < j < |h.freeList|
    ensures MergeLeft(c, MergeRight(c, Relink(h, h.blocks[i].offset, j), j, p), j, p)
         == Listed(FreeBlocks(c, h.blocks, i))
    ensures Wf(c, Listed(FreeBlocks(c, h.blocks, i)))
  {
    var b2 := AbsorbNext(c, Freed(h.blocks, i), i);
    FreedNextPrefix(c, h.blocks, i, b2);
    RelinkRight(c, h, i, j, p, b2);
    LeftStep(c, b2, i, j, p);
  }

  /** dfree, which works on the list and the headers, does exactly what the
      arena-level description says: the freed block merges with each free
      physical neighbour, the free list is again the free blocks in address
      order, and the heap stays well formed. */
  lemma {:induction false} FreeMatches(c: Config, h: Heap, p: nat)
    requires Wf(c, h) && Live(c, h, p)
    ensures 0 < IndexOf(h.blocks, p - c.header) < |h.blocks| - 1
    ensures Free(c, h, p) == Listed(FreeBlocks(c, h.blocks, IndexOf(h.blocks, p - c.header)))
    ensures Wf(c, Free(c, h, p))
  {
    var i := LiveBlock(c, h, p);
    RelinkPosition(c, h, i);
    var j := 1 + |FreeOf(h.blocks[1..i])|;
    FreeSteps(c, h, i, j, p);
    FreeShape(c, h, p, j);
  }
}
