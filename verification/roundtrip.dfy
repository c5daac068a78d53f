/**
 * dmalloc followed by dfree of the pointer it handed out: on a heap with no
 * two free blocks side by side, the remainder the split left behind merges
 * straight back and the heap is exactly what it was.
 */
module RoundTrip {
  import opened Wrappers
  import opened Arena
  import opened Memory
  import opened Layout
  import opened Allocate
  import opened Release
  import opened Coalescing

  /** Freeing block `i` whose left neighbour is taken and whose right
      neighbour is free gives one free block from block `i`'s header to the
      end of block `i + 1`: if `bs` has that block where `s` has the two,
      the result is `bs`. */
  lemma {:induction false} MergeBack(c: Config, s: seq<Block>, bs: seq<Block>, i: nat)
    requires Tiles(c, s) && 0 < i && i + 2 < |s| && |s| == |bs| + 1
    requires s[0].taken && s[|s| - 1].taken && s[i - 1].taken && !s[i + 1].taken
    requires s[..i] == bs[..i] && s[i + 2..] == bs[i + 1..]
    requires bs[i] == Block(s[i].offset, bs[i].size, false) && End(c, s[i + 1]) == End(c, bs[i])
    ensures FreeBlocks(c, s, i) == bs
  {
    var l, r, m := FreeBlocksShape(c, s, i);
    assert l == i && r == i + 1;
    assert m == bs[i];
    Reassemble(bs, i);
  }

  /** A sequence is its prefix, its element at `i` and its suffix. */
  lemma {:induction false} Reassemble(bs: seq<Block>, i: nat)
    requires i < |bs|
    ensures bs[..i] + [bs[i]] + bs[i + 1..] == bs
  {
  }

  /** Freeing the head of a split whose left neighbour is taken merges it
      with the remainder and gives back the arena before the split. */
  lemma {:induction false} SplitThenFree(c: Config, bs: seq<Block>, i: nat, a: nat, s: seq<Block>)
    requires Tiles(c, bs) && 0 < i < |bs| - 1 && bs[i].size >= a + c.header
    requires !bs[i].taken && bs[i - 1].taken && bs[0].taken && bs[|bs| - 1].taken
    requires s == SplitAt(c, bs, i, a)
    ensures FreeBlocks(c, s, i) == bs
  {
    SplitTiles(c, bs, i, a);
    SplitAtShape(c, bs, i, a);
    assert s[..i] == bs[..i] && s[i + 2..] == bs[i + 1..];
    MergeBack(c, s, bs, i);
  }

  /** After a split, the header at the split block's offset is still block `i`. */
  lemma {:induction false} SplitIndex(c: Config, bs: seq<Block>, i: nat, a: nat, s: seq<Block>)
    requires c.header > 0 && Tiles(c, bs) && 0 < i < |bs| - 1 && bs[i].size >= a + c.header
    requires s == SplitAt(c, bs, i, a)
    ensures IndexOf(s, bs[i].offset) == i
  {
    SplitTiles(c, bs, i, a);
    SplitAtShape(c, bs, i, a);
    assert s[i].offset == bs[i].offset;
    TilesIncreasing(c, s);
    IncreasingBelow(s, i);
    IndexOfAt(s, i);
  }

  /** A well-formed heap is determined by its blocks. */
  lemma {:induction false} ListedOfWf(c: Config, h: Heap)
    requires Wf(c, h)
    ensures Listed(h.blocks) == h
  {
  }

  /** dfree of a live payload whose header is block `i` gives the listed
      heap of whatever the arena-level free of block `i` gives. */
  lemma {:induction false} FreeAt(c: Config, h: Heap, i: nat, p: nat, bs: seq<Block>)
    requires Wf(c, h) && Live(c, h, p) && IndexOf(h.blocks, p - c.header) == i
    requires 0 < i < |h.blocks| - 1 && FreeBlocks(c, h.blocks, i) == bs
    ensures Free(c, h, p) == Listed(bs)
  {
    FreeMatches(c, h, p);
  }

  /** The payload of a split block is handed out in any heap over the
      split arena. */
  lemma {:induction false} SplitLive(c: Config, h: Heap, h2: Heap, i: nat, a: nat, p: nat)
    requires Wf(c, h) && 0 < i < |h.blocks| - 1 && h.blocks[i].size >= a + c.header
    requires h2.blocks == SplitAt(c, h.blocks, i, a) && p == h.blocks[i].offset + c.header
    ensures Live(c, h2, p)
  {
    SplitPayload(c, h.blocks, i, a);
    TilesIncreasing(c, h.blocks);
    assert h.blocks[0].offset < h.blocks[i].offset;
  }

  /** Freeing the payload of a heap whose arena is a split of `h`'s block
      `i`, whose left neighbour is taken, gives back `h`. */
  lemma {:induction false} FreeUndoesSplit(c: Config, h: Heap, h2: Heap, i: nat, a: nat, p: nat)
    requires Wf(c, h) && Coalesced(h.blocks) && 0 < i < |h.blocks| - 1
    requires !h.blocks[i].taken && h.blocks[i].size >= a + c.header
    requires h2.blocks == SplitAt(c, h.blocks, i, a) && p == h.blocks[i].offset + c.header
    requires Wf(c, h2)
    ensures Live(c, h2, p)
    ensures Free(c, h2, p) == h
  {
    var bs := h.blocks;
    assert bs[i - 1].taken by {
      assert !FreePair(bs, i - 1);
    }
    SplitLive(c, h, h2, i, a, p);
    SplitThenFree(c, bs, i, a, h2.blocks);
    SplitIndex(c, bs, i, a, h2.blocks);
    FreeAt(c, h2, i, p, bs);
    ListedOfWf(c, h);
  }

  /** dfree undoes a successful dmalloc: the pointer handed out is live, and
      freeing it gives back the heap dmalloc started from, provided no two
      free blocks were side by side. */
  lemma {:induction false} MallocFree(c: Config, h: Heap, n: nat)
    requires Wf(c, h) && Coalesced(h.blocks) && n > 0
    requires Malloc(c, h, n).ptr.Some?
    ensures Wf(c, Malloc(c, h, n).heap)
    ensures Live(c, Malloc(c, h, n).heap, Malloc(c, h, n).ptr.value)
    ensures Free(c, Malloc(c, h, n).heap, Malloc(c, h, n).ptr.value) == h
  {
    assert Chosen(c, h, n).Some?;
    MallocShape(c, h, n);
    MallocWf(c, h, n);
    FreeUndoesSplit(c, h, Malloc(c, h, n).heap, ChosenBlock(c, h, n), Align(c, n), Malloc(c, h, n).ptr.value);
  }
}
