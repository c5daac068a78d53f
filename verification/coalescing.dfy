/**
 * What dfree does to the arena, stated without the free list: the freed
 * block and each free physical neighbour become one free block, and every
 * other header stays where it was.  From that shape follow the invariants
 * dfree keeps.
 */
module Coalescing {
  import opened Arena
  import opened Memory
  import opened Layout
  import opened Release

  /** The arena-level result of freeing block `i`: blocks `l..r` (the freed
      block plus each free neighbour) replaced by the single block `m`. */
  predicate MergedInto(c: Config, bs: seq<Block>, i: nat, l: nat, r: nat, m: Block, s: seq<Block>)
    requires 0 < i < |bs| - 1
  {
    && (l == if bs[i - 1].taken then i else i - 1)
    && (r == if bs[i + 1].taken then i else i + 1)
    && m.offset == bs[l].offset && !m.taken && End(c, m) == End(c, bs[r])
    && s == bs[..l] + [m] + bs[r + 1..]
  }

  /** The freed block absorbs the block after it when that one is free. */
  lemma {:induction false} NextShape(c: Config, bs: seq<Block>, i: nat, r: nat)
    requires Tiles(c, bs) && 0 < i && i + 1 < |bs|
    requires r == if bs[i + 1].taken then i else i + 1
    ensures |AbsorbNext(c, Freed(bs, i), i)| == |bs| - (r - i)
    ensures AbsorbNext(c, Freed(bs, i), i) == bs[..i] + [AbsorbNext(c, Freed(bs, i), i)[i]] + bs[r + 1..]
    ensures AbsorbNext(c, Freed(bs, i), i)[i].offset == bs[i].offset
    ensures !AbsorbNext(c, Freed(bs, i), i)[i].taken
    ensures End(c, AbsorbNext(c, Freed(bs, i), i)[i]) == End(c, bs[r])
  {
    var f := Freed(bs, i);
    var b := AbsorbNext(c, f, i);
    if !bs[i + 1].taken {
      assert End(c, bs[i]) == bs[i + 1].offset;
      assert b == bs[..i] + [b[i]] + bs[i + 2..] by {
        assert f[..i] == bs[..i] && f[i + 2..] == bs[i + 2..];
      }
    } else {
      assert b == bs[..i] + [b[i]] + bs[i + 1..];
    }
  }

  /** Freeing block `i` merges it with exactly its free physical neighbours
      into one free block covering the same bytes, and leaves every other
      header unchanged. */
  lemma {:induction false} FreeBlocksShape(c: Config, bs: seq<Block>, i: nat)
    returns (l: nat, r: nat, m: Block)
    requires Tiles(c, bs) && 0 < i < |bs| - 1
    requires bs[0].taken && bs[|bs| - 1].taken
    ensures 0 < l <= i <= r < |bs| - 1
    ensures MergedInto(c, bs, i, l, r, m, FreeBlocks(c, bs, i))
  {
    var b := AbsorbNext(c, Freed(bs, i), i);
    r := if bs[i + 1].taken then i else i + 1;
    NextShape(c, bs, i, r);
    assert b[i - 1] == bs[i - 1] && b[..i] == bs[..i] && b[i + 1..] == bs[r + 1..] by {
      assert b == bs[..i] + [b[i]] + bs[r + 1..];
    }
    var s := FreeBlocks(c, bs, i);
    if bs[i - 1].taken {
      l, m := i, b[i];
    } else {
      l := i - 1;
      m := Block(bs[i - 1].offset, bs[i - 1].size + c.header + b[i].size, false);
      assert End(c, bs[i - 1]) == bs[i].offset;
      assert s == bs[..i - 1] + [m] + bs[r + 1..] by {
        assert s == b[..i - 1] + [m] + b[i + 1..];
        assert b[..i - 1] == bs[..i - 1];
      }
    }
  }

  /** The merged block's neighbours are taken: a free neighbour would have
      been absorbed, and the one beyond it was taken already.  So freeing
      keeps the arena free of adjacent free blocks. */
  lemma {:induction false} ShapeCoalesced(c: Config, bs: seq<Block>, i: nat, l: nat, r: nat, m: Block, s: seq<Block>)
    requires Coalesced(bs) && 0 < i < |bs| - 1 && 0 < l <= i <= r < |bs| - 1
    requires MergedInto(c, bs, i, l, r, m, s)
    ensures Coalesced(s)
  {
    assert bs[l - 1].taken by {
      if l < i {
        assert !FreePair(bs, l - 1);
      }
    }
    assert bs[r + 1].taken by {
      if r > i {
        assert !FreePair(bs, r);
      }
    }
    var d := r - l;
    forall q | 0 <= q < |s| - 1 ensures !FreePair(s, q) {
      if q + 1 < l {
        assert s[q] == bs[q] && s[q + 1] == bs[q + 1] && !FreePair(bs, q);
      } else if q + 1 == l {
        assert s[q] == bs[l - 1];
      } else if q == l {
        assert s[q] == m && s[q + 1] == bs[r + 1];
      } else {
        assert s[q] == bs[q + d] && s[q + 1] == bs[q + d + 1] && !FreePair(bs, q + d);
      }
    }
  }

  /** The merged block starts at an aligned header and ends where an aligned
      header starts, so its size is aligned: freeing keeps every offset and
      size aligned. */
  lemma {:induction false} ShapeAligned(c: Config, bs: seq<Block>, i: nat, l: nat, r: nat, m: Block, s: seq<Block>)
    requires Valid(c) && Tiles(c, bs) && AllAligned(c, bs) && 0 < i < |bs| - 1 && 0 < l <= i <= r < |bs| - 1
    requires MergedInto(c, bs, i, l, r, m, s)
    ensures AllAligned(c, s)
  {
    assert End(c, bs[r]) == bs[r + 1].offset;
    AlignedSum(c, m.offset, c.header);
    AlignedDiff(c, bs[r + 1].offset, m.offset + c.header);
    var d := r - l;
    forall q | 0 <= q < |s| ensures IsAligned(c, s[q].offset) && IsAligned(c, s[q].size) {
      if q < l {
        assert s[q] == bs[q];
      } else if q > l {
        assert s[q] == bs[q + d];
      }
    }
  }

  /** dfree on a live payload `p`: its block `i` merges with exactly its
      free physical neighbours into one free block, the sentinels are never
      absorbed, every other header is unchanged, and the free list is again
      the free blocks in address order between the sentinels. */
  lemma {:induction false} FreeResult(c: Config, h: Heap, p: nat) returns (i: nat, l: nat, r: nat, m: Block)
    requires Wf(c, h) && Live(c, h, p)
    ensures 0 < i < |h.blocks| - 1 && h.blocks[i].offset == p - c.header && h.blocks[i].taken
    ensures 0 < l <= i <= r < |h.blocks| - 1
    ensures MergedInto(c, h.blocks, i, l, r, m, Free(c, h, p).blocks)
    ensures Wf(c, Free(c, h, p))
  {
    i := LiveBlock(c, h, p);
    FreeMatches(c, h, p);
    l, r, m := FreeBlocksShape(c, h.blocks, i);
  }

  /** dfree keeps the heap invariant, leaves no two free blocks side by
      side, keeps every offset and size aligned, and the blocks still cover
      the whole region. */
  lemma {:induction false} FreeKeeps(c: Config, h: Heap, p: nat)
    requires Wf(c, h) && Coalesced(h.blocks) && AllAligned(c, h.blocks) && Live(c, h, p)
    ensures Wf(c, Free(c, h, p))
    ensures Coalesced(Free(c, h, p).blocks) && AllAligned(c, Free(c, h, p).blocks)
    ensures Span(c, Free(c, h, p).blocks) == MaxBytes(c)
  {
    var i, l, r, m := FreeResult(c, h, p);
    ShapeCoalesced(c, h.blocks, i, l, r, m, Free(c, h, p).blocks);
    ShapeAligned(c, h.blocks, i, l, r, m, Free(c, h, p).blocks);
    WfSpan(c, Free(c, h, p));
  }
}
