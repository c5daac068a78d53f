/**
 * `dmalloc` on an initialised heap: best fit over the free list, then an
 * in-place split that always leaves a remainder header behind the payload.
 */
module Allocate {
  import opened Wrappers
  import opened Arena
  import opened Memory
  import opened Layout
  import opened BestFit

  /** The payload sizes of the free-list nodes, read from their headers in list order. */
  function NodeSizes(h: Heap): (r: seq<nat>)
    ensures |r| == |h.freeList|
    ensures forall k :: 0 <= k < |h.freeList| ==> r[k] == SizeAt(h.blocks, h.freeList[k])
    decreases |h.freeList|
  {
    if h.freeList == [] then []
    else [SizeAt(h.blocks, h.freeList[0])] + NodeSizes(Heap(h.blocks, h.freeList[1..]))
  }

  /** Room a node needs for a request of `n` bytes: the aligned payload plus
      one header for the remainder. */
  function Need(c: Config, n: nat): nat
    requires c.alignment > 0
  {
    Align(c, n) + c.header
  }

  /** The free-list position best fit picks for a request of `n` bytes. */
  function Chosen(c: Config, h: Heap, n: nat): Option<nat>
    requires c.alignment > 0
  {
    Choose(NodeSizes(h), Need(c, n))
  }

  /** What `dmalloc` gives back: the heap afterwards and the payload offset,
      or `None` for NULL. */
  datatype Reply = Reply(heap: Heap, ptr: Option<nat>)

  /** `r` hands out a payload: an aligned, non-NULL offset past the
      prologue whose header is taken and records `a` payload bytes, with the payload and one more
      header after it ending before the epilogue. */
  predicate HandsOut(c: Config, r: Reply, a: nat)
    requires c.alignment > 0
  {
    && r.ptr.Some? && IsAligned(c, r.ptr.value) && c.header < r.ptr.value
    && Lookup(r.heap.blocks, r.ptr.value - c.header) == Some(Block(r.ptr.value - c.header, a, true))
    && r.ptr.value + a + c.header <= MaxBytes(c) - c.header
  }

  /** The physical effect of a split: block `i` keeps its header, becomes
      taken with exactly `a` payload bytes, and a free remainder header
      follows the payload with whatever room is left. */
  function SplitAt(c: Config, bs: seq<Block>, i: nat, a: nat): seq<Block>
    requires i < |bs| && bs[i].size >= a + c.header
  {
    bs[..i] + [Block(bs[i].offset, a, true), Block(bs[i].offset + c.header + a, bs[i].size - a - c.header, false)]
    + bs[i + 1..]
  }

  /** The reply of a split of block `i`, listed at position `k`, for an
      aligned request of `a` bytes: the split arena, the remainder in the
      node's list position, and the payload right behind the block's header. */
  function SplitReply(c: Config, h: Heap, i: nat, k: nat, a: nat): Reply
    requires i < |h.blocks| && h.blocks[i].size >= a + c.header && k < |h.freeList|
  {
    var o := h.blocks[i].offset;
    Reply(Heap(SplitAt(c, h.blocks, i, a), h.freeList[k := o + c.header + a]), Some(o + c.header))
  }

  /** In a well-formed heap each node size is the size of the header the free list names. */
  lemma {:induction false} NodeSizesOfWf(c: Config, h: Heap)
    requires Wf(c, h)
    ensures |NodeSizes(h)| == |Members(h.blocks)|
    ensures forall k :: 0 <= k < |h.freeList| ==> NodeSizes(h)[k] == Members(h.blocks)[k].size
  {
    forall k | 0 <= k < |h.freeList| ensures NodeSizes(h)[k] == Members(h.blocks)[k].size {
      NodeLookup(c, h, k);
    }
  }

  /** The split of free-list node `k` for an aligned request of `a` bytes:
      the remainder header is written behind the new payload, takes the
      node's place in the list, and the node's own header is rewritten as
      taken with exactly `a` bytes. */
  function SplitNode(c: Config, h: Heap, k: nat, a: nat): Reply
    requires k < |h.freeList| && SizeAt(h.blocks, h.freeList[k]) >= a + c.header
  {
    var chosen := h.freeList[k];
    var size := SizeAt(h.blocks, chosen);
    var rest := chosen + c.header + a;
    var withRest := Store(h.blocks, Block(rest, size - a - c.header, false));
    Reply(Heap(Store(withRest, Block(chosen, a, true)), h.freeList[k := rest]),
          Some(chosen + c.header))
  }

  /** dmalloc: NULL, with nothing changed, exactly when no free-list node has
      room for the aligned request plus a remainder header. */
  function Malloc(c: Config, h: Heap, n: nat): (r: Reply)
    requires Wf(c, h) && n > 0
    ensures r.ptr.None? <==>
      forall k :: 0 <= k < |Members(h.blocks)| ==> Members(h.blocks)[k].size < Need(c, n)
    ensures r.ptr.None? ==> r.heap == h
  {
    NodeSizesOfWf(c, h);
    match Chosen(c, h, n)
    case None => Reply(h, None)
    case Some(k) => SplitNode(c, h, k, Align(c, n))
  }

  /** The arena position of the block best fit picks. */
  function ChosenBlock(c: Config, h: Heap, n: nat): nat
    requires Wf(c, h) && Chosen(c, h, n).Some?
  {
    NodeSizesOfWf(c, h);
    IndexOf(h.blocks, h.freeList[Chosen(c, h, n).value])
  }

  /** The list position picked is never a sentinel, and names a free block
      strictly inside the arena with room for the request. */
  lemma {:induction false} ChosenIsInner(c: Config, h: Heap, n: nat)
    requires Wf(c, h) && n > 0 && Chosen(c, h, n).Some?
    ensures 0 < Chosen(c, h, n).value < |h.freeList| - 1
    ensures 0 < ChosenBlock(c, h, n) < |h.blocks| - 1
    ensures h.blocks[ChosenBlock(c, h, n)] == Members(h.blocks)[Chosen(c, h, n).value]
    ensures !h.blocks[ChosenBlock(c, h, n)].taken
    ensures h.blocks[ChosenBlock(c, h, n)].size >= Need(c, n)
  {
    NodeSizesOfWf(c, h);
    var k := Chosen(c, h, n).value;
    assert NodeSizes(h)[k] >= Need(c, n) > 0;
    var i := InnerNode(c, h, k);
  }

  /** Best fit in address terms: the block picked is free and has room; no
      free block with room is smaller; and every free block with room at a
      lower address is strictly larger. */
  lemma {:induction false} MallocBestFit(c: Config, h: Heap, n: nat)
    requires Wf(c, h) && n > 0 && Chosen(c, h, n).Some?
    ensures var bs, i := h.blocks, ChosenBlock(c, h, n);
      && 0 < i < |bs| - 1 && !bs[i].taken && bs[i].size >= Need(c, n)
      && (forall j :: 0 < j < |bs| - 1 && !bs[j].taken && bs[j].size >= Need(c, n) ==>
            bs[i].size <= bs[j].size)
      && (forall j :: 0 < j < i && !bs[j].taken && bs[j].size >= Need(c, n) ==>
            bs[i].size < bs[j].size)
  {
    ChosenIsInner(c, h, n);
    NodeSizesOfWf(c, h);
    var bs, i, k := h.blocks, ChosenBlock(c, h, n), Chosen(c, h, n).value;
    var sizes := NodeSizes(h);
    assert IsBestFit(sizes, Need(c, n), k);
    TilesIncreasing(c, bs);
    forall j | 0 < j < |bs| - 1 && !bs[j].taken && bs[j].size >= Need(c, n)
      ensures bs[i].size <= bs[j].size
      ensures j < i ==> bs[i].size < bs[j].size
    {
      MemberPosition(bs, j);
      var q := 1 + |FreeOf(bs[1..j])|;
      assert sizes[q] == bs[j].size;
      if j < i {
        MemberOrder(c, h, q, k);
      }
    }
  }

  /** Writing the remainder header places it right behind block `i`. */
  lemma {:induction false} WriteRemainder(bs: seq<Block>, i: nat, rest: Block)
    requires i + 1 < |bs| && AllBelow(bs, i, bs[i].offset)
    requires bs[i].offset < rest.offset < bs[i + 1].offset
    ensures Store(bs, rest) == bs[..i + 1] + [rest] + bs[i + 1..]
  {
    StoreBetween(bs, i, rest);
  }

  /** Rewriting block `i`'s header after the remainder went in behind it. */
  lemma {:induction false} RewriteChosen(bs: seq<Block>, i: nat, rest: Block, head: Block)
    requires i + 1 < |bs| && AllBelow(bs, i, bs[i].offset) && head.offset == bs[i].offset
    ensures Store(bs[..i + 1] + [rest] + bs[i + 1..], head) == bs[..i] + [head, rest] + bs[i + 1..]
  {
    var withRest := bs[..i + 1] + [rest] + bs[i + 1..];
    assert withRest[i] == bs[i];
    assert AllBelow(withRest, i, head.offset) by {
      forall j | 0 <= j < i ensures withRest[j].offset < head.offset {
        assert withRest[j] == bs[j];
      }
    }
    StoreAt(withRest, i, head);
    InsertThenOverwrite(bs, i, rest, head);
  }

  /** The two header writes of a split, remainder first, produce `SplitAt`. */
  lemma {:induction false} SplitWrites(c: Config, bs: seq<Block>, i: nat, a: nat)
    requires i + 1 < |bs| && AllBelow(bs, i, bs[i].offset) && bs[i + 1].offset == End(c, bs[i])
    requires c.header > 0 && bs[i].size >= a + c.header
    ensures Store(Store(bs, Block(bs[i].offset + c.header + a, bs[i].size - a - c.header, false)),
                  Block(bs[i].offset, a, true))
         == SplitAt(c, bs, i, a)
  {
    WriteRemainder(bs, i, Block(bs[i].offset + c.header + a, bs[i].size - a - c.header, false));
    RewriteChosen(bs, i, Block(bs[i].offset + c.header + a, bs[i].size - a - c.header, false),
                  Block(bs[i].offset, a, true));
    SplitAtShape(c, bs, i, a);
  }

  lemma {:induction false} SplitAtShape(c: Config, bs: seq<Block>, i: nat, a: nat)
    requires i < |bs| && bs[i].size >= a + c.header
    ensures SplitAt(c, bs, i, a)
         == bs[..i] + [Block(bs[i].offset, a, true), Block(bs[i].offset + c.header + a, bs[i].size - a - c.header, false)]
            + bs[i + 1..]
  {
  }

  lemma {:induction false} InsertThenOverwrite(bs: seq<Block>, i: nat, x: Block, y: Block)
    requires i < |bs|
    ensures (bs[..i + 1] + [x] + bs[i + 1..])[i := y] == bs[..i] + [y, x] + bs[i + 1..]
  {
  }

  /** The writes `SplitNode` makes, spelled out. */
  lemma {:induction false} SplitNodeShape(c: Config, h: Heap, k: nat, a: nat, o: nat, sz: nat)
    requires k < |h.freeList| && o == h.freeList[k] && sz == SizeAt(h.blocks, o) && sz >= a + c.header
    ensures SplitNode(c, h, k, a).heap.blocks
         == Store(Store(h.blocks, Block(o + c.header + a, sz - a - c.header, false)), Block(o, a, true))
    ensures SplitNode(c, h, k, a).heap.freeList == h.freeList[k := o + c.header + a]
    ensures SplitNode(c, h, k, a).ptr == Some(o + c.header)
  {
  }

  /** Splitting the node whose header is block `i` writes exactly `SplitAt`. */
  lemma {:induction false} SplitNodeIsSplitAt(c: Config, h: Heap, k: nat, a: nat, i: nat)
    requires c.header > 0 && i + 1 < |h.blocks| && k < |h.freeList| && h.freeList[k] == h.blocks[i].offset
    requires AllBelow(h.blocks, i, h.blocks[i].offset) && h.blocks[i + 1].offset == End(c, h.blocks[i])
    requires SizeAt(h.blocks, h.blocks[i].offset) == h.blocks[i].size >= a + c.header
    ensures SplitNode(c, h, k, a) == SplitReply(c, h, i, k, a)
  {
    SplitWrites(c, h.blocks, i, a);
    SplitNodeShape(c, h, k, a, h.freeList[k], SizeAt(h.blocks, h.freeList[k]));
  }

  /** When best fit finds a node, dmalloc splits it. */
  lemma {:induction false} MallocPicks(c: Config, h: Heap, n: nat)
    requires Wf(c, h) && n > 0 && Chosen(c, h, n).Some?
    ensures Chosen(c, h, n).value < |h.freeList|
    ensures SizeAt(h.blocks, h.freeList[Chosen(c, h, n).value]) >= Align(c, n) + c.header
    ensures Malloc(c, h, n) == SplitNode(c, h, Chosen(c, h, n).value, Align(c, n))
  {
  }

  /** What the split needs to know about the block best fit picks. */
  lemma {:induction false} ChosenFacts(c: Config, h: Heap, n: nat, i: nat)
    requires Wf(c, h) && n > 0 && Chosen(c, h, n).Some? && i == ChosenBlock(c, h, n)
    ensures 0 < i < |h.blocks| - 1
    ensures Chosen(c, h, n).value < |h.freeList|
    ensures h.freeList[Chosen(c, h, n).value] == h.blocks[i].offset
    ensures SizeAt(h.blocks, h.blocks[i].offset) == h.blocks[i].size >= Align(c, n) + c.header
    ensures AllBelow(h.blocks, i, h.blocks[i].offset)
    ensures h.blocks[i + 1].offset == End(c, h.blocks[i])
  {
    var bs, k := h.blocks, Chosen(c, h, n).value;
    ChosenIsInner(c, h, n);
    NodeLookup(c, h, k);
    TilesIncreasing(c, bs);
    IncreasingBelow(bs, i);
  }

  /** A successful dmalloc is exactly the split of the block best fit
      picks, with the remainder taking the chosen node's place in the free
      list and the payload right behind the chosen header handed out. */
  lemma {:induction false} MallocSplit(c: Config, h: Heap, n: nat)
    requires Wf(c, h) && n > 0 && Chosen(c, h, n).Some?
    ensures 0 < ChosenBlock(c, h, n) < |h.blocks| - 1
    ensures Chosen(c, h, n).value < |h.freeList|
    ensures h.blocks[ChosenBlock(c, h, n)].size >= Align(c, n) + c.header
    ensures Malloc(c, h, n) == SplitReply(c, h, ChosenBlock(c, h, n), Chosen(c, h, n).value, Align(c, n))
  {
    var bs, i, k, a := h.blocks, ChosenBlock(c, h, n), Chosen(c, h, n).value, Align(c, n);
    ChosenFacts(c, h, n, i);
    MallocPicks(c, h, n);
    SplitNodeIsSplitAt(c, h, k, a, i);
  }

  /** A successful dmalloc, projected: the arena is the split of the block
      best fit picks, and the pointer is the payload right behind its header. */
  lemma {:induction false} MallocShape(c: Config, h: Heap, n: nat)
    requires Wf(c, h) && n > 0 && Chosen(c, h, n).Some?
    ensures 0 < ChosenBlock(c, h, n) < |h.blocks| - 1
    ensures !h.blocks[ChosenBlock(c, h, n)].taken
    ensures h.blocks[ChosenBlock(c, h, n)].size >= Align(c, n) + c.header
    ensures Malloc(c, h, n).heap.blocks == SplitAt(c, h.blocks, ChosenBlock(c, h, n), Align(c, n))
    ensures Malloc(c, h, n).ptr == Some(h.blocks[ChosenBlock(c, h, n)].offset + c.header)
  {
    ChosenIsInner(c, h, n);
    MallocSplit(c, h, n);
  }

  // ---------------------------------------------------------------------------
  // What a successful dmalloc keeps
  // ---------------------------------------------------------------------------

  /** A split keeps the arena tiled and leaves the sentinels in place. */
  lemma {:induction false} SplitTiles(c: Config, bs: seq<Block>, i: nat, a: nat)
    requires Tiles(c, bs) && 0 < i < |bs| - 1 && bs[i].size >= a + c.header
    ensures Tiles(c, SplitAt(c, bs, i, a))
    ensures |SplitAt(c, bs, i, a)| == |bs| + 1
    ensures SplitAt(c, bs, i, a)[0] == bs[0]
    ensures SplitAt(c, bs, i, a)[|SplitAt(c, bs, i, a)| - 1] == bs[|bs| - 1]
  {
    var o := bs[i].offset;
    var head := Block(o, a, true);
    var rest := Block(o + c.header + a, bs[i].size - a - c.header, false);
    SplitAtShape(c, bs, i, a);
    assert End(c, bs[i]) == bs[i + 1].offset;
    assert End(c, head) == rest.offset;
    TilesSplice(c, bs, i, i + 1, [head, rest]);
    SpliceInterior(bs, i, i + 1, [head, rest]);
  }

  /** The members of the arena before and after a split differ only in the
      split block, which the remainder replaces. */
  lemma {:induction false} SplitMembers(c: Config, bs: seq<Block>, i: nat, a: nat)
    requires 0 < i < |bs| - 1 && !bs[i].taken && bs[i].size >= a + c.header
    ensures |SplitAt(c, bs, i, a)| >= 2
    ensures Members(bs) == ([bs[0]] + FreeOf(bs[1..i])) + [bs[i]] + (FreeOf(bs[i + 1..|bs| - 1]) + [bs[|bs| - 1]])
    ensures Members(SplitAt(c, bs, i, a))
         == ([bs[0]] + FreeOf(bs[1..i]))
            + [Block(bs[i].offset + c.header + a, bs[i].size - a - c.header, false)]
            + (FreeOf(bs[i + 1..|bs| - 1]) + [bs[|bs| - 1]])
  {
    var o := bs[i].offset;
    var head := Block(o, a, true);
    var rest := Block(o + c.header + a, bs[i].size - a - c.header, false);
    SplitAtShape(c, bs, i, a);
    MembersSplice(bs, i, i + 1, [head, rest]);
    assert FreeOf([rest]) == [rest] by {
      assert [rest][1..] == [];
    }
    assert FreeOf([head, rest]) == FreeOf([rest]) by {
      assert [head, rest][1..] == [rest];
    }
    MembersAround(bs, i);
    assert FreeOf([bs[i]]) == [bs[i]] by {
      assert [bs[i]][1..] == [];
    }
  }

  /** The free list names the free interior block `i` at position `k` only
      when `k` counts the members below it. */
  lemma {:induction false} SplitListPos(c: Config, h: Heap, i: nat, k: nat)
    requires Wf(c, h) && 0 < i < |h.blocks| - 1 && !h.blocks[i].taken
    requires k < |h.freeList| && h.freeList[k] == h.blocks[i].offset
    ensures k == |[h.blocks[0]] + FreeOf(h.blocks[1..i])|
  {
    var bs := h.blocks;
    var pre := [bs[0]] + FreeOf(bs[1..i]);
    MembersAround(bs, i);
    assert Members(bs)[|pre|] == bs[i];
    MembersIncreasing(c, h);
    assert h.freeList[|pre|] == bs[i].offset;
  }

  /** The split arena with the remainder's offset written over the split
      block's list entry is a well-formed heap. */
  lemma {:induction false} SplitWf(c: Config, h: Heap, i: nat, k: nat, a: nat, s: seq<Block>, fl: seq<nat>)
    requires Wf(c, h) && 0 < i < |h.blocks| - 1 && !h.blocks[i].taken
    requires h.blocks[i].size >= a + c.header
    requires k == |[h.blocks[0]] + FreeOf(h.blocks[1..i])| && k < |h.freeList|
    requires s == SplitAt(c, h.blocks, i, a)
    requires fl == h.freeList[k := h.blocks[i].offset + c.header + a]
    ensures Wf(c, Heap(s, fl))
  {
    var bs := h.blocks;
    var rest := Block(bs[i].offset + c.header + a, bs[i].size - a - c.header, false);
    var pre, post := [bs[0]] + FreeOf(bs[1..i]), FreeOf(bs[i + 1..|bs| - 1]) + [bs[|bs| - 1]];
    SplitTiles(c, bs, i, a);
    SplitMembers(c, bs, i, a);
    OffsetsReplace(pre, bs[i], rest, post);
  }

  /** Splitting a free interior block keeps the heap well formed, with the
      remainder in the split block's list position. */
  lemma {:induction false} SplitPreservesWf(c: Config, h: Heap, i: nat, k: nat, a: nat)
    requires Wf(c, h) && 0 < i < |h.blocks| - 1 && !h.blocks[i].taken
    requires h.blocks[i].size >= a + c.header
    requires k < |h.freeList| && h.freeList[k] == h.blocks[i].offset
    ensures Wf(c, SplitReply(c, h, i, k, a).heap)
  {
    SplitListPos(c, h, i, k);
    var r := SplitReply(c, h, i, k, a);
    SplitWf(c, h, i, k, a, r.heap.blocks, r.heap.freeList);
    assert r.heap == Heap(r.heap.blocks, r.heap.freeList);
  }

  /** A split leaves no two free blocks side by side: the new payload is
      taken, and the block after the remainder was taken already. */
  lemma {:induction false} SplitCoalesced(c: Config, bs: seq<Block>, i: nat, a: nat)
    requires Coalesced(bs) && 0 < i < |bs| - 1 && !bs[i].taken && bs[i].size >= a + c.header
    ensures Coalesced(SplitAt(c, bs, i, a))
  {
    var s := SplitAt(c, bs, i, a);
    SplitAtShape(c, bs, i, a);
    assert !FreePair(bs, i);
    forall p | 0 <= p < |s| - 1 ensures !FreePair(s, p) {
      if p < i - 1 {
        assert s[p] == bs[p] && s[p + 1] == bs[p + 1] && !FreePair(bs, p);
      } else if p == i + 1 {
        assert s[p + 1] == bs[i + 1];
      } else if p > i + 1 {
        assert s[p] == bs[p - 1] && s[p + 1] == bs[p] && !FreePair(bs, p - 1);
      }
    }
  }

  /** A split of an aligned block by an aligned amount keeps every header
      offset and payload size aligned. */
  lemma {:induction false} SplitAligned(c: Config, bs: seq<Block>, i: nat, a: nat)
    requires Valid(c) && AllAligned(c, bs) && i < |bs| && bs[i].size >= a + c.header
    requires IsAligned(c, a)
    ensures AllAligned(c, SplitAt(c, bs, i, a))
  {
    var o, H := bs[i].offset, c.header;
    SplitAtShape(c, bs, i, a);
    AlignedSum(c, o, H);
    AlignedSum(c, o + H, a);
    AlignedDiff(c, bs[i].size, a);
    AlignedDiff(c, bs[i].size - a, H);
    var s := SplitAt(c, bs, i, a);
    forall p | 0 <= p < |s| ensures IsAligned(c, s[p].offset) && IsAligned(c, s[p].size) {
      if p < i {
        assert s[p] == bs[p];
      } else if p > i + 1 {
        assert s[p] == bs[p - 1];
      }
    }
  }

  /** After a split the header at the chosen offset reads as the taken
      block of exactly `a` bytes, and the remainder header after its payload
      still fits below the last header of the arena. */
  lemma {:induction false} SplitPayload(c: Config, bs: seq<Block>, i: nat, a: nat)
    requires Tiles(c, bs) && c.header > 0 && 0 < i < |bs| - 1 && bs[i].size >= a + c.header
    ensures Lookup(SplitAt(c, bs, i, a), bs[i].offset) == Some(Block(bs[i].offset, a, true))
    ensures bs[i].offset + c.header + a + c.header <= bs[|bs| - 1].offset
  {
    var s := SplitAt(c, bs, i, a);
    SplitAtShape(c, bs, i, a);
    TilesIncreasing(c, bs);
    assert End(c, bs[i]) == bs[i + 1].offset;
    assert bs[i + 1].offset <= bs[|bs| - 1].offset;
    assert s[i] == Block(bs[i].offset, a, true);
    assert AllBelow(s, i, bs[i].offset) by {
      forall j | 0 <= j < i ensures s[j].offset < bs[i].offset {
        assert s[j] == bs[j];
      }
    }
    LookupAt(s, i);
  }

  /** A split of a free interior block by an aligned amount keeps the heap
      invariant, leaves no two free blocks side by side, and keeps every
      header offset and payload size aligned. */
  lemma {:induction false} SplitKeeps(c: Config, h: Heap, i: nat, k: nat, a: nat)
    requires Wf(c, h) && Coalesced(h.blocks) && AllAligned(c, h.blocks)
    requires 0 < i < |h.blocks| - 1 && !h.blocks[i].taken && h.blocks[i].size >= a + c.header
    requires k < |h.freeList| && h.freeList[k] == h.blocks[i].offset && IsAligned(c, a)
    ensures Wf(c, SplitReply(c, h, i, k, a).heap)
    ensures Coalesced(SplitReply(c, h, i, k, a).heap.blocks)
    ensures AllAligned(c, SplitReply(c, h, i, k, a).heap.blocks)
  {
    assert SplitReply(c, h, i, k, a).heap.blocks == SplitAt(c, h.blocks, i, a);
    SplitPreservesWf(c, h, i, k, a);
    SplitCoalesced(c, h.blocks, i, a);
    SplitAligned(c, h.blocks, i, a);
  }

  /** dmalloc keeps the heap invariant. */
  lemma {:induction false} MallocWf(c: Config, h: Heap, n: nat)
    requires Wf(c, h) && n > 0
    ensures Wf(c, Malloc(c, h, n).heap)
  {
    if Chosen(c, h, n).Some? {
      var i, k, a := ChosenBlock(c, h, n), Chosen(c, h, n).value, Align(c, n);
      ChosenFacts(c, h, n, i);
      ChosenIsInner(c, h, n);
      MallocSplit(c, h, n);
      SplitPreservesWf(c, h, i, k, a);
    }
  }

  /** dmalloc keeps the heap invariant, leaves no two free blocks side by
      side, and keeps every header offset and payload size aligned. */
  lemma {:induction false} MallocKeeps(c: Config, h: Heap, n: nat)
    requires Wf(c, h) && Coalesced(h.blocks) && AllAligned(c, h.blocks) && n > 0
    ensures Wf(c, Malloc(c, h, n).heap)
    ensures Coalesced(Malloc(c, h, n).heap.blocks) && AllAligned(c, Malloc(c, h, n).heap.blocks)
  {
    if Chosen(c, h, n).Some? {
      var bs, i, k, a := h.blocks, ChosenBlock(c, h, n), Chosen(c, h, n).value, Align(c, n);
      ChosenFacts(c, h, n, i);
      assert !bs[i].taken by {
        ChosenIsInner(c, h, n);
      }
      MallocSplit(c, h, n);
      SplitKeeps(c, h, i, k, a);
    }
  }

  /** The pointer a split hands out is an aligned payload offset whose
      header is taken and records `a` bytes; the payload and the remainder
      header after it end before the epilogue. */
  lemma {:induction false} SplitReplyPayload(c: Config, h: Heap, i: nat, k: nat, a: nat)
    requires Wf(c, h) && AllAligned(c, h.blocks) && IsAligned(c, a)
    requires 0 < i < |h.blocks| - 1 && h.blocks[i].size >= a + c.header && k < |h.freeList|
    ensures HandsOut(c, SplitReply(c, h, i, k, a), a)
  {
    var bs, o := h.blocks, h.blocks[i].offset;
    var r := SplitReply(c, h, i, k, a);
    assert r.ptr == Some(o + c.header) && r.heap.blocks == SplitAt(c, bs, i, a);
    SplitPayload(c, bs, i, a);
    assert 0 < o by {
      TilesIncreasing(c, bs);
    }
    assert IsAligned(c, o + c.header) by {
      assert IsAligned(c, o);
      AlignedSum(c, o, c.header);
    }
    assert bs[|bs| - 1].offset == MaxBytes(c) - c.header;
  }

  /** A non-NULL dmalloc result is an aligned payload offset whose header is
      taken and records the aligned request, which is at least the `n` bytes
      asked for; the payload and the remainder header after it end before
      the epilogue. */
  lemma {:induction false} MallocPayload(c: Config, h: Heap, n: nat)
    requires Wf(c, h) && AllAligned(c, h.blocks) && n > 0 && Malloc(c, h, n).ptr.Some?
    ensures n <= Align(c, n) && HandsOut(c, Malloc(c, h, n), Align(c, n))
  {
    var i, k, a := ChosenBlock(c, h, n), Chosen(c, h, n).value, Align(c, n);
    MallocSplit(c, h, n);
    SplitReplyPayload(c, h, i, k, a);
  }
}
