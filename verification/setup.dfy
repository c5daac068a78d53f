/**
 * `dmalloc_init`: the layout written into a freshly granted region.
 */
module Setup {
  import opened Arena
  import opened Memory
  import opened Layout

  /** The region right after a successful grant: the prologue at the base,
      one free block filling the interior, the epilogue in the last header
      slot, all three linked in address order. */
  function InitHeap(c: Config): (h: Heap)
    requires Valid(c)
    ensures Wf(c, h) && Coalesced(h.blocks) && AllAligned(c, h.blocks)
    ensures |h.blocks| == 3 && |h.freeList| == 3
    ensures h.freeList[0] == 0 && h.freeList[2] == MaxBytes(c) - c.header
    ensures h.blocks[1].offset == c.header && !h.blocks[1].taken
    ensures 3 * c.header + h.blocks[1].size == MaxBytes(c)
  {
    var H, M := c.header, MaxBytes(c);
    var free := Block(H, M - 3 * H, false);
    AlignedDiff(c, M, H);
    AlignedSum(c, H, H);
    AlignedSum(c, 2 * H, H);
    assert 3 * H == 2 * H + H;
    AlignedDiff(c, M, 3 * H);
    assert IsAligned(c, 0);
    var bs := [Prologue(), free, Epilogue(c)];
    assert FreeOf(bs[1..2]) == [free];
    Heap(bs, [0, H, M - H])
  }
}
