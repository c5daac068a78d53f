/**
 * The arena as the allocator sees it: a run of block headers at byte offsets
 * from the region's base, each followed by its payload.  Reading and writing
 * a header is done by offset, as the allocator does through pointers.
 */
module Memory {
  import opened Wrappers
  import opened Arena

  /** One `metadata_t` header: where it sits, how many payload bytes follow
      it, and whether that payload is handed out.  The `next`/`prev` links
      live in the free list of the layout instead. */
  datatype Block = Block(offset: nat, size: nat, taken: bool)

  /** The offset one past the block's payload, where the next header sits. */
  function End(c: Config, b: Block): nat {
    b.offset + c.header + b.size
  }

  /** Every header starts exactly where the payload before it ends. */
  predicate Tiles(c: Config, bs: seq<Block>) {
    forall i {:trigger End(c, bs[i])} :: 0 <= i < |bs| - 1 ==> End(c, bs[i]) == bs[i + 1].offset
  }

  /** Headers are in strictly increasing address order. */
  ghost predicate Increasing(bs: seq<Block>) {
    forall i, j :: 0 <= i < j < |bs| ==> bs[i].offset < bs[j].offset
  }

  /** The headers before position `i` all sit below `off`. */
  ghost predicate AllBelow(bs: seq<Block>, i: nat, off: nat)
    requires i <= |bs|
  {
    forall j :: 0 <= j < i ==> bs[j].offset < off
  }

  /** Bytes covered by the blocks, headers included. */
  function Span(c: Config, bs: seq<Block>): nat {
    if bs == [] then 0 else c.header + bs[0].size + Span(c, bs[1..])
  }

  /** Reads the header at `off`, if there is one. */
  function Lookup(bs: seq<Block>, off: nat): (r: Option<Block>)
    ensures r.Some? ==> r.value.offset == off
    ensures r.None? <==> forall j :: 0 <= j < |bs| ==> bs[j].offset != off
  {
    if bs == [] then None
    else if bs[0].offset == off then Some(bs[0])
    else Lookup(bs[1..], off)
  }

  /** The position of the header at `off`, or `|bs|` if there is none. */
  function IndexOf(bs: seq<Block>, off: nat): (r: nat)
    ensures r <= |bs|
    ensures r < |bs| ==> bs[r].offset == off && forall j :: 0 <= j < r ==> bs[j].offset != off
    ensures r == |bs| ==> forall j :: 0 <= j < |bs| ==> bs[j].offset != off
  {
    if bs == [] then 0
    else if bs[0].offset == off then 0
    else 1 + IndexOf(bs[1..], off)
  }

  /** The payload size recorded in the header at `off` (a missing header
      reads as an empty one). */
  function SizeAt(bs: seq<Block>, off: nat): nat {
    match Lookup(bs, off)
    case Some(b) => b.size
    case None => 0
  }

  /** True if a header sits at `off` and its block is not taken. */
  predicate IsFreeAt(bs: seq<Block>, off: nat) {
    match Lookup(bs, off)
    case Some(b) => !b.taken
    case None => false
  }

  /** Writes header `b` at `b.offset`: overwrites the header already there,
      or places a new one in address order. */
  function Store(bs: seq<Block>, b: Block): seq<Block> {
    if bs == [] then [b]
    else if bs[0].offset == b.offset then [b] + bs[1..]
    else if b.offset < bs[0].offset then [b] + bs
    else [bs[0]] + Store(bs[1..], b)
  }

  /** Forgets the header at `off`: its bytes now belong to the block before. */
  function Discard(bs: seq<Block>, off: nat): (r: seq<Block>)
    ensures |r| <= |bs|
  {
    if bs == [] then []
    else if bs[0].offset == off then bs[1..]
    else [bs[0]] + Discard(bs[1..], off)
  }

  lemma {:induction false} TilesIncreasing(c: Config, bs: seq<Block>)
    requires c.header > 0 && Tiles(c, bs)
    ensures Increasing(bs)
  {
    if |bs| > 1 {
      var tl := bs[1..];
      assert Tiles(c, tl) by {
        forall i, j | 0 <= i < j < |tl| && j == i + 1 ensures tl[j].offset == End(c, tl[i]) {
          assert tl[j] == bs[j + 1] && tl[i] == bs[i + 1];
        }
      }
      TilesIncreasing(c, tl);
      forall i, j | 0 <= i < j < |bs| ensures bs[i].offset < bs[j].offset {
        assert bs[1].offset == End(c, bs[0]);
        if i == 0 && j > 1 {
          assert tl[0].offset < tl[j - 1].offset;
        } else if i > 0 {
          assert tl[i - 1].offset < tl[j - 1].offset;
        }
      }
    }
  }

  /** A tiling run starting at `bs[0]` covers exactly up to the end of its last block. */
  lemma {:induction false} SpanOfTiling(c: Config, bs: seq<Block>)
    requires |bs| > 0 && Tiles(c, bs)
    ensures bs[0].offset + Span(c, bs) == End(c, bs[|bs| - 1])
  {
    if |bs| > 1 {
      var tl := bs[1..];
      assert Tiles(c, tl) by {
        forall i, j | 0 <= i < j < |tl| && j == i + 1 ensures tl[j].offset == End(c, tl[i]) {
          assert tl[j] == bs[j + 1] && tl[i] == bs[i + 1];
        }
      }
      SpanOfTiling(c, tl);
      assert tl[0].offset == End(c, bs[0]);
    }
  }

  lemma {:induction false} LookupAt(bs: seq<Block>, i: nat)
    requires i < |bs| && AllBelow(bs, i, bs[i].offset)
    ensures Lookup(bs, bs[i].offset) == Some(bs[i])
  {
    if i > 0 {
      LookupAt(bs[1..], i - 1);
    }
  }

  lemma {:induction false} IndexOfAt(bs: seq<Block>, i: nat)
    requires i < |bs| && AllBelow(bs, i, bs[i].offset)
    ensures IndexOf(bs, bs[i].offset) == i
  {
    if i > 0 {
      IndexOfAt(bs[1..], i - 1);
    }
  }

  /** Writing at an existing header's offset overwrites that header. */
  lemma {:induction false} StoreAt(bs: seq<Block>, i: nat, b: Block)
    requires i < |bs| && b.offset == bs[i].offset && AllBelow(bs, i, b.offset)
    ensures Store(bs, b) == bs[i := b]
  {
    if i > 0 {
      StoreAt(bs[1..], i - 1, b);
      assert bs[i := b] == [bs[0]] + bs[1..][i - 1 := b];
    }
  }

  /** Writing strictly between two headers places a new one between them. */
  lemma {:induction false} StoreBetween(bs: seq<Block>, i: nat, b: Block)
    requires i + 1 < |bs| && AllBelow(bs, i + 1, b.offset) && b.offset < bs[i + 1].offset
    ensures Store(bs, b) == bs[..i + 1] + [b] + bs[i + 1..]
  {
    if i > 0 {
      StoreBetween(bs[1..], i - 1, b);
      assert bs[..i + 1] + [b] + bs[i + 1..] == [bs[0]] + (bs[1..][..i] + [b] + bs[1..][i..]);
    } else {
      assert bs[0].offset < b.offset;
      assert Store(bs[1..], b) == [b] + bs[1..];
    }
  }

  /** Replacing the blocks `bs[i..j]` by a run `mid` that tiles, starts where
      block `i` started and ends where block `j` starts keeps the arena tiled. */
  lemma {:induction false} TilesSplice(c: Config, bs: seq<Block>, i: nat, j: nat, mid: seq<Block>)
    requires Tiles(c, bs) && 0 < i <= j < |bs| && Tiles(c, mid) && |mid| > 0
    requires mid[0].offset == bs[i].offset && End(c, mid[|mid| - 1]) == bs[j].offset
    ensures Tiles(c, bs[..i] + mid + bs[j..])
  {
    var s := bs[..i] + mid + bs[j..];
    var m := |mid|;
    forall p | 0 <= p < |s| - 1 ensures End(c, s[p]) == s[p + 1].offset {
      if p < i - 1 {
        assert s[p] == bs[p] && s[p + 1] == bs[p + 1];
        assert End(c, bs[p]) == bs[p + 1].offset;
      } else if p == i - 1 {
        assert s[p] == bs[p] && s[p + 1] == mid[0];
        assert End(c, bs[p]) == bs[p + 1].offset;
      } else if p < i + m - 1 {
        assert s[p] == mid[p - i] && s[p + 1] == mid[p - i + 1];
        assert End(c, mid[p - i]) == mid[p - i + 1].offset;
      } else if p == i + m - 1 {
        assert s[p] == mid[m - 1] && s[p + 1] == bs[j];
      } else {
        var q := p - i - m + j;
        assert s[p] == bs[q] && s[p + 1] == bs[q + 1];
        assert End(c, bs[q]) == bs[q + 1].offset;
      }
    }
  }

  /** Discarding an existing header removes exactly that header. */
  lemma {:induction false} DiscardAt(bs: seq<Block>, i: nat)
    requires i < |bs| && AllBelow(bs, i, bs[i].offset)
    ensures Discard(bs, bs[i].offset) == bs[..i] + bs[i + 1..]
  {
    if i > 0 {
      DiscardAt(bs[1..], i - 1);
      assert bs[..i] + bs[i + 1..] == [bs[0]] + (bs[1..][..i - 1] + bs[1..][i..]);
    }
  }

  /** In increasing order, everything before a header sits below it. */
  lemma {:induction false} IncreasingBelow(bs: seq<Block>, i: nat)
    requires Increasing(bs) && i < |bs|
    ensures AllBelow(bs, i, bs[i].offset)
  {
  }
}
