/**
 * The allocator's whole state: the physical run of headers in the arena and
 * the free list, an address-ordered list of header offsets.  `Wf` is the
 * invariant that ties the two together.
 */
module Layout {
  import opened Wrappers
  import opened Arena
  import opened Memory

  /** The blocks of `s` that are not taken, in address order. */
  function FreeOf(s: seq<Block>): seq<Block> {
    if s == [] then []
    else (if s[0].taken then [] else [s[0]]) + FreeOf(s[1..])
  }

  /** The headers the free list must reach, head to tail: the prologue, the
      free blocks between the sentinels, and the epilogue. */
  function Members(bs: seq<Block>): seq<Block>
    requires |bs| >= 2
  {
    [bs[0]] + FreeOf(bs[1..|bs| - 1]) + [bs[|bs| - 1]]
  }

  /** The header offsets of a run of blocks. */
  function Offsets(s: seq<Block>): (r: seq<nat>)
    ensures |r| == |s| && forall k :: 0 <= k < |s| ==> r[k] == s[k].offset
  {
    if s == [] then [] else [s[0].offset] + Offsets(s[1..])
  }

  /** `blocks` is the arena in address order; `freeList` is the offsets of
      the headers reachable from the list head, in list order. */
  datatype Heap = Heap(blocks: seq<Block>, freeList: seq<nat>)

  /** The prologue header: offset 0, empty, taken. */
  function Prologue(): Block {
    Block(0, 0, true)
  }

  /** The epilogue header: the last header slot of the region, empty, taken. */
  function Epilogue(c: Config): Block
    requires Valid(c)
  {
    Block(MaxBytes(c) - c.header, 0, true)
  }

  /** The heap invariant: the sentinels bound the arena, the blocks tile it,
      and the free list holds exactly the free blocks and the two sentinels,
      in address order. */
  predicate Wf(c: Config, h: Heap) {
    && Valid(c)
    && |h.blocks| >= 2
    && h.blocks[0] == Prologue()
    && h.blocks[|h.blocks| - 1] == Epilogue(c)
    && Tiles(c, h.blocks)
    && h.freeList == Offsets(Members(h.blocks))
  }

  /** Block `i` and the block physically after it are both free. */
  predicate FreePair(bs: seq<Block>, i: nat)
    requires i + 1 < |bs|
  {
    !bs[i].taken && !bs[i + 1].taken
  }

  /** No two physically adjacent blocks are both free. */
  predicate Coalesced(bs: seq<Block>) {
    forall i :: 0 <= i < |bs| - 1 ==> !FreePair(bs, i)
  }

  /** Every header offset and payload size lies on the alignment boundary. */
  predicate AllAligned(c: Config, bs: seq<Block>)
    requires c.alignment > 0
  {
    forall i :: 0 <= i < |bs| ==> IsAligned(c, bs[i].offset) && IsAligned(c, bs[i].size)
  }

  /** Strictly increasing offsets. */
  ghost predicate StrictlySorted(s: seq<nat>) {
    forall i, j :: 0 <= i < j < |s| ==> s[i] < s[j]
  }

  // ---------------------------------------------------------------------------
  // Lemmas about the free-block filter and the free list
  // ---------------------------------------------------------------------------

  /** The filter keeps exactly the free blocks. */
  lemma {:induction false} FreeOfMembers(s: seq<Block>)
    ensures forall x :: x in FreeOf(s) <==> x in s && !x.taken
  {
    if s != [] {
      FreeOfMembers(s[1..]);
      assert forall x :: x in s <==> x == s[0] || x in s[1..];
    }
  }

  lemma {:induction false} FreeOfConcat(a: seq<Block>, b: seq<Block>)
    ensures FreeOf(a + b) == FreeOf(a) + FreeOf(b)
  {
    if a == [] {
      assert a + b == b;
    } else {
      assert (a + b)[1..] == a[1..] + b;
      FreeOfConcat(a[1..], b);
    }
  }

  lemma {:induction false} OffsetsConcat(a: seq<Block>, b: seq<Block>)
    ensures Offsets(a + b) == Offsets(a) + Offsets(b)
  {
  }

  /** Replacing one member replaces exactly one offset of the list. */
  lemma {:induction false} OffsetsReplace(p: seq<Block>, x: Block, y: Block, q: seq<Block>)
    ensures Offsets(p + [y] + q) == Offsets(p + [x] + q)[|p| := y.offset]
  {
    var l, r := Offsets(p + [y] + q), Offsets(p + [x] + q)[|p| := y.offset];
    forall t | 0 <= t < |l| ensures l[t] == r[t] {
      if t < |p| {
        assert (p + [y] + q)[t] == p[t] == (p + [x] + q)[t];
      } else if t > |p| {
        assert (p + [y] + q)[t] == q[t - |p| - 1] == (p + [x] + q)[t];
      }
    }
  }

  /** A member added between `p` and `q` adds its offset at position `|p|`. */
  lemma {:induction false} OffsetsInsert(p: seq<Block>, x: Block, q: seq<Block>)
    ensures Offsets(p + [x] + q) == Offsets(p + q)[..|p|] + [x.offset] + Offsets(p + q)[|p|..]
  {
    var l := Offsets(p + q);
    var a, b := Offsets(p + [x] + q), l[..|p|] + [x.offset] + l[|p|..];
    forall t | 0 <= t < |a| ensures a[t] == b[t] {
      if t < |p| {
        assert (p + [x] + q)[t] == p[t] == (p + q)[t];
      } else if t > |p| {
        assert (p + [x] + q)[t] == q[t - |p| - 1] == (p + q)[t - 1];
      }
    }
  }

  /** Two members `x, y` replaced by one at `x`'s offset drop `y`'s offset. */
  lemma {:induction false} OffsetsDrop(p: seq<Block>, x: Block, y: Block, z: Block, q: seq<Block>)
    requires z.offset == x.offset
    ensures Offsets(p + [z] + q) == Offsets(p + [x, y] + q)[..|p| + 1] + Offsets(p + [x, y] + q)[|p| + 2..]
  {
    var l := Offsets(p + [x, y] + q);
    var a, b := Offsets(p + [z] + q), l[..|p| + 1] + l[|p| + 2..];
    forall t | 0 <= t < |a| ensures a[t] == b[t] {
      if t < |p| {
        assert (p + [z] + q)[t] == p[t] == (p + [x, y] + q)[t];
      } else if t > |p| {
        assert (p + [z] + q)[t] == q[t - |p| - 1] == (p + [x, y] + q)[t + 1];
      }
    }
  }

  lemma {:induction false} FreeOfIncreasing(s: seq<Block>)
    requires Increasing(s)
    ensures Increasing(FreeOf(s))
  {
    if s != [] {
      FreeOfIncreasing(s[1..]);
      var tl := FreeOf(s[1..]);
      FreeOfMembers(s[1..]);
      forall x | x in tl ensures s[0].offset < x.offset {
        var j :| 0 <= j < |s[1..]| && s[1..][j] == x;
        assert s[j + 1] == x;
      }
    }
  }

  lemma {:induction false} FreeOfConcat3(a: seq<Block>, mid: seq<Block>, b: seq<Block>)
    ensures FreeOf(a + mid + b) == FreeOf(a) + FreeOf(mid) + FreeOf(b)
  {
    FreeOfConcat(a + mid, b);
    FreeOfConcat(a, mid);
  }

  lemma {:induction false} SpliceInterior(bs: seq<Block>, i: nat, j: nat, mid: seq<Block>)
    requires 0 < i <= j < |bs|
    ensures |(bs[..i] + mid + bs[j..])| >= 2
    ensures (bs[..i] + mid + bs[j..])[0] == bs[0]
    ensures (bs[..i] + mid + bs[j..])[|(bs[..i] + mid + bs[j..])| - 1] == bs[|bs| - 1]
    ensures (bs[..i] + mid + bs[j..])[1..|(bs[..i] + mid + bs[j..])| - 1] == bs[1..i] + mid + bs[j..|bs| - 1]
  {
  }

  /** The free list of an arena whose blocks splice `mid` between two
      unchanged stretches of `bs`. */
  lemma {:induction false} MembersSplice(bs: seq<Block>, i: nat, j: nat, mid: seq<Block>)
    requires 0 < i <= j < |bs|
    ensures |bs[..i] + mid + bs[j..]| >= 2
    ensures Members(bs[..i] + mid + bs[j..])
         == [bs[0]] + FreeOf(bs[1..i]) + FreeOf(mid) + FreeOf(bs[j..|bs| - 1]) + [bs[|bs| - 1]]
  {
    SpliceInterior(bs, i, j, mid);
    FreeOfConcat3(bs[1..i], mid, bs[j..|bs| - 1]);
  }

  /** The free list of `bs` itself, cut around the interior block `i`. */
  lemma {:induction false} MembersAround(bs: seq<Block>, i: nat)
    requires 0 < i < |bs| - 1
    ensures Members(bs)
         == [bs[0]] + FreeOf(bs[1..i]) + FreeOf([bs[i]]) + FreeOf(bs[i + 1..|bs| - 1]) + [bs[|bs| - 1]]
  {
    MembersSplice(bs, i, i + 1, [bs[i]]);
    assert bs[..i] + [bs[i]] + bs[i + 1..] == bs;
  }

  lemma {:induction false} Sandwich(x: Block, f: seq<Block>, y: Block)
    requires Increasing(f) && x.offset < y.offset
    requires forall k :: 0 <= k < |f| ==> x.offset < f[k].offset < y.offset
    ensures Increasing([x] + f + [y])
  {
    var m := [x] + f + [y];
    forall p, q | 0 <= p < q < |m| ensures m[p].offset < m[q].offset {
      if 0 < p && q < |m| - 1 {
        assert m[p] == f[p - 1] && m[q] == f[q - 1];
      } else if 0 < p {
        assert m[p] == f[p - 1];
      } else if q < |m| - 1 {
        assert m[q] == f[q - 1];
      }
    }
  }

  /** Increasing blocks give an increasing list of members. */
  lemma {:induction false} MembersOfIncreasing(bs: seq<Block>)
    requires |bs| >= 2 && Increasing(bs)
    ensures Increasing(Members(bs))
  {
    var inner := bs[1..|bs| - 1];
    assert Increasing(inner);
    FreeOfIncreasing(inner);
    var f := FreeOf(inner);
    FreeOfMembers(inner);
    forall k | 0 <= k < |f| ensures bs[0].offset < f[k].offset < bs[|bs| - 1].offset {
      assert f[k] in f;
      var j :| 0 <= j < |inner| && inner[j] == f[k];
      assert bs[j + 1] == f[k];
    }
    Sandwich(bs[0], f, bs[|bs| - 1]);
  }

  /** In a well-formed heap the free list is in strictly increasing address order. */
  lemma {:induction false} MembersIncreasing(c: Config, h: Heap)
    requires Wf(c, h)
    ensures Increasing(Members(h.blocks))
    ensures StrictlySorted(h.freeList)
  {
    TilesIncreasing(c, h.blocks);
    MembersOfIncreasing(h.blocks);
  }

  /** A free-list node is a header of the arena: which one the list says. */
  lemma {:induction false} NodeLookup(c: Config, h: Heap, k: nat)
    requires Wf(c, h) && k < |h.freeList|
    ensures Lookup(h.blocks, h.freeList[k]) == Some(Members(h.blocks)[k])
  {
    var bs := h.blocks;
    var m := Members(bs);
    TilesIncreasing(c, bs);
    assert m[k] in bs by {
      if 0 < k < |m| - 1 {
        FreeOfMembers(bs[1..|bs| - 1]);
        assert m[k] in FreeOf(bs[1..|bs| - 1]);
      }
    }
    var i :| 0 <= i < |bs| && bs[i] == m[k];
    LookupAt(bs, i);
  }

  /** A free-list node strictly inside the list is a free interior block. */
  lemma {:induction false} InnerNode(c: Config, h: Heap, k: nat) returns (i: nat)
    requires Wf(c, h) && 0 < k < |h.freeList| - 1
    ensures 0 < i < |h.blocks| - 1
    ensures h.blocks[i] == Members(h.blocks)[k] && !h.blocks[i].taken
    ensures IndexOf(h.blocks, h.freeList[k]) == i
  {
    var bs := h.blocks;
    var inner := bs[1..|bs| - 1];
    var m := Members(bs);
    assert m[k] in FreeOf(inner);
    FreeOfMembers(inner);
    var j :| 0 <= j < |inner| && inner[j] == m[k];
    i := j + 1;
    TilesIncreasing(c, bs);
    IndexOfAt(bs, i);
  }

  /** A free interior block appears in the free list, after the prologue and
      the free blocks below it. */
  lemma {:induction false} MemberPosition(bs: seq<Block>, j: nat)
    requires 0 < j < |bs| - 1 && !bs[j].taken
    ensures 0 < 1 + |FreeOf(bs[1..j])| < |Members(bs)| - 1
    ensures Members(bs)[1 + |FreeOf(bs[1..j])|] == bs[j]
  {
    MembersAround(bs, j);
    assert FreeOf([bs[j]]) == [bs[j]];
  }

  /** Two free-list nodes of a well-formed heap are in the same order as their
      headers in the arena. */
  lemma {:induction false} MemberOrder(c: Config, h: Heap, p: nat, q: nat)
    requires Wf(c, h) && p < |Members(h.blocks)| && q < |Members(h.blocks)|
    requires Members(h.blocks)[p].offset < Members(h.blocks)[q].offset
    ensures p < q
  {
    MembersIncreasing(c, h);
  }

  /** In a well-formed heap the blocks cover the whole region. */
  lemma {:induction false} WfSpan(c: Config, h: Heap)
    requires Wf(c, h)
    ensures Span(c, h.blocks) == MaxBytes(c)
  {
    SpanOfTiling(c, h.blocks);
  }
}
