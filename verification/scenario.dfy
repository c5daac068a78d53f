/**
 * One concrete trace, proved: 8-byte alignment, a 32-byte header and a 192-byte
 * region, which leaves room for exactly one 64-byte payload plus a header
 * for its (empty) remainder.  The first dmalloc(64) initialises and hands
 * out offset 64; a second dmalloc(64) answers NULL; after dfree the same
 * offset comes back.
 */
module Scenario {
  import opened Wrappers
  import opened Arena
  import opened Memory
  import opened Layout
  import opened Setup
  import opened Allocate
  import opened Release
  import opened BestFit
  import opened Allocator

  /** The sample constants. */
  function Sample(): Config {
    Config(8, 32, 192)
  }

  /** The sample constants are sound, the region is 192 bytes and a
      64-byte request is already aligned. */
  lemma {:induction false} SampleConstants(c: Config)
    requires c == Sample()
    ensures Valid(c) && MaxBytes(c) == 192 && Align(c, 64) == 64
  {
    AlignRoundsUp(c, 192);
    AlignRoundsUp(c, 64);
    AlignedIsMultiple(c, 32);
  }

  /** dmalloc_init on the sample: prologue at 0, one free block of
      192 - 3 * 32 = 96 bytes at 32, epilogue at 160. */
  lemma {:induction false} SampleInit(c: Config)
    requires c == Sample()
    ensures Valid(c)
    ensures InitHeap(c) == Heap([Block(0, 0, true), Block(32, 96, false), Block(160, 0, true)], [0, 32, 160])
  {
    SampleConstants(c);
  }

  /** Best fit for 64 bytes (64 plus a 32-byte header) picks the list node
      after the prologue, whose 96 bytes fit exactly. */
  lemma {:induction false} SampleChoice(c: Config)
    requires c == Sample()
    ensures Valid(c)
    ensures Chosen(c, InitHeap(c), 64) == Some(1)
  {
    SampleInit(c);
    InitSizes();
    assert Need(c, 64) == 96 by { SampleConstants(c); }
    ChooseIsBestFit(NodeSizes(InitHeap(c)), Need(c, 64), 1);
  }

  /** The node sizes the walk reads on the fresh heap. */
  lemma {:induction false} InitSizes()
    ensures NodeSizes(Heap([Block(0, 0, true), Block(32, 96, false), Block(160, 0, true)], [0, 32, 160])) == [0, 96, 0]
  {
    var bs := [Block(0, 0, true), Block(32, 96, false), Block(160, 0, true)];
    assert SizeAt(bs, 0) == 0;
    assert SizeAt(bs, 32) == 96 by {
      assert bs[1..] == [Block(32, 96, false), Block(160, 0, true)];
    }
    assert SizeAt(bs, 160) == 0;
  }

  /** The arena after the first dmalloc(64): the payload, then an empty
      remainder right in front of the epilogue. */
  function AfterFirst(): seq<Block> {
    [Block(0, 0, true), Block(32, 64, true), Block(128, 0, false), Block(160, 0, true)]
  }

  /** The heap after the first dmalloc(64). */
  function AfterFirstHeap(): Heap {
    Heap(AfterFirst(), [0, 128, 160])
  }

  /** Splitting the free block for 64 bytes puts the remainder header at
      32 + 32 + 64 = 128. */
  lemma {:induction false} SampleSplit(c: Config)
    requires c == Sample()
    ensures SplitAt(c, InitHeap(c).blocks, 1, 64) == AfterFirst()
  {
    SampleInit(c);
  }

  /** The free list after the split names the remainder in place of the
      block it came from. */
  lemma {:induction false} AfterFirstList()
    ensures Members(AfterFirst()) == [Block(0, 0, true), Block(128, 0, false), Block(160, 0, true)]
    ensures Offsets(Members(AfterFirst())) == [0, 128, 160]
  {
    var bs := AfterFirst();
    assert bs[1..3] == [Block(32, 64, true), Block(128, 0, false)];
    var rest := [Block(128, 0, false)];
    assert FreeOf(rest) == rest by {
      assert rest[1..] == [];
    }
    assert FreeOf(bs[1..3]) == rest by {
      assert bs[1..3][1..] == rest;
    }
    assert Members(bs) == [Block(0, 0, true), Block(128, 0, false), Block(160, 0, true)];
  }

  /** dmalloc(64) on the fresh heap. */
  lemma {:induction false} FirstMalloc(c: Config)
    requires c == Sample()
    ensures Valid(c)
    ensures Malloc(c, InitHeap(c), 64) == Reply(AfterFirstHeap(), Some(64))
  {
    SampleConstants(c);
    SampleInit(c);
    SampleChoice(c);
    var h := InitHeap(c);
    assert ChosenBlock(c, h, 64) == 1;
    MallocShape(c, h, 64);
    MallocWf(c, h, 64);
    SampleSplit(c);
    AfterFirstList();
    var r := Malloc(c, h, 64);
    assert r.heap.blocks == AfterFirst() && r.heap.freeList == [0, 128, 160];
    assert r.heap == Heap(r.heap.blocks, r.heap.freeList);
  }

  /** The first dmalloc(64) initialises and hands out offset 64. */
  lemma {:induction false} FirstCall(c: Config)
    requires c == Sample()
    ensures Valid(c)
    ensures Dmalloc(c, Uninitialized, true, 64) == Outcome(Ready(AfterFirstHeap()), Some(64))
  {
    FirstMalloc(c);
  }

  /** The heap after the first call is well formed. */
  lemma {:induction false} AfterFirstWf(c: Config)
    requires c == Sample()
    ensures Valid(c) && Wf(c, AfterFirstHeap())
  {
    FirstMalloc(c);
    MallocWf(c, InitHeap(c), 64);
  }

  /** Best fit for another 64 bytes finds no node: the remainder is empty. */
  lemma {:induction false} SecondChoice(c: Config)
    requires c == Sample()
    ensures Chosen(c, AfterFirstHeap(), 64) == None
  {
    AfterFirstSizes();
    assert Need(c, 64) == 96 by { SampleConstants(c); }
    NoneFits(NodeSizes(AfterFirstHeap()), Need(c, 64));
  }

  /** Best fit finds nothing when every node is too small. */
  lemma {:induction false} NoneFits(sizes: seq<nat>, need: nat)
    requires forall q :: 0 <= q < |sizes| ==> sizes[q] < need
    ensures Choose(sizes, need) == None
  {
  }

  /** The node sizes the walk reads after the first call. */
  lemma {:induction false} AfterFirstSizes()
    ensures NodeSizes(AfterFirstHeap()) == [0, 0, 0]
  {
    var bs := AfterFirst();
    assert SizeAt(bs, 0) == 0;
    assert SizeAt(bs, 128) == 0 by {
      assert bs[1..][1..] == [Block(128, 0, false), Block(160, 0, true)];
    }
    assert SizeAt(bs, 160) == 0;
  }

  /** dmalloc(64) on the heap after the first call answers NULL. */
  lemma {:induction false} SecondMalloc(c: Config)
    requires c == Sample()
    ensures Valid(c) && Wf(c, AfterFirstHeap())
    ensures Malloc(c, AfterFirstHeap(), 64) == Reply(AfterFirstHeap(), None)
  {
    AfterFirstWf(c);
    SecondChoice(c);
  }

  /** A second dmalloc(64) finds only the empty remainder and answers NULL,
      changing nothing. */
  lemma {:induction false} SecondCall(c: Config)
    requires c == Sample()
    ensures Inv(c, Ready(AfterFirstHeap()))
    ensures Dmalloc(c, Ready(AfterFirstHeap()), true, 64) == Outcome(Ready(AfterFirstHeap()), None)
  {
    FirstCall(c);
    SecondMalloc(c);
  }

  /** Freeing offset 64 merges the payload with the empty remainder and
      restores the fresh layout, and dmalloc(64) hands out offset 64 again. */
  lemma {:induction false} FreeThenAgain(c: Config)
    requires c == Sample()
    ensures Valid(c) && Inv(c, Ready(AfterFirstHeap()))
    ensures Live(c, AfterFirstHeap(), 64)
    ensures Dfree(c, Ready(AfterFirstHeap()), 64) == Ready(InitHeap(c))
    ensures Dmalloc(c, Dfree(c, Ready(AfterFirstHeap()), 64), false, 64).ptr == Some(64)
  {
    FirstCall(c);
    DmallocThenDfree(c, Uninitialized, true, 64);
    FirstMalloc(c);
  }
}
