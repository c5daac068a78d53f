/**
 * The allocator as its callers see it: the static free-list pointer that is
 * NULL until the first `dmalloc`, initialisation on that first call, and
 * `dfree`.  Whether the environment grants the region is the parameter
 * `granted`.
 */
module Allocator {
  import opened Wrappers
  import opened Arena
  import opened Memory
  import opened Layout
  import opened Setup
  import opened Allocate
  import opened Release
  import opened Coalescing
  import opened RoundTrip

  /** The static state: no region yet (the free-list pointer is NULL), or an
      initialised heap. */
  datatype State = Uninitialized | Ready(heap: Heap)

  /** What every reachable state satisfies: the constants are sound, and an
      initialised heap is well formed, has no two free blocks side by side
      and keeps every offset and size aligned. */
  predicate Inv(c: Config, s: State) {
    && Valid(c)
    && (s.Ready? ==> Wf(c, s.heap) && Coalesced(s.heap.blocks) && AllAligned(c, s.heap.blocks))
  }

  /** The state after a call and the pointer it hands back (`None` is NULL). */
  datatype Outcome = Outcome(state: State, ptr: Option<nat>)

  /** dmalloc_init: on a granted region it writes the initial layout and
      answers true; when the region is refused it answers false and the
      allocator stays uninitialised, so a later call tries again. */
  function DmallocInit(c: Config, granted: bool): (r: (bool, State))
    requires Valid(c)
    ensures r.0 <==> r.1.Ready?
    ensures r.0 == granted
    ensures Inv(c, r.1)
    ensures r.1.Ready? ==> |r.1.heap.blocks| == 3 && !r.1.heap.blocks[1].taken
  {
    if granted then (true, Ready(InitHeap(c))) else (false, Uninitialized)
  }

  /** The state dmalloc allocates from: the current heap, or the fresh one
      when this call initialises. */
  function Before(c: Config, s: State, granted: bool): State
    requires Valid(c)
  {
    if s.Ready? then s else DmallocInit(c, granted).1
  }

  /** dmalloc of `n > 0` bytes: initialise first if the free-list pointer is
      NULL, answering NULL if that fails; then best fit and split. */
  function Dmalloc(c: Config, s: State, granted: bool, n: nat): (r: Outcome)
    requires Inv(c, s) && n > 0
    ensures Inv(c, r.state)
    ensures r.state.Ready? <==> s.Ready? || granted
    ensures s.Uninitialized? && !granted ==> r == Outcome(Uninitialized, None)
    ensures r.ptr.None? <==>
      || Before(c, s, granted).Uninitialized?
      || forall k :: 0 <= k < |Members(Before(c, s, granted).heap.blocks)| ==>
           Members(Before(c, s, granted).heap.blocks)[k].size < Need(c, n)
    ensures r.ptr.None? ==> r.state == Before(c, s, granted)
  {
    var s1 := Before(c, s, granted);
    if s1.Uninitialized? then Outcome(Uninitialized, None)
    else
      var h := s1.heap;
      MallocKeeps(c, h, n);
      var rep := Malloc(c, h, n);
      Outcome(Ready(rep.heap), rep.ptr)
  }

  /** dfree of a payload dmalloc handed out and that is not yet freed: the
      heap stays well formed, coalesced and aligned, and still covers the
      whole region. */
  function Dfree(c: Config, s: State, p: nat): (r: State)
    requires Inv(c, s) && s.Ready? && Live(c, s.heap, p)
    ensures Inv(c, r) && r.Ready?
    ensures Span(c, r.heap.blocks) == MaxBytes(c)
  {
    FreeKeeps(c, s.heap, p);
    Ready(Free(c, s.heap, p))
  }

  /** Every pointer dmalloc hands out is live, and freeing it straight away
      restores the state dmalloc allocated from. */
  lemma {:induction false} DmallocThenDfree(c: Config, s: State, granted: bool, n: nat)
    requires Inv(c, s) && n > 0
    ensures Dmalloc(c, s, granted, n).ptr.Some? ==>
      && Dmalloc(c, s, granted, n).state.Ready?
      && Live(c, Dmalloc(c, s, granted, n).state.heap, Dmalloc(c, s, granted, n).ptr.value)
      && Dfree(c, Dmalloc(c, s, granted, n).state, Dmalloc(c, s, granted, n).ptr.value)
         == Before(c, s, granted)
  {
    if Dmalloc(c, s, granted, n).ptr.Some? {
      var h := Before(c, s, granted).heap;
      MallocFree(c, h, n);
    }
  }

  /** A refused grant changes nothing: the next call starts exactly as if
      the failed one had never happened. */
  lemma {:induction false} RetryAfterRefusal(c: Config, granted: bool, n: nat, m: nat)
    requires Valid(c) && n > 0 && m > 0
    ensures Dmalloc(c, Dmalloc(c, Uninitialized, false, n).state, granted, m)
         == Dmalloc(c, Uninitialized, granted, m)
  {
    assert Dmalloc(c, Uninitialized, false, n).state == Uninitialized;
  }
}

/**
 * Initialisation as the source writes it: the result of the region request
 * is stored in the free-list pointer before it is checked, so a refused
 * request leaves the error marker there.  The marker is not NULL, so the
 * next dmalloc skips initialisation and walks the list from the marker.
 */
module AsWritten {
  import opened Wrappers
  import opened Arena
  import opened Layout
  import opened Setup
  import opened Allocate

  /** The free-list pointer: NULL, the request's error marker, or a heap. */
  datatype RawState = Null | Marker | Linked(heap: Heap)

  /** A call either finishes or reads through the marker as if it were a
      header, which has no defined result. */
  datatype RawOutcome = Done(state: RawState, ptr: Option<nat>) | Undefined

  /** dmalloc_init as written: a refused request answers false and leaves
      the marker behind. */
  function RawInit(c: Config, granted: bool): (r: (bool, RawState))
    requires Valid(c)
    ensures r.0 == granted
    ensures r.1 != Null
    ensures r.1.Linked? ==> Wf(c, r.1.heap)
  {
    if granted then (true, Linked(InitHeap(c))) else (false, Marker)
  }

  /** dmalloc as written: initialisation runs only while the pointer is
      NULL, and the best-fit walk starts wherever the pointer points. */
  function RawDmalloc(c: Config, s: RawState, granted: bool, n: nat): (r: RawOutcome)
    requires Valid(c) && n > 0 && (s.Linked? ==> Wf(c, s.heap))
    ensures s.Marker? ==> r.Undefined?
    ensures s.Null? && !granted ==> r == Done(Marker, None)
  {
    match s
    case Marker => Undefined
    case Linked(h) => var rep := Malloc(c, h, n); Done(Linked(rep.heap), rep.ptr)
    case Null =>
      var (ok, s1) := RawInit(c, granted);
      if !ok then Done(s1, None)
      else var rep := Malloc(c, s1.heap, n); Done(Linked(rep.heap), rep.ptr)
  }

  /** A refused request followed by any dmalloc, even one whose request
      would now be granted, reads through the marker. */
  lemma {:induction false} RefusalThenDmalloc(c: Config, granted: bool, n: nat, m: nat)
    requires Valid(c) && n > 0 && m > 0
    ensures RawDmalloc(c, Null, false, n).Done?
    ensures RawDmalloc(c, RawDmalloc(c, Null, false, n).state, granted, m).Undefined?
  {
  }
}
