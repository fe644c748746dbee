/** The allocator's heap as a value: the headers reachable from heap_head, in list
    order, and what one call of allocate_mem does to them. The `next` links are not
    stored here; a header's successor is the next element of the sequence. */
module HeapModel {
  import opened Sizing

  datatype Option<T> = None | Some(value: T)

  /** The fields of a MemoryBlockHeader other than its `next` link. */
  datatype Header = Header(size: nat, magic: int, isFree: bool)

  /** The test find_free_block applies to each header. */
  predicate Fits(h: Header, size: nat) {
    h.isFree && h.size >= size
  }

  /** Index of the first header in list order that is free and large enough. */
  function FirstFit(heap: seq<Header>, size: nat): (r: Option<nat>)
    ensures r.Some? ==> r.value < |heap| && Fits(heap[r.value], size)
    ensures r.Some? ==> forall j :: 0 <= j < r.value ==> !Fits(heap[j], size)
    ensures r.None? <==> forall j :: 0 <= j < |heap| ==> !Fits(heap[j], size)
  {
    if heap == [] then None
    else if Fits(heap[0], size) then Some(0)
    else match FirstFit(heap[1..], size)
      case None => None
      case Some(i) => Some(i + 1)
  }

  /** What request_space writes into a fresh header (the caller then links it). */
  function NewHeader(size: nat): Header {
    Header(size, Magic, false)
  }

  /** Every header carries the sentinel and a size that allocate_mem could have produced. */
  predicate WellFormed(heap: seq<Header>) {
    forall i :: 0 <= i < |heap| ==>
      heap[i].magic == Magic && heap[i].size % Alignment == 0 &&
      MinBlockSize <= heap[i].size < Word
  }

  predicate AllInUse(heap: seq<Header>) {
    forall i :: 0 <= i < |heap| ==> !heap[i].isFree
  }

  /** When every header is in use, find_free_block finds nothing. */
  lemma InUseHeapHasNoFit(heap: seq<Header>, size: nat)
    requires AllInUse(heap)
    ensures FirstFit(heap, size).None?
  {
  }

  /** The heap after one call of allocate_mem, and the list index of the block whose
      payload it returns (None for a null result). */
  datatype Outcome = Outcome(heap: seq<Header>, chosen: Option<nat>)

  /** One call of allocate_mem(n), where `granted` says whether VirtualAlloc commits the
      region if request_space asks for one. */
  function Allocate(heap: seq<Header>, n: nat, granted: bool): (r: Outcome)
    requires n < Word
    ensures r.chosen.Some? ==> r.chosen.value < |r.heap|
  {
    if n == 0 then Outcome(heap, None) else Place(heap, EffectiveSize(n), granted)
  }

  /** allocate_mem once the request is normalised to `size`: install the first header,
      reuse the first fit, or append a fresh header at the tail. */
  function Place(heap: seq<Header>, size: nat, granted: bool): (r: Outcome)
    ensures r.chosen.Some? ==> r.chosen.value < |r.heap|
  {
    if heap == [] then
      if granted then Outcome([NewHeader(size)], Some(0)) else Outcome(heap, None)
    else
      match FirstFit(heap, size)
      case Some(i) => Outcome(heap[i := heap[i].(isFree := false)], Some(i))
      case None =>
        if granted then Outcome(heap + [NewHeader(size)], Some(|heap|))
        else Outcome(heap, None)
  }

  /** allocate_mem returns null exactly for a zero request, or when no block fits and
      VirtualAlloc refuses; a null result leaves every header as it was. */
  lemma AllocateNull(heap: seq<Header>, n: nat, granted: bool)
    requires n < Word
    ensures Allocate(heap, n, granted).chosen.None? <==>
            n == 0 || (FirstFit(heap, EffectiveSize(n)).None? && !granted)
    ensures Allocate(heap, n, granted).chosen.None? ==> Allocate(heap, n, granted).heap == heap
  {
  }

  /** On a first-fit hit only the chosen header changes, and only its is_free flag. */
  lemma AllocateReuses(heap: seq<Header>, n: nat, granted: bool, i: nat)
    requires 0 < n < Word
    requires FirstFit(heap, EffectiveSize(n)) == Some(i)
    ensures var r := Allocate(heap, n, granted);
            r.chosen == Some(i) && |r.heap| == |heap| &&
            r.heap[i] == heap[i].(isFree := false) &&
            forall j :: 0 <= j < |heap| && j != i ==> r.heap[j] == heap[j]
  {
  }

  /** On a miss (or an empty heap) a granted region becomes a new header of the effective
      size, appended after every existing header. */
  lemma AllocateAppends(heap: seq<Header>, n: nat)
    requires 0 < n < Word
    requires FirstFit(heap, EffectiveSize(n)).None?
    ensures Allocate(heap, n, true) ==
            Outcome(heap + [NewHeader(EffectiveSize(n))], Some(|heap|))
  {
  }

  /** The block handed out carries the sentinel, is in use and is large enough. */
  lemma AllocateChosenInUse(heap: seq<Header>, n: nat, granted: bool)
    requires n < Word && WellFormed(heap)
    ensures var r := Allocate(heap, n, granted);
            r.chosen.Some? ==>
              r.heap[r.chosen.value].magic == Magic && !r.heap[r.chosen.value].isFree &&
              EffectiveSize(n) <= r.heap[r.chosen.value].size
  {
  }

  /** No existing header loses its size or sentinel or becomes free; the list grows by at
      most one header. */
  lemma AllocateKeepsExisting(heap: seq<Header>, n: nat, granted: bool)
    requires n < Word
    ensures var r := Allocate(heap, n, granted);
            |heap| <= |r.heap| <= |heap| + 1 &&
            forall j :: 0 <= j < |heap| ==>
              r.heap[j].size == heap[j].size && r.heap[j].magic == heap[j].magic &&
              (r.heap[j].isFree ==> heap[j].isFree)
  {
  }

  lemma AllocatePreservesWellFormed(heap: seq<Header>, n: nat, granted: bool)
    requires n < Word && WellFormed(heap)
    ensures WellFormed(Allocate(heap, n, granted).heap)
  {
  }

  lemma AllocatePreservesAllInUse(heap: seq<Header>, n: nat, granted: bool)
    requires n < Word && AllInUse(heap)
    ensures AllInUse(Allocate(heap, n, granted).heap)
  {
  }

  /** One call of allocate_mem: the request and whether VirtualAlloc would commit. */
  datatype Request = Request(n: nat, granted: bool)

  predicate ValidRequests(requests: seq<Request>) {
    forall i :: 0 <= i < |requests| ==> requests[i].n < Word
  }

  /** The heap after a program's calls of allocate_mem, starting from heap_head == NULL. */
  function Run(requests: seq<Request>): (heap: seq<Header>)
    requires ValidRequests(requests)
    ensures |heap| <= |requests|
  {
    if requests == [] then []
    else
      var last := requests[|requests| - 1];
      Allocate(Run(requests[..|requests| - 1]), last.n, last.granted).heap
  }

  /** Nothing in the allocator ever sets is_free: every header reachable from heap_head
      is well formed and in use, whatever calls came before. */
  lemma {:induction false} ReachableHeapInUse(requests: seq<Request>)
    requires ValidRequests(requests)
    ensures WellFormed(Run(requests)) && AllInUse(Run(requests))
  {
    if requests != [] {
      var prefix := requests[..|requests| - 1];
      var last := requests[|requests| - 1];
      ReachableHeapInUse(prefix);
      AllocatePreservesWellFormed(Run(prefix), last.n, last.granted);
      AllocatePreservesAllInUse(Run(prefix), last.n, last.granted);
    }
  }

  /** Hence the first-fit hit branch is dead in every reachable state: a successful
      allocation always appends a fresh header at the tail. */
  lemma {:induction false} ReachableNeverReuses(requests: seq<Request>, n: nat, granted: bool)
    requires ValidRequests(requests) && 0 < n < Word
    ensures var heap := Run(requests);
            FirstFit(heap, EffectiveSize(n)).None? &&
            (granted ==> Allocate(heap, n, granted) ==
                         Outcome(heap + [NewHeader(EffectiveSize(n))], Some(|heap|)))
  {
    ReachableHeapInUse(requests);
    InUseHeapHasNoFit(Run(requests), EffectiveSize(n));
  }
}
