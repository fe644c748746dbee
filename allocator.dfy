/** The allocator's state as the source keeps it: headers at the start of regions obtained
    from VirtualAlloc, linked through `next`, with the process-wide heap_head held here by
    a Heap object. Addresses are a header plus a byte offset; VirtualAlloc is the
    `granted` parameter, which says whether it commits the region it is asked for. */
module Allocator {
  import opened Sizing
  import opened HeapModel

  /** A MemoryBlockHeader. */
  class BlockHeader {
    var size: nat
    var magic: int
    var isFree: bool
    var next: BlockHeader?

    /** The header request_space writes into a freshly committed region. */
    constructor (size: nat)
      ensures this.size == size && magic == Magic && !isFree && next == null
    {
      this.size := size;
      magic := Magic;
      isFree := false;
      next := null;
    }

    ghost function View(): Header
      reads this
    {
      Header(size, magic, isFree)
    }
  }

  /** An address: a byte offset from the start of a header; Null is NULL. */
  datatype Ptr = Null | Addr(header: BlockHeader, offset: nat)

  /** header_to_payload: the first byte after the header. */
  function HeaderToPayload(h: BlockHeader): Ptr {
    Addr(h, HeaderSize)
  }

  /** The cast back from a payload to its header: `(char*)p - sizeof(MemoryBlockHeader)`. */
  function PayloadToHeader(p: Ptr): Ptr
    requires p.Addr? && HeaderSize <= p.offset
  {
    Addr(p.header, p.offset - HeaderSize)
  }

  /** Stepping back from a payload by the header size lands on the start of its header. */
  lemma PayloadStepsBackToHeader(h: BlockHeader)
    ensures PayloadToHeader(HeaderToPayload(h)) == Addr(h, 0)
  {
  }

  /** request_space: size the region, ask VirtualAlloc for it and, when it is committed,
      write a fresh header for `size` payload bytes. `region` is the byte count asked for. */
  method RequestSpace(size: nat, granted: bool) returns (block: BlockHeader?, ghost region: nat)
    requires size < Word
    ensures (block != null) == granted
    ensures region == RegionSize(size)
    ensures HeaderSize + size <= SizeMax - (Alignment - 1) ==> HeaderSize + size <= region
    ensures block != null ==> fresh(block) && block.View() == NewHeader(size) && block.next == null
  {
    var totalSize := Align((HeaderSize + size) % Word);
    if totalSize < PageSize {
      totalSize := PageSize;
    }
    region := totalSize;
    if HeaderSize + size <= SizeMax - (Alignment - 1) {
      RegionHoldsBlock(size);
    }
    if !granted {
      return null, region;
    }
    block := new BlockHeader(size);
  }

  class Heap {
    /** heap_head */
    var head: BlockHeader?
    /** The headers reachable from head, in list order. */
    ghost var chain: seq<BlockHeader>

    /** head and the `next` links form an acyclic list through exactly the headers of chain. */
    ghost predicate Linked()
      reads this, chain
    {
      (head == null <==> chain == []) &&
      (chain != [] ==> head == chain[0] && chain[|chain| - 1].next == null) &&
      (forall i :: 0 <= i < |chain| - 1 ==> chain[i].next == chain[i + 1]) &&
      (forall i, j :: 0 <= i < j < |chain| ==> chain[i] != chain[j])
    }

    /** The header values in list order. */
    ghost function View(): (v: seq<Header>)
      reads this, chain
      ensures |v| == |chain|
      ensures forall i :: 0 <= i < |chain| ==> v[i] == chain[i].View()
    {
      seq(|chain|, i requires 0 <= i < |chain| reads this, chain => chain[i].View())
    }

    ghost predicate Valid()
      reads this, chain
    {
      Linked() && WellFormed(View())
    }

    /** The allocator before its first call: heap_head is NULL. */
    constructor ()
      ensures Valid() && head == null && chain == [] && AllInUse(View())
    {
      head := null;
      chain := [];
    }

    /** find_free_block: walk the list from head and return the first free header of at
        least `size` bytes, or null. Nothing is modified. */
    method FindFreeBlock(size: nat) returns (block: BlockHeader?)
      requires Linked()
      ensures FirstFit(View(), size).None? ==> block == null
      ensures FirstFit(View(), size).Some? ==> block == chain[FirstFit(View(), size).value]
    {
      var current := head;
      ghost var k := 0;
      while current != null
        invariant 0 <= k <= |chain|
        invariant current == if k < |chain| then chain[k] else null
        invariant forall j :: 0 <= j < k ==> !Fits(View()[j], size)
        decreases |chain| - k
      {
        if current.isFree && current.size >= size {
          return current;
        }
        current := current.next;
        k := k + 1;
      }
      return null;
    }

    /** The first allocation: the new header becomes heap_head. */
    method InstallHead(block: BlockHeader)
      requires chain == [] && block.next == null
      modifies this
      ensures Linked() && chain == [block] && head == block
      ensures View() == [block.View()]
    {
      head := block;
      chain := [block];
    }

    /** The hit branch of allocate_mem: flip the chosen header's is_free in place. */
    method MarkInUse(block: BlockHeader, ghost i: nat)
      requires Linked() && i < |chain| && block == chain[i]
      modifies block
      ensures Linked() && chain == old(chain)
      ensures View() == old(View())[i := old(View())[i].(isFree := false)]
    {
      block.isFree := false;
    }

    /** The miss branch of allocate_mem on a non-empty list: walk to the tail and link
        `block` after it. */
    method AppendAtTail(block: BlockHeader)
      requires Linked() && chain != [] && block !in chain && block.next == null
      modifies this, chain
      ensures Linked() && chain == old(chain) + [block] && head == old(head)
      ensures View() == old(View()) + [block.View()]
    {
      var current := head;
      ghost var k := 0;
      while current.next != null
        invariant 0 <= k < |chain| && current == chain[k]
        invariant k + 1 < |chain| ==> current.next == chain[k + 1]
        decreases |chain| - k
      {
        current := current.next;
        k := k + 1;
      }
      current.next := block;
      chain := chain + [block];
      assert View() == old(View()) + [block.View()];
    }

    /** allocate_mem(n). */
    method AllocateMem(n: nat, granted: bool) returns (p: Ptr)
      requires Valid() && n < Word
      modifies this, chain
      ensures Valid()
      ensures var r := Allocate(old(View()), n, granted);
              View() == r.heap &&
              (r.chosen.None? ==> p == Null && chain == old(chain)) &&
              (r.chosen.Some? ==> p == HeaderToPayload(chain[r.chosen.value]))
      ensures old(chain) <= chain && |chain| <= |old(chain)| + 1
      ensures |chain| > |old(chain)| ==> fresh(chain[|old(chain)|])
      ensures p != Null ==> p.offset == HeaderSize && p.header in chain &&
                            PayloadToHeader(p).header.magic == Magic &&
                            !PayloadToHeader(p).header.isFree
      ensures AllInUse(old(View())) ==> AllInUse(View())
      ensures AllInUse(old(View())) && p != Null ==> |chain| == |old(chain)| + 1
    {
      ghost var before := View();
      if AllInUse(before) && n != 0 {
        InUseHeapHasNoFit(before, EffectiveSize(n));
      }
      AllocateChosenInUse(before, n, granted);
      AllocatePreservesWellFormed(before, n, granted);
      if AllInUse(before) {
        AllocatePreservesAllInUse(before, n, granted);
      }
      if n == 0 {
        return Null;
      }
      var size := Align(n);
      if size < MinBlockSize {
        size := MinBlockSize;
      }
      assert size == EffectiveSize(n);
      p := PlaceBlock(size, granted);
    }

    /** allocate_mem from the point where the request is normalised to `size`. */
    method PlaceBlock(size: nat, granted: bool) returns (p: Ptr)
      requires Linked() && size < Word
      modifies this, chain
      ensures Linked()
      ensures var r := Place(old(View()), size, granted);
              View() == r.heap &&
              (r.chosen.None? ==> p == Null && chain == old(chain)) &&
              (r.chosen.Some? ==> p == HeaderToPayload(chain[r.chosen.value]))
      ensures old(chain) <= chain && |chain| <= |old(chain)| + 1
      ensures |chain| > |old(chain)| ==> fresh(chain[|old(chain)|])
    {
      var block: BlockHeader?;
      ghost var region: nat;
      if head == null {
        block, region := RequestSpace(size, granted);
        if block == null {
          return Null;
        }
        InstallHead(block);
      } else {
        block := FindFreeBlock(size);
        if block != null {
          MarkInUse(block, FirstFit(old(View()), size).value);
          // The source leaves splitting for later: the whole block is handed out.
        } else {
          block, region := RequestSpace(size, granted);
          if block == null {
            return Null;
          }
          AppendAtTail(block);
        }
      }
      p := HeaderToPayload(block);
    }
  }
}
