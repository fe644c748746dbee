/** Size arithmetic of the allocator: the ALIGN macro, the minimum-block clamp that
    allocate_mem applies to a request, and the byte count request_space asks the
    operating system for. Sizes are size_t values on a 64-bit target, so every sum
    that the source computes in size_t is reduced modulo 2^64 here, as the machine does. */
module Sizing {

  const Alignment: nat := 16
  const Magic: int := 144553566
  const MinBlockSize: nat := 32
  /** sizeof(MemoryBlockHeader) on a 64-bit target: size (8) + magic (4) + is_free (1)
      + padding (3) + next (8) = 24 bytes, rounded up to 32 by alignas(16). */
  const HeaderSize: nat := 32
  /** The smallest region request_space asks for (64 KiB). */
  const PageSize: nat := 65536
  /** Number of distinct size_t values. */
  const Word: nat := 0x1_0000_0000_0000_0000
  const SizeMax: nat := Word - 1
  /** The largest request whose header and payload still fit in the region that
      request_space asks for; above it the size_t sum in request_space wraps. */
  const MaxRequest: nat := SizeMax - 47

  /** `x & ~(ALIGNMENT - 1)`: clearing the four low bits of x. */
  function ClearLowBits(x: nat): (r: nat)
    ensures r % Alignment == 0
    ensures r <= x < r + Alignment
  {
    x - x % Alignment
  }

  /** The ALIGN macro on a size_t argument, including its wrap-around near SIZE_MAX. */
  function Align(n: nat): (r: nat)
    requires n < Word
    ensures r % Alignment == 0
    ensures r < Word
  {
    ClearLowBits((n + Alignment - 1) % Word)
  }

  /** Away from the top of the size_t range, ALIGN rounds up by less than one unit. */
  lemma AlignBounds(n: nat)
    requires n <= SizeMax - (Alignment - 1)
    ensures n <= Align(n) < n + Alignment
  {
  }

  /** ALIGN gives the least multiple of the alignment that is at least n. */
  lemma AlignIsLeast(n: nat, m: nat)
    requires n <= SizeMax - (Alignment - 1)
    requires m % Alignment == 0 && n <= m
    ensures Align(n) <= m
  {
    AlignBounds(n);
  }

  lemma AlignIdempotent(n: nat)
    requires n <= SizeMax - (Alignment - 1)
    ensures Align(n) <= SizeMax - (Alignment - 1)
    ensures Align(Align(n)) == Align(n)
  {
    AlignBounds(n);
    AlignIsLeast(n, SizeMax - (Alignment - 1));
  }

  /** At the top of the range the macro wraps: ALIGN(SIZE_MAX) is 0. */
  lemma AlignWrapsAtTop()
    ensures Align(SizeMax) == 0
  {
  }

  /** The size allocate_mem works with for a non-zero request: ALIGN(n), raised to
      MIN_BLOCK_SIZE when smaller. */
  function EffectiveSize(n: nat): (r: nat)
    requires 0 < n < Word
    ensures r % Alignment == 0
    ensures MinBlockSize <= r < Word
  {
    var a := Align(n);
    if a < MinBlockSize then MinBlockSize else a
  }

  /** Below the wrap, the effective size covers the request and is the least multiple
      of the alignment that is both at least the request and at least MIN_BLOCK_SIZE. */
  lemma EffectiveSizeIsLeast(n: nat, m: nat)
    requires 0 < n <= SizeMax - (Alignment - 1)
    ensures n <= EffectiveSize(n)
    ensures m % Alignment == 0 && n <= m && MinBlockSize <= m ==> EffectiveSize(n) <= m
  {
    AlignBounds(n);
    if m % Alignment == 0 && n <= m {
      AlignIsLeast(n, m);
    }
  }

  /** A request for SIZE_MAX bytes gets a block of MIN_BLOCK_SIZE bytes. */
  lemma EffectiveSizeWrapsAtTop()
    ensures EffectiveSize(SizeMax) == MinBlockSize
  {
    AlignWrapsAtTop();
  }

  /** The byte count request_space hands to VirtualAlloc for a block of `size` payload
      bytes: ALIGN(sizeof(MemoryBlockHeader) + size), raised to 64 KiB when smaller. */
  function RegionSize(size: nat): (r: nat)
    requires size < Word
    ensures r % Alignment == 0
    ensures PageSize <= r < Word
  {
    var total := Align((HeaderSize + size) % Word);
    if total < PageSize then PageSize else total
  }

  /** Away from the wrap, the region holds the header and the payload, and it is either
      the 64 KiB minimum or at most one alignment unit larger than header plus payload. */
  lemma RegionHoldsBlock(size: nat)
    requires HeaderSize + size <= SizeMax - (Alignment - 1)
    ensures HeaderSize + size <= RegionSize(size)
    ensures RegionSize(size) == PageSize || RegionSize(size) < HeaderSize + size + Alignment
  {
    AlignBounds(HeaderSize + size);
  }

  /** For every request up to MaxRequest the block allocate_mem builds fits in the region
      request_space obtains for it. */
  lemma EffectiveBlockFitsRegion(n: nat)
    requires 0 < n <= MaxRequest
    ensures HeaderSize + EffectiveSize(n) <= RegionSize(EffectiveSize(n))
  {
    EffectiveSizeIsLeast(n, MaxRequest);
    RegionHoldsBlock(EffectiveSize(n));
  }

  /** Just above MaxRequest the size_t sum in request_space wraps: the header claims a
      payload of SIZE_MAX - 15 bytes in a region of 64 KiB. */
  lemma RegionWrapsAboveMaxRequest()
    ensures EffectiveSize(SizeMax - 15) == SizeMax - 15
    ensures RegionSize(EffectiveSize(SizeMax - 15)) == PageSize
  {
  }
}
