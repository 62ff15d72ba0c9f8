/** Splitting a byte address into block offset, set index and tag, with the
    shifts and masks of SimpleCache::calculateIndex and calculateTag. */
module AddressDecode {
  import opened Bits

  /** gem5's `Addr` is an unsigned 64-bit integer. */
  const ADDR_LIMIT: nat := 0x1_0000_0000_0000_0000
  type Addr = a: nat | a < ADDR_LIMIT

  const INT_LIMIT: int := 0x8000_0000

  /** The conversion of an unsigned 64-bit value to a 32-bit `int`: the low
      32 bits, read in two's complement. */
  function ToInt32(x: nat): (r: int)
    ensures -INT_LIMIT <= r < INT_LIMIT
    ensures (x - r) % (2 * INT_LIMIT) == 0
    ensures x < INT_LIMIT ==> r == x
  {
    var low := x % (2 * INT_LIMIT);
    if low < INT_LIMIT then low else low - 2 * INT_LIMIT
  }

  /** `calculateIndex`: shift away the offset bits, then keep the index bits. */
  function CalculateIndex(a: Addr, blockSize: int, numSets: int): (index: nat)
    requires IsPow2(blockSize) && IsPow2(numSets)
    ensures index < numSets
    ensures index == (a / blockSize) % numSets
  {
    var block := ShiftRight(a, Log2(blockSize));
    AndLowMask(block, Log2(numSets));
    BitAnd(block, numSets - 1)
  }

  /** The untruncated tag, `req >> (log2(blockSize) + log2(numSets))`, still an `Addr`. */
  function RawTag(a: Addr, blockSize: int, numSets: int): (tag: nat)
    requires IsPow2(blockSize) && IsPow2(numSets)
    ensures tag == a / (blockSize * numSets)
  {
    Pow2Add(Log2(blockSize), Log2(numSets));
    ShiftRight(a, Log2(blockSize) + Log2(numSets))
  }

  /** `calculateTag`: the raw tag returned as an `int`. */
  function CalculateTag(a: Addr, blockSize: int, numSets: int): (tag: int)
    requires IsPow2(blockSize) && IsPow2(numSets)
    ensures -INT_LIMIT <= tag < INT_LIMIT
    ensures a < INT_LIMIT * blockSize * numSets ==> tag == a / (blockSize * numSets)
  {
    var raw := RawTag(a, blockSize, numSets);
    assert a < INT_LIMIT * blockSize * numSets ==> raw < INT_LIMIT by {
      if a < INT_LIMIT * blockSize * numSets {
        DivDiv(a, blockSize * numSets, INT_LIMIT);
        assert INT_LIMIT * blockSize * numSets == blockSize * numSets * INT_LIMIT;
        assert a / (blockSize * numSets) / INT_LIMIT == 0 by {
          DivModUnique(a, blockSize * numSets * INT_LIMIT, 0, a);
        }
        assert raw / INT_LIMIT == 0;
      }
    }
    ToInt32(raw)
  }

  /** The untruncated tag, the index and the offset together give back the
      address: the shifts and the mask lose no address bits. */
  lemma DecodeRoundTrip(a: Addr, blockSize: int, numSets: int)
    requires IsPow2(blockSize) && IsPow2(numSets)
    ensures a == (RawTag(a, blockSize, numSets) * numSets
                  + CalculateIndex(a, blockSize, numSets)) * blockSize + a % blockSize
  {
    var block := a / blockSize;
    var tag := RawTag(a, blockSize, numSets);
    var index := CalculateIndex(a, blockSize, numSets);
    assert tag == block / numSets by { DivDiv(a, blockSize, numSets); }
    DivMod(block, numSets);
    DivMod(a, blockSize);
  }

  /** Below 2^31 * blockSize * numSets the `int` tag is the untruncated one,
      so the decode as written loses nothing there either. */
  lemma DecodeRoundTripInt(a: Addr, blockSize: int, numSets: int)
    requires IsPow2(blockSize) && IsPow2(numSets)
    requires a < INT_LIMIT * blockSize * numSets
    ensures a == (CalculateTag(a, blockSize, numSets) * numSets
                  + CalculateIndex(a, blockSize, numSets)) * blockSize + a % blockSize
  {
    DecodeRoundTrip(a, blockSize, numSets);
    assert CalculateTag(a, blockSize, numSets) == RawTag(a, blockSize, numSets);
  }

  /** Adding a multiple of 2^32 does not change the `int` conversion. */
  lemma ToInt32Periodic(x: nat)
    ensures ToInt32(x + 2 * INT_LIMIT) == ToInt32(x)
  {
    AddMultiple(x, 2 * INT_LIMIT, 1);
  }

  /** Addresses k * blockSize * numSets apart have the same set index. */
  lemma IndexPeriodic(a: nat, b: nat, blockSize: nat, numSets: nat, k: nat)
    requires blockSize > 0 && numSets > 0
    requires b == a + k * (blockSize * numSets)
    ensures (b / blockSize) % numSets == (a / blockSize) % numSets
  {
    var q := a / blockSize;
    assert b / blockSize == q + k * numSets by {
      MulRegroup(k, blockSize, numSets);
      AddMultiple(a, blockSize, k * numSets);
    }
    AddMultiple(q, numSets, k);
  }

  /** Addresses k * blockSize * numSets apart have untruncated tags k apart. */
  lemma RawTagPeriodic(a: nat, b: nat, blockSize: nat, numSets: nat, k: nat)
    requires blockSize > 0 && numSets > 0
    requires b == a + k * (blockSize * numSets)
    ensures b / (blockSize * numSets) == a / (blockSize * numSets) + k
  {
    MulMonotone(blockSize, 1, numSets);
    AddMultiple(a, blockSize * numSets, k);
  }

  /** Above that bound the truncation aliases: addresses 2^32 * blockSize *
      numSets apart fall in the same set with the same `int` tag although
      their untruncated tags differ, so a resident line also answers for the
      other address. */
  lemma TagAliasing(a: Addr, b: Addr, blockSize: int, numSets: int)
    requires IsPow2(blockSize) && IsPow2(numSets)
    requires b == a + 2 * INT_LIMIT * (blockSize * numSets)
    ensures
      CalculateIndex(b, blockSize, numSets) == CalculateIndex(a, blockSize, numSets) &&
      CalculateTag(b, blockSize, numSets) == CalculateTag(a, blockSize, numSets) &&
      RawTag(b, blockSize, numSets) == RawTag(a, blockSize, numSets) + 2 * INT_LIMIT
  {
    var k := 2 * INT_LIMIT;
    IsPow2Positive(blockSize);
    IsPow2Positive(numSets);
    assert CalculateIndex(b, blockSize, numSets) == CalculateIndex(a, blockSize, numSets) by {
      IndexPeriodic(a, b, blockSize, numSets, k);
    }
    var raw := RawTag(a, blockSize, numSets);
    assert RawTag(b, blockSize, numSets) == raw + k by {
      RawTagPeriodic(a, b, blockSize, numSets, k);
    }
    assert CalculateTag(b, blockSize, numSets) == CalculateTag(a, blockSize, numSets) by {
      ToInt32Periodic(raw);
    }
  }

  /** The aliasing on the 32 KiB, 4-way configuration: addresses 0 and 2^45
      share set and tag. */
  lemma TagAliasingExample()
    ensures IsPow2(64) && IsPow2(128)
    ensures CalculateIndex(0x2000_0000_0000, 64, 128) == CalculateIndex(0, 64, 128)
    ensures CalculateTag(0x2000_0000_0000, 64, 128) == CalculateTag(0, 64, 128)
    ensures RawTag(0x2000_0000_0000, 64, 128) != RawTag(0, 64, 128)
  {
    TagAliasing(0, 0x2000_0000_0000, 64, 128);
  }

  /** Two addresses in the same block decode to the same set and tag. */
  lemma SameBlockSameLine(a: Addr, b: Addr, blockSize: int, numSets: int)
    requires IsPow2(blockSize) && IsPow2(numSets)
    requires a / blockSize == b / blockSize
    ensures CalculateIndex(a, blockSize, numSets) == CalculateIndex(b, blockSize, numSets)
    ensures CalculateTag(a, blockSize, numSets) == CalculateTag(b, blockSize, numSets)
  {
    DivDiv(a, blockSize, numSets);
    DivDiv(b, blockSize, numSets);
  }

  /** The worked example: 64-byte blocks and 128 sets (a 32 KiB, 4-way cache). */
  lemma DecodeExample()
    ensures IsPow2(64) && IsPow2(128)
    ensures CalculateIndex(0x1000, 64, 128) == 64
    ensures CalculateTag(0x1000, 64, 128) == 0
  {
  }
}
