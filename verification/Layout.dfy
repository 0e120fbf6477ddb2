/** Where everything lies in the flat mapping of one ring. */
module Layout {
  import opened Basics
  import opened LittleEndian

  const MAGIC: nat := 0x5749_5245_4741_5547
  const CACHE_LINE: nat := 64
  const HEADER_BYTES: nat := 4096
  const PAGE: nat := 4096
  const MAGIC_OFF: nat := 0
  const MSG_SIZE_OFF: nat := 8
  const CAPACITY_OFF: nat := 16
  const CURSOR_OFF: nat := 64
  const CAPACITY: Positive := 65_536

  function DivCeil(a: nat, b: Positive): nat {
    a / b + if a % b == 0 then 0 else 1
  }

  function Stride(msgSize: nat): nat {
    DivCeil(8 + msgSize, CACHE_LINE) * CACHE_LINE
  }

  function Total(msgSize: nat, capacity: Positive): nat {
    HEADER_BYTES + Stride(msgSize) * capacity
  }

  /** Offset of slot `i`, which is also the offset of its stamp. */
  function SlotOff(i: nat, msgSize: nat): nat {
    HEADER_BYTES + i * Stride(msgSize)
  }

  function StampOff(seqNo: nat, msgSize: nat, capacity: Positive): nat {
    SlotOff(seqNo % capacity, msgSize)
  }

  function PayloadOff(seqNo: nat, msgSize: nat, capacity: Positive): nat {
    SlotOff(seqNo % capacity, msgSize) + 8
  }

  /** A stride is a whole number of cache lines, holds stamp and payload, and wastes less than one
      line. */
  lemma StrideHoldsASlot(msgSize: nat)
    ensures Stride(msgSize) % CACHE_LINE == 0
    ensures 8 + msgSize <= Stride(msgSize) < 8 + msgSize + CACHE_LINE
  {
  }

  lemma SlotsInOrder(i: nat, j: nat, msgSize: nat)
    requires i < j
    ensures SlotOff(i, msgSize) + Stride(msgSize) <= SlotOff(j, msgSize)
  {
    var s := Stride(msgSize);
    var between := j - i - 1;
    assert between * s >= 0;
    assert (i + 1 + between) * s == i * s + s + between * s;
  }

  /** The slots lie back to back behind the header, and the last one ends with the mapping. */
  lemma SlotsFillTheMapping(i: nat, msgSize: nat, capacity: Positive)
    ensures SlotOff(0, msgSize) == 4096 && SlotOff(i + 1, msgSize) == SlotOff(i, msgSize) + Stride(msgSize)
    ensures SlotOff(capacity - 1, msgSize) + Stride(msgSize) == Total(msgSize, capacity)
  {
    assert capacity * Stride(msgSize) == (capacity - 1) * Stride(msgSize) + Stride(msgSize);
  }

  /** Every slot lies inside the mapping, behind the header, on a cache-line boundary. */
  lemma SlotInsideMapping(i: nat, msgSize: nat, capacity: Positive)
    requires i < capacity
    ensures HEADER_BYTES <= SlotOff(i, msgSize)
    ensures SlotOff(i, msgSize) + 8 + msgSize <= SlotOff(i, msgSize) + Stride(msgSize) <= Total(msgSize, capacity)
    ensures SlotOff(i, msgSize) % CACHE_LINE == 0 && SlotOff(i, msgSize) % 8 == 0
  {
    StrideHoldsASlot(msgSize);
    SlotsInOrder(i, capacity, msgSize);
    var lines := DivCeil(8 + msgSize, CACHE_LINE);
    assert SlotOff(i, msgSize) == (64 + i * lines) * CACHE_LINE;
  }

  /** Sequence numbers less than one lap apart never share a byte nor a cache line: any two used
      offsets of their slots lie on different lines. */
  lemma LiveSlotsShareNoCacheLine(a: nat, b: nat, msgSize: nat, capacity: Positive, x: nat, y: nat)
    requires a < b < a + capacity
    requires StampOff(a, msgSize, capacity) <= x < PayloadOff(a, msgSize, capacity) + msgSize
    requires StampOff(b, msgSize, capacity) <= y < PayloadOff(b, msgSize, capacity) + msgSize
    ensures x / CACHE_LINE != y / CACHE_LINE
  {
    var i, j := a % capacity, b % capacity;
    assert i != j by {
      if i == j {
        SameSlotIsALapApart(a, b, capacity);
        assert false;
      }
    }
    if i < j {
      SlotsOnOtherLines(i, j, msgSize, capacity, x, y);
    } else {
      SlotsOnOtherLines(j, i, msgSize, capacity, y, x);
    }
  }

  lemma SlotsOnOtherLines(i: nat, j: nat, msgSize: nat, capacity: Positive, x: nat, y: nat)
    requires i < j < capacity
    requires x < SlotOff(i, msgSize) + 8 + msgSize && SlotOff(j, msgSize) <= y
    ensures x / CACHE_LINE < y / CACHE_LINE
  {
    SlotInsideMapping(i, msgSize, capacity);
    SlotInsideMapping(j, msgSize, capacity);
    SlotsInOrder(i, j, msgSize);
    BoundarySeparates(x, y, SlotOff(j, msgSize));
  }

  lemma BoundarySeparates(x: nat, y: nat, boundary: nat)
    requires x < boundary <= y && boundary % CACHE_LINE == 0
    ensures x / CACHE_LINE < boundary / CACHE_LINE <= y / CACHE_LINE
  {
  }

  /** The header words are disjoint, aligned and clear of every slot, and the consumer's cursor
      shares a cache line with nothing else. */
  lemma CursorHasItsOwnCacheLine(i: nat, msgSize: nat, capacity: Positive, x: nat)
    requires i < capacity
    requires x < CAPACITY_OFF + 8 || SlotOff(i, msgSize) <= x < SlotOff(i, msgSize) + 8 + msgSize
    ensures MAGIC_OFF + 8 <= MSG_SIZE_OFF && MSG_SIZE_OFF + 8 <= CAPACITY_OFF
    ensures CURSOR_OFF % 8 == 0 && CURSOR_OFF + 8 <= HEADER_BYTES
    ensures x / CACHE_LINE != CURSOR_OFF / CACHE_LINE
    ensures !(CURSOR_OFF <= x < CURSOR_OFF + 8)
  {
    SlotInsideMapping(i, msgSize, capacity);
  }

  /** The source computes offsets in 64-bit arithmetic: with its 65 536 slots none overflows for
      messages up to 2^46 bytes. */
  lemma OffsetsFitInU64(i: nat, msgSize: nat)
    requires msgSize <= 0x4000_0000_0000 && i < CAPACITY
    ensures SlotOff(i, msgSize) + 8 + msgSize <= Total(msgSize, CAPACITY) < U64_LIMIT
  {
    SlotInsideMapping(i, msgSize, CAPACITY);
    StrideHoldsASlot(msgSize);
  }
}
