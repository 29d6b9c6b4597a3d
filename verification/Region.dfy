/** Where the slots of a ring lie in memory. */
module Region {
  import opened ByteOrder
  import opened Memory
  import opened Counters
  import opened Wire

  /** Slots of `slotBytes` usable bytes every `stride` bytes from offset `base` of a block
      of memory at `address`. */
  datatype Region = Region(shape: Shape, address: nat, base: nat, stride: nat, slotBytes: nat) {
    predicate Valid() {
      && shape.Valid()
      && HEADER_SIZE <= slotBytes <= stride
      && (address + base) % 16 == 0
    }

    function Offset(slot: nat): nat {
      base + slot * stride
    }

    function Total(): nat {
      base + shape.Capacity() * stride
    }

    /** A message type that fits a slot, and whose payloads, 16 bytes into a slot, are
        aligned there. */
    predicate Suits(t: MsgType) {
      && Fits(t)
      && HEADER_SIZE + t.Size() <= slotBytes
      && 16 % t.align == 0
      && stride % t.align == 0
    }
  }

  function RoundUp(n: nat, unit: Positive): nat {
    (n + unit - 1) / unit * unit
  }

  // SpscRingBuffer: an array of structs that hold exactly one packet.
  function SpscRegion(shape: Shape, address: nat, t: MsgType): Region {
    Region(shape, address, 0, RoundUp(HEADER_SIZE + t.Size(), t.align), HEADER_SIZE + t.Size())
  }

  const RING_HEADER_SIZE: nat := 192

  // IpcRingBuffer, for types aligned to at most 16 bytes.
  function IpcRegion(shape: Shape, address: nat, t: MsgType): Region {
    var slot := RoundUp(HEADER_SIZE + t.Size(), 16);
    Region(shape, address, RING_HEADER_SIZE, slot, slot)
  }

  // IpcEnvelopeRingBuffer.
  function EnvelopeRegion(shape: Shape, address: nat, maxPayload: Positive): Region {
    var slot := RoundUp(HEADER_SIZE + maxPayload, 64);
    Region(shape, address, RING_HEADER_SIZE, slot, slot)
  }

  lemma RoundUpIs(n: nat, unit: Positive)
    ensures n <= RoundUp(n, unit) < n + unit
    ensures RoundUp(n, unit) % unit == 0
  {
    var q := (n + unit - 1) / unit;
    DivMod(n + unit - 1, unit);
    RemainderIs(q * unit, unit, q, 0);
  }

  lemma DividesMultiple(d: Positive, k: nat, n: nat)
    requires n % d == 0
    ensures k * n % d == 0
  {
    DivMod(n, d);
    Regroup(k, n / d, d, 0);
    assert k * n == k * (n / d) * d;
    RemainderIs(k * n, d, k * (n / d), 0);
  }

  lemma DividesSum(d: Positive, m: nat, n: nat)
    requires m % d == 0 && n % d == 0
    ensures (m + n) % d == 0
  {
    DivMod(m, d);
    DivMod(n, d);
    assert (m / d + n / d) * d == m / d * d + n / d * d;
    RemainderIs(m + n, d, m / d + n / d, 0);
  }

  lemma DividesThrough(d: Positive, n: nat)
    requires 16 % d == 0 && n % 16 == 0
    ensures n % d == 0
  {
    DivMod(n, 16);
    DividesMultiple(d, n / 16, 16);
  }

  /** Slots do not overlap and lie inside the block, after what precedes them. */
  lemma SlotsDisjoint(r: Region, i: nat, j: nat)
    requires r.Valid() && i < r.shape.Capacity() && j < r.shape.Capacity()
    ensures i < j ==> r.Offset(i) + r.stride <= r.Offset(j)
    ensures r.base <= r.Offset(i) && r.Offset(i) + r.stride <= r.Total()
  {
    MulMonotone(i + 1, r.shape.Capacity(), r.stride);
    if i < j {
      MulMonotone(i + 1, j, r.stride);
    }
  }

  lemma MulMonotone(a: nat, b: nat, c: nat)
    requires a <= b
    ensures a * c <= b * c
  {
  }

  // Every payload is aligned.
  lemma PayloadAligned(r: Region, t: MsgType, slot: nat)
    requires r.Valid() && r.Suits(t)
    ensures (r.address + r.Offset(slot) + HEADER_SIZE) % t.align == 0
  {
    DividesThrough(t.align, r.address + r.base);
    DividesMultiple(t.align, slot, r.stride);
    DividesSum(t.align, r.address + r.base, slot * r.stride);
    DividesSum(t.align, r.address + r.base + slot * r.stride, 16);
  }

  /** The layouts of the library are valid and suit their types: a ring aligned to 64
      bytes and shared memory aligned to a page both start on a multiple of 64. */
  lemma LayoutsSuit(shape: Shape, address: nat, t: MsgType, maxPayload: Positive)
    requires shape.Valid() && address % 64 == 0 && Fits(t) && 16 % t.align == 0
    ensures SpscRegion(shape, address, t).Valid() && SpscRegion(shape, address, t).Suits(t)
    ensures IpcRegion(shape, address, t).Valid() && IpcRegion(shape, address, t).Suits(t)
    ensures EnvelopeRegion(shape, address, maxPayload).Valid()
    ensures t.Size() <= maxPayload ==> EnvelopeRegion(shape, address, maxPayload).Suits(t)
    ensures var r := SpscRegion(shape, address, t);
            && r.base == 0 && r.slotBytes == 16 + t.Size()
            && r.slotBytes <= r.stride < r.slotBytes + t.align && r.stride % t.align == 0
    ensures var r := IpcRegion(shape, address, t);
            && r.base == 192 && r.stride == r.slotBytes && r.stride % 16 == 0
            && 16 + t.Size() <= r.stride < 32 + t.Size()
    ensures var r := EnvelopeRegion(shape, address, maxPayload);
            && r.base == 192 && r.stride == r.slotBytes && r.stride % 64 == 0
            && 16 + maxPayload <= r.stride < 80 + maxPayload
    ensures IpcRegion(shape, address, t).Offset(0) == EnvelopeRegion(shape, address, maxPayload).Offset(0) == 192
  {
    RoundUpIs(HEADER_SIZE + t.Size(), t.align);
    RoundUpIs(HEADER_SIZE + t.Size(), 16);
    RoundUpIs(HEADER_SIZE + maxPayload, 64);
    DividesThrough(t.align, RoundUp(HEADER_SIZE + t.Size(), 16));
    MultipleOf64(address);
    MultipleOf64(RoundUp(HEADER_SIZE + maxPayload, 64));
    DividesThrough(t.align, RoundUp(HEADER_SIZE + maxPayload, 64));
    assert (address + 192) % 16 == 0;
  }

  lemma MultipleOf64(n: nat)
    requires n % 64 == 0
    ensures n % 16 == 0
  {
  }
}
