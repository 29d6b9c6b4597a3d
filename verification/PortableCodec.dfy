/** portable_swap in place, and the portable encoder and decoder of
    include/sinew/portable.hpp. */
module PortableCodec {
  import opened ByteOrder
  import opened Memory
  import opened Crc32
  import opened Wire
  import opened Portable
  import opened PortableBound

  // ---- portable_swap, in place ----

  lemma {:induction false} SwapOneMore(h: Endian, element: Layout, n: nat, b: seq<Byte>, i: nat)
    requires |b| == Span(n, SizeOf(element)) && i < n
    ensures Span(i, SizeOf(element)) + SizeOf(element) <= |b|
    ensures SwapElements(h, element, n, b, i + 1)
         == Splice(SwapElements(h, element, n, b, i), Span(i, SizeOf(element)),
                   Swap(h, element, Element(b, i, n, SizeOf(element))))
    decreases i
  {
    hide Swap, Splice, Element, SizeOf, Span, SwapElements;
    var size := SizeOf(element);
    SpanUnfolds(n, size);
    SpanBounds(i, n, size);
    if i == 0 {
      SwapFirst(h, element, n, b);
      SwapNone(h, element, n, b);
    } else {
      SpanUnfolds(i, size);
      SwapUnfolds(h, element, n, b, i + 1);
      SwapUnfolds(h, element, n, b, i);
      ElementOfTail(b, i, n, size);
      SwapOneMore(h, element, n - 1, b[size..], i - 1);
      SpliceRight(Swap(h, element, b[..size]), SwapElements(h, element, n - 1, b[size..], i - 1), Span(i - 1, size),
                  Swap(h, element, Element(b, i, n, size)));
    }
  }

  lemma SpanUnfolds(n: nat, size: nat)
    requires n > 0
    ensures Span(n, size) == size + Span(n - 1, size)
  {
  }

  lemma SwapUnfolds(h: Endian, element: Layout, n: nat, b: seq<Byte>, count: nat)
    requires |b| == Span(n, SizeOf(element)) && 0 < count <= n
    ensures var size := SizeOf(element);
            && size <= |b| && |b| - size == Span(n - 1, size)
            && SwapElements(h, element, n, b, count)
               == Swap(h, element, b[..size]) + SwapElements(h, element, n - 1, b[size..], count - 1)
  {
    hide Swap, SizeOf;
  }

  lemma SwapNone(h: Endian, element: Layout, n: nat, b: seq<Byte>)
    requires |b| == Span(n, SizeOf(element))
    ensures SwapElements(h, element, n, b, 0) == b && Span(0, SizeOf(element)) == 0
  {
  }

  lemma SwapFirst(h: Endian, element: Layout, n: nat, b: seq<Byte>)
    requires |b| == Span(n, SizeOf(element)) && n > 0
    ensures SizeOf(element) <= |b|
    ensures SwapElements(h, element, n, b, 1) == Splice(b, 0, Swap(h, element, Element(b, 0, n, SizeOf(element))))
  {
    hide Swap, Splice, Element, SizeOf;
    var size := SizeOf(element);
    var head, tail := b[..size], b[size..];
    FirstElement(b, n, size);
    SpliceLeft(head, tail, 0, Swap(h, element, head));
    assert b == head + tail;
    WholeSplice(head, Swap(h, element, head));
  }

  lemma FirstElement(b: seq<Byte>, n: nat, size: nat)
    requires 0 < n && |b| == Span(n, size)
    ensures Element(b, 0, n, size) == b[..size]
  {
  }

  lemma WholeSplice(mem: seq<Byte>, bytes: seq<Byte>)
    requires |mem| == |bytes|
    ensures Splice(mem, 0, bytes) == bytes
  {
  }

  // ---- The effect on the memory around a value ----

  function SwapAt(h: Endian, t: Layout, m: seq<Byte>, at: nat): (r: seq<Byte>)
    requires at + SizeOf(t) <= |m|
    ensures |r| == |m|
  {
    Splice(m, at, Swap(h, t, m[at..at + SizeOf(t)]))
  }

  function SwapSizeAt(t: Layout, m: seq<Byte>, at: nat): (r: seq<Byte>)
    requires t.Text? || t.Vector?
    requires at + SizeOf(t) <= |m|
    ensures |r| == |m|
  {
    Splice(m, at, SwapSize(t, m[at..at + SizeOf(t)]))
  }

  // A vector of which the first i elements have been swapped.
  function SwapSomeAt(h: Endian, t: Layout, m: seq<Byte>, at: nat, i: nat): (r: seq<Byte>)
    requires t.Vector? && at + SizeOf(t) <= |m| && i <= t.capacity
    ensures |r| == |m|
  {
    Splice(m, at, SwapSome(h, t, m[at..at + SizeOf(t)], i))
  }

  function SwapSome(h: Endian, t: Layout, b: seq<Byte>, i: nat): (r: seq<Byte>)
    requires t.Vector? && |b| == SizeOf(t) && i <= t.capacity
    ensures |r| == |b|
  {
    var span := Span(t.capacity, SizeOf(t.element));
    SwapElements(h, t.element, t.capacity, b[..span], i) + b[span..]
  }

  function CountAt(h: Endian, t: Layout, m: seq<Byte>, at: nat): (count: nat)
    requires t.Vector? && at + SizeOf(t) <= |m|
    ensures count <= t.capacity
  {
    var offset := at + SizeOffset(t);
    Min(LoadLength(h, m[offset..offset + 4]), t.capacity)
  }

  lemma NothingToSwap(h: Endian, t: Layout, m: seq<Byte>, at: nat)
    requires at + SizeOf(t) <= |m|
    requires t.Raw? || (t.Scalar? && t.width <= 1)
    ensures SwapAt(h, t, m, at) == m
  {
    hide Splice;
    SpliceSame(m, at, SizeOf(t));
  }

  lemma ScalarSwapped(h: Endian, t: Layout, m: seq<Byte>, at: nat)
    requires at + SizeOf(t) <= |m| && t.Scalar?
    ensures SwapAt(h, t, m, at) == Splice(m, at, ByteSwap(h, m[at..at + t.width]))
  {
    hide Splice;
  }

  lemma TextSwapped(h: Endian, t: Layout, m: seq<Byte>, at: nat)
    requires at + SizeOf(t) <= |m| && t.Text?
    ensures SwapAt(h, t, m, at) == SwapSizeAt(t, m, at)
  {
    hide Splice;
  }

  lemma FieldsSwapped(h: Endian, t: Layout, m: seq<Byte>, at: nat)
    requires at + SizeOf(t) <= |m| && t.Fields?
    ensures SwapAt(h, t.rest, SwapAt(h, t.first, m, at), at + SizeOf(t.first)) == SwapAt(h, t, m, at)
  {
    hide Splice, Swap;
    var b, middle, size := m[at..at + SizeOf(t)], SizeOf(t.first), SizeOf(t);
    var second := SizeOf(t.rest);
    assert size == middle + second;
    FieldsUnfold(h, t, b);
    SliceParts(m, at, size, middle);
    var first := Swap(h, t.first, m[at..at + middle]);
    var once := Splice(m, at, first);
    SpliceOutside(m, at, first, at + middle, at + middle + second);
    var rest := Swap(h, t.rest, m[at + middle..at + middle + second]);
    assert SwapAt(h, t.first, m, at) == once;
    assert SwapAt(h, t.rest, once, at + middle) == Splice(once, at + middle, rest);
    SpliceAppend(m, at, first, rest);
  }

  lemma SliceParts(m: seq<Byte>, at: nat, size: nat, middle: nat)
    requires at + size <= |m| && middle <= size
    ensures m[at..at + size][..middle] == m[at..at + middle]
    ensures m[at..at + size][middle..] == m[at + middle..at + size]
  {
  }

  lemma FieldsUnfold(h: Endian, t: Layout, b: seq<Byte>)
    requires t.Fields? && |b| == SizeOf(t)
    ensures Swap(h, t, b) == Swap(h, t.first, b[..SizeOf(t.first)]) + Swap(h, t.rest, b[SizeOf(t.first)..])
  {
  }

  lemma SizeSwapped(h: Endian, t: Layout, m: seq<Byte>, at: nat)
    requires t.Text? || t.Vector?
    requires at + SizeOf(t) <= |m|
    ensures var offset := at + SizeOffset(t);
            offset + 4 <= |m| && Splice(m, offset, ByteSwap(h, m[offset..offset + 4])) == SwapSizeAt(t, m, at)
  {
    hide Splice, Reversed, SwapSize, ByteSwap;
    var b, offset := m[at..at + SizeOf(t)], SizeOffset(t);
    SliceOfSlice(m, at, SizeOf(t), offset, 4);
    SwapSizeIsSplice(t, b);
    SpliceSame(m, at, SizeOf(t));
    SpliceInto(m, at, b, offset, Reversed(b[offset..offset + 4]));
  }

  lemma SwapSizeIsSplice(t: Layout, b: seq<Byte>)
    requires t.Text? || t.Vector?
    requires |b| == SizeOf(t)
    ensures SwapSize(t, b) == Splice(b, SizeOffset(t), Reversed(b[SizeOffset(t)..SizeOffset(t) + 4]))
  {
  }

  lemma VectorStarts(h: Endian, t: Layout, m: seq<Byte>, at: nat)
    requires t.Vector? && at + SizeOf(t) <= |m|
    ensures SwapSomeAt(h, t, m, at, 0) == m
  {
    var b, span := m[at..at + SizeOf(t)], Span(t.capacity, SizeOf(t.element));
    assert b[..span] + b[span..] == b;
    SpliceSame(m, at, SizeOf(t));
  }

  lemma VectorSteps(h: Endian, t: Layout, m: seq<Byte>, at: nat, i: nat)
    requires t.Vector? && at + SizeOf(t) <= |m| && i < t.capacity
    ensures Span(i, SizeOf(t.element)) + SizeOf(t.element) <= SizeOf(t)
    ensures SwapAt(h, t.element, SwapSomeAt(h, t, m, at, i), at + Span(i, SizeOf(t.element)))
         == SwapSomeAt(h, t, m, at, i + 1)
  {
    hide Swap, SwapElements, Splice;
    var b, size := m[at..at + SizeOf(t)], SizeOf(t.element);
    var span, offset := Span(t.capacity, size), Span(i, size);
    var elements := SwapElements(h, t.element, t.capacity, b[..span], i);
    var whole := SwapSome(h, t, b, i);
    SpanBounds(i, t.capacity, size);
    SwapOneMore(h, t.element, t.capacity, b[..span], i);
    SwappedElement(h, t.element, t.capacity, b[..span], i, i);
    SpliceInside(m, at, whole, offset, size);
    assert whole[offset..offset + size] == Element(elements, i, t.capacity, size);
    var e := Swap(h, t.element, Element(b[..span], i, t.capacity, size));
    SpliceInto(m, at, whole, offset, e);
    SpliceLeft(elements, b[span..], offset, e);
  }

  lemma VectorEnds(h: Endian, t: Layout, m: seq<Byte>, at: nat)
    requires t.Vector? && at + SizeOf(t) <= |m|
    ensures SwapSizeAt(t, SwapSomeAt(h, t, m, at, CountAt(h, t, m, at)), at) == SwapAt(h, t, m, at)
  {
    hide Splice, SwapElements, SwapSize, LoadLength;
    SliceOfSlice(m, at, SizeOf(t), SizeOffset(t), 4);
    var some := SwapSome(h, t, m[at..at + SizeOf(t)], CountAt(h, t, m, at));
    SpliceInside(m, at, some, 0, SizeOf(t));
    SpliceOver(m, at, some, SwapSize(t, some));
  }

  // ---- The code ----

  // SwapAt changes the value at this place, to what Swap makes of it, and no other byte.
  lemma OnlyTheValue(h: Endian, t: Layout, m: seq<Byte>, at: nat)
    requires at + SizeOf(t) <= |m|
    ensures var r := SwapAt(h, t, m, at);
            r[at..at + SizeOf(t)] == Swap(h, t, m[at..at + SizeOf(t)]) && SameOutside(m, r, at, at + SizeOf(t))
  {
    hide Swap;
  }

  method PortableSwap(h: Endian, t: Layout, mem: array<Byte>, at: nat)
    requires at + SizeOf(t) <= mem.Length
    modifies mem
    ensures mem[..] == SwapAt(h, t, old(mem[..]), at)
    decreases t
  {
    hide Splice, SwapAt, SwapSizeAt, SwapSomeAt, CountAt, ByteSwap;
    ghost var m := mem[..];
    match t
    case Raw(_) =>
      NothingToSwap(h, t, m, at);
    case Scalar(width) =>
      if width > 1 {
        ScalarSwapped(h, t, m, at);
        Write(mem, at, ByteSwap(h, mem[..][at..at + width]));
      } else {
        NothingToSwap(h, t, m, at);
      }
    case Text(_, _, _) =>
      SwapStoredSize(h, t, mem, at);
      TextSwapped(h, t, m, at);
    case Vector(element, _, _, _) =>
      var count := ReadCount(h, t, mem, at);
      VectorStarts(h, t, m, at);
      for i := 0 to count
        invariant mem[..] == SwapSomeAt(h, t, m, at, i)
      {
        VectorSteps(h, t, m, at, i);
        PortableSwap(h, element, mem, at + Span(i, SizeOf(element)));
      }
      SwapStoredSize(h, t, mem, at);
      VectorEnds(h, t, m, at);
    case Fields(first, rest) =>
      PortableSwap(h, first, mem, at);
      PortableSwap(h, rest, mem, at + SizeOf(first));
      FieldsSwapped(h, t, m, at);
  }

  // min(val.size_, capacity), as the host reads it.
  method ReadCount(h: Endian, t: Layout, mem: array<Byte>, at: nat) returns (count: nat)
    requires t.Vector? && at + SizeOf(t) <= mem.Length
    ensures count == CountAt(h, t, mem[..], at) <= t.capacity
  {
    hide LoadLength;
    var offset := at + SizeOffset(t);
    var stored := LoadLength(h, mem[..][offset..offset + 4]);
    count := if stored <= t.capacity then stored else t.capacity;
  }

  // val.size_ = byte_swap(val.size_)
  method SwapStoredSize(h: Endian, t: Layout, mem: array<Byte>, at: nat)
    requires t.Text? || t.Vector?
    requires at + SizeOf(t) <= mem.Length
    modifies mem
    ensures mem[..] == SwapSizeAt(t, old(mem[..]), at)
  {
    hide Splice, SwapSizeAt, ByteSwap;
    var offset := at + SizeOffset(t);
    SizeSwapped(h, t, mem[..], at);
    Write(mem, offset, ByteSwap(h, mem[..][offset..offset + 4]));
  }

  // ---- The wire image ----

  // A length stored through to_little_endian, and read back through from_little_endian.
  function StoreNormalisedLength(h: Endian, n: nat): (r: seq<Byte>)
    ensures |r| == 4
  {
    if h == Big then ByteSwap(h, StoreLength(h, n)) else StoreLength(h, n)
  }

  function LoadNormalisedLength(h: Endian, s: seq<Byte>): nat
    requires |s| == 4
  {
    LoadLength(h, if h == Big then ByteSwap(h, s) else s)
  }

  lemma NormalisedLength(h: Endian, n: nat)
    ensures StoreNormalisedLength(h, n) == StoreLength(Little, n)
    ensures LoadNormalisedLength(h, StoreLength(Little, n)) == n % LENGTH_LIMIT
  {
    hide LoadLength, ByteSwap;
    LoadStoreLength(h, n);
    ReversedTwice(StoreLength(Little, n));
  }

  /** The payload portable_encode writes and portable_decode undoes: big-endian hosts
      swap it, little-endian hosts copy it. */
  function Normalised(h: Endian, t: Layout, b: seq<Byte>): (r: seq<Byte>)
    requires |b| == SizeOf(t)
    ensures |r| == |b|
  {
    if h == Big then Swap(h, t, b) else b
  }

  function WireHeader(h: Endian, m: MsgType, crc: bv32): (r: seq<Byte>) {
    Store32(h, ToLittleEndian32(h, MAGIC)) + Store16(h, ToLittleEndian16(h, m.id))
    + Store16(h, ToLittleEndian16(h, m.version)) + Store32(h, ToLittleEndian32(h, crc))
    + StoreNormalisedLength(h, m.Size())
  }

  /** What portable_encode writes for a value of type m with layout t. */
  function WireImage(h: Endian, m: MsgType, t: Layout, source: seq<Byte>, computeCrc: bool): (r: seq<Byte>)
    requires |source| == SizeOf(t)
  {
    var payload := Normalised(h, t, source);
    WireHeader(h, m, StoredCrc(payload, computeCrc)) + payload
  }

  // Every host writes the packet a little-endian host would write.
  lemma WireImageIsLittle(h: Endian, m: MsgType, t: Layout, source: seq<Byte>, computeCrc: bool)
    requires |source| == SizeOf(t)
    ensures var payload := Normalised(h, t, source);
            WireImage(h, m, t, source, computeCrc) == Packet(Little, m, payload, StoredCrc(payload, computeCrc))
  {
    var crc := StoredCrc(Normalised(h, t, source), computeCrc);
    NormalisedStore32(h, MAGIC);
    NormalisedStore16(h, m.id);
    NormalisedStore16(h, m.version);
    NormalisedStore32(h, crc);
    NormalisedLength(h, m.Size());
    hide Store32, Store16, StoreLength, StoreNormalisedLength, ToLittleEndian32, ToLittleEndian16, Normalised,
      StoredCrc;
  }

  datatype Decoded = Decoded(error: ErrorCode, dest: seq<Byte>)

  // The checks portable_decode makes before the checksum.
  function HeaderError(h: Endian, m: MsgType, source: Buffer): ErrorCode {
    if source.Null? || |source.bytes| < HEADER_SIZE + m.Size() then BufferTooSmall
    else
      var b := source.bytes;
      if ToLittleEndian32(h, Load32(h, b[..4])) != MAGIC then BadMagic
      else if ToLittleEndian16(h, Load16(h, b[4..6])) != m.id then IdMismatch
      else if ToLittleEndian16(h, Load16(h, b[6..8])) != m.version then VersionMismatch
      else if LoadNormalisedLength(h, b[12..16]) != m.Size() then BufferTooSmall
      else Ok
  }

  // Does the stored checksum call for a check that the computed one fails?
  predicate ChecksumDiffers(h: Endian, stored: seq<Byte>, computed: bv32)
    requires |stored| == 4
  {
    Load32(h, stored) != 0 && computed != ToLittleEndian32(h, Load32(h, stored))
  }

  /** portable_decode: the error, and the bytes of `dest` afterwards. */
  function Decode(h: Endian, m: MsgType, t: Layout, source: Buffer, dest: seq<Byte>, verifyCrc: bool): Decoded
    requires m.Size() == SizeOf(t)
  {
    var error := HeaderError(h, m, source);
    if error != Ok then Decoded(error, dest)
    else
      var payload := source.bytes[HEADER_SIZE..HEADER_SIZE + m.Size()];
      if verifyCrc && ChecksumDiffers(h, source.bytes[8..12], Checksum(payload)) then Decoded(ChecksumMismatch, dest)
      else Decoded(Ok, Normalised(h, t, payload))
  }

  lemma LoadedLengthAsLittle(h: Endian, s: seq<Byte>)
    requires |s| == 4
    ensures LoadNormalisedLength(h, s) == LoadLength(Little, s)
  {
    hide LoadLength;
    LoadLengthFlipped(Big, s);
  }

  /** What portable_decode answers on any host, on a buffer that is long enough, by the
      little-endian fields that lie there: each error exactly when its check is the first
      to fail, and Ok exactly when none does. */
  lemma DecodeExactly(h: Endian, m: MsgType, t: Layout, address: nat, bytes: seq<Byte>, dest: seq<Byte>,
                      verifyCrc: bool)
    requires m.Size() == SizeOf(t) && |bytes| >= 16 + |m.initial|
    ensures var error := Decode(h, m, t, Memory(address, bytes), dest, verifyCrc).error;
            var right, same := Load32(Little, bytes[0..4]) == 0x574E4953, Load16(Little, bytes[4..6]) == m.id;
            var current := Load16(Little, bytes[6..8]) == m.version;
            var fits := LoadLength(Little, bytes[12..16]) == |m.initial|;
            var stored, payload := Load32(Little, bytes[8..12]), bytes[16..16 + |m.initial|];
            var intact := !verifyCrc || stored == 0 || Checksum(payload) == stored;
            && (error == BadMagic <==> !right)
            && (error == IdMismatch <==> right && !same)
            && (error == VersionMismatch <==> right && same && !current)
            && (error == BufferTooSmall <==> right && same && current && !fits)
            && (error == ChecksumMismatch <==> right && same && current && fits && !intact)
            && (error == Ok <==> right && same && current && fits && intact)
  {
    hide Load32, Load16, LoadLength, Checksum, Normalised, HeaderError, ChecksumDiffers;
    HeaderErrorIs(h, m, address, bytes);
    ChecksumDiffersIs(h, bytes[8..12], Checksum(bytes[16..16 + |m.initial|]));
  }

  /** A null or short buffer is refused as such. On every error the destination is as it
      was; otherwise it holds the payload, normalised. */
  lemma DecodeWritesExactly(h: Endian, m: MsgType, t: Layout, source: Buffer, dest: seq<Byte>, verifyCrc: bool)
    requires m.Size() == SizeOf(t)
    ensures var r := Decode(h, m, t, source, dest, verifyCrc);
            && (source.Null? || |source.bytes| < 16 + |m.initial| ==> r.error == BufferTooSmall)
            && (r.error != Ok ==> r.dest == dest)
            && (r.error == Ok ==> source.Memory? && |source.bytes| >= 16 + |m.initial|
                                  && r.dest == Normalised(h, t, source.bytes[16..16 + |m.initial|]))
  {
    hide Normalised, ChecksumDiffers, Checksum, Load32, Load16, ToLittleEndian16, ToLittleEndian32,
      LoadNormalisedLength;
  }

  lemma HeaderErrorIs(h: Endian, m: MsgType, address: nat, bytes: seq<Byte>)
    ensures HeaderError(h, m, Null) == BufferTooSmall
    ensures HeaderError(h, m, Memory(address, bytes))
         == if |bytes| < 16 + |m.initial| then BufferTooSmall
            else if Load32(Little, bytes[0..4]) != MAGIC then BadMagic
            else if Load16(Little, bytes[4..6]) != m.id then IdMismatch
            else if Load16(Little, bytes[6..8]) != m.version then VersionMismatch
            else if LoadLength(Little, bytes[12..16]) != |m.initial| then BufferTooSmall
            else Ok
  {
    hide Load32, Load16, LoadLength, ToLittleEndian16, ToLittleEndian32, LoadNormalisedLength;
    if |bytes| >= 16 + |m.initial| {
      LoadedAsLittle(h, bytes[4..6], bytes[0..4]);
      LoadedAsLittle(h, bytes[6..8], bytes[8..12]);
      LoadedLengthAsLittle(h, bytes[12..16]);
    }
  }

  lemma ChecksumDiffersIs(h: Endian, stored: seq<Byte>, computed: bv32)
    requires |stored| == 4
    ensures ChecksumDiffers(h, stored, computed) <==> Load32(Little, stored) != 0 && computed != Load32(Little, stored)
  {
    hide Load32, Load16, ToLittleEndian16, Bswap32;
    LoadedAsLittle(h, stored[0..2], stored);
    BswapOfZero(Load32(h, stored));
  }

  /** A little-endian packet written as type m and decoded as type u, with anything behind
      it: accepted exactly when the types agree in id, version and size and the stored
      checksum is 0, unchecked or right. */
  lemma DecodeAcceptsExactly(h: Endian, m: MsgType, u: MsgType, t: Layout, payload: seq<Byte>, crc: bv32,
                             slack: seq<Byte>, address: nat, dest: seq<Byte>, verifyCrc: bool)
    requires Fits(m) && |payload| == m.Size() && u.Size() == SizeOf(t)
    ensures var r := Decode(h, u, t, Memory(address, Packet(Little, m, payload, crc) + slack), dest, verifyCrc);
            && (r.error == Ok <==> && u.id == m.id && u.version == m.version && u.Size() == m.Size()
                                   && (verifyCrc && crc != 0 ==> Checksum(payload) == crc))
            && r.dest == if r.error == Ok then Normalised(h, t, payload) else dest
  {
    hide Decode, Packet, ReadHeader, Checksum, Normalised;
    var bytes := Packet(Little, m, payload, crc) + slack;
    DecodeWritesExactly(h, u, t, Memory(address, bytes), dest, verifyCrc);
    if |bytes| >= 16 + |u.initial| {
      DecodeExactly(h, u, t, address, bytes, dest, verifyCrc);
    }
    PacketHeader(Little, m, payload, crc, slack);
    FieldsRead(bytes);
    PacketEnds(m, payload, crc);
    assert u.Size() == m.Size() ==> bytes[16..16 + |u.initial|] == payload;
  }

  lemma FieldsRead(bytes: seq<Byte>)
    requires |bytes| >= HEADER_SIZE
    ensures ReadHeader(Little, bytes) == Header(Load32(Little, bytes[0..4]), Load16(Little, bytes[4..6]),
                                                Load16(Little, bytes[6..8]), Load32(Little, bytes[8..12]),
                                                LoadLength(Little, bytes[12..16]))
  {
    hide Load32, Load16, LoadLength;
    assert bytes[0..4] == bytes[..4];
  }

  lemma PacketEnds(m: MsgType, payload: seq<Byte>, crc: bv32)
    ensures Packet(Little, m, payload, crc)[16..] == payload
  {
    hide HeaderBytes;
  }

  /** The wire is little-endian: on any host, a scalar is encoded low byte first. */
  lemma ScalarsAreLittleEndian(h: Endian, v16: bv16, v32: bv32, v64: bv64)
    ensures Normalised(h, Scalar(2), Store16(h, v16)) == Store16(Little, v16)
    ensures Normalised(h, Scalar(4), Store32(h, v32)) == Store32(Little, v32)
    ensures Normalised(h, Scalar(8), Store64(h, v64)) == Store64(Little, v64)
  {
    hide Little32, Low16, High16, LowHalf, HighHalf;
    if h == Big {
      ReversedTwice(Store32(Little, v32));
      assert Reversed(Store16(Big, v16)) == Store16(Little, v16);
      var low, high := Little32(LowHalf(v64)), Little32(HighHalf(v64));
      assert Reversed(Reversed(high) + Reversed(low)) == low + high;
    }
  }

  // A scalar means its number, to every host.
  lemma MeaningOfScalars(h: Endian, v16: bv16, v32: bv32, v64: bv64)
    ensures Meaning(h, Scalar(2), Store16(h, v16)) == Digits(Store16(Little, v16))
    ensures Meaning(h, Scalar(4), Store32(h, v32)) == Digits(Store32(Little, v32))
    ensures Meaning(h, Scalar(8), Store64(h, v64)) == Digits(Store64(Little, v64))
  {
    ScalarsAreLittleEndian(h, v16, v32, v64);
    hide Little32, Low16, High16, LowHalf, HighHalf;
    assert Reversed(Store16(Big, v16)) == Store16(Little, v16);
  }

  // And a string or vector with a little-endian size_.
  lemma SizesAreLittleEndian(h: Endian, t: Layout, b: seq<Byte>)
    requires (t.Text? || t.Vector?) && |b| == SizeOf(t)
    ensures StoredSize(Little, t, Normalised(h, t, b)) == StoredSize(h, t, b)
  {
    hide StoredSize, SwapSize, SwapElements;
    if t.Text? {
      SwapSizeReads(Little, t, b);
      SwapSizeReads(Big, t, b);
    } else {
      SwappedSizeFlipped(h, t, b);
    }
  }

  // Decoding a little-endian packet, with anything behind it.
  lemma DecodePacket(h: Endian, m: MsgType, t: Layout, payload: seq<Byte>, crc: bv32, slack: seq<Byte>, address: nat,
                     dest: seq<Byte>, verifyCrc: bool)
    requires m.Size() == SizeOf(t) == |payload| && Fits(m)
    ensures Decode(h, m, t, Memory(address, Packet(Little, m, payload, crc) + slack), dest, verifyCrc)
         == if CrcAccepted(payload, crc, verifyCrc) then Decoded(Ok, Normalised(h, t, payload))
            else Decoded(ChecksumMismatch, dest)
  {
    var b := Packet(Little, m, payload, crc) + slack;
    hide Swap;
    NormalisedStore32(h, MAGIC);
    NormalisedStore16(h, m.id);
    NormalisedStore16(h, m.version);
    NormalisedStore32(h, crc);
    NormalisedLength(h, m.Size());
    ZeroEitherWay(h, crc);
    hide Store32, Store16, StoreLength, Load32, Load16, LoadNormalisedLength, ToLittleEndian32, ToLittleEndian16,
         Normalised, Checksum;
    assert b[..4] == Store32(Little, MAGIC);
    assert b[4..6] == Store16(Little, m.id) && b[6..8] == Store16(Little, m.version);
    assert b[8..12] == Store32(Little, crc) && b[12..16] == StoreLength(Little, m.Size());
    assert b[HEADER_SIZE..HEADER_SIZE + m.Size()] == payload;
  }

  // A checksum field is zero on every host or on none.
  lemma ZeroEitherWay(h: Endian, crc: bv32)
    ensures Load32(h, Store32(Little, crc)) == 0 <==> crc == 0
  {
    NormalisedStore32(h, crc);
    BswapOfZero(Load32(h, Store32(Little, crc)));
    hide Load32, Store32, Bswap32;
  }

  lemma BswapOfZero(v: bv32)
    ensures Bswap32(v) == 0 <==> v == 0
  {
  }

  // ---- The code ----

  function CrcFieldLittle(h: Endian, payload: seq<Byte>, computeCrc: bool): (r: seq<Byte>)
    ensures |r| == 4
  {
    Store32(h, ToLittleEndian32(h, StoredCrc(payload, computeCrc)))
  }

  function HeaderStart(h: Endian, m: MsgType): (r: seq<Byte>)
    ensures |r| == 8
  {
    Store32(h, ToLittleEndian32(h, MAGIC)) + Store16(h, ToLittleEndian16(h, m.id))
    + Store16(h, ToLittleEndian16(h, m.version))
  }

  // The crc field is written last, into the gap left for it.
  lemma EncodedParts(mem: seq<Byte>, at: nat, start: seq<Byte>, length: seq<Byte>, payload: seq<Byte>, crc: seq<Byte>)
    requires |start| == 8 && |length| == |crc| == 4 && at + HEADER_SIZE + |payload| <= |mem|
    ensures Splice(Splice(Splice(Splice(mem, at, start), at + 12, length), at + 16, payload), at + 8, crc)
         == Splice(mem, at, start + crc + length + payload)
  {
    hide Splice;
    var first := Splice(mem, at, start);
    SpliceAppend(first, at + 12, length, payload);
    SplicePrepend(first, at + 8, crc, length + payload);
    SpliceAppend(mem, at, start, crc + (length + payload));
    assert start + (crc + (length + payload)) == start + crc + length + payload;
  }

  method EncodedCrc(h: Endian, table: seq<bv32>, mem: array<Byte>, at: nat, length: nat, computeCrc: bool)
    returns (field: seq<Byte>)
    requires IsTable(table) && at + length <= mem.Length
    ensures field == CrcFieldLittle(h, mem[..][at..at + length], computeCrc)
  {
    hide Checksum, Store32, IsTable, ToLittleEndian32;
    assert mem[..][at..at + length] == mem[at..at + length];
    if computeCrc {
      var crc := ComputeDefault(table, mem, at, length);
      return Store32(h, ToLittleEndian32(h, crc));
    }
    ZeroCrcField(h);
    return Store32(h, 0);
  }

  lemma ZeroCrcField(h: Endian)
    ensures ToLittleEndian32(h, 0) == 0
  {
  }

  // The memcpy of the payload, and the swap on big-endian hosts.
  method CopyNormalised(h: Endian, t: Layout, dest: array<Byte>, at: nat, source: seq<Byte>)
    requires |source| == SizeOf(t) && at + |source| <= dest.Length
    modifies dest
    ensures dest[..] == Splice(old(dest[..]), at, Normalised(h, t, source))
  {
    hide Splice, Swap, SwapAt, Normalised;
    ghost var before := dest[..];
    NormalisedInPlace(h, t, before, at, source);
    Write(dest, at, source);
    if h == Big {
      PortableSwap(h, t, dest, at);
    }
  }

  // portable_encode into a buffer that is large enough.
  method EncodeInto(h: Endian, table: seq<bv32>, m: MsgType, t: Layout, dest: array<Byte>, at: nat, source: seq<Byte>,
                    computeCrc: bool)
    requires IsTable(table) && |source| == SizeOf(t) == m.Size()
    requires at + HEADER_SIZE + m.Size() <= dest.Length
    modifies dest
    ensures dest[..] == Splice(old(dest[..]), at, WireImage(h, m, t, source, computeCrc))
  {
    hide Splice, Normalised, StoreNormalisedLength, HeaderStart, CrcFieldLittle, IsTable, WireImage, SizeOf;
    ghost var before := dest[..];
    var start, length := HeaderStart(h, m), StoreNormalisedLength(h, m.Size());
    Write(dest, at, start);
    Write(dest, at + 12, length);
    ghost var header := dest[..];
    CopyNormalised(h, t, dest, at + HEADER_SIZE, source);
    ghost var payload := Normalised(h, t, source);
    SpliceInside(header, at + HEADER_SIZE, payload, 0, m.Size());
    assert payload[0..m.Size()] == payload;
    assert dest[..][at + HEADER_SIZE..at + HEADER_SIZE + m.Size()] == payload;
    var field := EncodedCrc(h, table, dest, at + HEADER_SIZE, m.Size(), computeCrc);
    Write(dest, at + 8, field);
    EncodedParts(before, at, start, length, payload, field);
    WireImageParts(h, m, t, source, computeCrc);
  }

  lemma NormalisedInPlace(h: Endian, t: Layout, mem: seq<Byte>, at: nat, source: seq<Byte>)
    requires |source| == SizeOf(t) && at + |source| <= |mem|
    ensures (if h == Big then SwapAt(h, t, Splice(mem, at, source), at) else Splice(mem, at, source))
         == Splice(mem, at, Normalised(h, t, source))
  {
    hide Splice, Swap;
    SpliceInside(mem, at, source, 0, |source|);
    SpliceOver(mem, at, source, Swap(h, t, source));
  }

  lemma WireImageParts(h: Endian, m: MsgType, t: Layout, source: seq<Byte>, computeCrc: bool)
    requires |source| == SizeOf(t)
    ensures var payload := Normalised(h, t, source);
            WireImage(h, m, t, source, computeCrc)
            == HeaderStart(h, m) + CrcFieldLittle(h, payload, computeCrc) + StoreNormalisedLength(h, m.Size()) + payload
  {
    hide Store32, Store16, StoreNormalisedLength, ToLittleEndian32, ToLittleEndian16, Normalised, StoredCrc;
  }

  /** The packet of a payload as it lies in memory, field by field. */
  ghost predicate IsEncoding(bytes: seq<Byte>, m: MsgType, payload: seq<Byte>, computeCrc: bool) {
    && |bytes| == 16 + |payload|
    && bytes[0..4] == [Byte(0x53), Byte(0x49), Byte(0x4E), Byte(0x57)]
    && Load16(Little, bytes[4..6]) == m.id && Load16(Little, bytes[6..8]) == m.version
    && Load32(Little, bytes[8..12]) == (if computeCrc then Checksum(payload) else 0)
    && LoadLength(Little, bytes[12..16]) == |m.initial| % 0x1_0000_0000
    && bytes[16..] == payload
  }

  lemma EncodingIsRead(h: Endian, m: MsgType, t: Layout, source: seq<Byte>, computeCrc: bool)
    requires |source| == SizeOf(t) == m.Size()
    ensures |WireImage(h, m, t, source, computeCrc)| == HEADER_SIZE + m.Size()
    ensures IsEncoding(WireImage(h, m, t, source, computeCrc), m, Normalised(h, t, source), computeCrc)
  {
    hide WireImage, Normalised, HeaderBytes, Load16, Load32, LoadLength, Store32, Store16, StoreLength, Checksum;
    var payload := Normalised(h, t, source);
    var crc := if computeCrc then Checksum(payload) else 0;
    WireImageIsLittle(h, m, t, source, computeCrc);
    HeaderInMemory(Little, Header(MAGIC, m.id, m.version, crc, m.Size()));
    LoadStore16(Little, m.id);
    LoadStore16(Little, m.version);
    LoadStore32(Little, crc);
    LoadStoreLength(Little, m.Size());
    EncodingOfParts(HeaderBytes(Little, Header(MAGIC, m.id, m.version, crc, m.Size())), payload);
  }

  lemma EncodingOfParts(header: seq<Byte>, payload: seq<Byte>)
    requires |header| == 16
    ensures var bytes := header + payload;
            && bytes[0..4] == header[0..4] && bytes[4..6] == header[4..6] && bytes[6..8] == header[6..8]
            && bytes[8..12] == header[8..12] && bytes[12..16] == header[12..16] && bytes[16..] == payload
  {
  }

  /** portable_encode: nothing is written to a null or short buffer. */
  method PortableEncode(h: Endian, table: seq<bv32>, m: MsgType, t: Layout, dest: array?<Byte>, at: nat, capacity: nat,
                        source: seq<Byte>, computeCrc: bool) returns (written: nat)
    requires IsTable(table) && |source| == SizeOf(t) == m.Size()
    requires dest != null ==> at + capacity <= dest.Length
    modifies dest
    ensures written == if dest == null || capacity < HEADER_SIZE + m.Size() then 0 else HEADER_SIZE + m.Size()
    ensures written == 0 && dest != null ==> dest[..] == old(dest[..])
    ensures written > 0 ==> dest[..] == Splice(old(dest[..]), at, WireImage(h, m, t, source, computeCrc))
    ensures written > 0 ==> && SameOutside(old(dest[..]), dest[..], at, at + written)
                            && IsEncoding(dest[at..at + written], m, Normalised(h, t, source), computeCrc)
  {
    hide Splice, WireImage, IsTable, IsEncoding, SizeOf, Normalised;
    if dest == null || capacity < HEADER_SIZE + m.Size() {
      return 0;
    }
    EncodeInto(h, table, m, t, dest, at, source, computeCrc);
    EncodingIsRead(h, m, t, source, computeCrc);
    SpliceStaysInside(old(dest[..]), at, WireImage(h, m, t, source, computeCrc), at, at + HEADER_SIZE + m.Size());
    return HEADER_SIZE + m.Size();
  }

  /** portable_decode: `source + at` is the pointer argument with size `length`, and the
      array `dest` is the destination struct. */
  method PortableDecode(h: Endian, table: seq<bv32>, m: MsgType, t: Layout, source: array?<Byte>, at: nat, length: nat,
                        dest: array<Byte>, verifyCrc: bool) returns (error: ErrorCode)
    requires IsTable(table) && m.Size() == SizeOf(t) == dest.Length && source != dest
    requires source != null ==> at + length <= source.Length
    modifies dest
    ensures var buffer := if source == null then Null else Memory(at, source[at..at + length]);
            Decoded(error, dest[..]) == Decode(h, m, t, buffer, old(dest[..]), verifyCrc)
    ensures error != Ok ==> dest[..] == old(dest[..])
  {
    hide HeaderError, ChecksumDiffers, Checksum, Swap, SwapAt, IsTable, Splice;
    var buffer := if source == null then Null else Memory(at, source[at..at + length]);
    error := HeaderError(h, m, buffer);
    if error == Ok {
      HeaderOkFits(h, m, buffer);
      SliceOfSlice(source[..], at, length, HEADER_SIZE, m.Size());
      ghost var payload := buffer.bytes[HEADER_SIZE..HEADER_SIZE + m.Size()];
      assert source[at + HEADER_SIZE..at + HEADER_SIZE + m.Size()] == payload;
      if verifyCrc {
        var computed := ComputeDefault(table, source, at + HEADER_SIZE, m.Size());
        if ChecksumDiffers(h, buffer.bytes[8..12], computed) {
          return ChecksumMismatch;
        }
      }
      Write(dest, 0, source[at + HEADER_SIZE..at + HEADER_SIZE + m.Size()]);
      WholeSplice(old(dest[..]), payload);
      if h == Big {
        PortableSwap(h, t, dest, 0);
        WholeSwap(h, t, payload);
      }
    }
  }

  lemma HeaderOkFits(h: Endian, m: MsgType, source: Buffer)
    requires HeaderError(h, m, source) == Ok
    ensures source.Memory? && |source.bytes| >= HEADER_SIZE + m.Size()
  {
  }

  lemma WholeSwap(h: Endian, t: Layout, b: seq<Byte>)
    requires |b| == SizeOf(t)
    ensures SwapAt(h, t, b, 0) == Swap(h, t, b)
  {
    hide Swap;
    assert b[0..SizeOf(t)] == b;
  }

  // ---- Meaning is preserved between hosts ----

  lemma NormalisedMeaning(h: Endian, t: Layout, b: seq<Byte>)
    requires |b| == SizeOf(t) && Supported(t) && ShortVectors(t)
    ensures WellFormed(h, t, b) ==>
              Meaning(Little, t, Normalised(h, t, b)) == Meaning(h, t, b) && WellFormed(Little, t, Normalised(h, t, b))
    ensures WellFormed(Little, t, b) ==>
              Meaning(h, t, Normalised(h, t, b)) == Meaning(Little, t, b) && WellFormed(h, t, Normalised(h, t, b))
  {
    hide Meaning, WellFormed, Supported, ShortVectors, Swap, VisitsAll;
    if h == Big {
      if WellFormed(Big, t, b) {
        ShortVectorsVisited(Big, Big, t, b);
        SwapTransfers(Big, Big, t, b);
      }
      if WellFormed(Little, t, b) {
        ShortVectorsVisited(Big, Little, t, b);
        SwapTransfers(Big, Little, t, b);
      }
    }
  }

  /** What one host encodes, any other host decodes to the same value. */
  ghost predicate Exchanged(from: Endian, to: Endian, m: MsgType, t: Layout, source: seq<Byte>)
    requires |source| == SizeOf(t) == m.Size()
  {
    forall computeCrc: bool, verifyCrc: bool, slack: seq<Byte>, address: nat, dest: seq<Byte> ::
      var r := Decode(to, m, t, Memory(address, WireImage(from, m, t, source, computeCrc) + slack), dest, verifyCrc);
      && r.error == Ok
      && |r.dest| == SizeOf(t)
      && WellFormed(to, t, r.dest)
      && Meaning(to, t, r.dest) == Meaning(from, t, source)
  }

  lemma EncodeThenDecode(from: Endian, to: Endian, m: MsgType, t: Layout, source: seq<Byte>, computeCrc: bool,
                         verifyCrc: bool, slack: seq<Byte>, address: nat, dest: seq<Byte>)
    requires |source| == SizeOf(t) == m.Size() && Fits(m)
    ensures Decode(to, m, t, Memory(address, WireImage(from, m, t, source, computeCrc) + slack), dest, verifyCrc)
         == Decoded(Ok, Normalised(to, t, Normalised(from, t, source)))
  {
    hide Decode, WireImage, Packet, Normalised, Checksum;
    var payload := Normalised(from, t, source);
    WireImageIsLittle(from, m, t, source, computeCrc);
    DecodePacket(to, m, t, payload, StoredCrc(payload, computeCrc), slack, address, dest, verifyCrc);
  }

  lemma ExchangePreservesMeaning(from: Endian, to: Endian, m: MsgType, t: Layout, source: seq<Byte>)
    requires |source| == SizeOf(t) == m.Size() && Fits(m)
    requires Supported(t) && ShortVectors(t) && WellFormed(from, t, source)
    ensures Exchanged(from, to, m, t, source)
  {
    hide Decode, WireImage, Meaning, WellFormed, Supported, ShortVectors;
    NormalisedMeaning(from, t, source);
    NormalisedMeaning(to, t, Normalised(from, t, source));
    forall computeCrc: bool, verifyCrc: bool, slack: seq<Byte>, address: nat, dest: seq<Byte>
      ensures Decode(to, m, t, Memory(address, WireImage(from, m, t, source, computeCrc) + slack), dest, verifyCrc)
           == Decoded(Ok, Normalised(to, t, Normalised(from, t, source)))
    {
      EncodeThenDecode(from, to, m, t, source, computeCrc, verifyCrc, slack, address, dest);
    }
  }

  // Every value of the type can be exchanged between any two hosts.
  ghost predicate AlwaysExchanged(m: MsgType, t: Layout)
    requires SizeOf(t) == m.Size()
  {
    forall from: Endian, to: Endian, source: seq<Byte> ::
      |source| == SizeOf(t) && WellFormed(from, t, source) ==> Exchanged(from, to, m, t, source)
  }

  /** A type is portable exactly when its vectors of more than 65535 elements hold only
      bytes. */
  lemma PortableExactly(m: MsgType, t: Layout)
    requires SizeOf(t) == m.Size() && Fits(m) && Supported(t)
    ensures AlwaysExchanged(m, t) <==> ShortVectors(t)
  {
    hide Meaning, WellFormed, Supported, ShortVectors, Exchanged, Swap, Unrestored;
    if ShortVectors(t) {
      forall from: Endian, to: Endian, source: seq<Byte> | |source| == SizeOf(t) && WellFormed(from, t, source)
        ensures Exchanged(from, to, m, t, source)
      {
        ExchangePreservesMeaning(from, to, m, t, source);
      }
    } else {
      UnrestoredFails(Big, t);
      NotExchanged(m, t, Unrestored(Big, t));
    }
  }

  lemma NotExchanged(m: MsgType, t: Layout, source: seq<Byte>)
    requires |source| == SizeOf(t) == m.Size() && Fits(m) && !Restored(Big, t, source)
    ensures !Exchanged(Big, Big, m, t, source)
  {
    hide Meaning, WellFormed, Decode, WireImage;
    EncodeThenDecode(Big, Big, m, t, source, false, false, [], 0, []);
    var r := Decode(Big, m, t, Memory(0, WireImage(Big, m, t, source, false) + []), [], false);
    assert r.dest == Swap(Big, t, Swap(Big, t, source));
  }
}
