/** Byte order: the memory images of 2, 4 and 8 byte integers on either kind of
    host, and the byte swaps of include/sinew/endian.hpp. */
module ByteOrder {

  // Wrapped, so that moving bytes about involves no bit-vector reasoning.
  datatype Byte = Byte(bits: bv8)

  datatype Endian = Little | Big {
    function Flip(): Endian {
      if this == Little then Big else Little
    }
  }

  function Reversed(s: seq<Byte>): (r: seq<Byte>)
    ensures |r| == |s|
    ensures forall i :: 0 <= i < |s| ==> r[i] == s[|s| - 1 - i]
  {
    seq(|s|, i requires 0 <= i < |s| => s[|s| - 1 - i])
  }

  lemma ReversedTwice(s: seq<Byte>)
    ensures Reversed(Reversed(s)) == s
  {
  }

  // ---- 16-bit integers ----

  function Join16(b0: Byte, b1: Byte): bv16 {
    (b0.bits as bv16) | ((b1.bits as bv16) << 8)
  }

  function Low16(v: bv16): Byte {
    Byte((v & 0xFF) as bv8)
  }

  function High16(v: bv16): Byte {
    Low16(v >> 8)
  }

  function Bswap16(v: bv16): bv16 {
    (v << 8) | (v >> 8)
  }

  // The bytes a host stores for a 16-bit integer (memcpy out of it).
  function Store16(h: Endian, v: bv16): (r: seq<Byte>)
    ensures |r| == 2
  {
    if h == Little then [Low16(v), High16(v)] else [High16(v), Low16(v)]
  }

  function Load16(h: Endian, s: seq<Byte>): bv16
    requires |s| == 2
  {
    if h == Little then Join16(s[0], s[1]) else Join16(s[1], s[0])
  }

  lemma Bytes16(b0: Byte, b1: Byte)
    ensures Low16(Join16(b0, b1)) == b0
    ensures High16(Join16(b0, b1)) == b1
  {
  }

  lemma Split16(v: bv16)
    ensures Join16(Low16(v), High16(v)) == v
  {
  }

  lemma LoadStore16(h: Endian, v: bv16)
    ensures Load16(h, Store16(h, v)) == v
  {
    hide Low16, High16, Join16;
    Split16(v);
  }

  lemma SwapJoin16(b0: Byte, b1: Byte)
    ensures Bswap16(Join16(b0, b1)) == Join16(b1, b0)
  {
  }

  lemma Bswap16Reverses(h: Endian, s: seq<Byte>)
    requires |s| == 2
    ensures Store16(h, Bswap16(Load16(h, s))) == Reversed(s)
  {
    hide Low16, High16, Join16, Bswap16;
    SwapJoin16(s[0], s[1]);
    SwapJoin16(s[1], s[0]);
    Bytes16(s[0], s[1]);
    Bytes16(s[1], s[0]);
  }

  // ---- 32-bit integers ----

  function Join32(b0: Byte, b1: Byte, b2: Byte, b3: Byte): bv32 {
    (b0.bits as bv32) | ((b1.bits as bv32) << 8) | ((b2.bits as bv32) << 16) | ((b3.bits as bv32) << 24)
  }

  function Low32(v: bv32): Byte {
    Byte((v & 0xFF) as bv8)
  }

  function Bswap32(v: bv32): bv32 {
    ((v & 0xFF000000) >> 24) | ((v & 0x00FF0000) >> 8) | ((v & 0x0000FF00) << 8) | ((v & 0x000000FF) << 24)
  }

  function Little32(v: bv32): (r: seq<Byte>)
    ensures |r| == 4
  {
    [Low32(v), Low32(v >> 8), Low32(v >> 16), Low32(v >> 24)]
  }

  function Store32(h: Endian, v: bv32): (r: seq<Byte>)
    ensures |r| == 4
  {
    if h == Little then Little32(v) else Reversed(Little32(v))
  }

  function Load32(h: Endian, s: seq<Byte>): bv32
    requires |s| == 4
  {
    if h == Little then Join32(s[0], s[1], s[2], s[3]) else Join32(s[3], s[2], s[1], s[0])
  }

  lemma Widen32(v: bv32)
    ensures Low32(v).bits as bv32 == v & 0xFF
  {
  }

  lemma Split32(v: bv32)
    ensures Join32(Low32(v), Low32(v >> 8), Low32(v >> 16), Low32(v >> 24)) == v
  {
    Widen32(v);
    Widen32(v >> 8);
    Widen32(v >> 16);
    Widen32(v >> 24);
    assert (v & 0xFF) | (((v >> 8) & 0xFF) << 8) | (((v >> 16) & 0xFF) << 16) | (((v >> 24) & 0xFF) << 24) == v;
  }

  lemma Byte0(b0: Byte, b1: Byte, b2: Byte, b3: Byte)
    ensures Low32(Join32(b0, b1, b2, b3)) == b0
  {
  }

  lemma Byte1(b0: Byte, b1: Byte, b2: Byte, b3: Byte)
    ensures Low32(Join32(b0, b1, b2, b3) >> 8) == b1
  {
  }

  lemma Byte2(b0: Byte, b1: Byte, b2: Byte, b3: Byte)
    ensures Low32(Join32(b0, b1, b2, b3) >> 16) == b2
  {
  }

  lemma Byte3(b0: Byte, b1: Byte, b2: Byte, b3: Byte)
    ensures Low32(Join32(b0, b1, b2, b3) >> 24) == b3
  {
  }

  lemma Bytes32(b0: Byte, b1: Byte, b2: Byte, b3: Byte)
    ensures Little32(Join32(b0, b1, b2, b3)) == [b0, b1, b2, b3]
  {
    hide Low32, Join32;
    Byte0(b0, b1, b2, b3);
    Byte1(b0, b1, b2, b3);
    Byte2(b0, b1, b2, b3);
    Byte3(b0, b1, b2, b3);
  }

  lemma LoadStore32(h: Endian, v: bv32)
    ensures Load32(h, Store32(h, v)) == v
  {
    hide Low32, Join32;
    Split32(v);
  }

  lemma StoreLoad32(h: Endian, s: seq<Byte>)
    requires |s| == 4
    ensures Store32(h, Load32(h, s)) == s
  {
    hide Little32, Join32;
    Bytes32(s[0], s[1], s[2], s[3]);
    Bytes32(s[3], s[2], s[1], s[0]);
    assert s == [s[0], s[1], s[2], s[3]];
    assert s == Reversed([s[3], s[2], s[1], s[0]]);
  }

  lemma SwapJoin32(b0: Byte, b1: Byte, b2: Byte, b3: Byte)
    ensures Bswap32(Join32(b0, b1, b2, b3)) == Join32(b3, b2, b1, b0)
  {
  }

  lemma Bswap32Reverses(h: Endian, s: seq<Byte>)
    requires |s| == 4
    ensures Bswap32(Load32(h, s)) == Load32(h, Reversed(s))
    ensures Store32(h, Bswap32(Load32(h, s))) == Reversed(s)
  {
    hide Low32, Join32, Bswap32;
    SwapJoin32(s[0], s[1], s[2], s[3]);
    SwapJoin32(s[3], s[2], s[1], s[0]);
    StoreLoad32(h, Reversed(s));
  }

  // ---- 64-bit integers ----

  function Join64(lo: bv32, hi: bv32): bv64 {
    (lo as bv64) | ((hi as bv64) << 32)
  }

  function LowHalf(v: bv64): bv32 {
    (v & 0xFFFF_FFFF) as bv32
  }

  function HighHalf(v: bv64): bv32 {
    LowHalf(v >> 32)
  }

  function Bswap64(v: bv64): bv64 {
    ((v & 0xFF00000000000000) >> 56) | ((v & 0x00FF000000000000) >> 40) |
    ((v & 0x0000FF0000000000) >> 24) | ((v & 0x000000FF00000000) >> 8) |
    ((v & 0x00000000FF000000) << 8) | ((v & 0x0000000000FF0000) << 24) |
    ((v & 0x000000000000FF00) << 40) | ((v & 0x00000000000000FF) << 56)
  }

  function Store64(h: Endian, v: bv64): (r: seq<Byte>)
    ensures |r| == 8
  {
    if h == Little then Store32(h, LowHalf(v)) + Store32(h, HighHalf(v))
    else Store32(h, HighHalf(v)) + Store32(h, LowHalf(v))
  }

  function Load64(h: Endian, s: seq<Byte>): bv64
    requires |s| == 8
  {
    if h == Little then Join64(Load32(h, s[..4]), Load32(h, s[4..]))
    else Join64(Load32(h, s[4..]), Load32(h, s[..4]))
  }

  // Swapping eight bytes swaps each half and exchanges the halves.
  lemma LowHalfSwapped(lo: bv32, hi: bv32)
    ensures LowHalf(Bswap64(Join64(lo, hi))) == Bswap32(hi)
  {
  }

  lemma HighHalfSwapped(lo: bv32, hi: bv32)
    ensures HighHalf(Bswap64(Join64(lo, hi))) == Bswap32(lo)
  {
  }

  lemma Bswap64Reverses(h: Endian, s: seq<Byte>)
    requires |s| == 8
    ensures Store64(h, Bswap64(Load64(h, s))) == Reversed(s)
  {
    hide LowHalf, HighHalf, Join64, Bswap64, Bswap32, Load32, Store32;
    var first, last := Load32(h, s[..4]), Load32(h, s[4..]);
    LowHalfSwapped(first, last);
    HighHalfSwapped(first, last);
    LowHalfSwapped(last, first);
    HighHalfSwapped(last, first);
    Bswap32Reverses(h, s[..4]);
    Bswap32Reverses(h, s[4..]);
    assert Reversed(s) == Reversed(s[4..]) + Reversed(s[..4]);
  }

  // ---- Lengths: 32-bit unsigned integers used as numbers ----

  const LENGTH_LIMIT: nat := 0x1_0000_0000

  function ValueOf(b: Byte): (n: nat)
    ensures n < 256
  {
    b.bits as nat
  }

  // The byte with a given value, counted up from zero: this keeps conversions from
  // integers to bit-vectors out of every proof.
  function ByteOf(n: nat): (b: Byte)
    requires n < 256
    ensures ValueOf(b) == n
  {
    if n == 0 then Byte(0) else Byte(ByteOf(n - 1).bits + 1)
  }

  function Number(b0: Byte, b1: Byte, b2: Byte, b3: Byte): (n: nat)
    ensures n < LENGTH_LIMIT
  {
    ValueOf(b0) + 256 * ValueOf(b1) + 0x1_0000 * ValueOf(b2) + 0x100_0000 * ValueOf(b3)
  }

  // static_cast<uint32_t>(n), stored by host h.
  function StoreLength(h: Endian, n: nat): (r: seq<Byte>)
    ensures |r| == 4
  {
    var m := n % LENGTH_LIMIT;
    var little := [ByteOf(m % 256), ByteOf(m / 256 % 256), ByteOf(m / 0x1_0000 % 256), ByteOf(m / 0x100_0000)];
    if h == Little then little else Reversed(little)
  }

  function LoadLength(h: Endian, s: seq<Byte>): (n: nat)
    requires |s| == 4
    ensures n < LENGTH_LIMIT
  {
    if h == Little then Number(s[0], s[1], s[2], s[3]) else Number(s[3], s[2], s[1], s[0])
  }

  lemma Digits(m: nat)
    requires m < LENGTH_LIMIT
    ensures (m % 256) + 256 * (m / 256 % 256) + 0x1_0000 * (m / 0x1_0000 % 256) + 0x100_0000 * (m / 0x100_0000) == m
  {
  }

  lemma LoadStoreLength(h: Endian, n: nat)
    ensures LoadLength(h, StoreLength(h, n)) == n % LENGTH_LIMIT
  {
    hide ValueOf;
    Digits(n % LENGTH_LIMIT);
  }

  lemma LoadLengthFlipped(h: Endian, s: seq<Byte>)
    requires |s| == 4
    ensures LoadLength(h.Flip(), s) == LoadLength(h, Reversed(s))
  {
    hide ValueOf;
  }

  // The fact behind in-place swapping of vectors: a length that fits in 16 bits
  // reads as zero or as more than 16 bits on a host of the other byte order.
  lemma ShortLengthReadsLong(h: Endian, s: seq<Byte>)
    requires |s| == 4
    requires LoadLength(h, s) <= 0xFFFF
    ensures LoadLength(h.Flip(), s) == 0 == LoadLength(h, s) || LoadLength(h.Flip(), s) > 0xFFFF
  {
    hide ValueOf;
  }

  // ---- byte_swap and to_little_endian on stored scalars ----

  predicate SwapWidth(w: nat) {
    w == 2 || w == 4 || w == 8
  }

  /** byte_swap: memcpy to an unsigned integer of the same width, swap it, memcpy
      back. Any other width is returned as it came. */
  function ByteSwap(h: Endian, s: seq<Byte>): (r: seq<Byte>)
    ensures SwapWidth(|s|) ==> r == Reversed(s)
    ensures !SwapWidth(|s|) ==> r == s
  {
    if |s| == 2 then
      Bswap16Reverses(h, s);
      Store16(h, Bswap16(Load16(h, s)))
    else if |s| == 4 then
      Bswap32Reverses(h, s);
      Store32(h, Bswap32(Load32(h, s)))
    else if |s| == 8 then
      Bswap64Reverses(h, s);
      Store64(h, Bswap64(Load64(h, s)))
    else
      s
  }

  function ToLittleEndian16(h: Endian, v: bv16): bv16 {
    if h == Big then Bswap16(v) else v
  }

  function ToLittleEndian32(h: Endian, v: bv32): bv32 {
    if h == Big then Bswap32(v) else v
  }

  // A normalised integer has the same memory image on every host, and reading
  // such an image back gives the same integer on every host.
  lemma NormalisedStore16(h: Endian, v: bv16)
    ensures Store16(h, ToLittleEndian16(h, v)) == Store16(Little, v)
    ensures ToLittleEndian16(h, Load16(h, Store16(Little, v))) == v
  {
    hide Low16, High16, Join16, Bswap16;
    var s := Store16(Little, v);
    LoadStore16(Little, v);
    Split16(v);
    if h == Big {
      SwapJoin16(Low16(v), High16(v));
      SwapJoin16(High16(v), Low16(v));
      Bytes16(High16(v), Low16(v));
    }
  }

  lemma NormalisedStore32(h: Endian, v: bv32)
    ensures Store32(h, ToLittleEndian32(h, v)) == Store32(Little, v)
    ensures ToLittleEndian32(h, Load32(h, Store32(Little, v))) == v
  {
    hide Low32, Join32, Bswap32;
    var s := Store32(Little, v);
    LoadStore32(Little, v);
    if h == Big {
      Bswap32Reverses(Big, Store32(Big, v));
      LoadStore32(Big, v);
      ReversedTwice(s);
      Bswap32Reverses(Big, s);
    }
  }

  // ---- What little-endian and big-endian mean ----

  /** A little-endian host stores the least significant byte first, a big-endian host the
      most significant. */
  lemma ByteOrder16(v: bv16)
    ensures Store16(Little, v) == [Byte((v & 0xFF) as bv8), Byte((v >> 8) as bv8)]
    ensures Store16(Big, v) == [Byte((v >> 8) as bv8), Byte((v & 0xFF) as bv8)]
  {
    assert (v >> 8) & 0xFF == v >> 8;
  }

  lemma ByteOrder32(v: bv32)
    ensures Store32(Little, v) == [Byte((v & 0xFF) as bv8), Byte(((v >> 8) & 0xFF) as bv8),
                                   Byte(((v >> 16) & 0xFF) as bv8), Byte(((v >> 24) & 0xFF) as bv8)]
    ensures Store32(Big, v) == [Byte(((v >> 24) & 0xFF) as bv8), Byte(((v >> 16) & 0xFF) as bv8),
                                Byte(((v >> 8) & 0xFF) as bv8), Byte((v & 0xFF) as bv8)]
  {
  }

  lemma ByteOrderOfLength(n: nat)
    requires n < LENGTH_LIMIT
    ensures var little, big := StoreLength(Little, n), StoreLength(Big, n);
            && little[0].bits as nat == big[3].bits as nat == n % 256
            && little[1].bits as nat == big[2].bits as nat == n / 256 % 256
            && little[2].bits as nat == big[1].bits as nat == n / 0x1_0000 % 256
            && little[3].bits as nat == big[0].bits as nat == n / 0x100_0000
  {
    hide ByteOf;
    assert n % LENGTH_LIMIT == n;
  }

  lemma StoreLoad16(h: Endian, s: seq<Byte>)
    requires |s| == 2
    ensures Store16(h, Load16(h, s)) == s
  {
    hide Low16, High16, Join16;
    Bytes16(s[0], s[1]);
    Bytes16(s[1], s[0]);
  }

  // What a host loads and normalises is what a little-endian host would load.
  lemma LoadedAsLittle(h: Endian, two: seq<Byte>, four: seq<Byte>)
    requires |two| == 2 && |four| == 4
    ensures ToLittleEndian16(h, Load16(h, two)) == Load16(Little, two)
    ensures ToLittleEndian32(h, Load32(h, four)) == Load32(Little, four)
  {
    hide Load16, Load32, Store16, Store32, ToLittleEndian16, ToLittleEndian32;
    StoreLoad16(Little, two);
    StoreLoad32(Little, four);
    NormalisedStore16(h, Load16(Little, two));
    NormalisedStore32(h, Load32(Little, four));
  }
}
