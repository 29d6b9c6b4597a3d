/** The table-driven checksum of include/sinew/crc32.hpp, the shift register it
    computes, and the register as a list of 32 bits. */
module Crc32 {
  import opened ByteOrder

  // ---- Specification: a shift register fed one bit at a time ----

  function Xor(a: bv32, b: bv32): bv32 {
    a ^ b
  }

  function Half(v: bv32): bv32 {
    v >> 1
  }

  function Down8(v: bv32): bv32 {
    v >> 8
  }

  predicate Odd(v: bv32) {
    v & 1 != 0
  }

  function Step(crc: bv32): bv32 {
    if Odd(crc) then Xor(0xEDB88320, Half(crc)) else Half(crc)
  }

  function Steps(crc: bv32, n: nat): bv32
    decreases n
  {
    if n == 0 then crc else Steps(Step(crc), n - 1)
  }

  // A message bit enters at the low end.
  function Enter(crc: bv32, bit: bool): bv32 {
    if bit then Xor(crc, 1) else crc
  }

  function Feed(crc: bv32, bits: seq<bool>): bv32
    decreases |bits|
  {
    if bits == [] then crc else Feed(Step(Enter(crc, bits[0])), bits[1..])
  }

  function ToBits(v: bv32, n: nat): (r: seq<bool>)
    ensures |r| == n
    decreases n
  {
    if n == 0 then [] else [Odd(v)] + ToBits(Half(v), n - 1)
  }

  function Widen(b: Byte): bv32 {
    b.bits as bv32
  }

  // The order of transmission: least significant bit of each byte first.
  function ByteBits(b: Byte): (r: seq<bool>)
    ensures |r| == 8
  {
    ToBits(Widen(b), 8)
  }

  function Bits(data: seq<Byte>): (r: seq<bool>)
    ensures |r| == 8 * |data|
  {
    if data == [] then [] else ByteBits(data[0]) + Bits(data[1..])
  }

  /** What crc32(data, length, initial) returns; the empty input gives 0 whatever
      the initial value. */
  function ChecksumFrom(initial: bv32, data: seq<Byte>): bv32 {
    if data == [] then 0 else Xor(Feed(initial, Bits(data)), 0xFFFF_FFFF)
  }

  function Checksum(data: seq<Byte>): bv32 {
    ChecksumFrom(0xFFFF_FFFF, data)
  }

  // ---- Registers as bits, least significant first ----

  function Register(v: bv32): (r: seq<bool>)
    ensures |r| == 32
  {
    ToBits(v, 32)
  }

  function XorBits(a: seq<bool>, b: seq<bool>): (r: seq<bool>)
    requires |a| == |b|
    ensures |r| == |a|
    ensures forall i :: 0 <= i < |a| ==> r[i] == (a[i] != b[i])
  {
    seq(|a|, i requires 0 <= i < |a| => a[i] != b[i])
  }

  function Zeros(n: nat): (r: seq<bool>)
    ensures |r| == n
    ensures forall i :: 0 <= i < n ==> !r[i]
  {
    seq(n, _ => false)
  }

  function StepBits(r: seq<bool>): (s: seq<bool>)
    requires |r| == 32
    ensures |s| == 32
  {
    var moved := r[1..] + [false];
    if r[0] then XorBits(Register(0xEDB88320), moved) else moved
  }

  function StepsBits(r: seq<bool>, n: nat): (s: seq<bool>)
    requires |r| == 32
    ensures |s| == 32
    decreases n
  {
    if n == 0 then r else StepsBits(StepBits(r), n - 1)
  }

  function FeedBits(r: seq<bool>, bits: seq<bool>): (s: seq<bool>)
    requires |r| == 32
    ensures |s| == 32
    decreases |bits|
  {
    if bits == [] then r else FeedBits(StepBits(r[0 := r[0] != bits[0]]), bits[1..])
  }

  // ---- The bit-vector register and the list of bits agree ----

  lemma XorHalfOdd(a: bv32, b: bv32)
    ensures Half(Xor(a, b)) == Xor(Half(a), Half(b))
    ensures Odd(Xor(a, b)) == (Odd(a) != Odd(b))
  {
  }

  lemma {:induction false} ToBitsXor(a: bv32, b: bv32, n: nat)
    ensures ToBits(Xor(a, b), n) == XorBits(ToBits(a, n), ToBits(b, n))
    decreases n
  {
    hide Xor, Half, Odd;
    if n > 0 {
      XorHalfOdd(a, b);
      ToBitsXor(Half(a), Half(b), n - 1);
    }
  }

  function Shift(v: bv32, n: nat): bv32
    decreases n
  {
    if n == 0 then v else Shift(Half(v), n - 1)
  }

  lemma {:induction false} ShiftSum(v: bv32, m: nat, n: nat)
    ensures Shift(v, m + n) == Shift(Shift(v, m), n)
    decreases m
  {
    hide Half;
    if m > 0 {
      ShiftSum(Half(v), m - 1, n);
    }
  }

  lemma EightHalves(v: bv32)
    ensures Half(Half(Half(Half(Half(Half(Half(Half(v)))))))) == Down8(v)
    ensures Down8(Down8(Down8(Down8(v)))) == 0
  {
  }

  lemma Shift8(v: bv32)
    ensures Shift(v, 8) == Down8(v)
  {
    var v4 := Half(Half(Half(Half(v))));
    EightHalves(v);
    hide Half, Down8;
    ToBits4(v);
    ToBits4(v4);
    hide Shift;
    ShiftSum(v, 4, 4);
  }

  lemma ShiftOut(v: bv32)
    ensures Shift(v, 32) == 0
  {
    var v1 := Down8(v);
    var v2 := Down8(v1);
    var v3 := Down8(v2);
    EightHalves(v);
    hide Shift, Down8;
    Shift8(v);
    Shift8(v1);
    Shift8(v2);
    Shift8(v3);
    ShiftSum(v, 8, 8);
    ShiftSum(v, 16, 8);
    ShiftSum(v, 24, 8);
  }

  lemma Shift7(v: bv32)
    ensures Shift(v, 7) == Half(Half(Half(Half(Half(Half(Half(v)))))))
  {
    hide Half;
    var v4 := Half(Half(Half(Half(v))));
    assert Shift(v4, 3) == Shift(Half(v4), 2) == Shift(Half(Half(v4)), 1) == Half(Half(Half(v4)));
    ToBits4(v);
    ShiftSum(v, 4, 3);
  }

  lemma Shift31(v: bv32)
    ensures Shift(v, 31) == v >> 31
  {
    LastSevenHalves(v);
    hide Half, Down8, Shift;
    Shift8(v);
    Shift8(Down8(v));
    Shift8(Down8(Down8(v)));
    Shift7(Down8(Down8(Down8(v))));
    ShiftSum(v, 8, 8);
    ShiftSum(v, 16, 8);
    ShiftSum(v, 24, 7);
  }

  lemma LastSevenHalves(v: bv32)
    ensures Half(Half(Half(Half(Half(Half(Half(Down8(Down8(Down8(v)))))))))) == v >> 31
  {
  }

  lemma {:induction false} ToBitsSplit(v: bv32, m: nat, n: nat)
    ensures ToBits(v, m + n) == ToBits(v, m) + ToBits(Shift(v, m), n)
    decreases m
  {
    hide Half, Odd;
    if m > 0 {
      ToBitsSplit(Half(v), m - 1, n);
    }
  }

  lemma {:induction false} ToBitsOfZero(n: nat)
    ensures ToBits(0, n) == Zeros(n)
  {
    if n > 0 {
      assert Half(0) == 0;
      ToBitsOfZero(n - 1);
    }
  }

  lemma RegisterShifted(v: bv32, n: nat)
    requires n <= 32
    ensures Register(Shift(v, n)) == Register(v)[n..] + Zeros(n)
  {
    hide Half, Odd, Shift, ToBits;
    ToBitsSplit(v, n, 32 - n);
    ToBitsSplit(Shift(v, n), 32 - n, n);
    ShiftSum(v, n, 32 - n);
    ShiftOut(v);
    ToBitsOfZero(n);
  }

  lemma SameHalves(a: bv32, b: bv32)
    requires Odd(a) == Odd(b) && Half(a) == Half(b)
    ensures a == b
  {
  }

  lemma {:induction false} ToBitsInjective(a: bv32, b: bv32, n: nat)
    requires ToBits(a, n) == ToBits(b, n) && Shift(a, n) == Shift(b, n)
    ensures a == b
    decreases n
  {
    hide Half, Odd;
    if n > 0 {
      assert Odd(a) == ToBits(a, n)[0] == ToBits(b, n)[0] == Odd(b);
      assert ToBits(Half(a), n - 1) == ToBits(a, n)[1..] == ToBits(b, n)[1..] == ToBits(Half(b), n - 1);
      ToBitsInjective(Half(a), Half(b), n - 1);
      SameHalves(a, b);
    }
  }

  lemma RegisterInjective(a: bv32, b: bv32)
    requires Register(a) == Register(b)
    ensures a == b
  {
    hide Half, Odd;
    ShiftOut(a);
    ShiftOut(b);
    ToBitsInjective(a, b, 32);
  }

  lemma RegisterXor(a: bv32, b: bv32)
    ensures Register(Xor(a, b)) == XorBits(Register(a), Register(b))
  {
    hide Xor;
    ToBitsXor(a, b, 32);
  }

  lemma RegisterOfOne()
    ensures Register(1) == [true] + Zeros(31)
  {
    ToBitsOfZero(31);
    assert Half(1) == 0 && Odd(1);
  }

  lemma StepAgrees(crc: bv32)
    ensures Register(Step(crc)) == StepBits(Register(crc))
  {
    hide Xor, Half, Odd, Zeros;
    assert Shift(crc, 1) == Shift(Half(crc), 0) == Half(crc);
    RegisterShifted(crc, 1);
    assert Register(crc)[0] == Odd(crc);
    var half, polynomial: bv32 := Half(crc), 0xEDB88320;
    assert Register(half) == Register(crc)[1..] + [false];
    RegisterXor(polynomial, half);
    hide ToBits;
  }

  lemma {:induction false} StepsAgree(crc: bv32, n: nat)
    ensures Register(Steps(crc, n)) == StepsBits(Register(crc), n)
    decreases n
  {
    hide Step, StepBits, Register;
    if n > 0 {
      StepAgrees(crc);
      StepsAgree(Step(crc), n - 1);
    }
  }

  lemma EnterAgrees(crc: bv32, bit: bool)
    ensures Register(Enter(crc, bit)) == Register(crc)[0 := Register(crc)[0] != bit]
  {
    hide Register, Xor;
    RegisterXor(crc, 1);
    RegisterOfOne();
  }

  lemma {:induction false} FeedAgrees(crc: bv32, bits: seq<bool>)
    ensures Register(Feed(crc, bits)) == FeedBits(Register(crc), bits)
    decreases |bits|
  {
    hide Step, StepBits, Enter, Register;
    if bits != [] {
      EnterAgrees(crc, bits[0]);
      StepAgrees(Enter(crc, bits[0]));
      FeedAgrees(Step(Enter(crc, bits[0])), bits[1..]);
    }
  }

  // ---- The list-of-bits register is linear ----

  lemma StepBitsXor(r: seq<bool>, s: seq<bool>)
    requires |r| == |s| == 32
    ensures StepBits(XorBits(r, s)) == XorBits(StepBits(r), StepBits(s))
  {
    hide Register;
  }

  lemma {:induction false} StepsBitsXor(r: seq<bool>, s: seq<bool>, n: nat)
    requires |r| == |s| == 32
    ensures StepsBits(XorBits(r, s), n) == XorBits(StepsBits(r, n), StepsBits(s, n))
    decreases n
  {
    hide StepBits;
    if n > 0 {
      StepBitsXor(r, s);
      StepsBitsXor(StepBits(r), StepBits(s), n - 1);
    }
  }

  lemma {:induction false} FeedBitsXor(r: seq<bool>, s: seq<bool>, a: seq<bool>, b: seq<bool>)
    requires |r| == |s| == 32 && |a| == |b|
    ensures FeedBits(XorBits(r, s), XorBits(a, b)) == XorBits(FeedBits(r, a), FeedBits(s, b))
    decreases |a|
  {
    hide StepBits;
    if a != [] {
      var r', s' := r[0 := r[0] != a[0]], s[0 := s[0] != b[0]];
      assert XorBits(r, s)[0 := XorBits(r, s)[0] != XorBits(a, b)[0]] == XorBits(r', s');
      assert XorBits(a, b)[1..] == XorBits(a[1..], b[1..]);
      StepBitsXor(r', s');
      FeedBitsXor(StepBits(r'), StepBits(s'), a[1..], b[1..]);
    }
  }

  lemma {:induction false} FeedBitsSplit(r: seq<bool>, first: seq<bool>, rest: seq<bool>)
    requires |r| == 32
    ensures FeedBits(r, first + rest) == FeedBits(FeedBits(r, first), rest)
    decreases |first|
  {
    hide StepBits;
    if first == [] {
      assert first + rest == rest;
    } else {
      assert (first + rest)[1..] == first[1..] + rest;
      FeedBitsSplit(StepBits(r[0 := r[0] != first[0]]), first[1..], rest);
    }
  }

  lemma {:induction false} BitsSplit(a: seq<Byte>, b: seq<Byte>)
    ensures Bits(a + b) == Bits(a) + Bits(b)
  {
    hide ByteBits;
    if a == [] {
      assert a + b == b;
    } else {
      assert (a + b)[1..] == a[1..] + b;
      BitsSplit(a[1..], b);
    }
  }

  // ---- One table look-up does the work of eight steps ----

  lemma {:induction false} EmptyStepsMove(hi: seq<bool>, n: nat)
    requires n <= 32 && |hi| == 32 - n
    ensures StepsBits(Zeros(n) + hi, n) == hi + Zeros(n)
    decreases n
  {
    hide Register;
    if n == 0 {
      assert Zeros(0) + hi == hi + Zeros(0) == hi;
    } else {
      assert StepBits(Zeros(n) + hi) == Zeros(n - 1) + (hi + [false]);
      EmptyStepsMove(hi + [false], n - 1);
      assert hi + [false] + Zeros(n - 1) == hi + Zeros(n);
    }
  }

  // Bits fed in turn may as well be combined with the register at the start.
  lemma {:induction false} FeedAtOnce(r: seq<bool>, bits: seq<bool>)
    requires |r| == 32 && |bits| <= 32
    ensures FeedBits(r, bits) == StepsBits(XorBits(r, bits + Zeros(32 - |bits|)), |bits|)
    decreases |bits|
  {
    hide Register;
    var padding := Zeros(32 - |bits|);
    if bits == [] {
      assert XorBits(r, bits + padding) == r;
    } else {
      var r', tail := r[0 := r[0] != bits[0]], bits[1..] + padding;
      FeedAtOnce(StepBits(r'), bits[1..]);
      assert Zeros(32 - |bits[1..]|) == padding + [false];
      assert bits[1..] + Zeros(32 - |bits[1..]|) == tail + [false];
      assert XorBits(r, bits + padding) == XorBits(r', [false] + tail);
      StepBitsXor(r', [false] + tail);
      assert StepBits([false] + tail) == tail + [false];
    }
  }

  lemma ByteStepBits(r: seq<bool>, bits: seq<bool>)
    requires |r| == 32 && |bits| == 8
    ensures FeedBits(r, bits)
         == XorBits(r[8..] + Zeros(8), StepsBits(XorBits(r[..8], bits) + Zeros(24), 8))
  {
    hide StepsBits;
    var low := XorBits(r[..8], bits) + Zeros(24);
    var high := Zeros(8) + r[8..];
    FeedAtOnce(r, bits);
    assert XorBits(r, bits + Zeros(24)) == XorBits(high, low);
    StepsBitsXor(high, low, 8);
    EmptyStepsMove(r[8..], 8);
  }

  lemma LowByteParts(v: bv32)
    ensures Xor(Widen(Low32(v)), Up8(Down8(v))) == v
    ensures Down8(Widen(Low32(v))) == 0
  {
  }

  function Up8(v: bv32): bv32 {
    v << 8
  }

  lemma EvenParts(v: bv32)
    ensures var u := Up8(v);
            && !Odd(u) && !Odd(Half(u)) && !Odd(Half(Half(u))) && !Odd(Half(Half(Half(u))))
            && !Odd(Half(Half(Half(Half(u))))) && !Odd(Half(Half(Half(Half(Half(u))))))
            && !Odd(Half(Half(Half(Half(Half(Half(u))))))) && !Odd(Half(Half(Half(Half(Half(Half(Half(u))))))))
  {
  }

  lemma ToBits4(v: bv32)
    ensures ToBits(v, 4) == [Odd(v), Odd(Half(v)), Odd(Half(Half(v))), Odd(Half(Half(Half(v))))]
    ensures Shift(v, 4) == Half(Half(Half(Half(v))))
  {
    hide Half, Odd;
    assert ToBits(Half(Half(v)), 2) == [Odd(Half(Half(v)))] + ToBits(Half(Half(Half(v))), 1);
    assert ToBits(v, 4) == [Odd(v)] + ToBits(Half(v), 3);
    assert Shift(v, 4) == Shift(Half(v), 3) == Shift(Half(Half(v)), 2) == Shift(Half(Half(Half(v))), 1);
  }

  lemma BitsOfUp8(v: bv32)
    ensures ToBits(Up8(v), 8) == Zeros(8)
  {
    EvenParts(v);
    hide Half, Odd, Up8, ToBits, Shift;
    ToBits4(Up8(v));
    ToBits4(Half(Half(Half(Half(Up8(v))))));
    ToBitsSplit(Up8(v), 4, 4);
  }

  lemma LowBits(v: bv32)
    ensures ByteBits(Low32(v)) == ToBits(v, 8)
  {
    LowByteParts(v);
    BitsOfUp8(Down8(v));
    hide Half, Odd, Widen, Low32, Up8, Down8, ToBits, Xor;
    ToBitsXor(Widen(Low32(v)), Up8(Down8(v)), 8);
    assert ToBits(v, 8) == XorBits(ByteBits(Low32(v)), Zeros(8));
  }

  lemma NarrowWidened(b: Byte)
    ensures Low32(Widen(b)) == b
    ensures Down8(Widen(b)) == 0
  {
  }

  lemma RegisterOfByte(b: Byte)
    ensures Register(Widen(b)) == ByteBits(b) + Zeros(24)
  {
    NarrowWidened(b);
    Shift8(Widen(b));
    hide Half, Odd, Widen, Shift, Down8;
    ToBitsSplit(Widen(b), 8, 24);
    ToBitsOfZero(24);
  }

  // The index the table is read at.
  function Lookup(crc: bv32, b: Byte): Byte {
    Low32(Xor(crc, Widen(b)))
  }

  lemma RegisterOfLookup(crc: bv32, b: Byte)
    ensures Register(Widen(Lookup(crc, b))) == XorBits(Register(crc)[..8], ByteBits(b)) + Zeros(24)
  {
    hide Half, Odd, Widen, Low32, ByteBits, Shift, Xor;
    var x := Xor(crc, Widen(b));
    RegisterOfByte(b);
    RegisterXor(crc, Widen(b));
    LowBits(x);
    ToBitsSplit(x, 8, 24);
    hide ToBits;
    assert ByteBits(Low32(x)) == Register(x)[..8];
    assert Register(x)[..8] == XorBits(Register(crc)[..8], ByteBits(b));
    RegisterOfByte(Low32(x));
  }

  lemma ByteStep(crc: bv32, b: Byte)
    ensures Feed(crc, ByteBits(b)) == Xor(Down8(crc), Steps(Widen(Lookup(crc, b)), 8))
  {
    Shift8(crc);
    hide Half, Odd, Widen, Low32, ByteBits, Shift, Down8, Xor, Steps, Feed, FeedBits, StepsBits, Lookup, Register;
    var entry := Steps(Widen(Lookup(crc, b)), 8);
    FeedAgrees(crc, ByteBits(b));
    ByteStepBits(Register(crc), ByteBits(b));
    RegisterShifted(crc, 8);
    RegisterOfLookup(crc, b);
    StepsAgree(Widen(Lookup(crc, b)), 8);
    RegisterXor(Down8(crc), entry);
    RegisterInjective(Feed(crc, ByteBits(b)), Xor(Down8(crc), entry));
  }

  // ---- The code ----

  function IndexOf(b: Byte): (i: nat)
    ensures i < 256
  {
    ValueOf(b)
  }

  lemma SameByte(a: Byte, b: Byte)
    requires IndexOf(a) == IndexOf(b)
    ensures a == b
  {
  }

  ghost predicate IsTable(table: seq<bv32>) {
    |table| == 256 && forall b: Byte :: table[IndexOf(b)] == Steps(Widen(b), 8)
  }

  method GenerateTable() returns (table: seq<bv32>)
    ensures IsTable(table)
  {
    hide Steps, Half, Odd, Xor;
    var entries := new bv32[256];
    for i := 0 to 256
      invariant forall b: Byte :: IndexOf(b) < i ==> entries[IndexOf(b)] == Steps(Widen(b), 8)
    {
      var entry := TableEntry(ByteOf(i));
      entries[i] := entry;
      forall b: Byte | IndexOf(b) == i
        ensures b == ByteOf(i)
      {
        SameByte(b, ByteOf(i));
      }
    }
    table := entries[..];
  }

  // The inner loop of generate_crc32_table.
  method TableEntry(i: Byte) returns (crc: bv32)
    ensures crc == Steps(Widen(i), 8)
  {
    crc := Widen(i);
    for j := 0 to 8
      invariant Steps(crc, 8 - j) == Steps(Widen(i), 8)
    {
      crc := if crc & 1 != 0 then 0xEDB88320 ^ (crc >> 1) else crc >> 1;
    }
  }

  lemma FeedOneMore(crc: bv32, bytes: seq<Byte>, i: nat)
    requires i < |bytes|
    ensures Feed(crc, Bits(bytes[..i + 1])) == Feed(Feed(crc, Bits(bytes[..i])), ByteBits(bytes[i]))
  {
    hide ByteBits, Feed, FeedBits, Register;
    assert bytes[..i + 1] == bytes[..i] + [bytes[i]];
    BitsSplit(bytes[..i], [bytes[i]]);
    assert Bits([bytes[i]]) == ByteBits(bytes[i]) + Bits([]) == ByteBits(bytes[i]);
    FeedSplit(crc, Bits(bytes[..i]), ByteBits(bytes[i]));
  }

  lemma FeedSplit(crc: bv32, first: seq<bool>, rest: seq<bool>)
    ensures Feed(crc, first + rest) == Feed(Feed(crc, first), rest)
  {
    hide Feed, FeedBits, Register;
    FeedAgrees(crc, first + rest);
    FeedAgrees(crc, first);
    FeedAgrees(Feed(crc, first), rest);
    FeedBitsSplit(Register(crc), first, rest);
    RegisterInjective(Feed(crc, first + rest), Feed(Feed(crc, first), rest));
  }

  /** crc32: `data` may be null; otherwise the bytes are data[offset..offset + length]. */
  method Compute(table: seq<bv32>, data: array?<Byte>, offset: nat, length: nat, initial: bv32) returns (crc: bv32)
    requires IsTable(table)
    requires data != null ==> offset + length <= data.Length
    ensures crc == if data == null then 0 else ChecksumFrom(initial, data[offset..offset + length])
    ensures data == null || length == 0 ==> crc == 0
  {
    hide Steps, ByteBits, Xor, Lookup, Widen, Down8;
    if data == null || length == 0 {
      return 0;
    }
    ghost var bytes := data[offset..offset + length];
    crc := initial;
    for i := 0 to length
      invariant crc == Feed(initial, Bits(bytes[..i]))
    {
      var lookupIndex := Lookup(crc, data[offset + i]);
      ByteStep(crc, data[offset + i]);
      FeedOneMore(initial, bytes, i);
      crc := Xor(Down8(crc), table[IndexOf(lookupIndex)]);
    }
    assert bytes[..length] == bytes;
    crc := Xor(crc, 0xFFFF_FFFF);
  }

  // The same with the default initial value.
  method ComputeDefault(table: seq<bv32>, data: array<Byte>, offset: nat, length: nat) returns (crc: bv32)
    requires IsTable(table)
    requires offset + length <= data.Length
    ensures crc == Checksum(data[offset..offset + length])
  {
    hide ChecksumFrom, IsTable;
    crc := Compute(table, data, offset, length, 0xFFFF_FFFF);
  }
}
