/** What the checksum detects: it is affine over XOR, it can be continued from one
    buffer to the next, and it notices every burst of at most 32 bits. */
module CrcDetection {
  import opened ByteOrder
  import opened Crc32

  ghost function Ones(): (r: seq<bool>)
    ensures |r| == 32
  {
    Register(0xFFFF_FFFF)
  }

  lemma ChecksumRegister(data: seq<Byte>)
    requires data != []
    ensures Register(Checksum(data)) == XorBits(FeedBits(Ones(), Bits(data)), Ones())
  {
    hide Register, Feed, FeedBits, Xor, Bits;
    FeedAgrees(0xFFFF_FFFF, Bits(data));
    RegisterXor(Feed(0xFFFF_FFFF, Bits(data)), 0xFFFF_FFFF);
  }

  // ---- Linearity ----

  function XorByte(a: Byte, b: Byte): Byte {
    Byte(a.bits ^ b.bits)
  }

  function XorBytes(a: seq<Byte>, b: seq<Byte>): (r: seq<Byte>)
    requires |a| == |b|
    ensures |r| == |a|
    ensures forall i :: 0 <= i < |a| ==> r[i] == XorByte(a[i], b[i])
  {
    seq(|a|, i requires 0 <= i < |a| => XorByte(a[i], b[i]))
  }

  lemma WidenXor(a: Byte, b: Byte)
    ensures Widen(XorByte(a, b)) == Xor(Widen(a), Widen(b))
  {
  }

  lemma ByteBitsXor(a: Byte, b: Byte)
    ensures ByteBits(XorByte(a, b)) == XorBits(ByteBits(a), ByteBits(b))
  {
    hide ToBits, Xor;
    WidenXor(a, b);
    ToBitsXor(Widen(a), Widen(b), 8);
  }

  lemma {:induction false} BitsXor(a: seq<Byte>, b: seq<Byte>)
    requires |a| == |b|
    ensures Bits(XorBytes(a, b)) == XorBits(Bits(a), Bits(b))
  {
    hide ByteBits, XorByte;
    if a != [] {
      ByteBitsXor(a[0], b[0]);
      assert XorBytes(a, b)[1..] == XorBytes(a[1..], b[1..]);
      BitsXor(a[1..], b[1..]);
    }
  }

  /** For three buffers of one non-zero length, the checksum of the XOR is the XOR of
      the checksums. */
  lemma ChecksumAffine(a: seq<Byte>, b: seq<Byte>, c: seq<Byte>)
    requires |a| == |b| == |c| > 0
    ensures Checksum(XorBytes(XorBytes(a, b), c)) == Xor(Xor(Checksum(a), Checksum(b)), Checksum(c))
  {
    hide Register, Feed, FeedBits, Bits, Xor, Checksum, XorByte;
    var ab, all := XorBytes(a, b), XorBytes(XorBytes(a, b), c);
    var ones, A, B, C := Ones(), Bits(a), Bits(b), Bits(c);
    BitsXor(a, b);
    BitsXor(ab, c);
    FeedBitsXor(ones, ones, A, B);
    FeedBitsXor(XorBits(ones, ones), ones, XorBits(A, B), C);
    assert XorBits(XorBits(ones, ones), ones) == ones;
    ChecksumRegister(a);
    ChecksumRegister(b);
    ChecksumRegister(c);
    ChecksumRegister(all);
    RegisterXor(Checksum(a), Checksum(b));
    RegisterXor(Xor(Checksum(a), Checksum(b)), Checksum(c));
    assert Register(Checksum(all)) == Register(Xor(Xor(Checksum(a), Checksum(b)), Checksum(c)));
    RegisterInjective(Checksum(all), Xor(Xor(Checksum(a), Checksum(b)), Checksum(c)));
  }

  // ---- Continuing a checksum ----

  lemma XorTwice(v: bv32, m: bv32)
    ensures Xor(Xor(v, m), m) == v
    ensures Xor(v, m) == 0 ==> v == m
    ensures Xor(0, m) == m
  {
  }

  /** A checksum is continued over a second buffer by undoing the final inversion.
      Only an empty second buffer is an exception, because crc32 then ignores its
      initial value. */
  lemma ChecksumContinues(a: seq<Byte>, b: seq<Byte>)
    ensures ChecksumFrom(Xor(Checksum(a), 0xFFFF_FFFF), b) == Checksum(a + b)
       <==> b != [] || Checksum(a) == 0
  {
    hide Feed, Xor, Bits;
    if b == [] {
      assert a + b == a;
    } else if a == [] {
      assert a + b == b;
      XorTwice(0, 0xFFFF_FFFF);
    } else {
      BitsSplit(a, b);
      FeedSplit(0xFFFF_FFFF, Bits(a), Bits(b));
      XorTwice(Feed(0xFFFF_FFFF, Bits(a)), 0xFFFF_FFFF);
    }
  }

  // ---- Bursts ----

  // The top bit of the polynomial is set, so no non-empty register is lost in a step.
  lemma PolynomialTop()
    ensures Register(0xEDB88320)[31]
  {
    var p: bv32 := 0xEDB88320;
    Shift31(p);
    assert p >> 31 == 1;
    hide Half, Odd, Shift;
    ToBitsSplit(p, 31, 1);
    assert Register(p) == ToBits(p, 31) + ToBits(Shift(p, 31), 1);
    assert ToBits(Shift(p, 31), 1)[0] == Odd(Shift(p, 31));
    OneIsOdd();
  }

  lemma OneIsOdd()
    ensures Odd(1)
  {
  }

  // A register that a run of at most 32 bits empties held exactly those bits.
  lemma {:induction false} EmptiedRegisterHeldTheInput(r: seq<bool>, bits: seq<bool>)
    requires |r| == 32 && |bits| <= 32
    requires FeedBits(r, bits) == Zeros(32)
    ensures r == bits + Zeros(32 - |bits|)
    ensures forall j :: 0 <= j < |bits| ==> bits[j] == r[j]
    decreases |bits|
  {
    hide Register;
    if bits != [] {
      var r' := r[0 := r[0] != bits[0]];
      var s := StepBits(r');
      EmptiedRegisterHeldTheInput(s, bits[1..]);
      PolynomialTop();
      assert s[31] == r'[0];
      assert !s[31];
      assert s == r'[1..] + [false];
      forall i | 0 <= i < 32
        ensures r[i] == (bits + Zeros(32 - |bits|))[i]
      {
        if i > 0 {
          assert r[i] == s[i - 1];
        }
      }
    }
  }

  lemma {:induction false} ZerosKeepZero(n: nat)
    ensures FeedBits(Zeros(32), Zeros(n)) == Zeros(32)
  {
    hide Register;
    if n > 0 {
      assert StepBits(Zeros(32)) == Zeros(32);
      assert Zeros(n)[1..] == Zeros(n - 1);
      assert Zeros(32)[0 := false] == Zeros(32);
      ZerosKeepZero(n - 1);
    }
  }

  lemma StepToZero(r: seq<bool>)
    requires |r| == 32 && StepBits(r) == Zeros(32)
    ensures r == Zeros(32)
  {
    hide Register, StepBits;
    assert r[0 := r[0] != false] == r;
    assert FeedBits(r, [false]) == FeedBits(StepBits(r), []) == Zeros(32);
    EmptiedRegisterHeldTheInput(r, [false]);
    assert [false] + Zeros(31) == Zeros(32);
  }

  lemma {:induction false} ZerosKeepNonzero(r: seq<bool>, n: nat)
    requires |r| == 32 && r != Zeros(32)
    ensures FeedBits(r, Zeros(n)) != Zeros(32)
    decreases n
  {
    hide Register, StepBits;
    if n > 0 {
      assert r[0 := r[0] != false] == r;
      assert Zeros(n)[1..] == Zeros(n - 1);
      if StepBits(r) == Zeros(32) {
        StepToZero(r);
      }
      ZerosKeepNonzero(StepBits(r), n - 1);
    }
  }

  // A single burst never leaves the register empty.
  lemma BurstLeavesTrace(x: seq<bool>, start: nat, i: nat)
    requires i < |x| && x[i]
    requires forall j :: 0 <= j < |x| && !(start <= j < start + 32) ==> !x[j]
    ensures FeedBits(Zeros(32), x) != Zeros(32)
  {
    hide Register, StepBits, FeedBits;
    var end := if start + 32 <= |x| then start + 32 else |x|;
    var middle := x[start..end];
    assert x[..start] == Zeros(start) && x[end..] == Zeros(|x| - end);
    assert x == x[..start] + (middle + x[end..]);
    FeedBitsSplit(Zeros(32), x[..start], middle + x[end..]);
    ZerosKeepZero(start);
    FeedBitsSplit(Zeros(32), middle, x[end..]);
    assert middle[i - start];
    if FeedBits(Zeros(32), middle) == Zeros(32) {
      EmptiedRegisterHeldTheInput(Zeros(32), middle);
    }
    ZerosKeepNonzero(FeedBits(Zeros(32), middle), |x| - end);
  }

  lemma ByteBitsInjective(a: Byte, b: Byte)
    requires ByteBits(a) == ByteBits(b)
    ensures a == b
  {
    NarrowWidened(a);
    NarrowWidened(b);
    hide Widen, Low32, Down8, ToBits, Shift;
    Shift8(Widen(a));
    Shift8(Widen(b));
    ToBitsInjective(Widen(a), Widen(b), 8);
  }

  lemma {:induction false} BitsInjective(a: seq<Byte>, b: seq<Byte>)
    requires |a| == |b| && Bits(a) == Bits(b)
    ensures a == b
  {
    hide ByteBits;
    if a != [] {
      assert ByteBits(a[0]) == Bits(a)[..8] == Bits(b)[..8] == ByteBits(b[0]);
      assert Bits(a[1..]) == Bits(a)[8..] == Bits(b)[8..] == Bits(b[1..]);
      ByteBitsInjective(a[0], b[0]);
      BitsInjective(a[1..], b[1..]);
    }
  }

  // In transmission order, the buffers differ only inside 32 consecutive bits.
  ghost predicate DifferOnlyInBurst(a: seq<Byte>, b: seq<Byte>, start: nat) {
    && |a| == |b|
    && forall i :: 0 <= i < |Bits(a)| && !(start <= i < start + 32) ==> Bits(a)[i] == Bits(b)[i]
  }

  lemma SameAfterInversion(a: seq<bool>, b: seq<bool>, ones: seq<bool>)
    requires |a| == |b| == |ones| == 32
    requires XorBits(a, ones) == XorBits(b, ones)
    ensures XorBits(a, b) == Zeros(32)
  {
    forall j | 0 <= j < 32
      ensures a[j] == b[j]
    {
      assert XorBits(a, ones)[j] == XorBits(b, ones)[j];
    }
  }

  /** Two different buffers that agree outside 32 consecutive bits have different
      checksums. */
  lemma BurstChangesChecksum(a: seq<Byte>, b: seq<Byte>, start: nat)
    requires a != b && DifferOnlyInBurst(a, b, start)
    ensures Checksum(a) != Checksum(b)
  {
    hide Register, Feed, FeedBits, Bits, Checksum;
    var A, B := Bits(a), Bits(b);
    var x := XorBits(A, B);
    if A == B {
      BitsInjective(a, b);
    }
    var i :| 0 <= i < |A| && A[i] != B[i];
    BurstLeavesTrace(x, start, i);
    var ones := Ones();
    assert XorBits(ones, ones) == Zeros(32);
    FeedBitsXor(ones, ones, A, B);
    ChecksumRegister(a);
    ChecksumRegister(b);
    if Checksum(a) == Checksum(b) {
      SameAfterInversion(FeedBits(ones, A), FeedBits(ones, B), ones);
    }
  }

  // ---- The reserved value ----

  lemma FirstFeed()
    ensures Feed(0xFFFFFFFF, ByteBits(Byte(0x9D))) == 0xA343FF8B
  {
    assert Lookup(0xFFFFFFFF, Byte(0x9D)) == Byte(0x62) && Widen(Byte(0x62)) == 0x62;
    FirstEntry();
    ByteStep(0xFFFFFFFF, Byte(0x9D));
    hide Steps, Feed, ByteBits;
    assert Xor(Down8(0xFFFFFFFF), 0xA3BC0074) == 0xA343FF8B;
  }

  lemma FirstEntry()
    ensures Steps(0x62, 8) == 0xA3BC0074
  {
  }

  lemma SecondFeed()
    ensures Feed(0xA343FF8B, ByteBits(Byte(0x0A))) == 0x9A1CF049
  {
    assert Lookup(0xA343FF8B, Byte(0x0A)) == Byte(0x81) && Widen(Byte(0x81)) == 0x81;
    SecondEntry();
    ByteStep(0xA343FF8B, Byte(0x0A));
    hide Steps, Feed, ByteBits;
    assert Xor(Down8(0xA343FF8B), 0x9ABFB3B6) == 0x9A1CF049;
  }

  lemma SecondEntry()
    ensures Steps(0x81, 8) == 0x9ABFB3B6
  {
  }

  lemma ThirdFeed()
    ensures Feed(0x9A1CF049, ByteBits(Byte(0xD9))) == 0xF0958FB4
  {
    assert Lookup(0x9A1CF049, Byte(0xD9)) == Byte(0x90) && Widen(Byte(0x90)) == 0x90;
    ThirdEntry();
    ByteStep(0x9A1CF049, Byte(0xD9));
    hide Steps, Feed, ByteBits;
    assert Xor(Down8(0x9A1CF049), 0xF00F9344) == 0xF0958FB4;
  }

  lemma ThirdEntry()
    ensures Steps(0x90, 8) == 0xF00F9344
  {
  }

  lemma FourthFeed()
    ensures Feed(0xF0958FB4, ByteBits(Byte(0x6D))) == 0xFFFFFFFF
  {
    assert Lookup(0xF0958FB4, Byte(0x6D)) == Byte(0xD9) && Widen(Byte(0xD9)) == 0xD9;
    FourthEntry();
    ByteStep(0xF0958FB4, Byte(0x6D));
    hide Steps, Feed, ByteBits;
    assert Xor(Down8(0xF0958FB4), 0xFF0F6A70) == 0xFFFFFFFF;
  }

  lemma FourthEntry()
    ensures Steps(0xD9, 8) == 0xFF0F6A70
  {
  }

  lemma FourFeeds(crc: bv32, data: seq<Byte>)
    requires |data| == 4
    ensures Feed(crc, Bits(data))
         == Feed(Feed(Feed(Feed(crc, ByteBits(data[0])), ByteBits(data[1])), ByteBits(data[2])), ByteBits(data[3]))
  {
    hide ByteBits;
    assert Feed(crc, Bits(data[..0])) == crc;
    hide Feed;
    FeedOneMore(crc, data, 0);
    FeedOneMore(crc, data, 1);
    FeedOneMore(crc, data, 2);
    FeedOneMore(crc, data, 3);
    assert data[..4] == data;
  }

  /** Some data has checksum 0, the value that a header uses for "not checked". */
  lemma ChecksumCanBeZero()
    ensures Checksum([Byte(0x9D), Byte(0x0A), Byte(0xD9), Byte(0x6D)]) == 0
  {
    hide Feed, ByteBits, Bits;
    FirstFeed();
    SecondFeed();
    ThirdFeed();
    FourthFeed();
    FourFeeds(0xFFFF_FFFF, [Byte(0x9D), Byte(0x0A), Byte(0xD9), Byte(0x6D)]);
  }
}
