/** The checksum as the standard defines it: section 3.2.9 of IEEE Std 802.3 divides
    the frame, as a polynomial over GF(2), by a fixed generator of degree 32. */
module CrcDivision {
  import opened ByteOrder
  import opened Crc32
  import CrcDetection

  /* Polynomials are lists of coefficients, highest degree first. The generator is
     x^32 plus these lower terms; `Register` lists a reflected word from the
     coefficient of x^31 down to that of x^0. */
  ghost function GeneratorTail(): (r: seq<bool>)
    ensures |r| == 32
  {
    Register(0xEDB88320)
  }

  // Has the generator, below x^32, a term of this degree?
  ghost predicate HasTerm(degree: nat)
    requires degree < 32
  {
    GeneratorTail()[31 - degree]
  }

  // Four coefficients at a time, from those of the highest degree.
  lemma NextFour(v: bv32, n: nat)
    ensures ToBits(v, n + 4) == [v & 1 == 1, v & 2 == 2, v & 4 == 4, v & 8 == 8] + ToBits(v >> 4, n)
  {
    ToBitsSplit(v, 4, n);
    ToBits4(v);
    FourHalves(v);
  }

  lemma FourHalves(v: bv32)
    ensures Half(Half(Half(Half(v)))) == v >> 4
    ensures Odd(v) == (v & 1 == 1) && Odd(Half(v)) == (v & 2 == 2)
    ensures Odd(Half(Half(v))) == (v & 4 == 4) && Odd(Half(Half(Half(v)))) == (v & 8 == 8)
  {
  }

  /** The generator is that of IEEE 802.3: besides x^32 it has the terms of degree 26, 23,
      22, 16, 12, 11, 10, 8, 7, 5, 4, 2, 1 and 0, and no others. */
  lemma GeneratorOfTheStandard()
    ensures forall degree: nat :: degree < 32 ==>
              (HasTerm(degree) <==> degree in {26, 23, 22, 16, 12, 11, 10, 8, 7, 5, 4, 2, 1, 0})
  {
    hide ToBits;
    NextFour(0xEDB88320, 28);
    NextFour(0xEDB8832, 24);
    NextFour(0xEDB883, 20);
    NextFour(0xEDB88, 16);
    NextFour(0xEDB8, 12);
    NextFour(0xEDB, 8);
    NextFour(0xED, 4);
    NextFour(0xE, 0);
    var F, T := false, true;
    var r := GeneratorTail();
    assert r == ToBits(0xEDB88320, 32);
    assert r[..8] == [F, F, F, F, F, T, F, F];
    assert r[8..16] == [T, T, F, F, F, F, F, T];
    assert r[16..24] == [F, F, F, T, T, T, F, T];
    assert r[24..] == [T, F, T, T, F, T, T, T];
  }

  // p with the first 32 coefficients of g added.
  ghost function AddFront(p: seq<bool>, g: seq<bool>): (r: seq<bool>)
    requires |g| == 32 <= |p|
    ensures |r| == |p|
    ensures forall i :: 0 <= i < |p| ==> r[i] == (if i < 32 then p[i] != g[i] else p[i])
  {
    XorBits(p[..32], g) + p[32..]
  }

  /** Long division: the remainder of p, by cancelling the leading term of everything
      longer than 32 coefficients. */
  ghost function Remainder(p: seq<bool>): (r: seq<bool>)
    requires |p| >= 32
    ensures |r| == 32
    decreases |p|
  {
    if |p| == 32 then p
    else if p[0] then Remainder(AddFront(p[1..], GeneratorTail()))
    else Remainder(p[1..])
  }

  ghost function Complement(bits: seq<bool>): (r: seq<bool>)
    ensures |r| == |bits|
    ensures forall i :: 0 <= i < |bits| ==> r[i] == !bits[i]
  {
    seq(|bits|, i requires 0 <= i < |bits| => !bits[i])
  }

  /** The frame check sequence: complement the first 32 bits of the message, multiply
      by x^32, take the remainder, and complement it. Complementing after appending
      the zeros also covers messages shorter than 32 bits. */
  ghost function FrameCheckSequence(message: seq<bool>): (r: seq<bool>)
    ensures |r| == 32
  {
    var shifted := message + Zeros(32);
    Complement(Remainder(Complement(shifted[..32]) + shifted[32..]))
  }

  // The register, fed a message, is a long division under way.
  lemma {:induction false} FeedDivides(r: seq<bool>, message: seq<bool>)
    requires |r| == 32
    ensures FeedBits(r, message) == Remainder(AddFront(message + Zeros(32), r))
    decreases |message|
  {
    hide Register;
    var p := AddFront(message + Zeros(32), r);
    if message == [] {
      assert p == r;
    } else {
      var rest := message[1..] + Zeros(32);
      var moved := r[1..] + [false];
      assert (message + Zeros(32))[1..] == rest;
      assert p[0] == (r[0] != message[0]);
      assert p[1..] == AddFront(rest, moved);
      var entered := r[0 := r[0] != message[0]];
      assert entered[1..] == r[1..];
      if p[0] {
        assert AddFront(p[1..], GeneratorTail()) == AddFront(rest, XorBits(GeneratorTail(), moved));
      }
      FeedDivides(StepBits(entered), message[1..]);
    }
  }

  lemma {:induction false} AllOnes(v: bv32, n: nat)
    requires n > 0 ==> Shift(v, n - 1) != 0
    requires v & (v + 1) == 0
    ensures forall i :: 0 <= i < n ==> ToBits(v, n)[i]
    decreases n
  {
    if n > 0 {
      OnesHalve(v);
      hide Half, Odd;
      ShiftZero(n - 1);
      AllOnes(Half(v), n - 1);
    }
  }

  lemma OnesHalve(v: bv32)
    requires v & (v + 1) == 0
    ensures v == 0 || Odd(v)
    ensures Half(v) & (Half(v) + 1) == 0
  {
  }

  lemma {:induction false} ShiftZero(n: nat)
    ensures Shift(0, n) == 0
  {
    if n > 0 {
      assert Half(0) == 0;
      ShiftZero(n - 1);
    }
  }

  lemma OnesAreOnes()
    ensures forall i :: 0 <= i < 32 ==> CrcDetection.Ones()[i]
  {
    var ones: bv32 := 0xFFFF_FFFF;
    Shift31(ones);
    assert ones >> 31 == 1;
    assert ones & (ones + 1) == 0;
    AllOnes(ones, 32);
  }

  /** The checksum of every non-empty buffer is its frame check sequence. */
  lemma ChecksumIsFrameCheckSequence(data: seq<Byte>)
    requires data != []
    ensures Register(Checksum(data)) == FrameCheckSequence(Bits(data))
  {
    hide Register, Checksum, FeedBits, Bits, Remainder;
    var ones, shifted := CrcDetection.Ones(), Bits(data) + Zeros(32);
    OnesAreOnes();
    CrcDetection.ChecksumRegister(data);
    FeedDivides(ones, Bits(data));
    assert AddFront(shifted, ones) == Complement(shifted[..32]) + shifted[32..];
    assert XorBits(FeedBits(ones, Bits(data)), ones) == Complement(FeedBits(ones, Bits(data)));
  }
}
