/** Names of shared-memory objects: normalize_posix_shm_name of include/sinew/shm.hpp.
    A name is its bytes. */
module ShmName {
  import opened ByteOrder
  import opened Crc32
  import opened CrcDetection

  const MAX_LENGTH: nat := 31
  const PREFIX_LENGTH: nat := 22
  const SLASH := Byte(0x2F)
  const UNDERSCORE := Byte(0x5F)

  // One lower-case hexadecimal digit.
  function HexDigit(d: bv32): Byte {
    Byte(if d < 10 then 0x30 + Low8(d) else 0x57 + Low8(d))
  }

  function Low8(v: bv32): bv8 {
    (v & 0xFF) as bv8
  }

  function Nibble(v: bv32, shift: bv6): bv32
    requires shift < 32
  {
    (v >> shift) & 0xF
  }

  // "%08x"
  function Hex(v: bv32): (r: seq<Byte>)
    ensures |r| == 8
  {
    [HexDigit(Nibble(v, 28)), HexDigit(Nibble(v, 24)), HexDigit(Nibble(v, 20)), HexDigit(Nibble(v, 16)),
     HexDigit(Nibble(v, 12)), HexDigit(Nibble(v, 8)), HexDigit(Nibble(v, 4)), HexDigit(Nibble(v, 0))]
  }

  // A lower-case hexadecimal digit, and what it stands for.
  predicate IsHexDigit(c: Byte) {
    0x30 <= c.bits <= 0x39 || 0x61 <= c.bits <= 0x66
  }

  function DigitValue(c: Byte): bv32 {
    if c.bits <= 0x39 then (c.bits as bv32) - 0x30 else (c.bits as bv32) - 0x57
  }

  // Eight digits, the most significant first.
  function ReadHex(s: seq<Byte>): bv32
    requires |s| == 8
  {
    (DigitValue(s[0]) << 28) | (DigitValue(s[1]) << 24) | (DigitValue(s[2]) << 20) | (DigitValue(s[3]) << 16)
    | (DigitValue(s[4]) << 12) | (DigitValue(s[5]) << 8) | (DigitValue(s[6]) << 4) | DigitValue(s[7])
  }

  lemma DigitReads(d: bv32)
    requires d < 16
    ensures IsHexDigit(HexDigit(d)) && DigitValue(HexDigit(d)) == d
  {
  }

  lemma NibblesJoin(v: bv32)
    ensures (Nibble(v, 28) << 28) | (Nibble(v, 24) << 24) | (Nibble(v, 20) << 20) | (Nibble(v, 16) << 16)
            | (Nibble(v, 12) << 12) | (Nibble(v, 8) << 8) | (Nibble(v, 4) << 4) | Nibble(v, 0) == v
  {
  }

  /** What is printed are eight lower-case digits that read as the number printed. */
  lemma HexReads(v: bv32)
    ensures forall i :: 0 <= i < 8 ==> IsHexDigit(Hex(v)[i])
    ensures ReadHex(Hex(v)) == v
  {
    hide Nibble, HexDigit, DigitValue, IsHexDigit;
    NibbleReads(v, 28);
    NibbleReads(v, 24);
    NibbleReads(v, 20);
    NibbleReads(v, 16);
    NibbleReads(v, 12);
    NibbleReads(v, 8);
    NibbleReads(v, 4);
    NibbleReads(v, 0);
    NibblesJoin(v);
  }

  lemma NibbleIsSmall(v: bv32, shift: bv6)
    requires shift < 32
    ensures Nibble(v, shift) < 16
  {
  }

  lemma NibbleReads(v: bv32, shift: bv6)
    requires shift < 32
    ensures IsHexDigit(HexDigit(Nibble(v, shift))) && DigitValue(HexDigit(Nibble(v, shift))) == Nibble(v, shift)
  {
    hide Nibble, HexDigit, DigitValue, IsHexDigit;
    NibbleIsSmall(v, shift);
    DigitReads(Nibble(v, shift));
  }

  function Slashed(name: seq<Byte>): seq<Byte> {
    if name == [] || name[0] != SLASH then [SLASH] + name else name
  }

  predicate TooLong(name: seq<Byte>) {
    |Slashed(name)| > MAX_LENGTH
  }

  function Normal(name: seq<Byte>): seq<Byte> {
    var s := Slashed(name);
    if |s| > MAX_LENGTH then s[..PREFIX_LENGTH] + [UNDERSCORE] + Hex(Checksum(s)) else s
  }

  method NormalizePosixShmName(table: seq<bv32>, name: seq<Byte>) returns (s: seq<Byte>)
    requires IsTable(table)
    ensures s == Normal(name)
    ensures var slashed := if |name| == 0 || name[0] != Byte(0x2F) then [Byte(0x2F)] + name else name;
            if |slashed| <= 31 then s == slashed
            else && |s| == 31 && s[..22] == slashed[..22] && s[22] == Byte(0x5F)
                 && (forall i :: 23 <= i < 31 ==> IsHexDigit(s[i])) && ReadHex(s[23..]) == Checksum(slashed)
  {
    hide Checksum, Hex, IsTable, ReadHex, IsHexDigit;
    if name == [] || name[0] != SLASH {
      s := [SLASH] + name;
    } else {
      s := name;
    }
    if |s| > MAX_LENGTH {
      var data := new Byte[|s|](i requires 0 <= i < |s| => s[i]);
      assert data[0..|s|] == s;
      var hash := ComputeDefault(table, data, 0, |s|);
      HexReads(hash);
      ghost var digits := Hex(hash);
      s := s[..PREFIX_LENGTH] + [UNDERSCORE] + Hex(hash);
      assert s[23..] == digits && forall i :: 0 <= i < 8 ==> s[23 + i] == digits[i];
      assert forall i :: 23 <= i < 31 ==> s[i] == digits[i - 23];
    }
  }

  /** Every name becomes one with a leading slash and at most 31 bytes, and normalising
      that again changes nothing. */
  lemma NormalNamesAreFixed(name: seq<Byte>)
    ensures var s := Normal(name);
            1 <= |s| <= MAX_LENGTH && s[0] == SLASH && Normal(s) == s
  {
    hide Checksum, Hex;
  }

  // ---- Which names collide ----

  lemma HexIsInjective(v: bv32, w: bv32)
    requires Hex(v) == Hex(w)
    ensures v == w
  {
    hide Hex, ReadHex;
    HexReads(v);
    HexReads(w);
  }

  /** Two over-long names collide exactly when they agree in the 22 bytes kept and in
      their checksums. */
  lemma LongNamesCollideExactly(a: seq<Byte>, b: seq<Byte>)
    requires TooLong(a) && TooLong(b)
    ensures Normal(a) == Normal(b)
       <==> Slashed(a)[..PREFIX_LENGTH] == Slashed(b)[..PREFIX_LENGTH] && Checksum(Slashed(a)) == Checksum(Slashed(b))
  {
    hide Checksum, Hex;
    var s, t, p, q := Slashed(a), Slashed(b), Normal(a), Normal(b);
    assert p[..PREFIX_LENGTH] == s[..PREFIX_LENGTH] && q[..PREFIX_LENGTH] == t[..PREFIX_LENGTH];
    assert p[PREFIX_LENGTH + 1..] == Hex(Checksum(s)) && q[PREFIX_LENGTH + 1..] == Hex(Checksum(t));
    if p == q {
      HexIsInjective(Checksum(s), Checksum(t));
    }
  }

  // The two names agree outside four bytes in a row.
  ghost predicate DifferOnlyInFour(a: seq<Byte>, b: seq<Byte>, start: nat) {
    && |a| == |b|
    && forall i :: 0 <= i < |a| && !(start <= i < start + 4) ==> a[i] == b[i]
  }

  lemma {:induction false} BitsOfSplit(a: seq<Byte>, k: nat)
    requires k <= |a|
    ensures Bits(a) == Bits(a[..k]) + Bits(a[k..])
    ensures |Bits(a[..k])| == 8 * k
    decreases k
  {
    hide ByteBits;
    if k == 0 {
      assert a[..0] == [] && a[0..] == a;
    } else {
      BitsOfSplit(a[1..], k - 1);
      assert a[1..][..k - 1] == a[..k][1..] && a[1..][k - 1..] == a[k..];
    }
  }

  /** Two different over-long names that differ only within four consecutive bytes never
      become the same name. */
  lemma NearbyNamesStayApart(a: seq<Byte>, b: seq<Byte>, start: nat)
    requires TooLong(a) && Slashed(a) != Slashed(b) && DifferOnlyInFour(Slashed(a), Slashed(b), start)
    ensures Normal(a) != Normal(b)
  {
    hide Checksum, Hex, Bits;
    var s, t := Slashed(a), Slashed(b);
    FourBytesAreABurst(s, t, start);
    BurstChangesChecksum(s, t, 8 * start);
    LongNamesCollideExactly(a, b);
  }

  lemma FourBytesAreABurst(a: seq<Byte>, b: seq<Byte>, start: nat)
    requires DifferOnlyInFour(a, b, start)
    ensures DifferOnlyInBurst(a, b, 8 * start)
  {
    hide Bits;
    var from, to := if start < |a| then start else |a|, if start + 4 < |a| then start + 4 else |a|;
    BitsOfSplit(a, from);
    BitsOfSplit(b, from);
    BitsOfSplit(a, to);
    BitsOfSplit(b, to);
    assert a[..from] == b[..from] && a[to..] == b[to..];
    BitsLength(a);
    BitsLength(b);
  }

  lemma BitsLength(a: seq<Byte>)
    ensures |Bits(a)| == 8 * |a|
  {
    BitsOfSplit(a, |a|);
    assert a[..|a|] == a;
  }

  /** Uniqueness as such is not kept: every over-long name collides with its own normal
      form, which is a different name. */
  lemma UniquenessFails(name: seq<Byte>)
    requires TooLong(name)
    ensures Normal(name) != Slashed(name) && Normal(Normal(name)) == Normal(name)
  {
    hide Checksum, Hex;
    NormalNamesAreFixed(name);
  }

  /** Exactly when two names share one object. */
  lemma NamesCollideExactly(a: seq<Byte>, b: seq<Byte>)
    ensures Normal(a) == Normal(b) <==>
              if TooLong(a) && TooLong(b)
              then && Slashed(a)[..PREFIX_LENGTH] == Slashed(b)[..PREFIX_LENGTH]
                   && Checksum(Slashed(a)) == Checksum(Slashed(b))
              else if TooLong(a) then Slashed(b) == Normal(a)
              else if TooLong(b) then Slashed(a) == Normal(b)
              else Slashed(a) == Slashed(b)
  {
    hide Checksum, Hex;
    if TooLong(a) && TooLong(b) {
      LongNamesCollideExactly(a, b);
    }
  }
}
