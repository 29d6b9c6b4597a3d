/** The packet format of include/sinew/wire.hpp: a 16-byte header in the byte order of
    the host, followed by the payload. */
module Wire {
  import opened ByteOrder
  import opened Memory
  import opened Crc32
  import CrcDetection

  const MAGIC: bv32 := 0x574E4953
  const HEADER_SIZE: nat := 16

  datatype ErrorCode =
    Ok | BufferTooSmall | BadMagic | IdMismatch | VersionMismatch | ChecksumMismatch | Misaligned

  type Positive = n: nat | n > 0 witness 1

  /** A message type: its traits, its alignment, and the bytes of a newly constructed
      value, whose number is sizeof. */
  datatype MsgType = MsgType(id: bv16, version: bv16, align: Positive, initial: seq<Byte>) {
    function Size(): nat {
      |initial|
    }
  }

  // Types that no header tells apart.
  predicate SameTraits(t: MsgType, u: MsgType) {
    t.id == u.id && t.version == u.version && t.Size() == u.Size()
  }

  datatype Header = Header(magic: bv32, msgId: bv16, version: bv16, crc: bv32, payloadLen: nat)

  function HeaderBytes(h: Endian, header: Header): (r: seq<Byte>)
    ensures |r| == HEADER_SIZE
  {
    Store32(h, header.magic) + Store16(h, header.msgId) + Store16(h, header.version)
    + Store32(h, header.crc) + StoreLength(h, header.payloadLen)
  }

  function ReadHeader(h: Endian, bytes: seq<Byte>): Header
    requires |bytes| >= HEADER_SIZE
  {
    Header(Load32(h, bytes[..4]), Load16(h, bytes[4..6]), Load16(h, bytes[6..8]),
           Load32(h, bytes[8..12]), LoadLength(h, bytes[12..16]))
  }

  lemma FieldsOf(magic: seq<Byte>, id: seq<Byte>, version: seq<Byte>, crc: seq<Byte>, length: seq<Byte>,
                 rest: seq<Byte>)
    requires |magic| == |crc| == |length| == 4 && |id| == |version| == 2
    ensures var bytes := magic + id + version + crc + length + rest;
            && bytes[..4] == magic && bytes[4..6] == id && bytes[6..8] == version
            && bytes[8..12] == crc && bytes[12..16] == length
  {
  }

  lemma HeaderRoundTrip(h: Endian, header: Header, rest: seq<Byte>)
    ensures ReadHeader(h, HeaderBytes(h, header) + rest) == header.(payloadLen := header.payloadLen % LENGTH_LIMIT)
  {
    hide Store32, Store16, StoreLength, Load32, Load16, LoadLength;
    var magic, id, version := Store32(h, header.magic), Store16(h, header.msgId), Store16(h, header.version);
    var crc, length := Store32(h, header.crc), StoreLength(h, header.payloadLen);
    FieldsOf(magic, id, version, crc, length, rest);
    assert HeaderBytes(h, header) == magic + id + version + crc + length;
    LoadStore32(h, header.magic);
    LoadStore16(h, header.msgId);
    LoadStore16(h, header.version);
    LoadStore32(h, header.crc);
    LoadStoreLength(h, header.payloadLen);
  }

  // Only the first 16 bytes matter to the header.
  lemma HeaderOfPrefix(h: Endian, a: seq<Byte>, b: seq<Byte>)
    requires |a| >= HEADER_SIZE && |b| >= HEADER_SIZE && a[..HEADER_SIZE] == b[..HEADER_SIZE]
    ensures ReadHeader(h, a) == ReadHeader(h, b)
  {
    hide Load16, Load32, LoadLength;
    assert a[..4] == a[..HEADER_SIZE][..4] == b[..4];
    assert a[4..6] == a[..HEADER_SIZE][4..6] == b[4..6];
    assert a[6..8] == a[..HEADER_SIZE][6..8] == b[6..8];
    assert a[8..12] == a[..HEADER_SIZE][8..12] == b[8..12];
    assert a[12..16] == a[..HEADER_SIZE][12..16] == b[12..16];
  }

  /** Where the fields of the header are, in the byte order of the host, and the number that
      every packet begins with: the letters SINW in memory on a little-endian host. */
  lemma HeaderInMemory(h: Endian, header: Header)
    ensures var bytes := HeaderBytes(h, header);
            && bytes[0..4] == Store32(h, header.magic)
            && bytes[4..6] == Store16(h, header.msgId) && bytes[6..8] == Store16(h, header.version)
            && bytes[8..12] == Store32(h, header.crc) && bytes[12..16] == StoreLength(h, header.payloadLen)
    ensures MAGIC == 0x574E4953
    ensures Store32(Little, MAGIC) == [Byte(0x53), Byte(0x49), Byte(0x4E), Byte(0x57)]
  {
    ByteOrder32(MAGIC);
    hide Store32, Store16, StoreLength;
    FieldsOf(Store32(h, header.magic), Store16(h, header.msgId), Store16(h, header.version),
             Store32(h, header.crc), StoreLength(h, header.payloadLen), []);
    assert HeaderBytes(h, header) + [] == HeaderBytes(h, header);
  }

  // A pointer with the size the caller claims for it; `address` is the address of
  // the first byte.
  datatype Buffer = Null | Memory(address: nat, bytes: seq<Byte>)

  function Validate(h: Endian, t: MsgType, buffer: Buffer, verifyCrc: bool): ErrorCode {
    if buffer.Null? || |buffer.bytes| < HEADER_SIZE + t.Size() then BufferTooSmall
    else if (buffer.address + HEADER_SIZE) % t.align != 0 then Misaligned
    else
      var header := ReadHeader(h, buffer.bytes);
      if header.magic != MAGIC then BadMagic
      else if header.payloadLen != t.Size() then BufferTooSmall
      else if header.msgId != t.id then IdMismatch
      else if header.version != t.version then VersionMismatch
      else if verifyCrc && header.crc != 0
              && Checksum(buffer.bytes[HEADER_SIZE..HEADER_SIZE + t.Size()]) != header.crc then ChecksumMismatch
      else Ok
  }

  /** view: the payload in place, as the bytes it covers. */
  function View(h: Endian, t: MsgType, buffer: Buffer, verifyCrc: bool): Option<seq<Byte>> {
    if Validate(h, t, buffer, verifyCrc) != Ok then None
    else Some(buffer.bytes[HEADER_SIZE..HEADER_SIZE + t.Size()])
  }

  /** What validate answers on any buffer, by the fields as they lie there: each error
      exactly when its check is the first to fail, and Ok exactly when none does. */
  lemma ValidateExactly(h: Endian, t: MsgType, address: nat, bytes: seq<Byte>, verifyCrc: bool)
    ensures Validate(h, t, Null, verifyCrc) == BufferTooSmall
    ensures |bytes| < 16 + |t.initial| ==> Validate(h, t, Memory(address, bytes), verifyCrc) == BufferTooSmall
    ensures |bytes| >= 16 + |t.initial| ==>
              var error := Validate(h, t, Memory(address, bytes), verifyCrc);
              var aligned, right := (address + 16) % t.align == 0, Load32(h, bytes[0..4]) == 0x574E4953;
              var fits := LoadLength(h, bytes[12..16]) == |t.initial|;
              var same, current := Load16(h, bytes[4..6]) == t.id, Load16(h, bytes[6..8]) == t.version;
              var stored, payload := Load32(h, bytes[8..12]), bytes[16..16 + |t.initial|];
              var intact := !verifyCrc || stored == 0 || Checksum(payload) == stored;
              && (error == Misaligned <==> !aligned)
              && (error == BadMagic <==> aligned && !right)
              && (error == BufferTooSmall <==> aligned && right && !fits)
              && (error == IdMismatch <==> aligned && right && fits && !same)
              && (error == VersionMismatch <==> aligned && right && fits && same && !current)
              && (error == ChecksumMismatch <==> aligned && right && fits && same && current && !intact)
              && (error == Ok <==> aligned && right && fits && same && current && intact)
    ensures var buffer := Memory(address, bytes);
            View(h, t, buffer, verifyCrc)
            == if Validate(h, t, buffer, verifyCrc) == Ok then Some(bytes[16..16 + |t.initial|]) else None
  {
    hide Load32, Load16, LoadLength, Checksum;
  }

  // ---- Packets ----

  // The memory image of a message with a given stored checksum.
  function Packet(h: Endian, t: MsgType, payload: seq<Byte>, crc: bv32): (r: seq<Byte>)
    ensures |r| == HEADER_SIZE + |payload|
  {
    HeaderBytes(h, Header(MAGIC, t.id, t.version, crc, t.Size())) + payload
  }

  // The checksum that finalize stores; 0 means "not checked".
  function StoredCrc(payload: seq<Byte>, computeCrc: bool): bv32 {
    if computeCrc then Checksum(payload) else 0
  }

  /** Without computeCrc the stored checksum is the reserved 0, and any payload at all in
      that packet is accepted, checked or not. */
  lemma UncomputedIsUnchecked(h: Endian, t: MsgType, payload: seq<Byte>, damaged: seq<Byte>, slack: seq<Byte>,
                              address: nat, verifyCrc: bool)
    requires Fits(t) && |damaged| == t.Size() && (address + HEADER_SIZE) % t.align == 0
    ensures StoredCrc(payload, false) == 0 && StoredCrc(payload, true) == Checksum(payload)
    ensures View(h, t, Memory(address, Packet(h, t, damaged, StoredCrc(payload, false)) + slack), verifyCrc)
         == Some(damaged)
  {
    hide Validate, View, Packet, Checksum;
    ValidateAcceptsExactly(h, t, t, damaged, 0, slack, address, verifyCrc);
  }

  predicate Fits(t: MsgType) {
    t.Size() < LENGTH_LIMIT
  }

  predicate CrcAccepted(payload: seq<Byte>, crc: bv32, verifyCrc: bool) {
    verifyCrc && crc != 0 ==> Checksum(payload) == crc
  }

  lemma PacketHeader(h: Endian, t: MsgType, payload: seq<Byte>, crc: bv32, slack: seq<Byte>)
    requires Fits(t)
    ensures ReadHeader(h, Packet(h, t, payload, crc) + slack) == Header(MAGIC, t.id, t.version, crc, t.Size())
  {
    hide HeaderBytes, ReadHeader;
    var header := Header(MAGIC, t.id, t.version, crc, t.Size());
    HeaderRoundTrip(h, header, payload + slack);
    assert Packet(h, t, payload, crc) + slack == HeaderBytes(h, header) + (payload + slack);
  }

  /** Reading a packet written as type t back as type u, in a buffer with anything
      behind it: it is accepted exactly when the types agree on id, version and size,
      the payload is aligned, and the stored checksum is 0, unchecked or right. */
  lemma ValidateAcceptsExactly(h: Endian, t: MsgType, u: MsgType, payload: seq<Byte>, crc: bv32,
                               slack: seq<Byte>, address: nat, verifyCrc: bool)
    requires Fits(t) && |payload| == t.Size()
    ensures var buffer := Memory(address, Packet(h, t, payload, crc) + slack);
            && (Validate(h, u, buffer, verifyCrc) == Ok
                <==> && SameTraits(u, t)
                     && (address + HEADER_SIZE) % u.align == 0
                     && CrcAccepted(payload, crc, verifyCrc))
            && View(h, u, buffer, verifyCrc)
               == (if Validate(h, u, buffer, verifyCrc) == Ok then Some(payload) else None)
  {
    hide HeaderBytes, ReadHeader, Checksum;
    PacketHeader(h, t, payload, crc, slack);
    var bytes := Packet(h, t, payload, crc) + slack;
    assert bytes[HEADER_SIZE..HEADER_SIZE + t.Size()] == payload;
  }

  /** prepare, fill, finalize, then view gives back what was filled in, with the check
      of the checksum or without it. */
  lemma PacketRoundTrip(h: Endian, t: MsgType, payload: seq<Byte>, computeCrc: bool,
                        slack: seq<Byte>, address: nat, verifyCrc: bool)
    requires Fits(t) && |payload| == t.Size() && (address + HEADER_SIZE) % t.align == 0
    ensures View(h, t, Memory(address, Packet(h, t, payload, StoredCrc(payload, computeCrc)) + slack), verifyCrc)
         == Some(payload)
  {
    hide Validate, View, Packet, Checksum;
    ValidateAcceptsExactly(h, t, t, payload, StoredCrc(payload, computeCrc), slack, address, verifyCrc);
  }

  /** A finalised packet whose payload was hit by a burst of at most 32 bits is
      rejected with ChecksumMismatch exactly when its stored checksum is not 0. */
  lemma BurstRejectedUnlessUnchecked(h: Endian, t: MsgType, payload: seq<Byte>, damaged: seq<Byte>, start: nat,
                                     slack: seq<Byte>, address: nat)
    requires Fits(t) && |payload| == t.Size() && (address + HEADER_SIZE) % t.align == 0
    requires damaged != payload && CrcDetection.DifferOnlyInBurst(payload, damaged, start)
    ensures Validate(h, t, Memory(address, Packet(h, t, damaged, StoredCrc(payload, true)) + slack), true)
         == (if Checksum(payload) != 0 then ChecksumMismatch else Ok)
  {
    hide HeaderBytes, ReadHeader, Checksum;
    var crc := Checksum(payload);
    CrcDetection.BurstChangesChecksum(payload, damaged, start);
    PacketHeader(h, t, damaged, crc, slack);
    var bytes := Packet(h, t, damaged, crc) + slack;
    assert bytes[HEADER_SIZE..HEADER_SIZE + t.Size()] == damaged;
  }

  /** The reserved value does let damage through: this payload has checksum 0, and one
      flipped bit goes unnoticed although the checksum was computed and is verified. */
  lemma FlippedBitAccepted(h: Endian, t: MsgType, address: nat)
    requires t.Size() == 4 && (address + HEADER_SIZE) % t.align == 0
    ensures var sent := [Byte(0x9D), Byte(0x0A), Byte(0xD9), Byte(0x6D)];
            var received := [Byte(0x9C), Byte(0x0A), Byte(0xD9), Byte(0x6D)];
            Validate(h, t, Memory(address, Packet(h, t, received, StoredCrc(sent, true))), true) == Ok
  {
    var damaged: seq<Byte> := [Byte(0x9C), Byte(0x0A), Byte(0xD9), Byte(0x6D)];
    CrcDetection.ChecksumCanBeZero();
    hide Validate, View, Packet, Checksum;
    ValidateAcceptsExactly(h, t, t, damaged, 0, [], address, true);
    assert Packet(h, t, damaged, 0) + [] == Packet(h, t, damaged, 0);
  }

  // ---- The code that writes packets in place ----

  function PrepareError(t: MsgType, isNull: bool, capacity: nat, address: nat): ErrorCode {
    if isNull || capacity < HEADER_SIZE + t.Size() then BufferTooSmall
    else if (address + HEADER_SIZE) % t.align != 0 then Misaligned
    else Ok
  }

  method WriteHeader(h: Endian, header: Header, buffer: array<Byte>, at: nat)
    requires at + HEADER_SIZE <= buffer.Length
    modifies buffer
    ensures buffer[..] == Splice(old(buffer[..]), at, HeaderBytes(h, header))
  {
    hide Store32, Store16, StoreLength, Splice;
    ghost var m := buffer[..];
    var magic, id, version := Store32(h, header.magic), Store16(h, header.msgId), Store16(h, header.version);
    var crc, length := Store32(h, header.crc), StoreLength(h, header.payloadLen);
    Write(buffer, at, magic);
    Write(buffer, at + 4, id);
    SpliceAppend(m, at, magic, id);
    Write(buffer, at + 6, version);
    SpliceAppend(m, at, magic + id, version);
    Write(buffer, at + 8, crc);
    SpliceAppend(m, at, magic + id + version, crc);
    Write(buffer, at + 12, length);
    SpliceAppend(m, at, magic + id + version + crc, length);
  }

  // Header, cleared payload and constructed value together are a packet.
  lemma PreparedImage(mem: seq<Byte>, h: Endian, t: MsgType, at: nat)
    requires at + HEADER_SIZE + t.Size() <= |mem|
    ensures var header := HeaderBytes(h, Header(MAGIC, t.id, t.version, 0, t.Size()));
            Splice(Splice(Splice(mem, at, header), at + HEADER_SIZE, ZeroBytes(t.Size())), at + HEADER_SIZE, t.initial)
            == Splice(mem, at, Packet(h, t, t.initial, 0))
  {
    hide HeaderBytes;
  }

  /** prepare_result: `buffer + at` is the pointer argument and `address` its address.
      The payload it returns is at `at + HEADER_SIZE`, and is null unless the error is Ok. */
  method Prepare(h: Endian, t: MsgType, buffer: array?<Byte>, at: nat, capacity: nat, address: nat)
    returns (error: ErrorCode)
    requires buffer != null ==> at + capacity <= buffer.Length
    modifies buffer
    ensures error == PrepareError(t, buffer == null, capacity, address)
    ensures error == BufferTooSmall <==> buffer == null || capacity < 16 + |t.initial|
    ensures error == Misaligned <==> buffer != null && capacity >= 16 + |t.initial| && (address + 16) % t.align != 0
    ensures error == Ok <==> buffer != null && capacity >= 16 + |t.initial| && (address + 16) % t.align == 0
    ensures error == Ok ==> buffer[..] == Splice(old(buffer[..]), at, Packet(h, t, t.initial, 0))
    ensures error != Ok && buffer != null ==> buffer[..] == old(buffer[..])
  {
    if buffer == null || capacity < HEADER_SIZE + t.Size() {
      return BufferTooSmall;
    }
    if (address + HEADER_SIZE) % t.align != 0 {
      return Misaligned;
    }
    hide Packet;
    WriteHeader(h, Header(MAGIC, t.id, t.version, 0, t.Size()), buffer, at);
    Write(buffer, at + HEADER_SIZE, ZeroBytes(t.Size()));
    Write(buffer, at + HEADER_SIZE, t.initial);
    PreparedImage(old(buffer[..]), h, t, at);
    return Ok;
  }

  // The crc field of the header of a packet with this payload.
  function CrcField(h: Endian, payload: seq<Byte>, computeCrc: bool): (r: seq<Byte>)
    ensures |r| == 4
  {
    Store32(h, StoredCrc(payload, computeCrc))
  }

  /** finalize: store the checksum of the payload, or 0, eight bytes before it. A null
      payload is a null buffer. */
  method Finalize(h: Endian, table: seq<bv32>, t: MsgType, buffer: array?<Byte>, payload: nat, computeCrc: bool)
    returns (size: nat)
    requires IsTable(table)
    requires buffer != null ==> HEADER_SIZE <= payload && payload + t.Size() <= buffer.Length
    modifies buffer
    ensures size == if buffer == null then 0 else HEADER_SIZE + t.Size()
    ensures buffer != null ==>
              buffer[..] == Splice(old(buffer[..]), payload - 8,
                                   CrcField(h, old(buffer[payload..payload + t.Size()]), computeCrc))
    ensures buffer != null ==>
              && SameOutside(old(buffer[..]), buffer[..], payload - 8, payload - 4)
              && Load32(h, buffer[payload - 8..payload - 4])
                 == if computeCrc then Checksum(old(buffer[payload..payload + t.Size()])) else 0
  {
    hide CrcField, Splice, IsTable, Checksum, Load32;
    if buffer == null {
      return 0;
    }
    FieldIsRead(h, old(buffer[..]), payload - 8, old(buffer[payload..payload + t.Size()]), computeCrc);
    var field := ComputeCrcField(h, table, buffer, payload, t.Size(), computeCrc);
    Write(buffer, payload - 8, field);
    return HEADER_SIZE + t.Size();
  }

  // The field, once stored, reads as the checksum, or as 0, and nothing else has changed.
  lemma FieldIsRead(h: Endian, mem: seq<Byte>, at: nat, payload: seq<Byte>, computeCrc: bool)
    requires at + 4 <= |mem|
    ensures var mem' := Splice(mem, at, CrcField(h, payload, computeCrc));
            && SameOutside(mem, mem', at, at + 4)
            && Load32(h, mem'[at..at + 4]) == if computeCrc then Checksum(payload) else 0
  {
    hide Load32, Store32, Checksum;
    LoadStore32(h, if computeCrc then Checksum(payload) else 0);
    SpliceStaysInside(mem, at, CrcField(h, payload, computeCrc), at, at + 4);
  }

  method ComputeCrcField(h: Endian, table: seq<bv32>, buffer: array<Byte>, at: nat, length: nat, computeCrc: bool)
    returns (field: seq<Byte>)
    requires IsTable(table)
    requires at + length <= buffer.Length
    ensures field == CrcField(h, buffer[at..at + length], computeCrc)
  {
    hide Checksum, Store32, IsTable;
    if computeCrc {
      var crc := ComputeDefault(table, buffer, at, length);
      return Store32(h, crc);
    }
    return Store32(h, 0);
  }

  // Storing the checksum turns a prepared packet into a finished one.
  lemma StoringCrc(h: Endian, t: MsgType, payload: seq<Byte>, before: bv32, computeCrc: bool)
    requires |payload| == t.Size()
    ensures Splice(Packet(h, t, payload, before), 8, CrcField(h, payload, computeCrc))
         == Packet(h, t, payload, StoredCrc(payload, computeCrc))
  {
    hide Store32, Store16, StoreLength, StoredCrc;
  }
}
