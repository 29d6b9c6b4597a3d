# A verified model of Sinew

Sinew is a header-only, zero-copy messaging library. This project models its three
connected cores in Dafny 4.11 and proves what they are for:

* **The lock-free ring** (`SpscRingBuffer`, `IpcRingBuffer`, `IpcEnvelopeRingBuffer`), twice.
  `Rings.dfy` is the code of the three classes as one imperative class over a flat array of
  bytes, with wrapping counter words and masked slot numbers. `RingProtocol.dfy` is the same
  ring as one producer and one consumer run it concurrently: slot bytes are written and read
  one at a time, a load of the other side's counter may return any value from the last one seen
  up to the newest, and release/acquire pairs carry visibility (section 4.7.1 and section 32.4
  of ISO/IEC 14882:2017). A read that races with a write may return any byte. The main theorem,
  `RingRefinement.RunsAreSafe`, is that every state of every run, for every word width and every
  capacity 2^k, is that of a bounded first-in first-out queue, without a data race. `RingPush` and
  `RingPop` add, for a push and a pop in any part of any run, that each of their fixed number of steps
  can be taken whatever the other side is doing, and exactly when they succeed.
* **CRC-32**: the table algorithm, its equality with polynomial long division (section 3.2.9 of
  IEEE Std 802.3), chaining, its behaviour under exclusive or, and burst detection, which is then
  lifted through `validate` and through the hashed names of shared-memory objects.
* **The wire format, the dispatcher and the portable encoding**: what a packet is accepted as,
  whom the dispatcher visits, and between which hosts and for which message types the portable
  encoding preserves the meaning of a value. Message types are layouts: scalars, strings,
  bounded vectors and reflected structs of these.

`dafny verify dfyconfig.toml` checks everything.

## How the model reads the code

* The byte order of a host is a parameter (`Endian`); a `MsgType` is the traits of a C++ type, its
  alignment, and the bytes of a newly constructed value. Bytes are `Byte`, a wrapped `bv8`.
* Addresses matter only for alignment. A null pointer is `Null`, `None` or a null array.
* Preconditions taken from the interface: `commit_write` follows a non-null `prepare_write`,
  `commit_read` needs a message that the consumer has seen, by any load of head (not that it has looked at
  it or viewed it; `RingGuarantees.CommitReadNeedsAMessage` shows why one is needed), there is one thread
  on each side, and both sides are already attached. A ring starts on a multiple of 64 (a cache line or a page) and message
  types are aligned to at most 16 bytes.
* The stored checksum 0 means "not checked", as in `finalize` and `validate`. What that costs is
  stated exactly (`Wire.BurstRejectedUnlessUnchecked`, `Wire.FlippedBitAccepted`).
* A portable value is compared by its meaning: scalars as digits, strings and vectors as their size
  and the elements below it. Padding and spare elements have no meaning.

Where the code does less than one might expect, the model keeps the code and says exactly when the
promise holds:

* Twice `portable_swap` is the identity, and every host decodes what every other encodes, exactly for
  types whose vectors of more than 65535 elements hold only bytes: the loop bound of the decoder is a
  byte-swapped length (`PortableBound.RestoresExactly`, `PortableCodec.PortableExactly`).
* `crc32` continues across a split exactly when the second part is non-empty or the checksum of the
  first is 0, since the empty case ignores `initial` (`CrcDetection.ChecksumContinues`).
* `size()` is the number of messages exactly when the head word is not below the tail word
  (`Counters.SizeExactly`, `Counters.SizeGoesWrong`).
* The comment in `shm.hpp` says that the hash ensures uniqueness. It does for over-long names of one length
  that differ only within four consecutive bytes (`ShmName.NearbyNamesStayApart`), but any over-long name
  shares its object with the name that is its own normal form (`ShmName.NamesCollideExactly`,
  `ShmName.UniquenessFails`).
* The comment in `types.hpp` gives the magic as the letters SNEW; the constant is SINW in the memory of a
  little-endian host (`Wire.HeaderInMemory`).
* The bridge reuses one ROS message, and without a callback it takes messages and publishes nothing. It
  loses and muddles nothing exactly when there is a callback and the converters overwrite all of the reused
  message (`Bridge.ConservesExactly`, `Bridge.ReuseIsSafeExactly`).
* A push is refused for the tail it has loaded, which may be stale (`RingPush.PushOutcome`,
  `RingPush.StaleTailRefuses`).

## Files

| file | contents |
|---|---|
| `ByteOrder.dfy`, `Memory.dfy` | integers as bytes on either kind of host; overwriting ranges of bytes |
| `Crc32.dfy`, `CrcDivision.dfy`, `CrcDetection.dfy` | the checksum, long division, chaining and detection |
| `Wire.dfy`, `Dispatch.dfy` | packets, `prepare`, `finalize`, `validate`; the dispatcher |
| `Portable.dfy`, `PortableBound.dfy`, `PortableCodec.dfy` | the meaning of values, the bound 65535, the encoder and decoder |
| `Counters.dfy`, `Region.dfy` | wrapping words against unbounded counts; where slots lie |
| `Slots.dfy`, `Rings.dfy`, `Bus.dfy` | the ring class, and runs of its calls |
| `RingProtocol.dfy` | the concurrent ring: state, steps, invariant |
| `RingInvariant.dfy`, `RingSteps.dfy` | each step keeps the invariant |
| `RingRefinement.dfy`, `RingDrafts.dfy` | refinement to a queue; what is filled in is what is committed |
| `RingGuarantees.dfy` | what either side may rely on |
| `RingCalls.dfy`, `RingPush.dfy`, `RingPop.dfy` | a push and a pop in any part of any run |
| `Bridge.dfy`, `ShmName.dfy` | the ROS 2 bridge; names of shared-memory objects |

## Model

| member | source | states |
|---|---|---|
| RingRefinement.RunsAreSafe | include/sinew/ring_buffer.hpp:68-118 | In every state of every run: the operations so far are those of a queue bounded by the capacity, which holds exactly the messages outstanding; deliveries match a prefix of the messages committed; producer and consumer are not in one slot, and every byte about to be written or read was last read or written by the other side before a store this side has acquired |
| RingRefinement.RunRefines | include/sinew/ring_buffer.hpp:81-118 | The trace of enqueues (head stores) and dequeues (tail stores) of any run is accepted by the bounded queue |
| RingRefinement.EnqueueRefines | include/sinew/ring_buffer.hpp:81-88 | The head store enqueues one sealed packet into a queue that has room |
| RingRefinement.DequeueRefines | include/sinew/ring_buffer.hpp:115-118 | The tail store dequeues the oldest message, whether or not it was viewed or looked at; whatever was read of it, and the type it was viewed as if any, are those of what was committed |
| RingRefinement.OtherStepsStutter | include/sinew/ring_buffer.hpp:68-112 | No other step changes the queue |
| RingRefinement.ReadInFull | include/sinew/ring_buffer.hpp:121-130 | A delivery read in full is the committed packet byte for byte |
| RingSteps.StepKeepsInv | include/sinew/ring_buffer.hpp:68-118 | Every step of either thread, with any stale value a load may return, keeps the invariant |
| RingSteps.InitInv | include/sinew/ring_buffer.hpp:37-39 | An attached, empty ring with arbitrary slot contents satisfies it |
| RingSteps.InitialIsInit | include/sinew/ring_buffer.hpp:37-39 | For every configuration there is an initial state |
| RingSteps.ViewAccepts | include/sinew/wire.hpp:21-62 | On a committed message `view<T>`, with or without checksum, succeeds if and only if T has its id, version and size |
| RingSteps.AcceptKeeps | include/sinew/ipc_envelope.hpp:226-237 | The consumer views the message it peeks at exactly when the type agrees, and may try another type |
| RingSteps.InspectionShows | include/sinew/ipc_envelope.hpp:197-220 | Under concurrency too, `peek_packet` on a committed message is never refused and shows its id, version, stored checksum and length |
| RingSteps.InspectKeeps | include/sinew/ipc_envelope.hpp:197-220 | Peeking at the packet keeps the invariant |
| RingSteps.ReleaseHeadKeeps | include/sinew/ring_buffer.hpp:81-88 | Publishing keeps the invariant across wraparound of the head word |
| RingSteps.ReleaseTailKeeps | include/sinew/ring_buffer.hpp:115-118 | Handing back any message that the consumer has seen keeps it: the next use of the slot is ordered after the last read |
| RingSteps.ReadByteKeeps | include/sinew/ring_buffer.hpp:102-112 | Reading a byte keeps it |
| RingInvariant.NeverInTheSameSlot | include/sinew/ring_buffer.hpp:68-112 | A slot being written is never the slot being read |
| RingInvariant.NoRace | include/sinew/ring_buffer.hpp:68-118 | What the producer overwrites was last read before a tail store it has acquired; what the consumer reads was last written before a head store it has acquired |
| RingInvariant.ReadsCommittedByte | include/sinew/ring_buffer.hpp:102-112 | A read returns the byte that was committed, never a torn one |
| RingInvariant.AcquireTailKeeps | include/sinew/ring_buffer.hpp:68-78 | `prepare_write` is refused exactly when the tail it loaded leaves no room |
| RingInvariant.LoadHeadKeeps | include/sinew/ring_buffer.hpp:69 | The producer's own relaxed load keeps the invariant |
| RingInvariant.AbandonKeeps | include/sinew/ring_buffer.hpp:68-78 | Preparing again without committing keeps it |
| RingInvariant.QueryTailKeeps | include/sinew/ring_buffer.hpp:51-65 | A relaxed load of tail in `size()`, `empty()` or `full()` keeps it |
| RingInvariant.QueryHeadKeeps | include/sinew/ring_buffer.hpp:51-65 | The same for head on the consumer's side |
| RingInvariant.LoadTailKeeps | include/sinew/ring_buffer.hpp:103 | The consumer's own relaxed load keeps it |
| RingInvariant.LeaveKeeps | include/sinew/ring_buffer.hpp:102-112 | Peeking without taking keeps it |
| RingInvariant.AcquireHeadKeeps | include/sinew/ring_buffer.hpp:102-112 | `peek_read` finds nothing exactly when the head it loaded equals its tail |
| RingInvariant.PrepareByteKeeps | include/sinew/wire.hpp:135-146 | Writing the header and the new value byte by byte keeps the invariant |
| RingInvariant.FillByteKeeps | include/sinew/ring_buffer.hpp:91-99 | Filling the payload keeps it |
| RingInvariant.SealKeeps | include/sinew/wire.hpp:165-181 | Reloading head and computing the checksum keeps it, and finds the same slot |
| RingInvariant.SealByteKeeps | include/sinew/wire.hpp:174-178 | Storing the checksum byte by byte keeps it |
| RingInvariant.SealedExactly | include/sinew/wire.hpp:165-181 | When the crc field is complete, the slot holds the packet of its payload whose crc is the checksum of the payload if one was asked for, and 0 if not |
| RingInvariant.SealedImage | include/sinew/wire.hpp:165-181 | So what is committed is a sealed packet |
| RingDrafts.CommitsWhatWasFilledIn | include/sinew/ring_buffer.hpp:81-99 | Over any run, the packet committed is the one of exactly the payload its producer constructed and filled in, with nothing of an earlier message; its crc is the checksum of that payload if the last seal asked for one, and 0 if not |
| RingDrafts.DraftIsIntended | include/sinew/ring_buffer.hpp:68-88 | At every moment of a run the draft in the slot, and the checksum being stored, are the ones intended, whatever the consumer does |
| RingGuarantees.FullExactly | include/sinew/ring_buffer.hpp:61-65 | On wrapping words, `full()` with any tail the producer may load is the comparison of unbounded counts |
| RingGuarantees.EmptyExactly | include/sinew/ring_buffer.hpp:57-59 | The same for `empty()` with any head the consumer may load |
| RingGuarantees.SeenGrowsAlong | include/sinew/ring_buffer.hpp:51-112 | Along a run neither side's view of the other's counter goes back |
| RingPush.PushOutcome | include/sinew/ring_buffer.hpp:91-99 | In any part of any run in which the producer does one push, however the consumer's steps come between: it is refused exactly when the tail it loaded leaves no room, and then commits nothing; otherwise its last step, and no other, commits exactly its packet, with the checksum of the payload if `compute_crc` and 0 if not |
| RingPush.PushNeverWaits | include/sinew/ring_buffer.hpp:68-99 | At every moment of such a part, unless refused, the next of its 2 sizeof(T) + 24 steps can be taken, whichever tail it loads |
| RingPush.StaleTailRefuses | include/sinew/ring_buffer.hpp:68-74 | A stale tail refuses a push although the ring has room |
| RingPush.PushCanFinish | include/sinew/ring_buffer.hpp:91-99 | From any such moment, with room, the producer can finish the push by itself |
| RingPop.PopOutcome | include/sinew/ring_buffer.hpp:121-130 | The same for a pop: it finds nothing exactly when the head it loaded is its tail; otherwise its last step takes out the message that was oldest when it began, byte for byte, if that is of its type, and takes nothing if not |
| RingPop.PopNeverWaits | include/sinew/ring_buffer.hpp:102-130 | At every moment, unless the ring looked empty, the next of its steps can be taken, whichever head it loads |
| RingPop.PopCanFinish | include/sinew/ring_buffer.hpp:121-130 | From any such moment, with a message there, the consumer can finish the pop by itself |
| RingCalls.PartOfRun | include/sinew/ring_buffer.hpp:68-130 | Every part of a run is one that these results are about |
| RingGuarantees.NotFullStaysTrue | include/sinew/ring_buffer.hpp:61-78 | After `full()` was false for the producer its next `prepare_write` succeeds, in every continuation of the run |
| RingGuarantees.NotEmptyStaysTrue | include/sinew/ring_buffer.hpp:57-112 | After `empty()` was false for the consumer its next `peek_read` finds a slot |
| RingGuarantees.SizeIsOneSided | include/sinew/ring_buffer.hpp:51-55 | `size()` over-approximates on the producer's side, under-approximates on the consumer's, and stays within 0 and the capacity |
| RingGuarantees.TypedRingNeverRefuses | include/sinew/ring_buffer.hpp:102-112 | On a ring of one type a message found is always returned |
| RingGuarantees.CommitReadNeedsAMessage | include/sinew/ring_buffer.hpp:115-118 | Without a message seen, `commit_read` lets the next peek take an old head for news |
| Counters.MaskIsRemainder | include/sinew/ring_buffer.hpp:34 | Masking with 2^k - 1 bit by bit is the remainder by 2^k |
| Counters.MaskedWordIsSlot | include/sinew/ring_buffer.hpp:76 | The masked word is the slot of the unbounded count |
| Counters.MinusOfWords | include/sinew/ring_buffer.hpp:72 | Unsigned subtraction of words is the difference of counts across wraparound |
| Counters.NextWord | include/sinew/ring_buffer.hpp:87 | Incrementing a word follows the count across wraparound |
| Counters.WordsDecideAlike | include/sinew/ring_buffer.hpp:68-118 | With at most a full ring outstanding, the tests on wrapping words, the slot and the increment agree with counters that never wrap |
| Counters.SlotsDiffer | include/sinew/ring_buffer.hpp:76-110 | Counts fewer than the capacity apart have different slots |
| Counters.SlotRepeats | include/sinew/ring_buffer.hpp:76-110 | A slot is used again after exactly the capacity |
| Counters.SizeExactly | include/sinew/ipc_ring_buffer.hpp:142-147 | `size()` is right exactly when the head word is not below the tail word, and what it is otherwise |
| Counters.SizeGoesWrong | include/sinew/ring_buffer.hpp:51-55 | Counts for which it is wrong, in both variants |
| Region.SlotsDisjoint | include/sinew/ipc_envelope.hpp:156 | Slots do not overlap, start after the header and end within the region |
| Region.RoundUpIs | include/sinew/ipc_envelope.hpp:38 | The slot size is the next multiple of its alignment |
| Region.PayloadAligned | include/sinew/ipc_ring_buffer.hpp:56-60 | Every payload is aligned for its type |
| Region.LayoutsSuit | include/sinew/ipc_envelope.hpp:36-40 | The three slot layouts are valid, begin at byte 192 in shared memory, and suit the types they may carry |
| Rings.Ring.constructor | include/sinew/ring_buffer.hpp:37-39 | A new ring is empty |
| Rings.Ring.Decisions | include/sinew/ipc_ring_buffer.hpp:149-173 | The words of a ring decide full, empty and slots as its queue would |
| Rings.Ring.Size | include/sinew/ring_buffer.hpp:51-55 | The number of messages, if and only if the words are in order, and the value otherwise |
| Rings.Ring.Empty | include/sinew/ipc_ring_buffer.hpp:149-152 | True exactly when the queue is empty |
| Rings.Ring.Full | include/sinew/ipc_ring_buffer.hpp:154-159 | True exactly when it holds as many messages as its capacity |
| Rings.Ring.PrepareWrite | include/sinew/ipc_envelope.hpp:143-158 | Null exactly when full; otherwise a new value in a slot that overlaps no queued message, and no other byte changes |
| Rings.Ring.Fill | include/sinew/ipc_envelope.hpp:187 | Writing through the pointer changes exactly those bytes of the draft and no queued message |
| Rings.Ring.CommitWrite | include/sinew/ipc_envelope.hpp:163-179 | Appends exactly the prepared and filled message, with the checksum of the draft if asked for and 0 if not, writing only to its slot |
| Rings.Ring.StoreCrc | include/sinew/ring_buffer.hpp:84-85 | Exactly the crc field is stored, and then reads as the checksum of the draft, or as 0 |
| Rings.Ring.StoreCrcByLength | include/sinew/ipc_envelope.hpp:168-176 | Going by the length in the header, the same: the field reads as the checksum of the draft, or as 0 |
| Rings.Ring.Push | include/sinew/ipc_envelope.hpp:184-190 | Queues the value, with its checksum if asked for and 0 if not, exactly when the ring is not full |
| Rings.Ring.Peek | include/sinew/ipc_envelope.hpp:226-237 | A payload exactly when the oldest message agrees with the type, and then its committed bytes |
| Rings.Ring.PeekPacket | include/sinew/ipc_envelope.hpp:197-220 | A valid view with the id, version, checksum and exact payload of the oldest message, or an empty view when there is none |
| Rings.Ring.CommitRead | include/sinew/ring_buffer.hpp:115-118 | Takes out exactly the oldest message |
| Rings.Ring.Pop | include/sinew/ring_buffer.hpp:121-141 | Hands over and takes out the oldest message, or neither |
| Rings.Ring.DispatchOldest | include/sinew/ipc_envelope.hpp:243-253 | Handled exactly when there is a message and some listed type has its traits; then there is one visit, for such a listed type, with the payload of the oldest message |
| Rings.Ring.DispatchAndCommit | include/sinew/ipc_envelope.hpp:259-265 | Handled exactly when there is a message and some listed type has its traits; then there is one visit, with its payload, and it is taken out; otherwise the queue is as it was |
| Bus.VisitsAreInOrder | include/sinew/ipc_envelope.hpp:259-289 | Over every run of push, dispatch_and_commit, consume and commit_read, the messages taken out are one for one, in order, the oldest accepted ones, as their visits showed them, and the rest are still queued |
| Bus.CallExactly | include/sinew/ipc_envelope.hpp:184-289 | What each call does after any run: a push is accepted exactly when there is room; a dispatch whose list has the type of the oldest message takes it out, consume if that is its type, commit_read in any case; any other call changes nothing |
| Rings.RunCalls | include/sinew/ipc_envelope.hpp:184-289 | Any such run of calls on a ring object leaves that queue and makes those visits, each call as in `Bus.CallExactly` |
| Slots.QueueElsewhere | include/sinew/ipc_envelope.hpp:156 | Writing within the next slot leaves every queued message as it was |
| Slots.PrepareMakesReady | include/sinew/wire.hpp:135-146 | After prepare the slot has the header of the type and a new value |
| Slots.FillKeepsReady | include/sinew/ring_buffer.hpp:96 | Filling changes the draft and not the header |
| Slots.CommitMakesMessage | include/sinew/wire.hpp:165-181 | Storing the checksum makes the slot hold the drafted message |
| Slots.ViewOfSlot | include/sinew/wire.hpp:87-93 | Viewing a slot yields its payload exactly for types with its traits |
| Slots.InspectionOfSlot | include/sinew/dispatch.hpp:28-46 | Inspecting a slot shows the header and payload of the message in it and no leftover bytes |
| Crc32.GenerateTable | include/sinew/crc32.hpp:11-21 | Entry b is eight bit steps of b |
| Crc32.TableEntry | include/sinew/crc32.hpp:14-18 | The inner loop is eight bit steps |
| Crc32.ByteStep | include/sinew/crc32.hpp:33-36 | One table look-up is eight steps of bit-by-bit division |
| Crc32.Compute | include/sinew/crc32.hpp:27-38 | The table loop computes the bit-by-bit checksum from any initial value; null and empty input give 0 |
| CrcDivision.ChecksumIsFrameCheckSequence | include/sinew/crc32.hpp:27-38 | The checksum is the remainder of polynomial long division, complemented |
| CrcDivision.GeneratorOfTheStandard | include/sinew/crc32.hpp:16 | The divisor has exactly the terms of the generator of IEEE 802.3 |
| CrcDivision.FeedDivides | include/sinew/crc32.hpp:15-17 | Feeding bits into the register is long division |
| CrcDetection.ChecksumAffine | include/sinew/crc32.hpp:27-38 | crc(a^b^c) = crc(a)^crc(b)^crc(c) for equal lengths |
| CrcDetection.ChecksumContinues | include/sinew/crc32.hpp:27-38 | Exactly when a checksum may be continued across a split |
| CrcDetection.BurstChangesChecksum | include/sinew/crc32.hpp:27-38 | Any change within 32 consecutive bits, at any offset and length, changes the checksum |
| CrcDetection.ChecksumCanBeZero | include/sinew/crc32.hpp:27-38 | A non-empty payload whose checksum is the reserved value 0 |
| ByteOrder.Bswap16Reverses | include/sinew/endian.hpp:26-34 | Shifts and masks reverse the bytes in memory, on either host |
| ByteOrder.Bswap32Reverses | include/sinew/endian.hpp:36-47 | The same for 32 bits |
| ByteOrder.Bswap64Reverses | include/sinew/endian.hpp:49-64 | The same for 64 bits |
| ByteOrder.ByteSwap | include/sinew/portable.hpp:37-56 | Reverses the bytes of values of 2, 4 and 8 bytes and leaves others alone |
| ByteOrder.NormalisedStore16 | include/sinew/endian.hpp:67-88 | A normalised field is stored little-endian on either host |
| ByteOrder.NormalisedStore32 | include/sinew/endian.hpp:67-88 | The same for 32 bits |
| ByteOrder.ByteOrder16 | include/sinew/endian.hpp:13-24 | A little-endian host stores the low byte first, a big-endian host the high byte |
| ByteOrder.ByteOrder32 | include/sinew/endian.hpp:13-24 | The same for 32 bits |
| ByteOrder.ByteOrderOfLength | include/sinew/endian.hpp:13-24 | The same for lengths, as numbers |
| ByteOrder.LoadedAsLittle | include/sinew/portable.hpp:171-189 | What a host loads and normalises is what a little-endian host would load |
| ByteOrder.LoadLengthFlipped | include/sinew/endian.hpp:36-47 | Swapping a length makes the other host read it |
| ByteOrder.ShortLengthReadsLong | include/sinew/portable.hpp:104 | A non-zero length of at most 65535 reads as more than 65535 in the other byte order |
| Wire.HeaderRoundTrip | include/sinew/types.hpp:15-23 | The packed header reads back as written |
| Wire.HeaderInMemory | include/sinew/types.hpp:12-23 | Magic, id, version, crc and length lie at bytes 0, 4, 6, 8 and 12, and the magic in memory is 53 49 4E 57 on a little-endian host |
| Wire.ValidateAcceptsExactly | include/sinew/wire.hpp:21-62 | A packet is accepted as a type exactly when traits, alignment and checksum agree, and then shows its payload |
| Wire.ValidateExactly | include/sinew/wire.hpp:21-62 | On every buffer: each error is returned exactly when its check on the bytes of the header is the first to fail, and Ok exactly when none does |
| Wire.UncomputedIsUnchecked | include/sinew/wire.hpp:54-178 | A packet finished without a checksum stores 0, and any payload put into it is accepted even when checksums are verified |
| Wire.PacketRoundTrip | include/sinew/wire.hpp:87-181 | prepare, fill, finalize and view give back what was filled in |
| Wire.BurstRejectedUnlessUnchecked | include/sinew/wire.hpp:54-59 | Damage within 32 bits gives ChecksumMismatch exactly when the stored checksum is not 0 |
| Wire.FlippedBitAccepted | include/sinew/wire.hpp:54-59 | A concrete payload with checksum 0 for which a flipped bit is accepted |
| Wire.Prepare | include/sinew/wire.hpp:121-147 | Each refusal exactly when the buffer is null, short or misaligned, leaving it alone; otherwise exactly one packet is written |
| Wire.WriteHeader | include/sinew/wire.hpp:135-140 | Field by field, exactly the 16 bytes of the header |
| Wire.PreparedImage | include/sinew/wire.hpp:135-146 | Header, cleared memory and new value are one packet |
| Wire.Finalize | include/sinew/wire.hpp:165-181 | Null gives 0; otherwise no byte outside the crc field changes, and that field then reads as the checksum of the payload if `compute_crc`, and as 0 if not |
| Wire.StoringCrc | include/sinew/wire.hpp:165-181 | That turns a prepared packet into a finished one |
| Dispatch.InspectPacket | include/sinew/dispatch.hpp:28-46 | On every buffer, from the bytes of the header: BadMagic exactly when there are 16 bytes and the magic differs, Ok exactly when it agrees and the length fits, BufferTooSmall otherwise; the view is untouched on error, and on Ok valid, with the fields of the header and the bytes behind it |
| Dispatch.InspectedPacket | include/sinew/dispatch.hpp:28-46 | A packet inspects to its header and exactly its payload, whatever follows it |
| Dispatch.HasDuplicateMessageIds | include/sinew/dispatch.hpp:51-62 | True exactly when two listed types share an id |
| Dispatch.FoldVisits | include/sinew/dispatch.hpp:65-108 | The fold visits at most once, a listed type that can view the packet, and it does visit if some listed type can |
| Dispatch.DispatchExactly | include/sinew/dispatch.hpp:92-108 | With distinct ids, the visit is for exactly the listed type that can view the packet |
| Dispatch.OrderIsIrrelevant | include/sinew/dispatch.hpp:92-108 | Listing the types in another order changes nothing |
| Dispatch.RawAndInspectedAgree | include/sinew/dispatch.hpp:114-121 | Dispatching the raw buffer and inspecting first agree, on success and on the visit |
| Dispatch.ViewOfPrefix | include/sinew/dispatch.hpp:118-120 | A packet cut to its own length is viewed as it was in the larger buffer |
| Portable.SwapTransfers | include/sinew/portable.hpp:98-116 | One swap carries a value to the other byte order when all its elements are visited |
| Portable.ShortVectorsVisited | include/sinew/portable.hpp:104-107 | With vectors of at most 65535 elements all elements are visited, even when the length read is still swapped |
| Portable.SwapTwice | include/sinew/portable.hpp:98-116 | For such types two swaps restore the meaning of every value |
| PortableBound.RestoresExactly | include/sinew/portable.hpp:98-116 | Swapping twice restores every value exactly for such types |
| PortableBound.SwapExactly | include/sinew/portable.hpp:98-116 | Byte by byte: scalars of 2, 4 and 8 bytes and `size_` are turned round; of a vector exactly the elements below the `size_` read before are swapped; everything else stays |
| PortableBound.UnrestoredFails | include/sinew/portable.hpp:104-108 | For any other type, a value that is not restored |
| PortableCodec.PortableSwap | include/sinew/portable.hpp:98-116 | The in-place recursion has exactly the specified effect, on nothing but the value |
| PortableCodec.OnlyTheValue | include/sinew/portable.hpp:98-116 | That effect is on the bytes of the value and on no others |
| PortableCodec.WireImageIsLittle | include/sinew/portable.hpp:124-156 | Every host writes the packet a little-endian host would |
| PortableCodec.PortableEncode | include/sinew/portable.hpp:124-156 | 0 and no change for a null or short buffer; otherwise, in exactly the bytes reported written, the little-endian magic, id, version and length, the checksum of the payload or 0, and the normalised payload |
| PortableCodec.EncodingIsRead | include/sinew/portable.hpp:131-155 | The packet written has those fields at their places, in little-endian order, on any host |
| PortableCodec.PortableDecode | include/sinew/portable.hpp:164-213 | The answer and destination described by `DecodeExactly` and `DecodeWritesExactly`; the destination is as it was on every error |
| PortableCodec.DecodeExactly | include/sinew/portable.hpp:171-202 | On every buffer that is long enough, on any host, by the little-endian fields in it: BadMagic, IdMismatch, VersionMismatch, BufferTooSmall for the length, and ChecksumMismatch, each exactly when it is the first to fail, and Ok exactly when none does |
| PortableCodec.DecodeWritesExactly | include/sinew/portable.hpp:167-212 | Null and short buffers are BufferTooSmall; on every error the destination is as it was; on Ok it holds the normalised payload |
| PortableCodec.DecodeAcceptsExactly | include/sinew/portable.hpp:164-213 | A packet of one type decoded as another is accepted exactly when id, version and size agree and the checksum, if it is stored and verified, is right |
| PortableCodec.ScalarsAreLittleEndian | include/sinew/portable.hpp:111-146 | On any host a scalar is encoded low byte first |
| PortableCodec.SizesAreLittleEndian | include/sinew/portable.hpp:103-110 | A string or vector is encoded with a little-endian `size_` |
| PortableCodec.MeaningOfScalars | include/sinew/portable.hpp:111-115 | A scalar means the same number on every host |
| PortableCodec.EncodeThenDecode | include/sinew/portable.hpp:124-213 | What decoding gives for anything encoded, with or without checksums |
| PortableCodec.ExchangePreservesMeaning | include/sinew/portable.hpp:124-213 | Any host decodes what any host encoded to the same value, with Ok |
| PortableCodec.PortableExactly | include/sinew/portable.hpp:124-213 | Between all hosts and for all values, if and only if vectors of more than 65535 elements hold only bytes |
| Bridge.BridgePublisher.SpinSome | include/sinew/ros2_bridge.hpp:100-120 | Processes exactly min(max, queued), leaves exactly the rest, and publishes as many, or none without a callback: the i-th is the i-th oldest payload converted into the message that the one before left behind |
| Bridge.BridgeSubscriber.HandleRosMessage | include/sinew/ros2_bridge.hpp:143-152 | Queues the message converted into a new value, with its checksum or 0, exactly when the ring is not full |
| Bridge.ReuseIsSafeExactly | include/sinew/ros2_bridge.hpp:102-110 | Reusing the message is invisible exactly when the converter overwrites it |
| Bridge.AppendingShows | include/sinew/ros2_bridge.hpp:102-110 | A converter that appends shows the reuse |
| Bridge.PublishesWhatWasAccepted | include/sinew/ros2_bridge.hpp:100-152 | Over every run of calls on both ends, with a callback and converters that overwrite: what is published is `to_ros` of `from_ros` of the accepted messages, in order, each as if into a new message, the rest still queued |
| Bridge.ConservesExactly | include/sinew/ros2_bridge.hpp:100-152 | That holds over all runs exactly under this condition |
| Bridge.SpinExactly | include/sinew/ros2_bridge.hpp:100-120 | After any run, a spin takes min(max, queued) messages from the front and publishes as many, if there is a callback |
| Bridge.SpinEmpties | include/sinew/ros2_bridge.hpp:100-120 | Progress: after any run, a spin with a large enough limit empties the ring; with a callback and overwriting converters everything accepted has then been published |
| Bridge.AcceptsExactly | include/sinew/ros2_bridge.hpp:143-152 | After any run, a message is accepted exactly when there is room |
| Bridge.RunBridge | include/sinew/ros2_bridge.hpp:100-152 | Any run of calls on a publisher and a subscriber that share a ring is one of these runs, with what `SpinExactly` and `AcceptsExactly` say of each call |
| ShmName.NormalizePosixShmName | include/sinew/shm.hpp:30-47 | A slash is put in front if there is none; names of at most 31 bytes are kept; longer ones become their first 22 bytes, an underscore, and eight lower-case digits that read as their checksum |
| ShmName.HexReads | include/sinew/shm.hpp:41-42 | What is printed are eight lower-case hexadecimal digits that read as the hash, most significant first |
| ShmName.NormalNamesAreFixed | include/sinew/shm.hpp:30-47 | A normal form has a leading slash and at most 31 bytes, and is its own |
| ShmName.HexIsInjective | include/sinew/shm.hpp:41-42 | Different hashes print differently |
| ShmName.NearbyNamesStayApart | include/sinew/shm.hpp:37-45 | Over-long names that differ only within four consecutive bytes stay different |
| ShmName.NamesCollideExactly | include/sinew/shm.hpp:30-47 | When two names become one |
| ShmName.UniquenessFails | include/sinew/shm.hpp:37-45 | Every over-long name collides with its own normal form |

## Left out

- Rings.Ring.Pop: stands for `pop` and for both forms of `consume`; the callback of `consume` is the caller's use of the result, so a callback that throws is not modelled.
- RingGuarantees.SizeIsOneSided: says nothing of a third thread, nor of the window in which only the head word has wrapped.
- Bridge.BridgePublisher.SpinSome: no producer runs during the call, and the converter does not look at the ring. Converters are pure functions of what they are given.
- PortableCodec.PortableExactly: message types with raw array fields, 16-byte scalars or nested structs that are not reflected are layouts in which those bytes have no meaning; nothing is claimed about padding, spare elements or floating-point values.
- RingProtocol: `commit_write` of the heterogeneous ring reads the payload length from the header; the concurrent model takes it from the type prepared, which `Rings.Ring.StoreCrc` shows to be the same.
- A crash of one side, and fairness (that a full ring is eventually emptied or an empty one filled).
- Rings that are not attached (`is_valid()` is false), for which the shared-memory rings answer null, 0 or false.
- Operating-system shared memory: creating, opening, moving, closing and unlinking regions, and the handshake of `create` and `open` on the header of a region.
- Message types of 2^32 bytes or more (`Fits`), whose size the header cannot hold, and those aligned to more than 16 bytes, which `prepare` may refuse, and capacities for which shared headers would truncate.
- `StaticVector` and `StaticString` beyond their layout, `error_string`, stream operators, iterators, `fnv1a16` ids, registration macros: easy members, or nothing to prove.
