# Longhorn Racing Electric: CAN pipeline and on-car state machines

A Dafny model of how signals travel over the car's CAN buses and of the small state
machines around that path, with proofs over all inputs and all runs.
`dafny verify dfyconfig.toml` checks the whole project.

- **CAN codec** (`Numbers`, `Bits`, `CanSpec`, `BitWalk`, `FrameBytes`, `CanCodec`, `CanRoundTrip`). A message is a
  list of signals. `Pack` and `Unpack` walk its bits in little-endian or Motorola order,
  with mux guards, casts to the members' C++ types and sign extension. Integers stand for
  machine words; bits are read by halving, so negative numbers have their two's complement
  bits, and every cast is written out.
- **Spec validator** (`FrameCheck`, `OverlapOrder`, `Ledger`, `WireTypes`, `WireContract`, `WireOrder`,
  `BusMerge`). What the frame, ID and ledger checks accept, as loops over occupancy and
  claim tables, what acceptance guarantees to the generators, and what of it depends on the
  order of the spec.
- **Gateway** (`TelemetryTable`, `GatewayConfig`, `SensorCache`, `PacketLookup`,
  `RepeatedFields`, `ArrayLayout`, `EndToEnd`, `SpecToGateway`). The second decoder of the
  same frames, the lookup of a CAN ID, the snapshot after whole runs of frames, how far the
  gateway, the logger and the wire contract agree on an array, and what acceptance by the
  validator means for all of this.
- **Fault journal** (`FaultJournal`): a log in one flash page, with power failing after any
  bit.
- **Driver queues** (`CanTxQueue`, `UsbRxStream`): ring buffers with wrapping indexes that
  refine plain queues, under any interleaving of callers and interrupts.
- **Dash** (`GateCrossing`, `DashLap`, `LapLaws`, `GatePass`): the gate test over the reals;
  lap times, energies, budgets, counts and gate changes over whole runs; a straight pass
  through the gate.
- **Packet ids** (`PacketIds`, `PacketIdHandover`): the compare-exchange handshake, the gated
  stream, and both joined by the start file.
- **Names and imports** (`NaturalOrder`, `ImportClosure`): column order and the import
  worklist.

Times, real-valued measurements and coordinates are `real`. The HAL's replies, the words a
torn flash write leaves, socket results, the start file and the file system are inputs.
Code that updates state is modelled by classes and methods proved against pure functions;
the lemmas are about those functions.

Results worth knowing:

- The overlap scan remembers only the last signal on each bit. It is exact when signals of
  one mux value are listed together, and for every other order of mux values some accepted
  frame has an overlap, and a struct that the overlap spoils (`SoundIffGrouped`,
  `ValuesSurviveIffGrouped`). What survives a frame with overlaps is said by
  `RoundTripIffUndisturbed`.
- The gateway's decoder has no mux guard and no enum types, drops 64-bit signals, and reads
  narrow signals as a whole byte. `GatewayMatchesUnpack` says for every frame exactly when its
  number is the member of the struct after `Unpack`, `UnselectedIsStillRead` and
  `WideEnumIsReadWhole` are frames where it is not, and `AloneInByteIsMisreadIff` says which
  packed values are misread: negative ones narrower than a byte. Of a bitfield it reads the
  first byte only, so flag 8 is read from the bit of flag 0 (`FlagsAgree`).
- CAN IDs are checked bus by bus but looked up in one map (`MergedIffBusesApart`).
- `lib/spec/proto/can_spec.proto` and `lib/spec/README.md` give the stride of an array as
  the number of the field's bindings in the message; the gateway uses one more than the
  packet's largest index. The model follows the code; `ElementsDocumentedIff` says when the
  values still end up where documented, `ColumnsCoverIffOneSpan` when the logger's columns
  suffice, and `SlotsFitContractIff` when the elements of the wire contract do.
  `SharedPacketOverflows` is an accepted packet of two arrays that are both misplaced and
  both exceed the contract, and one of them the log.
- `lib/spec/README.md` promises an integer type holding the range of an unscaled signal;
  with an offset a 64-bit signal may fit none (`OffsetCanOverflowType`).
- A completion callback that starts another asynchronous read in the middle of a USB packet
  makes later bytes overtake buffered ones (`RearmSafeIff`, `RearmLosesOrder`).
- A reset of the USB device between the two halves of a reader's turn leaves counters that
  claim almost 2^32 bytes (`ResetDuringReadIsFatal`); order over a run with resets and
  callbacks is kept exactly by the safe steps (`StreamInOrderIff`).
- A straight pass through the gate closes one lap exactly if no usable GPS fix is on the
  gate's line (`StraightPassClosesLapIff`). Any crossing can be missed that way unless it is
  at (0, 0), where a fix counts as none (`CrossingCanBeMissedIff`).
- The element type of a repeated field can depend on the order of the spec's parts
  (`RepeatedTypeIgnoresOrderIff`, `OrderCanChangeType`); types and IDs of scalar fields cannot.

## Model

| member | source | states |
|---|---|---|
| Bits.BitIsShiftAndMask | lib/codegen/cpp/gen_can_lib.py:311 | reading a bit by halving is shifting and masking, for every integer |
| Bits.LowBitsIsModulo | lib/codegen/cpp/gen_can_lib.py:420 | an unsigned cast is the residue modulo 2^n |
| Bits.SignedCastKeeps | lib/codegen/cpp/gen_can_lib.py:418 | a signed cast keeps a value exactly when it is in the two's complement range |
| CanSpec.ZeroMeansUnset | lib/spec/ir/validator.py:38-44 | physical values are raw times scale plus offset, where scale 0 stands for 1; quantity 0 stands for 1 |
| CanSpec.OccupiedBits | lib/spec/ir/validator.py:55-69 | the loop yields each visited bit position once, in walking order |
| CanSpec.PosIsConsecutive | lib/spec/ir/validator.py:58-68 | little-endian positions ascend one by one, big-endian ones are consecutive in DBC numbering |
| BitWalk.Insert | lib/codegen/cpp/gen_can_lib.py:304-320 | frame bits afterwards are the old ones or-ed with the value's bits at the visited positions, and no other bit changes |
| FrameBytes.BigFieldBits | lib/codegen/cpp/gen_can_lib.py:322-339 | bit j of a big-endian value is the frame bit j places before the last in DBC order, so the start bit is the most significant |
| FrameBytes.BigBytesAreField | lib/codegen/cpp/gen_can_lib.py:322-339 | whole bytes extracted from the top bit of the first are their big-endian number |
| FrameBytes.InsertedBytes | lib/codegen/cpp/gen_can_lib.py:304-320 | inserted into cleared whole bytes a number stands most significant byte first in big-endian order, least significant first in little-endian order |
| BitWalk.Extract | lib/codegen/cpp/gen_can_lib.py:322-339 | the result is the number whose bits are the frame bits at the visited positions |
| BitWalk.SignExtend | lib/codegen/cpp/gen_can_lib.py:341-344 | flip and subtract in wrapping 64-bit arithmetic gives the two's complement reading of the low bits |
| CanCodec.MessageStruct.Pack | lib/codegen/cpp/gen_can_lib.py:375-395 | bit p of the first dlc bytes is set exactly when some plain or selected member writes a one there; later bytes are untouched |
| CanCodec.MessageStruct.Unpack | lib/codegen/cpp/gen_can_lib.py:397-423 | every member of a plain signal, and of a signal selected by the value on the wire, gets its decoded value; all others keep theirs |
| CanCodec.SelectorSettled | lib/codegen/cpp/gen_can_lib.py:400-401 | because plain signals come first, each guard reads the selector value of the received frame |
| CanCodec.EnumTypeIsLeast | lib/codegen/cpp/gen_can_lib.py:137-142 | an enum's type is the least of 8, 16 and 32 bits that holds every declared number |
| CanCodec.IntegerTypeIsLeast | lib/codegen/cpp/gen_can_lib.py:41-43 | any other member's type is the least of 8, 16, 32 and 64 bits as wide as the signal |
| CanRoundTrip.PackedBytes | lib/codegen/cpp/gen_can_lib.py:375-395 | a packed signal of whole bytes stands in them as its byte order says |
| CanRoundTrip.SlotCarries | lib/codegen/cpp/gen_can_lib.py:304-339 | in a packed frame each active slot holds exactly the low bits of its member, whatever the other signals hold |
| CanRoundTrip.UnpackAfterPack | lib/codegen/cpp/gen_can_lib.py:375-423 | after pack and unpack a plain or selected member has its value narrowed to the encoding, an unselected one the receiver's old value |
| CanRoundTrip.RoundTripIffUndisturbed | lib/codegen/cpp/gen_can_lib.py:375-423 | for every message that can be packed, overlapping signals or not: a struct is restored if and only if its plain and selected values fit their encodings and no signal sent along puts a one where one of them has a zero |
| CanRoundTrip.RoundTrip | lib/codegen/cpp/gen_can_lib.py:375-423 | with disjoint signals a struct is restored if and only if all its plain and selected values fit their encodings |
| CanRoundTrip.PackAfterUnpack | lib/codegen/cpp/gen_can_lib.py:362-423 | repacking an unpacked frame gives its bits where a slot carries them and zero everywhere else |
| CanRoundTrip.RepackIsExactIff | lib/codegen/cpp/gen_can_lib.py:362-423 | the frame is reproduced on exactly the owned bits if and only if no bit is set beyond a member's C++ type |
| CanRoundTrip.OnlyWideEnums | lib/codegen/cpp/gen_can_lib.py:137-146 | only an enum signal wider than the enum's storage has bits beyond its type |
| FrameCheck.CheckSignalEncoding | lib/spec/ir/validator.py:195-256 | no error is counted exactly for a signal that breaks no rule on width, sign, kind and its references, mux selection and declared range |
| FrameCheck.AcceptedKind | lib/spec/ir/validator.py:216-236 | in an accepted signal an enum's numbers are representable, a boolean's raw numbers are 0 and 1, and a bitfield has room for its bits and no telemetry of its own |
| FrameCheck.RangeOkIffReached | lib/spec/ir/validator.py:247-255 | a declared range is accepted exactly when some raw number reaches its lower end and some raw number its upper end |
| FrameCheck.SelectorIsRaw | lib/spec/ir/validator.py:239-245 | the physical value of an accepted mux selector is its raw number, and it is never negative |
| FrameCheck.FdSizes | lib/spec/ir/validator.py:31 | the frame sizes beyond 8 bytes: every fourth up to 24, every sixteenth up to 64 |
| FrameCheck.IdsFitIffElevenBits | lib/spec/ir/validator.py:270-273 | an ID range is accepted exactly when all its IDs have 11 bits; quantity 0 is one frame |
| FrameCheck.ClaimBits | lib/spec/ir/validator.py:308-314 | bits are claimed in order up to the first one held by a signal that can be active at the same time |
| FrameCheck.CheckSignals | lib/spec/ir/validator.py:289-314 | no error exactly when encodings and fit are right, names are lower_snake and distinct, and neighbours on every bit exclude each other |
| FrameCheck.CheckFrame | lib/spec/ir/validator.py:262-314 | no error exactly when also the bus is known, its frame size is legal and the mux selector rules hold |
| FrameCheck.DisjointIsAccepted | lib/spec/ir/validator.py:305-314 | the scan raises no false alarm |
| FrameCheck.PlainIsDisjoint | lib/spec/ir/validator.py:305-314 | in every order an accepted frame keeps plain signals apart from all others |
| FrameCheck.GroupedScanIsExact | lib/spec/ir/validator.py:289-314 | with mux values listed together the scan accepts exactly the frames whose co-active signals are disjoint |
| OverlapOrder.SoundIffGrouped | lib/spec/ir/validator.py:280-314 | no accepted frame with a given order of mux values has an overlap if and only if the order lists them together, or has no plain signal and so no accepted frame |
| OverlapOrder.HiddenOverlap | lib/spec/ir/validator.py:280-314 | for every order with value, other value, value and a plain signal, a frame that passes the mux and signal rules although two signals of one mux value overlap, in every frame size with room for the signals |
| OverlapOrder.ValuesSurviveIffGrouped | lib/spec/ir/validator.py:308-314 | no signal of an accepted message with a given order ever disturbs another under the same condition |
| OverlapOrder.OverlapDisturbs | lib/codegen/cpp/gen_can_lib.py:375-395 | a well-typed struct whose values fit and whose selector makes both overlapping signals active, one of which disturbs the other |
| OverlapOrder.OverlapLosesValue | lib/codegen/cpp/gen_can_lib.py:375-423 | no receiver restores that struct |
| FrameCheck.AcceptedIsPackable | lib/codegen/cpp/gen_can_lib.py:469-471 | an accepted message can be packed and unpacked |
| FrameCheck.AcceptedIsLegal | lib/codegen/cpp/gen_can_lib.py:469-471 | with mux values listed together it has all that the round trip needs |
| FrameCheck.CheckIds | lib/spec/ir/validator.py:270-278 | no error exactly when quantity-expanded IDs fit 11 bits and are unique on each bus |
| BusMerge.MergedIffBusesApart | apps/BEVO/cand/main.rs:77-82 | for an accepted spec the gateway's series are disjoint exactly when different buses use different IDs |
| BusMerge.SharedIdLosesPacket | apps/BEVO/cand/main.rs:78-82 | two accepted messages with one ID on two buses leave one packet in the map |
| TelemetryTable.RefusedIff | lib/codegen/telemetry/gen_telemetry.py:99-124 | which signals get an entry, and the first reason for refusing the others |
| TelemetryTable.EntrySpansSignal | lib/codegen/telemetry/gen_telemetry.py:122-131 | a table entry starts at the signal's first byte and is the least number of bytes that holds it |
| TelemetryTable.RenderSignals | lib/codegen/telemetry/gen_telemetry.py:116-156 | entries are produced for all signals, or those before the first refused one and its refusal |
| FrameBytes.BytesAreField | apps/BEVO/cand/main.rs:643-662 | little-endian bytes read whole are the same number as the field of their bits |
| TelemetryTable.GatewayReads | apps/BEVO/cand/main.rs:638-667 | the gateway decodes a number exactly when the signal is not 64 bits wide and the bits it reads are that number's |
| TelemetryTable.WideSignalsAgree | apps/BEVO/cand/main.rs:638-665 | for widths 8, 16 and 32 the gateway's number is what `Extract` and `SignExtend` give, on every frame |
| TelemetryTable.DecodersAgree | lib/codegen/telemetry/gen_telemetry.py:99-131 | for every accepted signal: that is so exactly when it is not 64 bits wide and the rest of its byte, if it is narrower than one, repeats its sign |
| TelemetryTable.GatewayMatchesUnpack | lib/codegen/cpp/gen_can_lib.py:397-423 | the gateway's number is the member after `Unpack` exactly when the signal is not 64 bits wide and, if selected, its byte's rest is harmless and no bit lies beyond the C++ type, or, if not selected, the old member is what is on the wire |
| TelemetryTable.UnselectedIsStillRead | lib/codegen/cpp/gen_can_lib.py:362-367 | a legal message and frame where a muxed signal stays 0 in the struct and reads 5 at the gateway |
| TelemetryTable.WideEnumIsReadWhole | lib/codegen/cpp/gen_can_lib.py:137-142 | a legal 16-bit enum stored in a byte that is 0 in the struct and 256 at the gateway |
| TelemetryTable.FlagsAgree | apps/BEVO/cand/main.rs:628-636 | a bitfield flag is read alike exactly when the bit of the first byte with its index modulo 8 is like its own |
| TelemetryTable.FlagsAlwaysAgreeIff | apps/BEVO/cand/main.rs:631 | this holds in every frame exactly for indexes below 8 |
| TelemetryTable.FlagsMatchUnpack | lib/codegen/cpp/gen_can_lib.py:408-412 | the same against the struct after `Unpack`, also when the bitfield is not selected |
| TelemetryTable.PackedReachesGateway | apps/BEVO/cand/main.rs:638-667 | from the spec and the struct alone: a packed member is decoded by the gateway exactly when it is not 64 bits wide and the rest of its byte is sent as its bits |
| TelemetryTable.AloneInByteIsMisreadIff | lib/codegen/telemetry/gen_telemetry.py:103 | with nothing else in its byte, a member is misread exactly when it is 64 bits wide, or narrower than a byte and negative or out of range |
| PacketLookup.ResolvePacketConfig | apps/BEVO/cand/main.rs:387-404 | the answer of the scan for a given iteration order of the map |
| PacketLookup.OrderIndependent | apps/BEVO/cand/main.rs:395-403 | every iteration order, each key once, gives the same answer if and only if the ID is a base ID or lies in at most one series |
| PacketLookup.ResolvesToOwner | apps/BEVO/cand/main.rs:387-404 | with disjoint series the answer is the packet whose series has the ID, with its offset, or none |
| PacketLookup.BuildPacketSourceLookup | apps/BEVO/cand/main.rs:210-223 | the table has exactly the IDs of packets with a source; the last packet of an ID wins |
| PacketLookup.LookupAgrees | apps/BEVO/cand/main.rs:210-223 | the precomputed source of every ID is the source of the packet it resolves to |
| SensorCache.WithIndex | apps/BEVO/lib.rs:11-14 | writing an index pads the vector with zeros and changes no other element |
| SensorCache.SensorData.SetVecIndex | apps/BEVO/lib.rs:11-14 | the vector of one field is updated in place, all else unchanged |
| SensorCache.SensorData.ProcessRawData | apps/BEVO/cand/main.rs:618-686 | the snapshot after one frame, all fields included |
| SensorCache.Span | apps/BEVO/cand/main.rs:602-616 | one more than the largest repeated index of the packet, and 0 without any |
| RepeatedFields.SlotInjective | apps/BEVO/cand/main.rs:673 | no two pairs of frame and signal share a slot |
| RepeatedFields.SlotHoldsLatest | apps/BEVO/cand/main.rs:602-686 | after any run every slot of a field holds the latest value of its signal in its frame ID, or 0 |
| RepeatedFields.ScalarHoldsLatest | lib/spec/README.md:142-155 | after any run a scalar field holds the latest value from any of the messages sharing it |
| RepeatedFields.FlagHoldsLatest | apps/BEVO/cand/main.rs:626-636 | after any run a flag field holds the bit of the first byte, with the index modulo 8, that the latest mapping of the latest frame carried, and is absent before |
| ArrayLayout.LargestSlotDecides | apps/BEVO/cand/main.rs:668-677 | all slots of a field lie below a length exactly when its last signal's slot in the last frame does |
| ArrayLayout.LengthOfOnlyBinder | apps/BEVO/loggerd/main.rs:116-139 | the logger's maximum over all packets is the length the only binding packet gives |
| ArrayLayout.ColumnsCoverIffOneSpan | apps/BEVO/loggerd/main.rs:116-139 | for a field bound by one packet the logger has a column for every slot exactly when that packet is one frame or the field has its span |
| ArrayLayout.ElementsDocumentedIff | lib/spec/proto/can_spec.proto:117-124 | every value of a bound field goes to its documented element exactly when the packet is one frame or the field's indexes fill the packet's span without a gap |
| ArrayLayout.SlotsFitContractIff | lib/spec/ir/wire.py:94-98 | the gateway keeps to the element count of the wire contract exactly when the field's indexes leave no gap and, with several frames, fill the packet's span |
| ArrayLayout.SharedPacketIsAccepted | lib/spec/ir/validator.py:317-406 | a message of two frames with one element of each of two arrays passes the ledger |
| ArrayLayout.SharedPacketOverflows | apps/BEVO/cand/main.rs:602-616 | there the gateway misplaces both arrays and exceeds the contract's length of both, and the logger's columns of the first |
| EndToEnd.PackedReachesSlot | apps/BEVO/cand/main.rs:618-686 | after any run whose last frame with the ID carries a packed struct, the slot holds the member's physical value exactly when the rest of its byte was sent as its bits |
| EndToEnd.PackedFlagReachesSnapshot | apps/BEVO/cand/main.rs:626-636 | after any run whose last frame to map a flag field carries a packed struct, the field is the member exactly when the bit with its index modulo 8 was sent as it, which for the first eight flags always holds |
| SpecToGateway.AcceptedBindsAlone | lib/spec/ir/validator.py:259-406 | acceptance of claims and IDs gives all that the gateway's run theorems assume of its table |
| SpecToGateway.AcceptedSlotHoldsLatest | apps/BEVO/cand/main.rs:602-686 | for every accepted spec, after any run every slot of an array that one message binds holds the latest value of its signal in its frame, or 0 |
| SpecToGateway.AcceptedSpecDelivers | apps/BEVO/cand/main.rs:618-686 | for every accepted spec and frame, a packed struct is found in the array exactly when the rest of its byte was sent as its bits |
| WireTypes.IntegerTypeIsSmallest | lib/spec/ir/wire.py:47-57 | the derived integer type holds the range exactly when it fits 64 unsigned or 64 signed bits, and is 32-bit if one is enough |
| WireTypes.ElementTypeMeaning | lib/spec/ir/wire.py:30-46 | an override decides; else exactly bits and flags are bool, and exactly a signal of an enum has that enum's type |
| WireTypes.IntegerTypeSign | lib/spec/ir/wire.py:47-57 | it is unsigned exactly for a range without negative numbers |
| WireTypes.FloatIffMantissaHolds | lib/spec/ir/wire.py:58-61 | a scaled signal is a float exactly when it has at most 2^24 raw numbers |
| WireTypes.OffsetCanOverflowType | lib/spec/ir/wire.py:51-57 | a 64-bit unsigned signal with offset -1 gets a type that cannot hold its range |
| Ledger.RecordField | lib/spec/ir/validator.py:334-359 | a claim counts as an error exactly when the field's entry or another field's ID rejects it; the entry then remembers it |
| Ledger.RecordIsExact | lib/spec/ir/validator.py:323-363 | a well-formed claim is rejected exactly when it conflicts with some earlier claim |
| Ledger.CheckLedgers | lib/spec/ir/validator.py:317-406 | no error exactly when claims are pairwise compatible and every group's IDs are partitioned |
| Ledger.AcceptedClaimIsNamed | lib/spec/ir/validator.py:323-333 | every accepted claim has a known group, a positive ID and a lower_snake field |
| Ledger.FieldIdBijective | lib/spec/ir/validator.py:334-348 | in an accepted ledger fields and IDs of a group determine each other |
| Ledger.LedgerCounts | lib/spec/ir/validator.py:392-402 | live fields plus distinct reserved IDs number next_free_id - 1 |
| Ledger.OkIsUnordered | lib/spec/ir/validator.py:323-363 | acceptance of the claims is a property of their multiset |
| Ledger.VerdictIgnoresOrder | lib/spec/ir/validator.py:365-406 | the verdict does not depend on the order of files, messages and signals |
| WireContract.FieldMaps | lib/spec/ir/wire.py:79-118 | type and ID of every bound and every external field, and the element count of repeated ones |
| WireContract.ScalarTypeIsBindingsType | lib/spec/ir/wire.py:87-99 | each binding of a scalar field of an accepted spec determines the field's type and ID |
| WireContract.ExternalTypeIsDeclared | lib/spec/ir/wire.py:100-107 | and so does an external field, which no scalar binding can share |
| WireContract.ContractIgnoresOrder | lib/spec/ir/wire.py:79-118 | IDs, scalar and external types and array lengths are the same for every order of bindings and external fields |
| WireOrder.LastMayBeLast | lib/spec/ir/validator.py:85-112 | bits come after all signals, so the last binding of a field is a bitfield's last one if any bit binds it |
| WireOrder.RepeatedTypeIgnoresOrderIff | lib/spec/ir/wire.py:87-99 | no order of messages, signals and bitfield types changes a field's element type if and only if the bindings that may be last have one type |
| WireOrder.OrderCanChangeType | lib/spec/ir/wire.py:87-99 | an accepted spec whose two orders give an array different element types |
| WireOrder.ManifestLines | lib/spec/ir/wire.py:152-173 | a group's lines, one for each field with its number and type, sorted by number |
| WireOrder.ManifestIgnoresOrder | lib/spec/ir/wire.py:152-173 | the lines of scalar fields are the same in every order, and all lines of a group are if the type of no array depends on it |
| FaultJournal.RecordLayout | boards/VCU/Board/fault_store.cpp:75-76 | a record has the value in the low half of its word and the complement in the high half |
| FaultJournal.OnlyCompleteIsValid | boards/VCU/Board/fault_store.cpp:22-24 | whatever subset of a record's zero bits was cleared, the word is valid only when complete |
| FaultJournal.FaultStore.LoadFaultLatch | boards/VCU/Board/fault_store.cpp:32-47 | the last valid record before the first erased word, or 0 |
| FaultJournal.FaultStore.SaveFaultLatch | boards/VCU/Board/fault_store.cpp:49-80 | the page after a save; it is erased only when full and programmed only where erased |
| FaultJournal.SaveKeepsJournal | boards/VCU/Board/fault_store.cpp:53-74 | written words stay a prefix of the page, which grows by at most one word |
| FaultJournal.SaveIsAtomic | boards/VCU/Board/fault_store.cpp:49-80 | after a power cut the latch is the new value exactly when its record is complete, else the old one, or 0 when the full page was erased |
| FaultJournal.LatchAfterRun | boards/VCU/Board/fault_store.cpp:32-80 | over every run of saves and power cuts, the latch that is read |
| FaultJournal.WearIsConserved | boards/VCU/Board/fault_store.cpp:62-74 | over every run words written are 256 times the erases plus the words in use |
| FaultJournal.WearBound | boards/VCU/Board/fault_store.cpp:2-3 | n effective changes from an erased page cost (n-1)/256 erases |
| CanTxQueue.Can.Send | drivers/lhal/stm32/can.cpp:104-118 | the ring behaves as a queue: at once, behind the others, or dropped when full |
| CanTxQueue.Can.DrainTxQueue | drivers/lhal/stm32/can.cpp:120-125 | frames leave the ring in order until none is left or the peripheral refuses |
| CanTxQueue.Can.HandleTxFifoEmpty | drivers/lhal/stm32/can.cpp:169-172 | the transmit interrupt drains the queue |
| CanTxQueue.DrainKeepsOrder | drivers/lhal/stm32/can.cpp:120-125 | draining neither loses nor reorders frames and ends empty or refused |
| CanTxQueue.NothingLost | drivers/lhal/stm32/can.cpp:104-143 | over every interleaving accepted frames are those sent followed by those waiting, and drops count the busy results |
| CanTxQueue.NoFrameIdles | drivers/lhal/include/lhal/stm32/can.hpp:18-20 | a successful send and every transmit interrupt leave nothing waiting unless the peripheral has just refused |
| UsbRxStream.UsbCdc.ReadCopy | drivers/lhal/stm32/usb_cdc.cpp:115 | a blocking read copies the oldest byte |
| UsbRxStream.UsbCdc.ReadAdvance | drivers/lhal/stm32/usb_cdc.cpp:116 | and then releases its place, across the wrap of the counters; on an emptied ring it breaks them |
| UsbRxStream.UsbCdc.HandleInit | drivers/lhal/stm32/usb_cdc.cpp:169-175 | a reset empties the ring and leaves a pending read pending |
| UsbRxStream.UsbCdc.ReadAsync | drivers/lhal/stm32/usb_cdc.cpp:138-167 | buffered bytes are delivered first; the read stays pending for the rest |
| UsbRxStream.UsbCdc.HandleReceive | drivers/lhal/stm32/usb_cdc.cpp:177-207 | a packet serves the pending read, then the ring, across the wrap of the counters |
| UsbRxStream.StreamInOrderIff | drivers/lhal/stm32/usb_cdc.cpp:106-207 | over every interleaving, delivered bytes followed by unread ones are the accepted bytes and a pending read implies an empty ring, at every moment, if and only if no callback starts a read while bytes of its packet are left and no reset splits a reader's turn |
| UsbRxStream.ReadersGetWhatTheyAsk | drivers/lhal/stm32/usb_cdc.cpp:138-195 | over every run the lengths of all asynchronous reads started, re-arms included, are the bytes given to them and what a pending one still wants |
| UsbRxStream.ResetDuringReadIsFatal | drivers/lhal/stm32/usb_cdc.cpp:115-116 | after such a reset the ring claims 2^32 - 1 bytes and drops every packet until almost all of them are read |
| UsbRxStream.RearmSafeIff | drivers/lhal/stm32/usb_cdc.cpp:185-203 | a packet keeps this order exactly when no new read is started while bytes of it are left |
| UsbRxStream.RearmLosesOrder | drivers/lhal/stm32/usb_cdc.cpp:181-203 | after a packet whose callback does so, the first byte of the next packet overtakes the bytes left over |
| UsbRxStream.OnlyTailIsLost | drivers/lhal/stm32/usb_cdc.cpp:196-203 | of a packet only a tail is lost, and only when the ring is full |
| GateCrossing.CrossIffMeet | apps/BEVO/dashd/main.rs:528-548 | the test is true exactly when path and gate share a point interior to both and are not parallel |
| GateCrossing.CrossIsSymmetric | apps/BEVO/dashd/main.rs:532-548 | swapping the fixes or the gate's ends changes nothing |
| GateCrossing.PartCrossesIff | apps/BEVO/dashd/main.rs:532-548 | part of a crossing path crosses exactly when its ends are on opposite sides of the gate's line |
| DashLap.DashState.CompleteLap | apps/BEVO/dashd/main.rs:480-491 | the card, the new count and the cleared integrators |
| DashLap.DashState.OnFrame | apps/BEVO/dashd/main.rs:884-941 | energy integration, gate detection and the last fix after one frame |
| DashLap.DashState.OnSfGate | apps/BEVO/dashd/main.rs:1115-1124 | the gate is loaded and the last fix dropped |
| DashLap.DashState.OnLapTrigger | apps/BEVO/dashd/main.rs:1351-1389 | one more lap is closed, a jump adopted silently, anything else ignored |
| DashLap.DashState.OnLapCount | apps/BEVO/dashd/main.rs:1390-1407 | the count is adopted in either direction without closing a lap |
| DashLap.DashState.OnLapReset | apps/BEVO/dashd/main.rs:1408-1424 | counters, integrators and card are cleared, gate and fix kept |
| DashLap.EnergyIsConserved | apps/BEVO/dashd/main.rs:913-941 | over every run integrated energy is on a card, in the current lap, or was discarded by a reset |
| LapLaws.CardTellsTheLap | apps/BEVO/dashd/main.rs:480-491 | a closed lap's card shows its number, the time since the last close or reset and the energy since then |
| LapLaws.TimeIsAccounted | apps/BEVO/dashd/main.rs:480-491 | over every run the times on the cards, those cut off by resets and the time since the last close or reset make up the time since the start |
| LapLaws.SinceLastMark | apps/BEVO/dashd/main.rs:913-929 | energy and budget are what was integrated since the last close or reset |
| LapLaws.FramesIntegrate | apps/BEVO/dashd/main.rs:913-929 | over any frames 3600 watt-hours are 1000 kilowatt-seconds, every power acting since the frame before, a pause counted as at most half a second; the budget likewise with the target |
| LapLaws.OnlyOwnEventsChange | apps/BEVO/dashd/main.rs:1115-1124 | gate, last fix, target, card and clock change by their own events only |
| LapLaws.ToCountIsNearest | apps/BEVO/dashd/main.rs:1373 | a value is rounded to the nearest count, within the count's type |
| LapLaws.OnlyNextTriggerCloses | apps/BEVO/dashd/main.rs:1373-1389 | a trigger closes a lap exactly when it names the next one |
| LapLaws.CountSinceCorrection | apps/BEVO/dashd/main.rs:1390-1424 | after a correction or reset the count is the maximum of its value, or 0, and all triggers since |
| DashLap.CountIsMaximum | apps/BEVO/dashd/main.rs:1351-1389 | without crossings, corrections and resets the count is the maximum of its start and all triggers, in any order |
| DashLap.GateLapUsesOwnGate | apps/BEVO/dashd/main.rs:931-941 | a lap closed by the gate uses two successive fixes, both received under the gate now loaded |
| GatePass.StraightPassClosesLapIff | apps/BEVO/dashd/main.rs:884-941 | frames along a straight path through the gate, repeated and missing positions included, close exactly one lap if no usable fix is on the gate's line, and none otherwise |
| GatePass.FixOnTheWayDecides | apps/BEVO/dashd/main.rs:891-941 | with one fix on the way the lap is closed once if and only if that fix is (0, 0) or off the line |
| GatePass.CrossingCanBeMissedIff | apps/BEVO/dashd/main.rs:891-941 | some fix on the way makes the dash miss a crossing exactly when it does not meet the gate at (0, 0) |
| GatePass.MissedInTheMiddle | apps/BEVO/dashd/main.rs:891-941 | a pass that a fix in the middle of the gate hides, and the same at (0, 0), where it does not |
| PacketIds.Publishd.HandleServerMessage | apps/BEVO/publishd/main.rs:196-253 | with others interfering the id ends at the maximum of everything published |
| PacketIds.IdsOnlyGrow | apps/BEVO/publishd/main.rs:236-252 | under any interleaving of handlers the id only grows and is the start value or a candidate |
| PacketIds.SettlesAtMaximum | apps/BEVO/publishd/main.rs:236-252 | when all handlers are done it is the maximum of the start and every server id plus one, saturated, and the handshake is complete exactly if it moved |
| PacketIds.MainStreamCounts | apps/BEVO/cand/main.rs:706-762 | the ids of the main stream start at the initial id, or 1, and go up by one each cycle, capped at the encodable maximum |
| PacketIds.SeedIsFirstFile | apps/BEVO/cand/main.rs:263-270 | the seed is what the first start file says, but at least 1 |
| PacketIds.IpcServer.RunCycle | apps/BEVO/cand/main.rs:724-792 | both ids of one cycle and the stream's next state |
| PacketIds.DeliveredConsecutively | apps/BEVO/cand/main.rs:724-792 | the ids of cycles delivered to some client are seed, seed+1, ... capped at the encodable maximum, one for each cycle that found the gate open and a client that took its frame |
| PacketIds.NoRepeatIffBelowLimit | apps/BEVO/cand/main.rs:747-752 | they increase by one each exactly while they stay below that maximum |
| PacketIdHandover.StreamFollowsServer | apps/BEVO/publishd/main.rs:155-193 | in every interleaving of handlers, startup and publishing the start file names a server id plus one, 1 without the handshake, and the delivered ids follow on from it |
| PacketIdHandover.StreamStartsAboveServer | apps/BEVO/publishd/main.rs:255-260 | if all messages are handled before startup completes, the delivered ids start at the largest server id plus one |
| NaturalOrder.TakeNumber | apps/BEVO/loggerd/main.rs:263-273 | the saturated value of the maximal digit run, and the rest |
| NaturalOrder.DigitsAreAscii | apps/BEVO/loggerd/main.rs:263-266 | the digits are the characters 0 to 9 and stand for these numbers |
| NaturalOrder.DecimalIsPositional | apps/BEVO/loggerd/main.rs:268-272 | in a digit run a leading digit counts for a power of ten |
| NaturalOrder.NaturalCmp | apps/BEVO/loggerd/main.rs:222-259 | the loop ends with Less exactly when, at the first different token, the first name has ended, has the smaller number or byte, or a number against a byte; Greater the other way round; Equal for equal tokens |
| NaturalOrder.NaturalIsTotalPreorder | apps/BEVO/loggerd/main.rs:220-259 | the order is total and transitive, and equality means equal tokens |
| NaturalOrder.SortedIsStable | apps/BEVO/loggerd/main.rs:212-214 | names that compare equal keep their order |
| NaturalOrder.HeadersAreOrdered | apps/BEVO/loggerd/main.rs:198-218 | on distinct keys a permutation, in natural order behind the leading names |
| NaturalOrder.LeadersComeFirst | apps/BEVO/loggerd/main.rs:202-211 | time is at index 0 if present, and packet_id directly behind it or first |
| ImportClosure.ModuleFiles | simulation/tools/invalidation.py:204-212 | the loops over roots, candidates and packages give the resolution of the name |
| ImportClosure.ResolvedIsModuleAndParents | simulation/tools/invalidation.py:204-212 | which is the module in the first root that has it, a file before a package, and every existing `__init__.py` of the packages around it |
| ImportClosure.Closure | simulation/tools/invalidation.py:233-249 | terminates with exactly the existing files reachable from the start files, in whatever order the worklist is taken |

## Left out

- Emitted C++, protobuf, SQL and JSON text: members are keyed by signal and bit name, so clashes of mangled names are not modelled.
- An enum used as mux selector: the model compares its number; the emitted comparison with an integer is not typed.
- Scale and offset accessors of the firmware and floating-point rounding: raw integers are exact and physical values are real.
- FrameCheck.CheckSignalEncoding: signals without an encoding or a logical kind are not modelled.
- FrameCheck.CheckFrame: CAN IDs are the subject of `CheckIds`; registry rules on message names, boards and snapshot ids, and the advisory bus load, are not modelled.
- Ledger.CheckLedgers: the rate-tier rule is left out because tier resolution always yields a concrete tier.
- WireOrder.RepeatedTypeIgnoresOrderIff: files are not modelled; any message and any bitfield type can be listed last by reordering files and their contents.
- WireOrder.ManifestIgnoresOrder: the snapshot id and the tombstones in the wire lock, and the text of its lines.
- Conversion of scalar snapshot fields to bool, board liveness timers, NMEA parsing and the serialization of the snapshot in the gateway.
- TelemetryTable.FlagsAgree: the gateway's shift by 8 or more takes the amount modulo 8, as release builds do; a build with overflow checks panics instead.
- ArrayLayout.ColumnsCoverIffOneSpan: the fixed lengths the logger gives the GPS arrays are not modelled.
- Board names: a packet's source is given, not matched case-insensitively.
- CanTxQueue.Can.Send: the frame's translation into peripheral registers, reception and bus-off are not part of this model.
- UsbRxStream.UsbCdc.ReadCopy: bytes handed to readers are a sequence; the reader's buffer, timeouts and the observer are not modelled, and there is one reader.
- UsbRxStream.UsbCdc.ReadAdvance: the load and the store of the tail are one step, so a reset between them is not modelled apart.
- FaultJournal.FaultStore.SaveFaultLatch: erasing is atomic and error-correcting codes of the flash are not modelled.
- DashLap.DashState.OnLapTrigger: NaN values and overflow of the 64-bit count by its increment are not modelled.
- PacketIds.Publishd.HandleServerMessage: JSON parsing and the relaxed memory order beyond the single counter.
- PacketIdHandover.StreamFollowsServer: the announcements that publishd repeats while it waits, and a start file that cannot be read or parsed.
- NaturalOrder.HeadersAreOrdered: the library's stable sort is represented by insertion; CSV quoting and the flattening of records are not modelled.
- ImportClosure.Closure: parsing of Python files is an input, and the final sort of the result is not modelled.
- Sockets, MQTT topics, threads beyond their atomic steps, layouts, messages and screens of the dash, vehicle studies and tools.
