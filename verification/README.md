# A verified model of the Cyphal codec and of the node that uses it

This project models the two parts of the repository where a mistake is hard to see, and proves what they promise.

**The codec.** `nunavut/support/serialization.h` moves bits between buffers and objects; the generated headers compose
serializers and deserializers from it. A buffer denotes a sequence of bits, least significant bit of the first byte first,
and a field is a slice of it (section 3.7 of the Cyphal Specification v1.0).

- `Bits`, `Serialization`, `Fields`, `Float16`: bytes, bits and integers; the bit copy with its aligned and unaligned paths;
  the setters and getters and what they promise together; the conversion to and from binary16 on bit patterns.
- `Dsdl`, `Laws`, `Sizes`, `Versions`: types, values, a reference encoder and decoder, and theorems about every type that can
  be built: round trip, self-delimitation, implicit zero extension, extents, compatibility of versions.
- `Codec`: the two contracts, `Serialized` and `Deserialized`, and the statements the generator composes serializers and
  deserializers from. A nested call on `&buffer[offset_bits / 8]` is a call with the same array and a byte origin `at`.
- `Layout`: where fields stand, in bytes and bits of the message alone, and how the reference decoder leads there.
- `Primitive`, `Real16`, `NodeInfo`, `NodeStatistics`, `NodeHealth`, `Pnp`, `FileMessages`, `Registers`: the serializers and
  deserializers themselves, imperative and over arrays, each proved against the schema of its type. Their contracts also say,
  without the schema, which bytes hold which field and when exactly a call is refused. Where a serializer has several exits its
  statements are in `Emit…`, those of a deserializer in `Fetch…`.
- `Messages`, `Catalogue`, `Trips`: what follows from the two contracts for whole messages, first for every type, then read
  for particular ones, and finally as methods that serialize an object and deserialize it again.

The key difficulty is implicit zero extension with nested objects. A nested deserializer reports only the bytes it found, so
on a truncated input the running offset falls behind the reference offset for good. `Codec.Tracks` relates the two, and
`Laws.PositionIndependent` shows that past the end of the input the difference cannot be seen.

**The node.** `Scheduler` models tasks and `Node::CheckScheduler` as objects and proves the rates at which a task runs;
`Transmission` models the prioritized queues, publishing and the pump `HandleTxRxQueues`, with the transceiver as an arbitrary
oracle; `Freshness` puts both together, as a state machine and as objects that refine it, and proves exactly when a frame can be
sent at or after its task's next execution; `Delivery` proves what is sent when: a served tick sends every frame that is in
good time, those published in the same tick included; `Latency` is the latency measurement with its ring of send times.

Conventions:

- A pointer to constant memory is a sequence of bytes, a pointer to writable memory an array. `size_t` is `nat`; callers keep
  `8 * size` and `offset + length` in range. `uint64_t` times wrap around explicitly.
- A NUNAVUT_ASSERT holds because the model verifies: offsets, capacities and alignments are preconditions of the statements.
  The two assertions that compare addresses (serialization.h lines 162 and 163) are the exception: they can fail for buffers
  that do not overlap, so the copy and its callers take the placement of the buffers and state exactly when they pass.
  The padding checks in front of nested objects, and the error returns behind void fields and padding, are shown to be dead
  (`Codec.Pad` and `Codec.PutVoid` cannot fail), so they do not appear again at every use.
- The state of a half-finished serializer (`Emitted`, `Runs`) and deserializer (`Reading`, `Outcome`) stands under the trivial
  predicate `Codec.Open`: a proof that only passes such a fact on does not see its definition, one that needs it opens it.
  A `hide` statement likewise keeps definitions that a proof does not need out of the solver's sight.
- `next_run_` and `online_` have no initialisers in the source, so their first values are parameters.

Where code and documentation disagree the model follows the code:

- serialization.h calls the result of reading a one-bit signed field unspecified; the code computes two's complement.
- `HandleTxRxQueues` is documented to return a negative errno on error; it returns the negation of the negative result of
  the transceiver, a positive number.
- serialization.h asks for a destination of ceil(length_bits/8) bytes; the copy needs room for `dst_offset_bits` as well.

Results that needed a condition: packing a NaN after unpacking it gives it back for one NaN of each sign only
(`Float16.PackUnpack`); a 1.1 message reads as 1.0 exactly when both paths are short enough (`Versions.ModifyDowngrade`);
executions keep their distance exactly when no execution but the last makes the next run time wrap around
(`Scheduler.RunsSpaced`, `Scheduler.SpacingIffNoWrap`); a frame is timed out by its task's next execution exactly under the
condition of `Freshness.ExpiresIff`, which a heartbeat meets only with an interval of at least a second, and otherwise a stale
frame can be sent (`Freshness.StaleOtherwise`, `Freshness.FastHeartbeatIsStale`); the address assertions of the unaligned copy
hold exactly for buffers that do not touch where the copy ends (`Serialization.AssertionsIff`, `Serialization.LastBitFails`);
a measured latency belongs to its request only while a single task uses the ring (`Latency.HeldIff`, `Latency.SharedRing`).

## Model

| member | source | states |
|---|---|---|
| `Serialization.SaturateFragment` | src/Lib/cyphal_public_regulated_data_types_compiled/nunavut/support/serialization.h:103-109 | the part of a fragment inside the buffer: never longer than asked, never past the end, and cut only at the end |
| `Serialization.Memmove` | src/Lib/cyphal_public_regulated_data_types_compiled/nunavut/support/serialization.h:135-140 | a byte-aligned copy moves exactly its bits and keeps every other destination bit |
| `Serialization.CopyAligned` | src/Lib/cyphal_public_regulated_data_types_compiled/nunavut/support/serialization.h:133-151 | fast path: whole bytes and a masked tail change the destination exactly as the bit-level copy does |
| `Serialization.AssertionsIff` | src/Lib/cyphal_public_regulated_data_types_compiled/nunavut/support/serialization.h:162-163 | the address assertions hold exactly when the two buffers do not touch at a border that the copy reaches (for an empty copy: unless the source offset lies beyond that border); they ask for one byte too many when a copy ends on a byte boundary |
| `Serialization.CopyUnaligned` | src/Lib/cyphal_public_regulated_data_types_compiled/nunavut/support/serialization.h:152-189 | general path: the same bit-level copy for all offsets and lengths; the loop ends with last_bit == src_off, every masked merge stays inside one byte, and it is stated exactly when the address assertions pass |
| `Serialization.CopyBits` | src/Lib/cyphal_public_regulated_data_types_compiled/nunavut/support/serialization.h:124-190 | both paths meet one specification: the destination is the old one with `lengthBits` bits spliced in from the source; the address assertions fail only on the unaligned path, exactly for touching buffers |
| `Serialization.GetBits` | src/Lib/cyphal_public_regulated_data_types_compiled/nunavut/support/serialization.h:198-211 | a zero-extended run of bits, padded with zeros to a whole byte; bytes after it keep their contents |
| `Serialization.SetUxx` | src/Lib/cyphal_public_regulated_data_types_compiled/nunavut/support/serialization.h:242-258 | accepted exactly when the field lies in the buffer, then the low bits (at most 64) stand in the field and nothing else changes; a refused call changes nothing |
| `Serialization.SetIxx` | src/Lib/cyphal_public_regulated_data_types_compiled/nunavut/support/serialization.h:260-271 | the same for the two's complement image of a signed number |
| `Serialization.SetBit` | src/Lib/cyphal_public_regulated_data_types_compiled/nunavut/support/serialization.h:226-240 | the same for one bit; the address assertions fail exactly for the last bit of the memory in front of the temporary |
| `Serialization.LastBitFails` | src/Lib/cyphal_public_regulated_data_types_compiled/nunavut/support/serialization.h:226-240 | a failing input: the last bit of any buffer that ends where the temporary begins |
| `Serialization.GetUxx` | src/Lib/cyphal_public_regulated_data_types_compiled/nunavut/support/serialization.h:303-353 | nunavutGetU8 to U64: the number in the zero-extended field, widths saturated at the native width |
| `Serialization.GetBit` | src/Lib/cyphal_public_regulated_data_types_compiled/nunavut/support/serialization.h:296-301 | true exactly for a set bit inside the buffer |
| `Serialization.GetIxx` | src/Lib/cyphal_public_regulated_data_types_compiled/nunavut/support/serialization.h:355-401 | nunavutGetI8 to I64: the two's complement number in the field |
| `Serialization.SignExtendCorrect` | src/Lib/cyphal_public_regulated_data_types_compiled/nunavut/support/serialization.h:355-401 | the sign extension by or-ing a mask and the negation trick of the signed getters compute two's complement for every width |
| `Layout.ByteNumber` | src/Lib/cyphal_public_regulated_data_types_compiled/nunavut/support/serialization.h:303-353 | the number in a byte of a message is the byte itself, and zero past the end |
| `Layout.HoldsBytes` | src/Lib/cyphal_public_regulated_data_types_compiled/nunavut/support/serialization.h:124-190 | an array that stands in a message is there byte for byte |
| `Layout.NumberInBytes` | src/Lib/cyphal_public_regulated_data_types_compiled/nunavut/support/serialization.h:303-353 | a longer number is the sum of its bytes with weights 1, 256, 65536 and so on |
| `Fields.UnsignedRoundTrip` | src/Lib/cyphal_public_regulated_data_types_compiled/nunavut/support/serialization.h:242-353 | an accepted write reads back modulo two to the width, at any bit offset |
| `Fields.SignedRoundTrip` | src/Lib/cyphal_public_regulated_data_types_compiled/nunavut/support/serialization.h:260-401 | every signed number of `len` bits, 1 to 64, reads back exactly |
| `Fields.NarrowUnsigned` | src/Lib/cyphal_public_regulated_data_types_compiled/nunavut/support/serialization.h:303-353 | the 8, 16 and 32-bit getters return the 64-bit result narrowed to their width |
| `Fields.NarrowSigned` | src/Lib/cyphal_public_regulated_data_types_compiled/nunavut/support/serialization.h:355-401 | the same for the signed getters |
| `Fields.WritesReadBack` | src/Lib/cyphal_public_regulated_data_types_compiled/nunavut/support/serialization.h:226-271 | after any sequence of setter calls on pairwise disjoint ranges every accepted field holds its own value |
| `Fields.WriteOrderIrrelevant` | src/Lib/cyphal_public_regulated_data_types_compiled/nunavut/support/serialization.h:226-271 | the final buffer does not depend on the order of such calls |
| `Float16.ProductRounded` | src/Lib/cyphal_public_regulated_data_types_compiled/nunavut/support/serialization.h:410-455 | the multiplication by the magic constant is modelled as the correctly rounded binary32 product |
| `Float16.PackRounds` | src/Lib/cyphal_public_regulated_data_types_compiled/nunavut/support/serialization.h:410-455 | every finite binary32 number is rounded to binary16, ties away from zero, subnormals included, overflow to infinity |
| `Float16.RoundsToNearest` | src/Lib/cyphal_public_regulated_data_types_compiled/nunavut/support/serialization.h:410-455 | the rounding rule in terms of distance: no binary16 number is nearer, and at equal distance the larger magnitude is taken |
| `Float16.RoundingUnique` | src/Lib/cyphal_public_regulated_data_types_compiled/nunavut/support/serialization.h:410-455 | only one binary16 number satisfies the rule, and it grows with the argument |
| `Float16.PackMonotone` | src/Lib/cyphal_public_regulated_data_types_compiled/nunavut/support/serialization.h:410-455 | packing is monotone in magnitude |
| `Float16.UnpackValue` | src/Lib/cyphal_public_regulated_data_types_compiled/nunavut/support/serialization.h:457-479 | unpacking keeps the value of every finite number |
| `Float16.PackUnpack` | src/Lib/cyphal_public_regulated_data_types_compiled/nunavut/support/serialization.h:410-479 | packing undoes unpacking exactly for numbers, infinities and one NaN of each sign; all other NaNs become that one |
| `Float16.PackSpecial` | src/Lib/cyphal_public_regulated_data_types_compiled/nunavut/support/serialization.h:410-455 | packing keeps the sign, turns NaNs and only them into NaNs, and infinities into infinities |
| `Float16.UnpackSpecial` | src/Lib/cyphal_public_regulated_data_types_compiled/nunavut/support/serialization.h:457-479 | unpacking keeps the sign, and gives a NaN or an infinity exactly for a NaN or an infinity |
| `Dsdl.RoundTrip` | src/Lib/cyphal_public_regulated_data_types_compiled/uavcan/node/GetInfo_1_0.h:256-650 | wherever the encoding of a fitting value of any type stands, and whatever follows it, decoding returns the value and stops at its end |
| `Dsdl.FitsIffValid` | src/Lib/cyphal_public_regulated_data_types_compiled/uavcan/node/GetInfo_1_0.h:256-465 | a value of the right form fits its type exactly when no length or tag check fails |
| `Laws.PositionIndependent` | src/Lib/cyphal_public_regulated_data_types_compiled/uavcan/node/GetInfo_1_0.h:486-650 | the outcome of decoding depends only on the zero-extended bits ahead, not on where they stand |
| `Laws.ZeroExtension` | src/Lib/cyphal_public_regulated_data_types_compiled/uavcan/node/GetInfo_1_0.h:486-650 | appending zero bytes to a message changes neither value nor error |
| `Laws.Truncation` | src/Lib/cyphal_public_regulated_data_types_compiled/uavcan/node/GetInfo_1_0.h:486-650 | bytes after the consumed part do not matter |
| `Sizes.EncodeAnywhere` | src/Lib/cyphal_public_regulated_data_types_compiled/uavcan/node/GetInfo_1_0.h:278-376 | an encoding depends on its position only modulo eight, so nested objects may be written at any byte |
| `Sizes.EncodeBounded` | src/Lib/cyphal_public_regulated_data_types_compiled/uavcan/node/GetInfo_1_0.h:456-459 | every encoding ends between the minimum and maximum extents of its type |
| `Codec.PutByte` | src/Lib/cyphal_public_regulated_data_types_compiled/uavcan/file/Path_2_0.h:144-146 | a byte store appends the low eight bits of the number to what has been written |
| `Codec.PutLow` | src/Lib/cyphal_public_regulated_data_types_compiled/uavcan/node/Health_1_0.h:133-143 | a small field at the start of a byte appends its own bits; the rest of the byte is left open |
| `Codec.PutFlag` | src/Lib/cyphal_public_regulated_data_types_compiled/uavcan/file/Modify_1_1.h:148-159 | read-modify-write appends one bit and disturbs no written bit |
| `Codec.PutInteger` | src/Lib/cyphal_public_regulated_data_types_compiled/uavcan/node/IOStatistics_0_1.h:130-135 | memmove of n bytes appends the low 8n bits of an integer |
| `Codec.PutVoid` | src/Lib/cyphal_public_regulated_data_types_compiled/uavcan/file/Modify_1_1.h:164-172 | void bits through nunavutSetUxx cannot fail after the capacity check and append zeros |
| `Codec.Pad` | src/Lib/cyphal_public_regulated_data_types_compiled/uavcan/file/Modify_1_1.h:175-186 | padding cannot fail and reaches the next byte boundary with zeros |
| `Codec.PutArray` | src/Lib/cyphal_public_regulated_data_types_compiled/uavcan/file/Path_2_0.h:137-152 | a variable-length array is refused exactly when it is too long, untouched; otherwise its prefix and elements are appended |
| `Codec.TakeLow` | src/Lib/cyphal_public_regulated_data_types_compiled/uavcan/node/Health_1_0.h:208-218 | the masked byte, or zero past the end, is the zero-extended field |
| `Codec.TakeFlag` | src/Lib/cyphal_public_regulated_data_types_compiled/uavcan/file/Modify_1_1.h:306-330 | a flag is the zero-extended bit |
| `Codec.TakeArray` | src/Lib/cyphal_public_regulated_data_types_compiled/uavcan/file/Path_2_0.h:217-234 | a variable-length array decodes as the reference does, bad lengths included |
| `Codec.NestedRead` | src/Lib/cyphal_public_regulated_data_types_compiled/uavcan/file/Modify_1_1.h:341-357 | a nested decode on what is left of the input agrees with the reference, and adding the bytes it reports keeps the diverging offsets equivalent |
| `Codec.Complete` | src/Lib/cyphal_public_regulated_data_types_compiled/uavcan/file/Modify_1_1.h:243-263 | the end of a serializer: padded, exact size, within the published extents |
| `Codec.Conclude` | src/Lib/cyphal_public_regulated_data_types_compiled/uavcan/file/Modify_1_1.h:375-380 | the end of a deserializer: consumed size is the aligned offset cut at the end of the input |
| `Primitive.SerializeArray` | src/Lib/cyphal_public_regulated_data_types_compiled/uavcan/primitive/String_1_0.h:110-170 | the serializer of every single-array object meets the codec contract: checks, bytes, size, and nothing outside the buffer; on success the length and the elements stand at their bytes, the size follows from the length, and the only other outcomes are a buffer below the extent and an excessive length |
| `Primitive.DeserializeArray` | src/Lib/cyphal_public_regulated_data_types_compiled/uavcan/primitive/String_1_0.h:191-232 | its deserializer agrees with the reference for every input; the length and the elements are those at their bytes, refused exactly for a length above the capacity |
| `Primitive.ArrayObjectField` | src/Lib/cyphal_public_regulated_data_types_compiled/uavcan/file/Write_1_0.h:173-191 | a nested array object: written as the next field, or refused with its own error and confined to the buffer |
| `NodeInfo.SerializeVersion` | src/Lib/cyphal_public_regulated_data_types_compiled/uavcan/node/Version_1_0.h:105-167 | the serializer of Version writes the reference encoding, reports the first bad length or tag, and touches nothing outside its buffer; on success the two bytes are the major and the minor number |
| `NodeInfo.DeserializeVersion` | src/Lib/cyphal_public_regulated_data_types_compiled/uavcan/node/Version_1_0.h:188-243 | the deserializer of Version agrees with the reference for every input, truncated ones included; the numbers are those of the first two bytes |
| `NodeInfo.SerializeInfo` | src/Lib/cyphal_public_regulated_data_types_compiled/uavcan/node/GetInfo_1_0.h:256-465 | the serializer of GetInfo.Response meets the codec contract, and the size is 33 + name + 8 * crc + certificate, between 33 and 313 bytes; on success protocol, hardware and software version stand in bytes 0 to 5 in this order, the revision in 6 to 13, the identifier in 14 to 29 and the three counted arrays behind it; refused exactly below 313 bytes and for counts above 50, 1 and 222 |
| `NodeInfo.DeserializeInfo` | src/Lib/cyphal_public_regulated_data_types_compiled/uavcan/node/GetInfo_1_0.h:486-650 | agrees with the reference although internal offsets diverge after a nested object runs out of input; every field is what stands at those bytes, zeros past the end, and only the three counts decide acceptance |
| `NodeInfo.InfoExtent` | src/Lib/cyphal_public_regulated_data_types_compiled/uavcan/node/GetInfo_1_0.h:456-459 | the literals 264 and 2504 are the extents of the type |
| `NodeStatistics.SerializeIO` | src/Lib/cyphal_public_regulated_data_types_compiled/uavcan/node/IOStatistics_0_1.h:108-178 | the serializer of IOStatistics writes the reference encoding, reports the first bad length or tag, and touches nothing outside its buffer; on success three five-byte counters modulo 2^40 in the order emitted, received, errored |
| `NodeStatistics.DeserializeIO` | src/Lib/cyphal_public_regulated_data_types_compiled/uavcan/node/IOStatistics_0_1.h:199-248 | the deserializer of IOStatistics agrees with the reference for every input, truncated ones included; the counters are those at their bytes |
| `NodeStatistics.PutInterfaces` | src/Lib/cyphal_public_regulated_data_types_compiled/uavcan/node/GetTransportStatistics_0_1.h:290-308 | the loop over nested objects writes the list encoding, for every count |
| `NodeStatistics.TakeInterfaces` | src/Lib/cyphal_public_regulated_data_types_compiled/uavcan/node/GetTransportStatistics_0_1.h:411-426 | the decoding loop reads what the reference reads, element by element |
| `NodeStatistics.SerializeTransport` | src/Lib/cyphal_public_regulated_data_types_compiled/uavcan/node/GetTransportStatistics_0_1.h:223-333 | the codec contract, and size 16 + 15 * count; on success the totals, the count in byte 15 and a block of fifteen bytes for each interface; refused exactly below 61 bytes and for more than three interfaces |
| `NodeStatistics.DeserializeTransport` | src/Lib/cyphal_public_regulated_data_types_compiled/uavcan/node/GetTransportStatistics_0_1.h:354-435 | agrees with the reference; every counter is below 2^40; the object is what stands at those bytes, refused exactly for a count above three |
| `NodeHealth.SerializeSmall` | src/Lib/cyphal_public_regulated_data_types_compiled/uavcan/node/Health_1_0.h:111-166 | Health and Mode: the value saturated to its width, in a byte of its own; the low bits of the byte are the minimum of the value and the largest number of the width |
| `NodeHealth.DeserializeSmall` | src/Lib/cyphal_public_regulated_data_types_compiled/uavcan/node/Health_1_0.h:187-227 | agrees with the reference for every input; the value is in the low bits of the first byte |
| `NodeHealth.SerializeHeartbeat` | src/Lib/cyphal_public_regulated_data_types_compiled/uavcan/node/Heartbeat_1_0.h:118-246 | the serializer of Heartbeat writes the reference encoding, reports the first bad length or tag, and touches nothing outside its buffer; on success the uptime in bytes 0 to 3, the clamped health in byte 4, the clamped mode in byte 5, the vendor status in byte 6 |
| `NodeHealth.DeserializeHeartbeat` | src/Lib/cyphal_public_regulated_data_types_compiled/uavcan/node/Heartbeat_1_0.h:267-351 | the deserializer of Heartbeat agrees with the reference for every input, truncated ones included; the fields are those at these bytes |
| `Pnp.PutIds` | src/Lib/cyphal_public_regulated_data_types_compiled/uavcan/pnp/NodeIDAllocationData_1_0.h:169-187 | the loop over the optional nested identifier writes the list encoding |
| `Pnp.TakeIds` | src/Lib/cyphal_public_regulated_data_types_compiled/uavcan/pnp/NodeIDAllocationData_1_0.h:280-295 | the decoding loop reads what the reference reads |
| `Pnp.SerializeId` | src/Lib/cyphal_public_regulated_data_types_compiled/uavcan/node/ID_1_0.h:102-153 | the codec contract; two bytes |
| `Pnp.DeserializeId` | src/Lib/cyphal_public_regulated_data_types_compiled/uavcan/node/ID_1_0.h:174-207 | agrees with the reference for every input; the number in the first two bytes |
| `Pnp.SerializeAllocation` | src/Lib/cyphal_public_regulated_data_types_compiled/uavcan/pnp/NodeIDAllocationData_1_0.h:114-212 | the codec contract, and size 7 + 2 * count; on success the hash modulo 2^48 in six bytes, the count in byte 6, the identifier behind it; refused exactly below 9 bytes and for more than one identifier |
| `Pnp.DeserializeAllocation` | src/Lib/cyphal_public_regulated_data_types_compiled/uavcan/pnp/NodeIDAllocationData_1_0.h:233-304 | agrees with the reference for every input; the object is what stands at those bytes, with a hash below 2^48 |
| `FileMessages.SerializeModify` | src/Lib/cyphal_public_regulated_data_types_compiled/uavcan/file/Modify_1_1.h:116-264 | both versions of Modify.Request: flags by read-modify-write, 30 void bits and two nested paths produce the reference encoding; on success the flags are the two lowest bits of byte 0 and the paths stand behind byte 4; refused exactly for the buffer and for a path above 112 or 255 bytes |
| `FileMessages.DeserializeModify` | src/Lib/cyphal_public_regulated_data_types_compiled/uavcan/file/Modify_1_1.h:285-381 | agrees with the reference for every input; the flags and paths are those at these places, refused exactly for the two lengths |
| `FileMessages.ModifyExtent` | src/Lib/cyphal_public_regulated_data_types_compiled/uavcan/file/Modify_1_1.h:121-258 | minimum 48 bits, and 32 bits plus two full paths at most: 1840 for version 1.0 and 4128 for 1.1 |
| `FileMessages.SerializeWrite` | src/Lib/cyphal_public_regulated_data_types_compiled/uavcan/file/Write_1_0.h:130-234 | the serializer of Write.Request writes the reference encoding, reports the first bad length or tag, and touches nothing outside its buffer; on success the offset modulo 2^40 in five bytes, then path and data; refused exactly below 311 bytes and for lengths above 112 and 192 |
| `FileMessages.DeserializeWrite` | src/Lib/cyphal_public_regulated_data_types_compiled/uavcan/file/Write_1_0.h:255-329 | the deserializer of Write.Request agrees with the reference for every input, truncated ones included; the offset is the number in the first five bytes, path and data are those behind it, refused exactly for the two lengths |
| `FileMessages.SerializeError` | src/Lib/cyphal_public_regulated_data_types_compiled/uavcan/file/Error_1_0.h:123-174 | the serializer of file.Error writes the reference encoding, reports the first bad length or tag, and touches nothing outside its buffer; two bytes |
| `FileMessages.DeserializeError` | src/Lib/cyphal_public_regulated_data_types_compiled/uavcan/file/Error_1_0.h:195-228 | the deserializer of file.Error agrees with the reference for every input, truncated ones included; the number in the first two bytes |
| `FileMessages.SerializeFileInfo` | src/Lib/cyphal_public_regulated_data_types_compiled/uavcan/file/GetInfo_0_2.h:311-464 | the serializer of file.GetInfo.Response writes the reference encoding, reports the first bad length or tag, and touches nothing outside its buffer; on success the error in two bytes, size and time modulo 2^40 in five bytes each, and the four flags in the low bits of byte 12 |
| `FileMessages.DeserializeFileInfo` | src/Lib/cyphal_public_regulated_data_types_compiled/uavcan/file/GetInfo_0_2.h:485-607 | the deserializer of file.GetInfo.Response agrees with the reference for every input, truncated ones included; every field is what stands at those places |
| `Real16.SerializeReals` | src/Lib/cyphal_public_regulated_data_types_compiled/uavcan/primitive/array/Real16_1_0.h:109-186 | elements clamped to the binary16 range, packed and stored; the codec contract; on success the count in byte 0 and each half in two bytes; refused exactly below 257 bytes and for more than 128 elements |
| `Real16.DeserializeReals` | src/Lib/cyphal_public_regulated_data_types_compiled/uavcan/primitive/array/Real16_1_0.h:207-259 | every element is the unpacked half-word on the wire; refused exactly for a count above 128 |
| `Real16.FiniteStaysFinite` | src/Lib/cyphal_public_regulated_data_types_compiled/uavcan/primitive/array/Real16_1_0.h:146-158 | a finite element never becomes an infinity, and is rounded to nearest after clamping at 65504 |
| `Real16.HalfOfUnpacked` | src/Lib/cyphal_public_regulated_data_types_compiled/uavcan/primitive/array/Real16_1_0.h:146-158 | writing an element that was read gives the same half-word, except for the NaNs that collapse |
| `Registers.SerializeEmpty` | src/Lib/cyphal_public_regulated_data_types_compiled/uavcan/primitive/Empty_1_0.h:100-111 | an empty object takes no bytes |
| `Registers.PutOption` | src/Lib/cyphal_public_regulated_data_types_compiled/uavcan/_register/Value_1_0.h:189-491 | the chain of cases hands the option selected by the tag its own extent and serializer |
| `Registers.SerializeValue` | src/Lib/cyphal_public_regulated_data_types_compiled/uavcan/_register/Value_1_0.h:166-514 | the tagged union meets the codec contract; a tag above 14 is refused; on success the tag in byte 0, then a length of one or two bytes and elements of 1, 8, 16, 32 or 64 bits as listed by tag, and the size as a function of tag and count; every refusal is listed |
| `Registers.DeserializeValue` | src/Lib/cyphal_public_regulated_data_types_compiled/uavcan/_register/Value_1_0.h:535-814 | agrees with the reference for every input, and the object has the option that the tag on the wire selects; tag, length and elements are those at these bytes, and the fault is given by tag and length alone |
| `Registers.ValueExtent` | src/Lib/cyphal_public_regulated_data_types_compiled/uavcan/_register/Value_1_0.h:507-508 | extents 8 and 2072 bits over all fifteen options |
| `Registers.SerializeAccess` | src/Lib/cyphal_public_regulated_data_types_compiled/uavcan/_register/Access_1_0.h:111-209 | a name and a value in sequence meet the codec contract; on success the name stands in front of the value; every refusal is listed |
| `Registers.DeserializeAccess` | src/Lib/cyphal_public_regulated_data_types_compiled/uavcan/_register/Access_1_0.h:230-291 | agrees with the reference for every input; name and value are those at these bytes |
| `Messages.RoundTripThroughBuffer` | src/Lib/cyphal_public_regulated_data_types_compiled/uavcan/_register/Access_1_0.h:111-291 | what a serializer wrote, followed by anything, is read back as the same value and exactly its bytes are consumed |
| `Messages.SameBytes` | src/Lib/cyphal_public_regulated_data_types_compiled/uavcan/file/Modify_1_1.h:116-264 | two runs on different buffers at different places write the same bytes |
| `Messages.RestUntouched` | src/Lib/cyphal_public_regulated_data_types_compiled/uavcan/file/Modify_1_1.h:116-264 | bytes before the message and past the returned size are as they were |
| `Messages.CapacityIsEnough` | src/Lib/cyphal_public_regulated_data_types_compiled/uavcan/file/Write_1_0.h:140-143 | refused for size exactly below the extent, accepted exactly when the object fits; without unions only a bad length remains |
| `Messages.ZeroExtended` | src/Lib/cyphal_public_regulated_data_types_compiled/uavcan/node/GetInfo_1_0.h:486-650 | for any two runs of a deserializer: implicit zero extension, consumed size included |
| `Messages.DecodedFits` | src/Lib/cyphal_public_regulated_data_types_compiled/uavcan/node/GetInfo_1_0.h:486-650 | a decoded object always fits its type and can be encoded again |
| `Messages.InitializeSucceeds` | src/Lib/cyphal_public_regulated_data_types_compiled/uavcan/node/GetInfo_1_0.h:656-666 | initialization by decoding an empty message never fails and consumes nothing |
| `Messages.PrefixFree` | src/Lib/cyphal_public_regulated_data_types_compiled/uavcan/_register/Access_1_0.h:111-209 | no encoding is the beginning of another |
| `Versions.SameEncoding` | src/Lib/cyphal_public_regulated_data_types_compiled/uavcan/file/Modify_1_0.h:125-273 | a value of a narrower version has the same encoding under the wider one |
| `Versions.OldReader` | src/Lib/cyphal_public_regulated_data_types_compiled/uavcan/file/Modify_1_0.h:294-390 | a narrower reader gets the same value, or exactly the error the narrower writer would report for it |
| `Versions.ModifyUpgrade` | src/Lib/cyphal_public_regulated_data_types_compiled/uavcan/file/Modify_1_1.h:285-381 | every Modify.Request 1.0 message reads the same as 1.1 |
| `Versions.ModifyDowngrade` | src/Lib/cyphal_public_regulated_data_types_compiled/uavcan/file/Modify_1_0.h:294-390 | a 1.1 message reads as 1.0 exactly when both paths have at most 112 bytes, and is refused for a bad length otherwise |
| `Catalogue.InfoRoundTrip` | src/Lib/cyphal_public_regulated_data_types_compiled/uavcan/node/GetInfo_1_0.h:256-650 | GetInfo.Response comes back field by field |
| `Catalogue.TransportRoundTrip` | src/Lib/cyphal_public_regulated_data_types_compiled/uavcan/node/GetTransportStatistics_0_1.h:223-435 | all counters come back modulo 2^40, for every number of interfaces |
| `Catalogue.HeartbeatRoundTrip` | src/Lib/cyphal_public_regulated_data_types_compiled/uavcan/node/Heartbeat_1_0.h:118-351 | health and mode come back clamped, the rest unchanged |
| `Catalogue.WriteCapacity` | src/Lib/cyphal_public_regulated_data_types_compiled/uavcan/file/Write_1_0.h:130-234 | 311 bytes are enough on every path; past the check only the two array lengths can be refused |
| `Catalogue.WriteRoundTrip` | src/Lib/cyphal_public_regulated_data_types_compiled/uavcan/file/Write_1_0.h:130-329 | Write.Request comes back with its offset modulo 2^40 |
| `Catalogue.FileInfoRoundTrip` | src/Lib/cyphal_public_regulated_data_types_compiled/uavcan/file/GetInfo_0_2.h:311-607 | file.GetInfo.Response comes back with the two numbers modulo 2^40 |
| `Catalogue.AllocationRoundTrip` | src/Lib/cyphal_public_regulated_data_types_compiled/uavcan/pnp/NodeIDAllocationData_1_0.h:114-304 | NodeIDAllocationData comes back with its hash modulo 2^48 |
| `Catalogue.ValueRoundTrip` | src/Lib/cyphal_public_regulated_data_types_compiled/uavcan/_register/Value_1_0.h:166-814 | the union comes back option by option, in 1 to 259 bytes; with as many bits of memory per element as the tag says |
| `Catalogue.BadTagSent` | src/Lib/cyphal_public_regulated_data_types_compiled/uavcan/_register/Value_1_0.h:488-491 | the writer refuses tags above 14, and only they, for their tag |
| `Catalogue.BadTag` | src/Lib/cyphal_public_regulated_data_types_compiled/uavcan/_register/Value_1_0.h:802-805 | the reader rejects a message for its tag exactly when its first byte is above 14 |
| `Catalogue.AccessRoundTrip` | src/Lib/cyphal_public_regulated_data_types_compiled/uavcan/_register/Access_1_0.h:111-291 | Access.Request comes back for every option of the value |
| `Trips.InfoTrip` | src/Lib/cyphal_public_regulated_data_types_compiled/uavcan/node/GetInfo_1_0.h:256-650 | serialized into any buffer and deserialized from any number of bytes that is enough, the object comes back and its own size is consumed |
| `Trips.TransportTrip` | src/Lib/cyphal_public_regulated_data_types_compiled/uavcan/node/GetTransportStatistics_0_1.h:223-435 | the same with counters modulo 2^40 |
| `Trips.HeartbeatTrip` | src/Lib/cyphal_public_regulated_data_types_compiled/uavcan/node/Heartbeat_1_0.h:118-351 | the same with health and mode clamped; only a buffer below seven bytes is refused |
| `Trips.SendWrite` | src/Lib/cyphal_public_regulated_data_types_compiled/uavcan/file/Write_1_0.h:130-234 | into a buffer of 311 bytes only a path above 112 or data above 192 bytes is refused |
| `Trips.WriteTrip` | src/Lib/cyphal_public_regulated_data_types_compiled/uavcan/file/Write_1_0.h:130-329 | serialized and deserialized, Write.Request comes back with offset modulo 2^40, path and data |
| `Trips.FileInfoTrip` | src/Lib/cyphal_public_regulated_data_types_compiled/uavcan/file/GetInfo_0_2.h:311-607 | the same for file.GetInfo.Response, and only a buffer below 13 bytes is refused |
| `Trips.AllocationTrip` | src/Lib/cyphal_public_regulated_data_types_compiled/uavcan/pnp/NodeIDAllocationData_1_0.h:114-304 | the same for NodeIDAllocationData |
| `Trips.ValueTrip` | src/Lib/cyphal_public_regulated_data_types_compiled/uavcan/_register/Value_1_0.h:166-814 | the same for the union; with 259 bytes of room exactly tags above 14 are refused for their tag |
| `Trips.ReceiveValue` | src/Lib/cyphal_public_regulated_data_types_compiled/uavcan/_register/Value_1_0.h:535-814 | an arbitrary message is rejected for its tag exactly when its first byte is above 14 |
| `Trips.AccessTrip` | src/Lib/cyphal_public_regulated_data_types_compiled/uavcan/_register/Access_1_0.h:111-291 | the same for a name and a value |
| `Trips.UpgradeTrip` | src/Lib/cyphal_public_regulated_data_types_compiled/uavcan/file/Modify_1_1.h:285-381 | what a 1.0 node writes, a 1.1 node reads as the same request |
| `Trips.DowngradeTrip` | src/Lib/cyphal_public_regulated_data_types_compiled/uavcan/file/Modify_1_0.h:294-390 | what a 1.1 node writes, a 1.0 node reads as the same request exactly when both paths have at most 112 bytes, and else refuses for a bad length |
| `Scheduler.Task.UpdateNextRun` | src/OpenCyphal/Task.cpp:13-15 | the next run is one interval after the current time, in the addition of uint64_t |
| `Scheduler.PlusIsModulo` | src/OpenCyphal/Task.cpp:13-15 | that addition is the sum modulo 2^64 |
| `Scheduler.Node.CheckScheduler` | src/OpenCyphal/Node.cpp:76-85 | on an online node every due task runs once, in order, and takes one step of its automaton; otherwise nothing happens; the new executions are exactly the tasks whose time has come, each once and in the order of scheduling |
| `Scheduler.Node.Schedule` | src/OpenCyphal/Node.cpp:87-89 | the task is appended to the schedule |
| `Scheduler.Node.StartNode` | src/OpenCyphal/Node.cpp:91-94 | the node goes online at the given time |
| `Scheduler.Poll` | src/App/main.cpp:61-67 | any number of ticks: next run times and executions are those of the automata |
| `Scheduler.TasksIndependent` | src/OpenCyphal/Node.cpp:76-85 | in a node's run each task is executed exactly when its own automaton says |
| `Scheduler.RunsSpaced` | src/OpenCyphal/Node.cpp:76-85 | over any ticks, consecutive executions of a task are at least an interval apart exactly when no execution but the last made the next run time wrap around |
| `Scheduler.RateBound` | src/OpenCyphal/Node.cpp:76-85 | at most floor((b - a) / interval) + 1 executions fall between a and b, for any run in which only the last execution may wrap around |
| `Scheduler.RunsClose` | src/OpenCyphal/Node.cpp:76-85 | with ticks at most d apart the gap is below interval + d, wrap-around or not; after every tick the next execution is ahead unless the tick was an execution that wrapped around |
| `Scheduler.SpacingIffNoWrap` | src/OpenCyphal/Task.cpp:13-15 | after any run, no further tick can break the spacing exactly when no execution so far wrapped around |
| `Transmission.Port.DrainQueue` | src/OpenCyphal/OpenCyphal.cpp:79-96 | the drain loop computes the specified drain of the queue for every oracle of send results |
| `Transmission.DrainConserves` | src/OpenCyphal/OpenCyphal.cpp:79-96 | accepted calls are those for live popped frames, in order; the loop stops on an empty queue or on the one refusal of a live head |
| `Transmission.DrainLaws` | src/OpenCyphal/OpenCyphal.cpp:79-96 | conservation: the old queue is the freed frames followed by the rest; the live ones among the freed were sent once; a refused frame stays at the head |
| `Transmission.InsertOrdered` | src/OpenCyphal/OpenCyphal.cpp:53-64 | a pushed frame stands behind every frame of its priority or a higher one and before all others; the others keep their order, none is lost or doubled |
| `Transmission.Cyphal.Publish` | src/OpenCyphal/OpenCyphal.cpp:40-51 | every interface gets the frame if its queue has room; the result is that of the last interface only |
| `Transmission.Cyphal.HandleTxRxQueues` | src/OpenCyphal/OpenCyphal.cpp:75-133 | interfaces are drained in order up to the first that fails or has nothing to receive; the others are untouched; the result is the positive error code or zero; the result is stated from the answers of the transceiver: the negated last refusal of a transmission, else of the reception, else zero |
| `Freshness.ExpiresIff` | src/OpenCyphal/THeartbeat.cpp:13-20 | when a deadline has passed at the first tick that can run the task again, wrap-around included: a heartbeat needs an interval of a second, the others a next run time that is not 0 or 1, or 0 at the largest time |
| `Freshness.AlwaysExpiresIff` | src/OpenCyphal/TByteArray.cpp:21-25 | without wrap-around every deadline expires exactly if the interval is at least a second for a heartbeat, two microseconds for the others |
| `Freshness.KeepsRun` | src/App/main.cpp:61-73 | the invariant of the combined machine holds over every run with a monotonic clock, for every task set; frames carry deadline and priority of their task |
| `Freshness.NoStaleTransmission` | src/OpenCyphal/OpenCyphal.cpp:81-96 | over whole runs, the frame of an execution whose deadline expires is never sent at or after a later execution of its task; nothing is asked of other executions |
| `Freshness.LongIntervalsSuffice` | src/OpenCyphal/OpenCyphal.cpp:81-96 | a task set with long enough intervals never sends a stale frame, as long as times do not wrap around |
| `Freshness.StaleOtherwise` | src/OpenCyphal/OpenCyphal.cpp:81-96 | the condition is exact: for every task and time whose deadline does not expire there is a run that sends the frame at the very time of the next execution |
| `Freshness.StaleExample` | src/TestUtilities/TLatencyMeasurement.cpp:23 | an interval of one microsecond at time zero: the deadline means never, and a stale frame goes out |
| `Freshness.FastHeartbeatIsStale` | src/OpenCyphal/THeartbeat.cpp:13-20 | a heartbeat every half second: one that was not sent in time goes out together with the next |
| `Freshness.TasksAreScheduled` | src/OpenCyphal/Node.cpp:76-85 | the combined machine treats the tasks as the scheduler does |
| `Freshness.Station.CheckScheduler` | src/OpenCyphal/Node.cpp:76-85 | the loop over the task objects, which move their next run and then publish, is the machine's step of the tasks |
| `Freshness.Station.HandleTxQueue` | src/OpenCyphal/OpenCyphal.cpp:79-96 | draining the interface is the machine's pump, and each transmission is noted with its time |
| `Freshness.Station.Loop` | src/App/main.cpp:61-73 | the polling loop over objects refines the machine over any number of ticks |
| `Delivery.ServedTick` | src/App/main.cpp:61-73 | over any run: when an interface is served by a transceiver that takes every frame, the queue is empty afterwards, the frames go out by priority, and the frame of every waiting execution, and of every one published in this very tick with room, is sent at this tick if it is in good time and never otherwise |
| `Delivery.DueIsSent` | src/App/main.cpp:61-73 | a task that is due in such a tick publishes and its frame is sent in the same tick |
| `Delivery.LiveInGoodTime` | src/OpenCyphal/OpenCyphal.cpp:84 | a frame is alive at t exactly if t is before the microsecond that precedes the next run, for a heartbeat before the end of a second, in 64-bit time |
| `Delivery.InGoodTimeIff` | src/OpenCyphal/TByteArray.cpp:21-25 | without wrap-around: t + 1 < time + interval, for a heartbeat t < time + 1000000 |
| `Delivery.FirstHeartbeat` | src/OpenCyphal/THeartbeat.cpp:13-20 | a heartbeat that is due in the first tick is sent in it |
| `Latency.LatencyNode.Publish` | src/OpenCyphal/Node.cpp:114-118 | the metadata is copied before the payload is asked for, so the published id is the one before the increment |
| `Latency.LatencyTask.Execute` | src/TestUtilities/TLatencyMeasurement.cpp:16-24 | the send time goes to the slot of the id that is then published, the id moves on modulo 256, and every publication stays matched with its note |
| `Latency.LatencyNode.ProcessResponse` | src/TestUtilities/LatencyMeasurementNode.cpp:36-43 | the reported difference is taken against the slot of the received id; modulo 2^64 |
| `Latency.RingHoldsLatest` | src/TestUtilities/TLatencyMeasurement.cpp:21 | whichever tasks took the notes, a slot holds the time of the last note in it, or its first contents |
| `Latency.HeldIff` | src/TestUtilities/TLatencyMeasurement.cpp:21 | for a single task a slot belongs to a request exactly until 32 further requests were made, across wrap-around of the ids |
| `Latency.Repeat` | src/TestUtilities/TLatencyMeasurement.cpp:16-24 | any number of executions of one task: consecutive ids and slots, and the given times |
| `Latency.Measure` | src/TestUtilities/LatencyMeasurementNode.cpp:36-43 | a response that arrives before 32 further requests reports the time since its own request; the difference modulo 2^64, and without wrap-around the plain difference |
| `Latency.Interleave` | src/TestUtilities/TLatencyMeasurement.cpp:16-24 | executions of several tasks in any order keep notes and publications matched |
| `Latency.SharedRing` | src/TestUtilities/LatencyMeasurementNode.h:41 | two tasks share the ring: a response to the first request of one is measured against the request of the other |

## Left out

- Serialization.CopyBits: source and destination do not overlap; the source leaves unaligned overlap undefined, and no caller overlaps.
- Codec.PutVoid: does not promise that the address assertions hold: void bits at the end of a buffer that touches the temporary fail them (`Serialization.AssertionsIff`). The byte-aligned statements have no such assertions.
- Float16.PackUnpack: floating point is modelled on bit patterns; that the machine's `float` product and comparison follow IEEE 754 is taken as given.
- NodeInfo.DeserializeInfo: on an error there is no object; what the source has already written into `out_obj` by then is not modelled. The same holds for every deserializer.
- Registers.SerializeValue: the options of the C union are kept side by side in the object; that they overlap in memory is not modelled.
- Primitive.SerializeArray: one method, parameterized by prefix, element and capacity, stands for the headers of String, Unstructured, Path 1.0 and 2.0, Name and the primitive arrays, which the generator emits from one template.
- FileMessages.SerializeModify: one method stands for Modify.Request 1.0 and 1.1, which differ in the version of the path and the literals derived from it.
- Transmission.Port.Push: canardTxPush is an ordered insertion of a single-frame transfer into a queue of limited length; multi-frame transfers and heap exhaustion inside libcanard are not modelled.
- Transmission.Cyphal.HandleTxRxQueues: reception is reduced to the result of ReceiveCanardFrame; canardRxAccept and the receivers it feeds are not modelled.
- Freshness.NoStaleTransmission: covers the frames of periodic tasks on one interface; answers to requests, which are published from the receive path, are not in the machine.
- Latency.LatencyNode.ProcessResponse: a received transfer id is below 32, as in the tail byte of a CAN frame; libcanard, which puts it there, is not part of this model, and neither is the answering node.
- SetF16, SetF32, SetF64, GetF32 and GetF64: they wrap the modelled setters and getters around a reinterpretation of the number.
- The responses of Modify, Write, Access and the other generated types: the same patterns as the chosen messages.
- Null-pointer checks, static assertions, port identifiers, logging and clocks.
- libcanard and o1heap internals, SocketCAN and its transceiver: system code behind the oracles.
- addTransceiver, NodeFactory and the payload copy of PMessageByteArray: nothing there promises a property of this kind.
- Array elements beyond `count`: left uninitialized by the source and unconstrained here.
