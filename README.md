# oopetris core, modelled in Dafny

oopetris is a Tetris clone with a binary recording format. A recording holds
the input events of every tetrion, snapshots of the tetrions' state, and a
header with free-form additional information. A replay feeds the events back
into the simulation and checks it against the snapshots. This project models
the parts of the game and of its recordings library that compute or change
state step by step, with Dafny contracts stating what each one does:

- **Recording format.** Little-endian integers and the byte-order helpers;
  the stream readers and byte writers. `InformationValue` is a tagged,
  nested value with a nesting-depth limit. `AdditionalInformation` is a
  string-keyed map whose checksum is taken over its keys in sorted order.
  `TetrionSnapshot` has its own layout and comparison. The recording
  writer's and reader's file header and tagged record and snapshot entries
  are modelled too. Each encoder is paired with its reader by a round-trip
  lemma, and each error path of a reader is stated.
- **The simulation.** The mino stack and the falling tetromino. The
  `SimulatedTetrion` rules, stated as functions on a state value: moves and
  rotations with wall kicks, drops, hold, lock delay, line clearing with
  score and level, and the 7-bag piece sequence. A class performs these
  rules on its fields, and its methods are proved to agree with the
  functions. The game input with delayed auto shift, and the replay input
  that plays a recording back, are classes of the same kind.
- **Text parsers and buffers.** The colour literals (`#RRGGBB[AA]`, `rgb()`,
  `rgba()`), joystick GUID literals, key combinations such as
  `Ctrl+Shift+A`, the UTF-8 text-input field and `StaticString`.
- **Layouts.** Focus traversal over sorted focus ids, grid cells, and
  scroll-layout stacking with the viewport clamp.
- **Network framing.** Headers, payloads and checksums of
  `RawTransportData`.
- **`tools/version_grabber.py`.** Reads a vcpkg status file, merges default
  features, removes duplicates and build helpers, and sorts packages by
  their number of dependencies.

There is one Dafny module per source file. Unsigned integers of fixed width
are subset types of `int`, and the source's wrap-around is written out where
it can happen. Hash functions, the random generator, the file system and SDL
lookups are parameters of the members that use them.

## Model

| member | source | states |
|---|---|---|
| Bytes.U32Cast | src/recordings/additional_information.cpp:186-190 | a size cast to u32 keeps every size below 2^32 and otherwise wraps modulo 2^32 |
| Bytes.ToLE | src/libs/recordings/utility/helper.hpp:157-170 | the little-endian layout of an n-byte value has exactly n bytes |
| Bytes.FromLE | src/libs/recordings/utility/helper.hpp:81-97 | the value decoded from n little-endian bytes fits in n bytes |
| Bytes.FromToLE | src/libs/core/helper/utils.hpp:49-51 | decoding the little-endian layout of a value below 256^n gives the value back |
| Bytes.ToFromLE | src/libs/core/helper/utils.hpp:41-51 | re-encoding a decoded n-byte layout gives the same bytes |
| Bytes.ToLEInjective | src/libs/core/helper/utils.hpp:41-51 | two n-byte values with the same layout are equal |
| Bytes.Swapped | src/libs/core/helper/utils.hpp:29-39 | the byte-swapped value fits in the same width |
| Bytes.SwappedLayout | src/libs/core/helper/utils.hpp:29-39 | the layout of the swapped value is the value's layout reversed |
| Bytes.SwappedInvolution | src/libs/core/helper/utils.hpp:29-39 | swapping twice gives the original value |
| Bytes.SwappedOneByte | src/libs/core/helper/utils.hpp:32-38 | on a one-byte type the swap is the identity |
| Bytes.ByteSwap | src/libs/core/helper/utils.hpp:29-39 | the shift-and-or loop yields a value of the same width whose layout is the input's layout reversed |
| Bytes.MemoryBytes | src/libs/core/helper/utils.hpp:41-47 | a host keeps n bytes for an n-byte value |
| Bytes.LittleEndianRoundTrip | src/libs/core/helper/utils.hpp:41-51 | on either host, from_little_endian undoes to_little_endian |
| Bytes.ToLittleEndianLayout | src/libs/core/helper/utils.hpp:41-47 | on either host, the memory of a converted value is its little-endian layout |
| Bytes.FromLittleEndianOfMemory | src/libs/core/helper/utils.hpp:49-51 | on either host, converting the value read from memory gives the little-endian value of those bytes |
| Bytes.SignedFromUnsigned | src/recordings/additional_information.cpp:307-355 | the signed reading of an n-byte pattern lies in the signed range of n bytes |
| Bytes.UnsignedFromSigned | src/recordings/additional_information.cpp:117-155 | the pattern of an in-range signed value fits in n bytes and reads back as that value |
| Bytes.ToLittleEndian | src/libs/core/helper/utils.hpp:41-47 | to_little_endian: proved in LittleEndianRoundTrip and ToLittleEndianLayout |
| Bytes.FromLittleEndian | src/libs/core/helper/utils.hpp:49-51 | from_little_endian: proved in LittleEndianRoundTrip and FromLittleEndianOfMemory |
| StreamIO.ReadRaw | src/libs/recordings/utility/helper.hpp:87-94 | a read of n bytes succeeds exactly on a good stream holding n more bytes, returns those bytes and advances by n; otherwise the stream goes bad |
| StreamIO.ReadIntegral | src/libs/recordings/utility/helper.hpp:32-53 | InvalidStream exactly when the stream is bad before reading, Incomplete exactly when fewer than n bytes remain, otherwise the little-endian value of the next n bytes |
| StreamIO.ReadFromIstream | src/libs/recordings/utility/helper.hpp:81-97 | a value exactly when the stream is good and holds n more bytes, namely the little-endian value of those bytes |
| StreamIO.ReadFieldsSpec | src/libs/recordings/utility/helper.hpp:99-119 | the array read succeeds exactly when the stream is good and holds all count fields, and then stands just past them; a failed read leaves the stream bad |
| StreamIO.ReadFieldsValues | src/libs/recordings/utility/helper.hpp:106-112 | the values read are the fields' little-endian values, in order |
| StreamIO.FieldsOfConcat | src/libs/recordings/utility/helper.hpp:172-177 | decoding the concatenated layouts of in-range values gives the values back |
| StreamIO.ReadFieldBack | src/libs/recordings/utility/helper.hpp:81-97 | reading an n-byte field from its own layout gives the field back and advances by n |
| StreamIO.InputStream.constructor | src/libs/recordings/utility/helper.hpp:81-97 | a new stream is good and stands at the first byte |
| StreamIO.InputStream.Read | src/libs/recordings/utility/helper.hpp:87-90 | the stream method reads as ReadRaw |
| StreamIO.InputStream.ReadIntegralFromFile | src/libs/recordings/utility/helper.hpp:32-53 | the stream method reads as ReadIntegral |
| StreamIO.InputStream.ReadFromIstreamValue | src/libs/recordings/utility/helper.hpp:81-97 | the stream method reads as ReadFromIstream |
| StreamIO.InputStream.ReadArrayFromIstream | src/libs/recordings/utility/helper.hpp:99-119 | the loop reads as ReadFields: count values, nothing if any read fails |
| StreamIO.InputStream.ReadArrayFromFile | src/libs/recordings/utility/helper.hpp:55-79 | the loop fails with InvalidStream on a bad stream and otherwise with the first failing read's error; else it returns the count values |
| StreamIO.OutputStream.constructor | src/libs/recordings/utility/helper.hpp:126-141 | a new file has nothing written and is good when it was opened |
| StreamIO.OutputStream.WriteIntegral | src/libs/recordings/utility/helper.hpp:126-141 | on a good file the n little-endian bytes are appended and true is returned; on a bad one nothing is written and the error names the value |
| StreamIO.OutputStream.WriteVector | src/libs/recordings/utility/helper.hpp:143-154 | on a good file every value's layout is appended in order; on a bad one the first write's error is returned and nothing is written |
| StreamIO.ConcatOneByte | src/libs/recordings/utility/helper.hpp:172-177 | bytes appended one byte each are the bytes themselves |
| StreamIO.BytesBack | src/libs/recordings/utility/helper.hpp:99-119 | reading as many one-byte fields as the length of b, where the bytes b are, gives b back |
| StreamIO.AppendValue | src/libs/recordings/utility/helper.hpp:157-170 | the vector grows by exactly the n little-endian bytes of the value, the prefix unchanged |
| StreamIO.AppendBytes | src/libs/recordings/utility/helper.hpp:172-177 | the vector grows by n bytes per value, each value's layout in order, the prefix unchanged |
| InformationValues.EncodingOkIffShallow | src/recordings/additional_information.cpp:157-181 | to_bytes succeeds exactly when the value's vectors, counted from the starting depth, nest no deeper than 15 |
| InformationValues.EncodeFromOkIffShallow | src/recordings/additional_information.cpp:170-179 | the element loop succeeds exactly when every remaining element fits under the limit one level deeper |
| InformationValues.EncodeFromExtends | src/recordings/additional_information.cpp:170-179 | the element loop only appends: the bytes written so far stay a prefix |
| InformationValues.EncodeFromShift | src/recordings/additional_information.cpp:170-179 | the elements' bytes do not depend on what was written before them |
| InformationValues.ReadString | src/recordings/additional_information.cpp:200-232 | the reader never moves the stream backwards and never changes its bytes |
| InformationValues.ReadValue | src/recordings/additional_information.cpp:235-391 | the reader never moves the stream backwards and never changes its bytes |
| InformationValues.ReadPayload | src/recordings/additional_information.cpp:247-390 | the payload reader never moves the stream backwards and never changes its bytes |
| InformationValues.ReadElements | src/recordings/additional_information.cpp:370-384 | the vector loop never moves the stream backwards and never changes its bytes |
| InformationValues.ReadPair | src/recordings/additional_information.cpp:44-58 | the pair reader never moves the stream backwards and never changes its bytes |
| InformationValues.StringRoundTrip | src/recordings/additional_information.cpp:186-232 | read_string_from_istream on the bytes of string_to_bytes(s) returns s and consumes exactly those bytes |
| InformationValues.PairRoundTrip | src/recordings/additional_information.cpp:44-58 | a key's string bytes followed by a value's to_bytes read back as that key and value, consuming exactly those bytes |
| InformationValues.ValueRoundTrip | src/recordings/additional_information.cpp:60-184 | read_value_from_istream on a successful to_bytes at the same depth returns an equal value and consumes exactly its bytes |
| InformationValues.ReadValueAfterTag | src/recordings/additional_information.cpp:240-247 | after the tag byte has been read the value reader goes on with that tag's payload |
| InformationValues.EncodingStartsWithTag | src/recordings/additional_information.cpp:66-164 | every encoding begins with the value's type tag |
| InformationValues.ScalarRoundTrip | src/recordings/additional_information.cpp:247-355 | each scalar payload reads back as its value: string, float and double bits, bool, u8, i8, u32, i32, u64, i64 |
| InformationValues.VectorRoundTrip | src/recordings/additional_information.cpp:357-385 | a vector payload reads back as the vector, consuming exactly its bytes |
| InformationValues.VectorEncodingLayout | src/recordings/additional_information.cpp:157-181 | a vector encodes as its tag, its u32 element count and then its elements' encodings, and only below the depth limit |
| InformationValues.ReadVectorSize | src/recordings/additional_information.cpp:357-374 | below the depth limit a vector payload is its u32 size followed by that many elements read one level deeper |
| InformationValues.ElementsRoundTrip | src/recordings/additional_information.cpp:370-384 | the vector loop reads the remaining elements of an encoded vector back in order |
| InformationValues.ReadElementsStep | src/recordings/additional_information.cpp:372-382 | an element read successfully is appended and the loop goes on after it |
| InformationValues.EncodeFromStep | src/recordings/additional_information.cpp:170-179 | the elements from j on encode as element j's bytes followed by those of the rest |
| InformationValues.BoolDecoding | src/recordings/additional_information.cpp:287-295 | a bool is one payload byte and decodes as "byte is not zero" |
| InformationValues.UnknownTagRejected | src/recordings/additional_information.cpp:388-390 | a tag above Vector gives "invalid magic byte: " and the tag in decimal |
| InformationValues.DeepVectorRejected | src/recordings/additional_information.cpp:357-362 | a vector tag at depth 15 or more is rejected with the recursion-depth error before anything else is read |
| InformationValues.StringToBytes | src/recordings/additional_information.cpp:186-198 | the loop produces the u32 length followed by the characters, as the spec function |
| InformationValues.ToBytes | src/recordings/additional_information.cpp:60-184 | the serializer's loops produce exactly the spec encoding, including its depth error |
| InformationValues.ReadStringFrom | src/recordings/additional_information.cpp:200-232 | the stream method reads as ReadString, failing with "unable to read string size" or at the index of the missing character |
| InformationValues.ReadValueFrom | src/recordings/additional_information.cpp:235-391 | the stream method reads as ReadValue |
| InformationValues.ReadElementsFrom | src/recordings/additional_information.cpp:370-384 | the vector loop as a method reads as ReadElements |
| InformationValues.ReadPairFrom | src/recordings/additional_information.cpp:44-58 | the stream method reads as ReadPair |
| KeyOrder.LessIrreflexive | src/recordings/additional_information.cpp:535 | the string order std::sort uses is irreflexive |
| KeyOrder.LessTransitive | src/recordings/additional_information.cpp:535 | the string order is transitive |
| KeyOrder.LessTotal | src/recordings/additional_information.cpp:535 | two different strings are ordered one way or the other |
| KeyOrder.LessAsymmetric | src/recordings/additional_information.cpp:535 | the string order is asymmetric |
| KeyOrder.Insert | src/recordings/additional_information.cpp:535 | inserting a key adds exactly that key to the list's multiset |
| KeyOrder.SortKeys | src/recordings/additional_information.cpp:529-535 | sorting permutes the key list |
| KeyOrder.InsertSorted | src/recordings/additional_information.cpp:535 | inserting a new key into an ascending list keeps it strictly ascending |
| KeyOrder.SortKeysSorted | src/recordings/additional_information.cpp:529-535 | the sorted list of distinct keys is strictly ascending and holds exactly those keys |
| KeyOrder.SortedUnique | src/recordings/additional_information.cpp:535 | two strictly ascending lists with the same elements are equal |
| KeyOrder.SortKeysOrderIndependent | src/recordings/additional_information.cpp:529-537 | the sorted key list does not depend on the map's iteration order |
| AdditionalInformations.EnumerationInsert | src/recordings/additional_information.cpp:429-435 | adding a key not yet present keeps the key list an enumeration of the map, each key once |
| AdditionalInformations.ChecksumOrderIndependent | src/recordings/additional_information.cpp:522-548 | get_checksum gives the same result whichever order the unordered map is iterated in |
| AdditionalInformations.PairsFromOkIffShallow | src/recordings/additional_information.cpp:493-506 | writing the pairs succeeds exactly when every value nests its vectors no deeper than the limit |
| AdditionalInformations.SerializeOkIffShallow | src/recordings/additional_information.cpp:484-520 | to_bytes succeeds exactly when every value of the map nests its vectors no deeper than the limit |
| AdditionalInformations.PairsFromShift | src/recordings/additional_information.cpp:493-506 | the bytes of the later pairs do not depend on what was written before them |
| AdditionalInformations.PairsFromStep | src/recordings/additional_information.cpp:493-506 | the pairs from i on are key i's string bytes, its value's bytes, then the pairs after it |
| AdditionalInformations.ReadPairs | src/recordings/additional_information.cpp:416-436 | the pair loop never moves the stream backwards and never changes its bytes |
| AdditionalInformations.ReadInfo | src/recordings/additional_information.cpp:397-460 | from_istream never moves the stream backwards and never changes its bytes |
| AdditionalInformations.ReadBody | src/recordings/additional_information.cpp:416-460 | the part after the pair count never moves the stream backwards and never changes its bytes |
| AdditionalInformations.ReadChecksum | src/recordings/additional_information.cpp:440-457 | the checksum comparison never moves the stream backwards and never changes its bytes |
| AdditionalInformations.ReadPairsStep | src/recordings/additional_information.cpp:419-436 | a pair with a new key is inserted and the loop goes on with the next pair |
| AdditionalInformations.ReadPairsEnumerates | src/recordings/additional_information.cpp:419-436 | the keys read list the map that was read, each key once |
| AdditionalInformations.WrongMagicRejected | src/recordings/additional_information.cpp:401-408 | a first u32 other than 0xABCDEF01 gives "magic start bytes are not correct, the data is probably corrupted" |
| AdditionalInformations.RepeatedKeyRejected | src/recordings/additional_information.cpp:427-433 | a pair whose key is already in the map ends the loop with "AdditionalInformation already contains key '<key>'" |
| AdditionalInformations.DuplicateKeyRejected | src/recordings/additional_information.cpp:397-433 | a stream whose first two pairs share a key is rejected by from_istream with the duplicate-key error |
| AdditionalInformations.PrefixStep | src/recordings/additional_information.cpp:419-436 | after one more pair the reader's map is the previous one with that key added |
| AdditionalInformations.PairsRoundTrip | src/recordings/additional_information.cpp:416-436 | reading the pairs written for order[i..] inserts them in order and stops just past them |
| AdditionalInformations.PairBack | src/recordings/additional_information.cpp:420-435 | pair i written by to_bytes reads back as key i and its value and the cursor moves over it |
| AdditionalInformations.SerializeLayout | src/recordings/additional_information.cpp:484-520 | a successful to_bytes is the magic word, the u32 pair count, the pairs and then the 32 checksum bytes |
| AdditionalInformations.HeaderBack | src/recordings/additional_information.cpp:401-414 | with the magic word and a count there, from_istream goes on with that many pairs |
| AdditionalInformations.InfoRoundTrip | src/recordings/additional_information.cpp:397-520 | from_istream on the output of to_bytes returns the same map and consumes exactly those bytes |
| AdditionalInformations.HeaderThenBody | src/recordings/additional_information.cpp:397-460 | the header followed by the pairs and the checksum reads back as the map |
| AdditionalInformations.BodyRoundTrip | src/recordings/additional_information.cpp:416-460 | the pairs followed by their checksum read back as the map |
| AdditionalInformations.BodyBack | src/recordings/additional_information.cpp:438-459 | once the pairs are read, the stored checksum equal to the computed one makes from_istream succeed just past it |
| AdditionalInformations.ChecksumBack | src/recordings/additional_information.cpp:445-451 | reading the 32 checksum bytes that are there gives them back |
| AdditionalInformations.AdditionalInformation.constructor | src/recordings/additional_information.cpp:395 | a new information holds no pairs |
| AdditionalInformations.AdditionalInformation.FromValues | src/recordings/additional_information.cpp:393 | the private constructor keeps the map it is given |
| AdditionalInformations.AdditionalInformation.Get | src/recordings/additional_information.cpp:470-481 | get(k) is present exactly when has(k), and then holds k's value |
| AdditionalInformations.AdditionalInformation.AddValue | src/recordings/additional_information.cpp:462-468 | an existing key without overwrite raises "Can't overwrite already existing key" and leaves the map unchanged; otherwise exactly that key is set and every other key keeps its value |
| AdditionalInformations.AdditionalInformation.GetChecksum | src/recordings/additional_information.cpp:522-548 | the loops feed the hash the u32 pair count and the pairs in ascending key order, as Checksum |
| AdditionalInformations.AdditionalInformation.ToBytes | src/recordings/additional_information.cpp:484-520 | the loops produce exactly the spec serialization, including its error messages |
| AdditionalInformations.AdditionalInformation.FromIstream | src/recordings/additional_information.cpp:397-460 | the stream method reads as ReadInfo and returns a new information holding the map read |
| AdditionalInformations.AdditionalInformation.ReadBodyFrom | src/recordings/additional_information.cpp:416-460 | the part after the pair count reads as ReadBody |
| AdditionalInformations.AdditionalInformation.ReadPairsFrom | src/recordings/additional_information.cpp:416-436 | the pair loop reads as ReadPairs |
| AdditionalInformations.AdditionalInformation.ReadStoredChecksum | src/recordings/additional_information.cpp:438-459 | the checksum comparison reads as ReadChecksum |
| TetrionSnapshots.MinoBytes | src/libs/recordings/utility/tetrion_snapshot.cpp:149-160 | a mino is written as three bytes |
| TetrionSnapshots.MinosBytes | src/libs/recordings/utility/tetrion_snapshot.cpp:149-160 | the minos take three bytes each |
| TetrionSnapshots.SnapshotBytes | src/libs/recordings/utility/tetrion_snapshot.cpp:127-162 | a snapshot takes 33 + 3n bytes for n minos |
| TetrionSnapshots.MinosBytesSnoc | src/libs/recordings/utility/tetrion_snapshot.cpp:149-160 | one more mino appends exactly its three bytes |
| TetrionSnapshots.ToBytes | src/libs/recordings/utility/tetrion_snapshot.cpp:127-162 | the appends produce u8 index, u32 level, u64 score, u32 lines, u64 step, u64 mino count, then x, y, type per mino |
| TetrionSnapshots.AppendMinos | src/libs/recordings/utility/tetrion_snapshot.cpp:149-160 | the mino loop appends each mino's three bytes in stack order |
| TetrionSnapshots.ReadMino | src/libs/recordings/utility/tetrion_snapshot.cpp:63-83 | reading a mino never moves the stream backwards and never changes its bytes |
| TetrionSnapshots.ReadMinos | src/libs/recordings/utility/tetrion_snapshot.cpp:60-86 | the mino loop never moves the stream backwards and never changes its bytes |
| TetrionSnapshots.ReadSnapshot | src/libs/recordings/utility/tetrion_snapshot.cpp:29-94 | from_istream never moves the stream backwards and never changes its bytes |
| TetrionSnapshots.FromIstream | src/libs/recordings/utility/tetrion_snapshot.cpp:29-94 | the stream method reads as ReadSnapshot, filling the stack with set one mino at a time |
| TetrionSnapshots.ReadMinosFrom | src/libs/recordings/utility/tetrion_snapshot.cpp:60-86 | the mino loop as a method reads as ReadMinos |
| TetrionSnapshots.ReadMinoFrom | src/libs/recordings/utility/tetrion_snapshot.cpp:63-83 | one mino read as a method reads as ReadMino |
| TetrionSnapshots.MinoBack | src/libs/recordings/utility/tetrion_snapshot.cpp:63-83 | a mino read where its three bytes are gives it back and advances by three |
| TetrionSnapshots.MinoStep | src/libs/recordings/utility/tetrion_snapshot.cpp:62-86 | one turn of the loop on the bytes of a list without repeated positions sets the next mino and moves on by three bytes |
| TetrionSnapshots.MinosRoundTrip | src/libs/recordings/utility/tetrion_snapshot.cpp:62-86 | the remaining minos of a list without repeated positions read back in order |
| TetrionSnapshots.HeaderBack | src/libs/recordings/utility/tetrion_snapshot.cpp:29-58 | the six fields read back from their layout and the reader stands at the minos, 33 bytes on |
| TetrionSnapshots.FieldStep | src/libs/recordings/utility/tetrion_snapshot.cpp:30-58 | a field read where its layout is gives it back and leaves the cursor at what follows |
| TetrionSnapshots.SnapshotRoundTrip | src/libs/recordings/utility/tetrion_snapshot.cpp:29-162 | from_istream on the bytes of to_bytes gives the snapshot back, for a stack with one mino per position, and consumes exactly those bytes |
| TetrionSnapshots.TruncatedHeader | src/libs/recordings/utility/tetrion_snapshot.cpp:30-58 | a stream shorter than 33 bytes fails with the error of the first field that does not fit |
| TetrionSnapshots.ReadMinoErrors | src/libs/recordings/utility/tetrion_snapshot.cpp:63-83 | a mino read fails exactly on a truncated field (its own error) or on a type byte that names no TetrominoType ("got invalid enum value for TetrominoType: ") |
| TetrionSnapshots.CompareToOkIff | src/libs/recordings/utility/tetrion_snapshot.cpp:179-218 | compare_to succeeds exactly when the five numbers are equal and the stacks hold the same minos |
| TetrionSnapshots.FirstMismatch | src/libs/recordings/utility/tetrion_snapshot.cpp:179-218 | the first differing field is one of the six, or none |
| TetrionSnapshots.CompareToNamesFirstMismatch | src/libs/recordings/utility/tetrion_snapshot.cpp:165-215 | a failed compare_to reports the first differing field in the order index, level, score, lines, step, mino stack |
| TetrionSnapshots.CompareToSymmetric | src/libs/recordings/utility/tetrion_snapshot.cpp:179-218 | whether compare_to succeeds does not depend on the order of the two snapshots |
| TetrionSnapshots.RoundTripCompares | src/libs/recordings/utility/tetrion_snapshot.cpp:29-218 | a snapshot read back from its own bytes compares equal to it |
| TetrionSnapshots.CompareTo | src/libs/recordings/utility/tetrion_snapshot.cpp:179-218 | compare_to: proved in CompareToOkIff, CompareToNamesFirstMismatch and CompareToSymmetric |
| Recordings.TetrionHeaderBytes | src/libs/recordings/utility/recording_writer.cpp:145-162 | a tetrion header takes 12 bytes |
| Recordings.HeadersBytes | src/libs/recordings/utility/recording_writer.cpp:62-67 | the headers take 12 bytes each |
| Recordings.RecordBody | src/libs/recordings/utility/recording_reader.cpp:237-286 | a record after its tag takes 10 bytes: index, u64 step, event |
| Recordings.RecordBytes | src/libs/recordings/utility/recording_writer.cpp:89-120 | a record entry takes 11 bytes |
| Recordings.SnapshotEntryBytes | src/libs/recordings/utility/recording_writer.cpp:122-142 | a snapshot entry is one tag byte longer than the snapshot's bytes |
| Recordings.RecordInFront | src/libs/recordings/utility/recording_reader.cpp:134-139 | a record entry adds its record behind those read before and adds no snapshot |
| Recordings.SnapshotInFront | src/libs/recordings/utility/recording_reader.cpp:140-145 | a snapshot entry adds its snapshot behind those read before and adds no record |
| Recordings.EntriesSplit | src/libs/recordings/utility/recording_reader.cpp:119-155 | every entry becomes exactly one record or one snapshot, and each list holds exactly the entries of its kind |
| RecordingReaders.ReadTetrionHeader | src/libs/recordings/utility/recording_reader.cpp:211-235 | the header reader never moves the stream backwards and never changes its bytes |
| RecordingReaders.ReadRecord | src/libs/recordings/utility/recording_reader.cpp:237-286 | the record reader never moves the stream backwards and never changes its bytes |
| RecordingReaders.ReadHeaders | src/libs/recordings/utility/recording_reader.cpp:66-75 | the header loop never changes the stream's bytes |
| RecordingReaders.ReadFileHeader | src/libs/recordings/utility/recording_reader.cpp:39-103 | get_header_from_path never changes the stream's bytes |
| RecordingReaders.ReadHeaderBody | src/libs/recordings/utility/recording_reader.cpp:66-103 | the part after the tetrion count never changes the stream's bytes |
| RecordingReaders.ReadHeaderChecksum | src/libs/recordings/utility/recording_reader.cpp:84-99 | the checksum comparison never changes the stream's bytes |
| RecordingReaders.ReadEntries | src/libs/recordings/utility/recording_reader.cpp:123-155 | the body loop never changes the stream's bytes |
| RecordingReaders.IntegralStep | src/libs/recordings/utility/helper.hpp:32-53 | a field read with read_integral_from_file where its layout is gives it back and moves past it |
| RecordingReaders.ByteStep | src/libs/recordings/utility/helper.hpp:32-53 | a one-byte field reads back as that byte |
| RecordingReaders.TetrionHeaderBack | src/libs/recordings/utility/recording_reader.cpp:211-235 | a header reads back from its 12 bytes: the seed, then the starting level |
| RecordingReaders.HeadersRoundTrip | src/libs/recordings/utility/recording_reader.cpp:66-75 | the header loop reads the remaining headers back from their layout, in order |
| RecordingReaders.FileHeaderPrefix | src/libs/recordings/utility/recording_reader.cpp:39-64 | with the magic word, the supported version and a count there, the reader goes on with the header body six bytes on |
| RecordingReaders.HeadersBack | src/libs/recordings/utility/recording_reader.cpp:66-75 | exactly num_tetrions headers are read back, leaving the cursor at what follows |
| RecordingReaders.InfoBack | src/libs/recordings/utility/recording_reader.cpp:78-81 | the information reads back from its serialized bytes, leaving the cursor at what follows |
| RecordingReaders.HeaderBodyBack | src/libs/recordings/utility/recording_reader.cpp:66-99 | the headers and the information read back, and the checksum check follows them |
| RecordingReaders.HeaderChecksumBack | src/libs/recordings/utility/recording_reader.cpp:84-99 | the stored checksum passes exactly when it equals the calculated one; otherwise "header checksum mismatch, the file was altered: …" |
| RecordingReaders.FileHeaderRead | src/libs/recordings/utility/recording_reader.cpp:30-103 | get_header_from_path reads back the file header get_writer writes, accepting its checksum exactly when it is the calculated one |
| RecordingReaders.FileHeaderSplit | src/libs/recordings/utility/recording_writer.cpp:45-84 | the file header is the magic word, the version, the count, the headers, the information and the checksum, in that order |
| RecordingReaders.RecordBack | src/libs/recordings/utility/recording_reader.cpp:237-286 | a record reads back from its 10 bytes after the tag, index, step and event in that order |
| RecordingReaders.RecordEntryStep | src/libs/recordings/utility/recording_reader.cpp:134-139 | a tag 42 followed by a record appends the record and the loop goes on after its 11 bytes |
| RecordingReaders.SnapshotEntryStep | src/libs/recordings/utility/recording_reader.cpp:140-145 | a tag 43 followed by a snapshot appends the snapshot and the loop goes on after it |
| RecordingReaders.SnapshotBack | src/libs/recordings/utility/recording_reader.cpp:140-145 | a snapshot reads back from its bytes after the tag |
| RecordingReaders.EntriesRoundTrip | src/libs/recordings/utility/recording_reader.cpp:123-155 | entries that run to the end of the file read back as their records and their snapshots, each in file order |
| RecordingReaders.RecordingRoundTrip | src/libs/recordings/utility/recording_reader.cpp:106-159 | from_path reads back a file written by get_writer, add_record and add_snapshot: the headers, the information, and the records and snapshots in the order they were added |
| RecordingReaders.WrittenHeaderRead | src/libs/recordings/utility/recording_writer.cpp:19-87 | the file header get_writer writes reads back whatever follows it |
| RecordingReaders.WrittenEntriesRead | src/libs/recordings/utility/recording_writer.cpp:89-142 | the entries written after the header read back to the end of the file |
| RecordingReaders.RecordingOf | src/libs/recordings/utility/recording_reader.cpp:106-159 | from_path on an open file whose header and body read back returns them together |
| RecordingReaders.WrongMagicRejected | src/libs/recordings/utility/recording_reader.cpp:39-48 | first four bytes other than the magic word give "magic file bytes are not correct, this is either an old format or no recording at all" |
| RecordingReaders.WrongVersionRejected | src/libs/recordings/utility/recording_reader.cpp:50-59 | a version byte other than the supported one is refused, naming both versions |
| RecordingReaders.ShortFileRejected | src/libs/recordings/utility/recording_reader.cpp:39-43 | a file shorter than the magic word gives "unable to read magic file bytes from recorded game" |
| RecordingReaders.EndOfFileEndsEntries | src/libs/recordings/utility/recording_reader.cpp:125-130 | an Incomplete read of the tag at the end of the file ends the loop without error |
| RecordingReaders.UnknownTagRejected | src/libs/recordings/utility/recording_reader.cpp:146-150 | a tag other than 42 and 43 gives "invalid magic byte: " and the tag |
| RecordingReaders.InvalidEventRejected | src/libs/recordings/utility/recording_reader.cpp:261-279 | an event byte that names no InputEvent is refused by read_record_from_file, and the loop then fails with "invalid record while reading recorded game" |
| RecordingReaders.TruncatedRecordRejected | src/libs/recordings/utility/recording_reader.cpp:134-138 | a record cut short by the end of the file is refused |
| RecordingReaders.RecordingReader.constructor | src/libs/recordings/utility/recording_reader.cpp:11-19 | the reader keeps the headers, information, records and snapshots it is given |
| RecordingReaders.RecordingReader.FromPath | src/libs/recordings/utility/recording_reader.cpp:106-159 | the stream method reads as ReadRecording and errors exactly when it does |
| RecordingReaders.RecordingReader.GetHeaderFromPath | src/libs/recordings/utility/recording_reader.cpp:27-104 | a file that does not open gives "unable to load recording from file …"; otherwise the method reads as ReadFileHeader |
| RecordingReaders.RecordingReader.ReadHeaderBodyFrom | src/libs/recordings/utility/recording_reader.cpp:66-103 | the part after the tetrion count reads as ReadHeaderBody |
| RecordingReaders.RecordingReader.ReadHeadersFrom | src/libs/recordings/utility/recording_reader.cpp:66-75 | the header loop reads as ReadHeaders |
| RecordingReaders.RecordingReader.ReadTetrionHeaderFrom | src/libs/recordings/utility/recording_reader.cpp:211-235 | the method reads as ReadTetrionHeader |
| RecordingReaders.RecordingReader.ReadRecordFrom | src/libs/recordings/utility/recording_reader.cpp:237-286 | the method reads as ReadRecord |
| RecordingReaders.RecordingReader.ReadEntriesFrom | src/libs/recordings/utility/recording_reader.cpp:119-155 | the while (true) loop reads as ReadEntries |
| RecordingReaders.RecordingReader.At | src/libs/recordings/utility/recording_reader.cpp:161-163 | at(i) gives the i-th record when there is one and nothing otherwise |
| RecordingReaders.RecordingReader.NumRecords | src/libs/recordings/utility/recording_reader.cpp:165-167 | num_records is the number of records |
| RecordingReaders.ReadRecording | src/libs/recordings/utility/recording_reader.cpp:106-159 | from_path: proved in RecordingRoundTrip and the rejection lemmas |
| RecordingWriters.RecordingWriter.constructor | src/libs/recordings/utility/recording_writer.cpp:5-11 | the writer keeps the file, headers and information it is given |
| RecordingWriters.RecordingWriter.GetWriter | src/libs/recordings/utility/recording_writer.cpp:19-87 | with overwrite set and an existing path it fails without writing; a file that does not open fails; otherwise the file holds magic, version, u8 count, headers, information bytes and checksum, in that order |
| RecordingWriters.RecordingWriter.AddRecord | src/libs/recordings/utility/recording_writer.cpp:89-120 | on a good file the 11 bytes of tag 42, index, u64 step and event are appended; on a bad one the tag write's error is returned and nothing is written |
| RecordingWriters.RecordingWriter.AddSnapshot | src/libs/recordings/utility/recording_writer.cpp:122-142 | on a good file tag 43 and exactly the snapshot's to_bytes are appended; on a bad one the tag write's error is returned and nothing is written |
| RecordingWriters.RecordingWriter.Write | src/libs/recordings/utility/recording_writer.hpp:54-62 | write appends the value's little-endian bytes, or returns the writer's error prefixed with "error while writing: " |
| RecordingWriters.WriteTetrionHeader | src/libs/recordings/utility/recording_writer.cpp:145-162 | a header is written as its 8-byte seed then its 4-byte starting level |
| RecordingWriters.WriteChecksum | src/libs/recordings/utility/recording_writer.cpp:164-184 | the 32 checksum bytes are written in order, or the first write's error is returned |
| RecordingWriters.SnapshotLayout | src/libs/recordings/utility/recording_writer.cpp:129-141 | the tag write followed by the snapshot's bytes one by one is the snapshot entry |
| RecordingWriters.RecordLayout | src/libs/recordings/utility/recording_writer.cpp:98-119 | the four writes of add_record, one after another, are the record's layout |
| RecordingWriters.FileHeaderLayout | src/libs/recordings/utility/recording_writer.cpp:45-84 | the writes of get_writer, one after another, are the file header layout |
| InputEvents.EventIndex | src/libs/core/helper/utils.hpp:53-56 | the underlying byte of an event is below 14 and converts back to the same event |
| InputEvents.EventFromIndex | src/libs/recordings/utility/recording_reader.cpp:273-278 | the enum cast of a byte succeeds exactly for the fourteen values below 14 |
| InputEvents.EventFromIndexInverse | src/libs/recordings/utility/recording_reader.cpp:261-278 | every valid event byte converts to an event whose underlying byte is that byte |
| MinoStacks.TypeIndex | src/libs/core/helper/utils.hpp:53-56 | the underlying byte of a tetromino type is below 7 and converts back to the same type |
| MinoStacks.TypeFromIndex | src/libs/recordings/utility/tetrion_snapshot.cpp:78-83 | the enum cast of a byte to a tetromino type succeeds exactly for 0..6 |
| MinoStacks.TypeFromIndexInverse | src/libs/recordings/utility/tetrion_snapshot.cpp:78-83 | every valid type byte converts to a type whose underlying byte is that byte |
| MinoStacks.WithoutRow | src/libs/core/game/mino_stack.cpp:7-12 | the remove_if step keeps exactly the minos off the cleared row, and no more of them |
| MinoStacks.Sunk | src/libs/core/game/mino_stack.cpp:13-17 | the sinking loop keeps the number of minos |
| MinoStacks.ClearedContents | src/libs/core/game/mino_stack.cpp:7-17 | after clear_row_and_let_sink the stack holds exactly the lowered images of the minos that were not on the row |
| MinoStacks.ClearedRows | src/libs/core/game/mino_stack.cpp:7-17 | a mino below the row stays, a mino above it moves down one row keeping its type, and the row afterwards holds only minos lowered from the row just above it |
| MinoStacks.WithoutRowDistinct | src/libs/core/game/mino_stack.cpp:7-12 | removing a row keeps the positions distinct |
| MinoStacks.ClearedKeepsDistinct | src/libs/core/game/mino_stack.cpp:7-17 | clear_row_and_let_sink keeps the positions distinct |
| MinoStacks.RemoveRow | src/libs/core/game/mino_stack.cpp:7-12 | the erase/remove_if loop over the stack computes the stack without that row, in order |
| MinoStacks.SetMinoAt | src/libs/core/game/mino_stack.cpp:25-34 | set at the first occupied index replaces the type of that one mino and changes nothing else |
| MinoStacks.SetMinoAppends | src/libs/core/game/mino_stack.cpp:25-34 | set at a free position appends the new mino at the end |
| MinoStacks.SetOccupies | src/libs/core/game/mino_stack.cpp:25-34 | after set the mino (p, t) is present, p is occupied, and the count grows by one exactly when p was free |
| MinoStacks.SetKeepsOthers | src/libs/core/game/mino_stack.cpp:25-34 | set leaves every mino at another position as it was |
| MinoStacks.SetKeepsDistinct | src/libs/core/game/mino_stack.cpp:25-34 | set keeps the positions distinct |
| MinoStacks.PermutationIsSame | src/libs/core/game/mino_stack.cpp:43-61 | two stacks holding the same minos in any order compare equal under operator== |
| MinoStacks.SameMinosIsPermutation | src/libs/core/game/mino_stack.cpp:43-65 | for stacks with distinct positions, operator== holds exactly when one is a reordering of the other |
| MinoStacks.DistinctPositionsBound | src/libs/core/game/mino_stack.cpp:25-34 | a stack with distinct u8 positions holds at most 65536 minos |
| MinoStacks.MinoStack.constructor | src/libs/core/game/mino_stack.cpp:7-34 | a new stack is empty and valid |
| MinoStacks.MinoStack.ClearRowAndLetSink | src/libs/core/game/mino_stack.cpp:7-17 | the new contents are the cleared stack of the old one, and valid stacks stay valid |
| MinoStacks.MinoStack.LetSink | src/libs/core/game/mino_stack.cpp:13-17 | the loop over the remaining minos lowers exactly those above the row |
| MinoStacks.MinoStack.Set | src/libs/core/game/mino_stack.cpp:25-34 | the new contents are SetMino of the old ones, and valid stacks stay valid |
| MinoStacks.MinoStack.NumMinos | src/libs/core/game/mino_stack.cpp:36-38 | the count equals the number of minos in the list |
| MinoStacks.IsEmptyIffFree | src/libs/core/game/mino_stack.cpp:19-23 | is_empty(p) holds exactly when no mino is at p |
| MinoStacks.Cleared | src/libs/core/game/mino_stack.cpp:7-17 | clear_row_and_let_sink: proved in ClearedContents, ClearedRows and ClearedKeepsDistinct |
| MinoStacks.SetMino | src/libs/core/game/mino_stack.cpp:25-34 | set: proved in SetOccupies, SetKeepsOthers and SetKeepsDistinct |
| Tetrominos.RotationIndex | src/tetromino.hpp:8-14 | the underlying value of a rotation is below 4 and names that rotation |
| Tetrominos.Next | src/tetromino.hpp:16-19 | operator++ adds one to the underlying value modulo 4 |
| Tetrominos.Prev | src/tetromino.hpp:21-27 | operator-- adds three (LastRotation) to the underlying value modulo 4 |
| Tetrominos.NextCycles | src/tetromino.hpp:16-19 | ++ cycles North, East, South, West and back to North |
| Tetrominos.PrevIsInverse | src/tetromino.hpp:16-27 | -- undoes ++ and ++ undoes -- |
| Tetrominos.FourTurns | src/tetromino.hpp:16-27 | four ++ or four -- give the starting rotation back |
| Tetrominos.Wrap | src/game/tetromino.hpp:13-16 | a step of a coordinate of the u8 `GridPoint` wraps modulo 256 |
| Tetrominos.WrapInverse | src/game/tetromino.hpp:13-16 | stepping a coordinate of the u8 `GridPoint` by d and then by -d gives it back, wrap-around included |
| Tetrominos.Pattern | src/tetromino.hpp:89-91 | each pattern of the table has four offsets |
| Tetrominos.PatternShape | src/game/tetromino.hpp:63-113 | every offset lies in the 4x4 box and the four offsets of a pattern are distinct |
| Tetrominos.CreateMinos | src/tetromino.hpp:93-100 | create_minos gives four minos, the i-th at position plus the i-th pattern offset, all of the piece's type |
| Tetrominos.Moved | src/tetromino.hpp:60-78 | a move keeps the rotation and the type |
| Tetrominos.RotatedRight | src/tetromino.hpp:50-53 | rotate_right keeps position and type and turns the rotation by ++ |
| Tetrominos.RotatedLeft | src/tetromino.hpp:55-58 | rotate_left keeps position and type and turns the rotation by -- |
| Tetrominos.MoveBack | src/tetromino.hpp:60-78 | a move by (dx, dy) followed by a move by (-dx, -dy) restores the piece |
| Tetrominos.RotateBack | src/tetromino.hpp:50-58 | rotate_left undoes rotate_right and rotate_right undoes rotate_left |
| Tetrominos.MovedMinos | src/tetromino.hpp:85-100 | after a move each mino is the old mino shifted by the same offset, of the same type |
| Tetrominos.Tetromino.constructor | src/tetromino.hpp:42-46 | a new piece faces North at the given position, with its minos created |
| Tetrominos.Tetromino.RotateRight | src/tetromino.hpp:50-53 | rotate_right turns the rotation by ++ and refreshes the minos |
| Tetrominos.Tetromino.RotateLeft | src/tetromino.hpp:55-58 | rotate_left turns the rotation by -- and refreshes the minos |
| Tetrominos.Tetromino.MoveDown | src/tetromino.hpp:60-63 | move_down adds one to y and refreshes the minos |
| Tetrominos.Tetromino.MoveUp | src/tetromino.hpp:65-68 | move_up subtracts one from y and refreshes the minos |
| Tetrominos.Tetromino.MoveLeft | src/tetromino.hpp:70-73 | move_left subtracts one from x and refreshes the minos |
| Tetrominos.Tetromino.MoveRight | src/tetromino.hpp:75-78 | move_right adds one to x and refreshes the minos |
| Tetrominos.Tetromino.Move | src/game/tetromino.hpp:48 | move(offset) shifts the position by an i8 offset and refreshes the minos |
| Tetrominos.Tetromino.RefreshMinos | src/tetromino.hpp:85-87 | refresh_minos recomputes the minos from position, rotation and type, so the piece's value is unchanged |
| Tetrominos.MoveDownUp | src/tetromino.hpp:60-78 | move_down then move_up, move_left then move_right, and move_right then move_left restore the piece |
| TetrionTables.KickTable | src/game/simulated_tetrion.cpp:518-535 | there is no kick table exactly for O; each table has eight rows of five small offsets, each row starting with (0, 0) |
| TetrionTables.ReverseKicksOpposite | src/game/simulated_tetrion.hpp:167-299 | the row of each reverse transition holds the negated offsets of the forward row |
| TetrionTables.RotationToIndex | src/game/simulated_tetrion.cpp:423-449 | each adjacent rotation transition maps to an index below 8 whose table row is that transition |
| TetrionTables.TransitionAt | src/game/simulated_tetrion.hpp:167-299 | every kick-table row belongs to an adjacent rotation transition |
| TetrionTables.RotationToIndexBijective | src/game/simulated_tetrion.cpp:423-449 | rotation_to_index is a bijection between the 8 adjacent transitions and 0..7 |
| TetrionTables.TurnRows | src/game/simulated_tetrion.cpp:423-449 | a right turn from r has row 2*r and the left turn back to r has row 2*r + 1 |
| TetrionTables.FramesPerTileShape | src/game/simulated_tetrion.hpp:301-302 | frames_per_tile has 30 entries from 48 down to 1 and never increases |
| TetrionTables.LevelFrames | src/game/simulated_tetrion.cpp:415-416 | the frames of a level lie between 1 and 48; levels past the table take its last entry |
| TetrionTables.GravityDelayFrames | src/game/simulated_tetrion.cpp:415-421 | without acceleration the delay is the level's frames; with it, the frames divided by 20 rounded to nearest and at least 1 |
| TetrionTables.GravityNeverSlower | src/game/simulated_tetrion.cpp:415-421 | a higher level never has a longer gravity delay, accelerated or not |
| TetrionTables.LineScore | src/game/simulated_tetrion.cpp:320-322 | k cleared lines score the k-th multiplier of 0, 40, 100, 300, 1200 times level + 1, with the u32 level + 1 wrapping to 0 at the maximum |
| TetrionTables.MoreLinesScoreMore | src/game/simulated_tetrion.cpp:320-322 | more lines at once score strictly more, and a four-line clear scores 30 times a single |
| TetrionStates.AddU64 | src/game/simulated_tetrion.cpp:190 | a u64 addition that does not overflow is the exact sum (and wraps modulo 2^64 otherwise) |
| TetrionStates.SubU64 | src/game/simulated_tetrion.cpp:38-39 | a u64 subtraction that does not underflow, as the "overflow" assertion demands, is the exact difference |
| TetrionStates.AddU32 | src/game/simulated_tetrion.cpp:298 | a u32 increment of the line counter is exact below 2^32 |
| TetrionStates.InitialInv | src/game/simulated_tetrion.cpp:15-28 | a freshly constructed tetrion satisfies the game invariant and has dealt no piece yet |
| TetrionStates.MovedDownValid | src/game/simulated_tetrion.cpp:196-199 | a piece that can move down is still in a valid position one row lower |
| TetrionStates.MovedDownCell | src/game/simulated_tetrion.cpp:358-364 | a mino that can move down lands on a free cell inside the grid one row lower |
| TetrionStates.FirstFullRow | src/game/simulated_tetrion.cpp:289-297 | the row scan finds the lowest-numbered fully occupied row and reports none exactly when no row from y on is full |
| TetrionStates.ClearingShrinks | src/libs/core/game/mino_stack.cpp:7-17 | clearing a full row removes at least one mino, so the clearing loop terminates |
| TetrionStates.WithoutRowShrinks | src/libs/core/game/mino_stack.cpp:7-17 | removing a row that holds a mino shortens the stack |
| TetrionStates.ClearStep | src/game/simulated_tetrion.cpp:297-316 | clearing one full row leaves fewer minos on the stack |
| TetrionStates.ClearLoopCounts | src/game/simulated_tetrion.cpp:283-320 | the do-while loop adds the number of cleared rows to the line counter and never lowers the level, which is the larger of the old level and lines/10 when no wrap-around happens |
| TetrionStates.ClearLoopUnfold | src/game/simulated_tetrion.cpp:286-319 | when a full row exists the loop clears it and starts over, counting one more line |
| TetrionStates.ClearLoopStops | src/game/simulated_tetrion.cpp:286-319 | without a full row the loop changes nothing and counts no line |
| TetrionStates.ClearLoopLines | src/game/simulated_tetrion.cpp:283-320 | the lines counter after the loop is the old counter plus the cleared rows, modulo 2^32 |
| TetrionStates.ClearLoopLevel | src/game/simulated_tetrion.cpp:298-303 | the level after the loop is at least the old level and is the one each cleared line's lines/10 raised it to |
| TetrionStates.ClearStepCounters | src/game/simulated_tetrion.cpp:298-303 | one cleared row increments the line counter with u32 wrap-around and raises the level to lines/10 when that is larger |
| TetrionStates.ClearCountZero | src/game/simulated_tetrion.cpp:286-319 | when no row is full the clearing loop leaves the tetrion unchanged |
| TetrionStates.LevelSteps | src/game/simulated_tetrion.cpp:298-303 | the level never decreases across one cleared line and the lines that follow it |
| TetrionStates.ClearLoopStack | src/game/simulated_tetrion.cpp:283-320 | after the loop no row is full, positions stay distinct, and only the line counter, level and stack change |
| TetrionStates.RowsOf | src/libs/core/game/mino_stack.cpp:7-17 | the set of occupied rows has at most one entry per mino and holds exactly the minos' rows |
| TetrionStates.ShiftedRows | src/libs/core/game/mino_stack.cpp:7-17 | after clearing row r the rows above it move down by one and those below it stay |
| TetrionStates.CellAfterClear | src/libs/core/game/mino_stack.cpp:7-17 | an occupied cell after clearing row r was occupied before, one row higher when it lies at or above r |
| TetrionStates.FullRowAfterClear | src/libs/core/game/mino_stack.cpp:7-17 | a full row after clearing row r was a full row before, shifted by one when it lies at or above r |
| TetrionStates.ClearCountBound | src/game/simulated_tetrion.cpp:283-320 | the loop clears at most as many rows as there are candidate rows holding all full rows |
| TetrionStates.SetAllOccupied | src/game/simulated_tetrion.cpp:327-329 | after placing the piece's minos a cell is occupied exactly when it was before or a placed mino lies on it |
| TetrionStates.SetOccupied | src/libs/core/game/mino_stack.cpp:19-23 | after set a cell is occupied exactly when it was before or it is the set position |
| TetrionStates.SetAllDistinct | src/game/simulated_tetrion.cpp:327-329 | placing minos keeps the stack free of two minos on one cell |
| TetrionStates.LockClearsAtMostFour | src/game/simulated_tetrion.cpp:321-322 | a locked four-mino piece on a stack without full rows completes at most four rows, so the multiplier table index is in range |
| TetrionStates.SevenBag | src/game/simulated_tetrion.cpp:397-406 | the n-th dealt piece is element n mod 7 of bag n/7, and dealing keeps that relation with one more piece dealt |
| TetrionStates.MoveUpCount | src/game/simulated_tetrion.cpp:138-153 | the game-over loop stops at the least number of rows, at least 1, after which every raised mino is on a free cell |
| TetrionStates.RaisedValidHigh | src/game/simulated_tetrion.cpp:138-153 | raising by 256 rows or more always ends the loop, so the u8 counter suffices |
| TetrionStates.MoveUpCountLeast | src/game/simulated_tetrion.cpp:138-153 | the loop count is the least n from k on at which the raised minos fit |
| TetrionStates.Spawned | src/game/simulated_tetrion.cpp:127-175 | spawning changes only the active piece, the gravity step, the game state and the stack, and a live piece is the given type at (3, 0) facing north on an unchanged stack |
| TetrionStates.SpawnCases | src/game/simulated_tetrion.cpp:127-175 | a piece that fits becomes active with gravity rescheduled; otherwise the game is over, the raised minos are stored and no piece is active |
| TetrionStates.FirstKick | src/game/simulated_tetrion.cpp:477-483 | the kick search returns the first translation that makes the turned piece fit, or none when none does |
| TetrionStates.KicksFor | src/game/simulated_tetrion.cpp:518-535 | only the O piece has no kick table, and every table row has five kicks starting with (0, 0) |
| TetrionStates.RotateKick | src/game/simulated_tetrion.cpp:457-491 | a successful rotation has an active non-O piece that fits after turning and translating |
| TetrionStates.RotatedCases | src/game/simulated_tetrion.cpp:457-491 | rotation leaves the tetrion unchanged without a piece, without a table or without a fitting kick, and otherwise moves the turned piece by the first fitting kick |
| TetrionStates.InvFrame | src/game/simulated_tetrion.cpp:277-279 | changing only counters and timers keeps the game invariant |
| TetrionStates.Fallen | src/game/simulated_tetrion.cpp:218-231 | the dropped piece is valid and cannot move down any further |
| TetrionStates.FallStep | src/game/simulated_tetrion.cpp:223-226 | one loop iteration moves the piece down a row and counts one movement toward the same final piece |
| TetrionStates.FallStops | src/game/simulated_tetrion.cpp:223-226 | a piece that cannot move down makes no movement |
| TetrionStates.Landed | src/game/simulated_tetrion.cpp:218-231 | dropping changes only the piece and the score and leaves a valid piece resting on the stack |
| TetrionStates.SpawnedInv | src/game/simulated_tetrion.cpp:127-175 | spawning keeps the game invariant, yields a piece exactly when the spawn position fits, ends the game otherwise and deals nothing |
| TetrionStates.SpawnedNextInv | src/game/simulated_tetrion.cpp:123-125 | spawning the next piece keeps the invariant, deals one piece and makes it the next piece of the bags |
| TetrionStates.LockedInv | src/game/simulated_tetrion.cpp:325-345 | locking keeps the invariant, allows hold again and leaves lock delay with no executed lock delays counted |
| TetrionStates.PlacedClearedInv | src/game/simulated_tetrion.cpp:325-333 | placing the piece and clearing lines leaves distinct positions, no full row and unchanged bags, with at most four lines cleared |
| TetrionStates.LockedCounts | src/game/simulated_tetrion.cpp:325-333 | locking adds the cleared rows, at most four, to the line counter and never lowers the level |
| TetrionStates.ClearLinesKeeps | src/game/simulated_tetrion.cpp:283-323 | clearing lines changes only counters, level, score and stack, leaves no full row, keeps positions distinct and counts every cleared row |
| TetrionStates.MovedDownInv | src/game/simulated_tetrion.cpp:185-208 | moving down keeps the game invariant and never lowers the level |
| TetrionStates.FallingInv | src/game/simulated_tetrion.cpp:196-199 | moving a piece that can fall keeps the invariant and the level |
| TetrionStates.RestingInv | src/game/simulated_tetrion.cpp:201-207 | a piece that cannot fall enters lock delay or locks, keeping the invariant |
| TetrionStates.DroppedInv | src/game/simulated_tetrion.cpp:218-231 | dropping keeps the invariant and never lowers the level |
| TetrionStates.HeldInv | src/game/simulated_tetrion.cpp:233-246 | holding keeps the invariant and the level |
| TetrionStates.MovementInv | src/game/simulated_tetrion.hpp:136-143 | counting an executed lock delay after a movement keeps the invariant |
| TetrionStates.RotatedInv | src/game/simulated_tetrion.cpp:457-491 | rotating keeps the invariant and the level |
| TetrionStates.ShiftedInv | src/game/simulated_tetrion.cpp:493-516 | moving sideways keeps the invariant and the level |
| TetrionStates.HandleCommandInv | src/game/simulated_tetrion.cpp:61-121 | every input command keeps the game invariant and never lowers the level |
| TetrionStates.UpdateStepInv | src/game/simulated_tetrion.cpp:32-59 | a simulation step keeps the game invariant and never lowers the level |
| TetrionStates.MovementEffect | src/game/simulated_tetrion.cpp:66-89 | a failed move or rotation changes nothing; a successful one keeps the stack, resets the lock delay to step + 30 and counts a lock delay when in lock delay |
| TetrionStates.ShiftBack | src/game/simulated_tetrion.cpp:493-516 | a successful move left or right is undone by the opposite move |
| TetrionStates.ORefusesRotation | src/game/simulated_tetrion.cpp:463-466 | the O piece never rotates and the tetrion stays as it was |
| TetrionStates.RotateTakesFirstKick | src/game/simulated_tetrion.cpp:477-490 | rotation fails exactly when none of the five kicks fits and otherwise uses a kick before which none fits |
| TetrionStates.RotationTurns | src/game/simulated_tetrion.cpp:468-483 | a successful rotation keeps the type, turns the rotation one step in the requested direction and leaves a valid piece |
| TetrionStates.DropMovedIffFalls | src/game/simulated_tetrion.cpp:218-231 | drop reports a movement exactly when the piece could fall a row |
| TetrionStates.FallenIsMovedDown | src/game/simulated_tetrion.cpp:223-226 | the dropped piece is the active piece moved down by the counted number of rows |
| TetrionStates.HoldOncePerPiece | src/game/simulated_tetrion.cpp:109-116 | hold succeeds exactly when it is allowed, keeps the invariant, and a second hold before the next lock fails |
| TetrionStates.HoldSwaps | src/game/simulated_tetrion.cpp:241-245 | holding with a piece on hold swaps the two types, spawns the held type and deals nothing |
| TetrionStates.FirstHoldDeals | src/game/simulated_tetrion.cpp:238-240 | the first hold stores the active type and spawns the next piece from the bags |
| TetrionStates.MoveDownCommand | src/game/simulated_tetrion.cpp:90-101 | MoveDown moves exactly when the piece can fall, then scores 4, sets the accelerated and pressed flags and reschedules gravity at the accelerated rate |
| TetrionStates.GameOverIsFinal | src/game/simulated_tetrion.cpp:32-59 | after game over no command revives a piece or changes the stack and a simulation step changes nothing |
| TetrionStates.ClearLines | src/game/simulated_tetrion.cpp:283-323 | clear_fully_occupied_lines: proved in ClearLinesKeeps and ClearLoopCounts |
| TetrionStates.Locked | src/game/simulated_tetrion.cpp:325-345 | lock_active_tetromino: proved in LockedInv and LockedCounts |
| TetrionStates.HandleCommand | src/game/simulated_tetrion.cpp:61-121 | handle_input_command: proved in HandleCommandInv, MovementEffect, RotateTakesFirstKick, HoldOncePerPiece, MoveDownCommand and GameOverIsFinal |
| TetrionStates.UpdateStep | src/game/simulated_tetrion.cpp:32-59 | update_step: proved in UpdateStepInv and GameOverIsFinal |
| SimulatedTetrions.SimulatedTetrion.constructor | src/game/simulated_tetrion.cpp:15-28 | a new tetrion starts in the initial state for its starting level, with a fresh empty stack, and satisfies the game invariant |
| SimulatedTetrions.SimulatedTetrion.IsValidMinoPosition | src/game/simulated_tetrion.cpp:354-356 | a position is valid exactly when it lies inside the grid on an empty cell |
| SimulatedTetrions.SimulatedTetrion.MinoCanMoveDown | src/game/simulated_tetrion.cpp:358-364 | a mino can move down exactly when it is not on the bottom row and the cell below it is valid |
| SimulatedTetrions.SimulatedTetrion.IsTetrominoPositionValid | src/game/simulated_tetrion.cpp:451-455 | the loop over the four minos reports that the piece fits exactly when every mino is on a valid position |
| SimulatedTetrions.SimulatedTetrion.TetrominoCanMoveDown | src/game/simulated_tetrion.cpp:408-413 | the loop over the four minos reports that the piece can fall exactly when every mino can move down |
| SimulatedTetrions.SimulatedTetrion.IsActiveTetrominoPositionValid | src/game/simulated_tetrion.cpp:347-352 | false without an active piece, otherwise whether the active piece fits |
| SimulatedTetrions.SimulatedTetrion.CoreInformationOf | src/game/simulated_tetrion.cpp:268-271 | the core information holds the tetrion's index, level, score, lines cleared and stack |
| SimulatedTetrions.SimulatedTetrion.GetNextTetrominoType | src/game/simulated_tetrion.cpp:397-406 | returns the next type of the current bag and advances the bag index, replacing the bags after the seventh piece |
| SimulatedTetrions.SimulatedTetrion.ResetLockDelay | src/game/simulated_tetrion.cpp:277-279 | the lock delay ends 30 steps after the given step |
| SimulatedTetrions.SimulatedTetrion.CountLockDelay | src/game/simulated_tetrion.hpp:136-143 | a successful movement during lock delay counts one executed lock delay, and nothing else changes |
| SimulatedTetrions.SimulatedTetrion.SpawnNextTetromino | src/game/simulated_tetrion.cpp:123-125 | spawns the next type from the bags |
| SimulatedTetrions.SimulatedTetrion.SpawnNextTetrominoOf | src/game/simulated_tetrion.cpp:127-175 | spawns the given type at the spawn position and reschedules gravity, or ends the game where the piece does not fit |
| SimulatedTetrions.SimulatedTetrion.EndGame | src/game/simulated_tetrion.cpp:134-171 | the game is over, the minos are stored raised by the least count that fits, and no piece is active |
| SimulatedTetrions.SimulatedTetrion.PlaceRaised | src/game/simulated_tetrion.cpp:156-162 | the minos at or below the raise count are set on the stack that many rows higher |
| SimulatedTetrions.SimulatedTetrion.RaiseCount | src/game/simulated_tetrion.cpp:136-153 | the nested loop returns the least count, at least 1, after which every raised mino is on a valid cell |
| SimulatedTetrions.SimulatedTetrion.Move | src/game/simulated_tetrion.cpp:493-516 | moves the piece one column when it fits there and restores it otherwise, reporting whether it moved |
| SimulatedTetrions.SimulatedTetrion.MoveTetrominoLeft | src/game/simulated_tetrion.cpp:210-212 | the left move with the lock-delay count of with_lock_delay |
| SimulatedTetrions.SimulatedTetrion.MoveTetrominoRight | src/game/simulated_tetrion.cpp:214-216 | the right move with the lock-delay count of with_lock_delay |
| SimulatedTetrions.SimulatedTetrion.Rotate | src/game/simulated_tetrion.cpp:457-491 | turns the piece and applies the first fitting wall kick, or restores it, reporting whether it rotated |
| SimulatedTetrions.SimulatedTetrion.TryKicks | src/game/simulated_tetrion.cpp:477-483 | the kick loop finds the first translation from the table at which the turned piece fits |
| SimulatedTetrions.SimulatedTetrion.RotateTetrominoLeft | src/game/simulated_tetrion.cpp:181-183 | the left rotation with the lock-delay count of with_lock_delay |
| SimulatedTetrions.SimulatedTetrion.RotateTetrominoRight | src/game/simulated_tetrion.cpp:177-179 | the right rotation with the lock-delay count of with_lock_delay |
| SimulatedTetrions.SimulatedTetrion.MoveTetrominoDown | src/game/simulated_tetrion.cpp:185-208 | moves the piece a row down when it can fall, scoring 4 when forced, and otherwise enters lock delay and locks once the delay has expired |
| SimulatedTetrions.SimulatedTetrion.Rest | src/game/simulated_tetrion.cpp:201-207 | a piece that cannot fall locks when the lock delays are used up or the delay step is reached, and otherwise gravity is retried next step |
| SimulatedTetrions.SimulatedTetrion.DropTetromino | src/game/simulated_tetrion.cpp:218-231 | drops the piece as far as it falls, scores 4 per row, locks it, and reports whether it moved |
| SimulatedTetrions.SimulatedTetrion.Fall | src/game/simulated_tetrion.cpp:222-226 | the drop loop ends at the resting piece after the drop distance of movements |
| SimulatedTetrions.SimulatedTetrion.LockActiveTetromino | src/game/simulated_tetrion.cpp:325-345 | stores the piece, resets the hold and lock-delay state, clears lines, spawns the next piece and resets the lock delay |
| SimulatedTetrions.SimulatedTetrion.PlaceMinos | src/game/simulated_tetrion.cpp:327-329 | sets each mino of the piece on the stack in turn |
| SimulatedTetrions.SimulatedTetrion.ClearFullyOccupiedLines | src/game/simulated_tetrion.cpp:283-323 | clears full rows and adds 0, 40, 100, 300 or 1200 times level + 1 to the score |
| SimulatedTetrions.SimulatedTetrion.ClearRows | src/game/simulated_tetrion.cpp:286-319 | the do-while loop clears full rows until none is left |
| SimulatedTetrions.SimulatedTetrion.ClearRow | src/game/simulated_tetrion.cpp:297-316 | one full row cleared, the line counter incremented and the level raised to lines/10 |
| SimulatedTetrions.SimulatedTetrion.FindFullRow | src/game/simulated_tetrion.cpp:288-296 | the nested row and column loops find the lowest-numbered full row, or none |
| SimulatedTetrions.SimulatedTetrion.HoldTetromino | src/game/simulated_tetrion.cpp:233-246 | stores the active type on hold and spawns the held type, or the next type when nothing was held |
| SimulatedTetrions.SimulatedTetrion.HandleInputCommand | src/game/simulated_tetrion.cpp:61-121 | each command changes the state as the command semantics says, returns whether it moved, and keeps the game invariant |
| SimulatedTetrions.SimulatedTetrion.SelectCommand | src/game/simulated_tetrion.cpp:61-121 | dispatches each command to its branch |
| SimulatedTetrions.SimulatedTetrion.HandleHold | src/game/simulated_tetrion.cpp:109-116 | holds and resets the lock delay when allowed, then forbids a second hold |
| SimulatedTetrions.SimulatedTetrion.HandleMovement | src/game/simulated_tetrion.cpp:66-89 | a move or rotation that succeeds resets the lock delay |
| SimulatedTetrions.SimulatedTetrion.HandleMoveDown | src/game/simulated_tetrion.cpp:90-101 | MoveDown presses the down key, accelerates gravity and moves the piece down with a forced movement |
| SimulatedTetrions.SimulatedTetrion.UpdateStep | src/game/simulated_tetrion.cpp:32-59 | on a gravity step the piece falls (or acceleration ends) and gravity is rescheduled; after game over nothing changes; the invariant is kept |
| GameInputs.Sent | src/input/game_input.cpp:44-52 | a command forwarded to the target tetrion keeps its game invariant and leaves the held keys alone |
| GameInputs.Pressed | src/input/game_input.cpp:20-43 | pressing left or right keeps the tetrion's game invariant |
| GameInputs.AfterEvent | src/input/game_input.cpp:13-73 | every input event keeps the tetrion's game invariant |
| GameInputs.NextRepeat | src/input/game_input.cpp:93-95 | the repeat loop leaves the target on its repeat grid, at most two steps past the current step |
| GameInputs.NextRepeatUnique | src/input/game_input.cpp:93-95 | no other step of the target's repeat grid lies just past the current step |
| GameInputs.Repeated | src/input/game_input.cpp:91-103 | handling one held key keeps the tetrion's game invariant |
| GameInputs.Updated | src/input/game_input.cpp:82-105 | update keeps the tetrion's game invariant |
| GameInputs.TouchHoldsNothing | src/input/game_input.cpp:21-22 | without auto-shift no key is ever held and a left press is a single move-left command |
| GameInputs.ReleaseForgetsKey | src/input/game_input.cpp:53-62 | a release forgets its key, keeps the other key's target and does not touch the tetrion |
| GameInputs.PressHoldsKey | src/input/game_input.cpp:20-43 | a press holds its key with a target ten steps on, or the current step when the move failed, and moves nothing while the other key is held |
| GameInputs.BothHeldIsIdle | src/input/game_input.cpp:85-89 | while both keys are held update changes nothing |
| GameInputs.UpdatePutsTargetsAhead | src/input/game_input.cpp:82-105 | update keeps the set of held keys and leaves every target after the current step |
| GameInputs.RepeatedAhead | src/input/game_input.cpp:91-103 | handling one key keeps the held keys, puts that key's target after the current step and leaves the other key's target alone |
| GameInputs.GameInput.constructor | src/input/game_input.hpp:53 | a new input of the given type holds no key and has no callback |
| GameInputs.GameInput.SetEventCallback | src/input/game_input.hpp:78-80 | installs the callback and changes nothing else |
| GameInputs.GameInput.HandleEvent | src/input/game_input.cpp:8-74 | the callback, when present, is told the event first; then the keys and the tetrion change as the event's semantics says |
| GameInputs.GameInput.Dispatch | src/input/game_input.cpp:13-73 | the switch over the fourteen events |
| GameInputs.GameInput.Send | src/input/game_input.cpp:44-52 | the command is handled by the target tetrion |
| GameInputs.GameInput.Press | src/input/game_input.cpp:20-43 | a left or right press with or without auto-shift |
| GameInputs.GameInput.Update | src/input/game_input.cpp:82-105 | the held keys are repeated in turn, left first, unless both are held |
| GameInputs.GameInput.Repeat | src/input/game_input.cpp:92-103 | one held key: the repeat loop, then the move, then the delay after a failed move |
| ReplayInputs.Replay | src/input/replay_input.cpp:15-39 | the record loop stops at the end or at this tetrion's first record of another step, skips other tetrions' records, and replays exactly this tetrion's events before that point |
| ReplayInputs.EventsOfFront | src/input/replay_input.cpp:20-38 | the replayed events of a range are its first record's event, when it is this tetrion's, followed by the rest |
| ReplayInputs.ReplayNothingAtOtherStep | src/input/replay_input.cpp:28-32 | when no record is for this step nothing is replayed and the cursor stops at this tetrion's record or at the end |
| ReplayInputs.ReplayIdempotent | src/input/replay_input.cpp:15-39 | running the record loop again in the same step replays nothing and leaves the cursor where it is |
| ReplayInputs.ReplayTakes | src/input/replay_input.cpp:36-38 | a record of this tetrion for this step is replayed and the cursor moves past it |
| ReplayInputs.ReplaySkips | src/input/replay_input.cpp:22-26 | another tetrion's record is discarded |
| ReplayInputs.ReplayStops | src/input/replay_input.cpp:28-32 | this tetrion's record for another step ends the loop without moving the cursor |
| ReplayInputs.AfterEventsSnoc | src/input/replay_input.cpp:36 | replaying one more event applies it after the others |
| ReplayInputs.ReplayingStep | src/input/replay_input.cpp:34-38 | replaying a record keeps the loop's log and cursor invariant with one more event |
| ReplayInputs.LoggedSnoc | src/input/game_input.cpp:9-11 | the callback log of one more event ends with that event at this step |
| ReplayInputs.AfterEvents | src/input/replay_input.cpp:36 | replaying events keeps the tetrion's game invariant |
| ReplayInputs.Logged | src/input/game_input.cpp:9-11 | the callback is told each replayed event, in order, at this step |
| ReplayInputs.Checked | src/input/replay_input.cpp:47-80 | the snapshot loop stops at the end, at this tetrion's snapshot of another step, or at the first mismatch, which is then an error; every snapshot of this tetrion passed over matched |
| ReplayInputs.CheckedOkIff | src/input/replay_input.cpp:61-79 | when all remaining snapshots are of this step, late_update succeeds exactly when every one of this tetrion's snapshots compares equal |
| ReplayInputs.GetMenuEvent | src/input/replay_input.cpp:84-86 | a replay never produces a menu event |
| ReplayInputs.ReplayGameInput.constructor | src/input/replay_input.cpp:6-12 | a recording input over the reader's records and snapshots with both cursors at 0 |
| ReplayInputs.ReplayGameInput.Update | src/input/replay_input.cpp:14-42 | the recorded events of this step are replayed through handle_event, the cursor moves as the record loop says, then the auto-shift update runs |
| ReplayInputs.ReplayGameInput.ReplayRecords | src/input/replay_input.cpp:15-39 | the record loop replays exactly the events Replay yields and leaves its cursor where Replay stops |
| ReplayInputs.ReplayGameInput.PassOver | src/input/replay_input.cpp:22-32 | a record of another tetrion is discarded and one of this tetrion for another step stops the loop |
| ReplayInputs.ReplayGameInput.ReplayRecord | src/input/replay_input.cpp:34-38 | one matching record is handled and the cursor moves past it |
| ReplayInputs.ReplayGameInput.LateUpdate | src/input/replay_input.cpp:44-81 | compares the tetrion's current snapshot with this step's snapshots, failing with "snapshots are not equal" exactly when Checked reports a mismatch |
| AdditionalInformations.DuplicatePairsRejected | src/recordings/additional_information.cpp:418-433 | with two or more pairs to read, a second pair repeating the first pair's key ends the loop with "AdditionalInformation already contains key '<key>'" |
| AdditionalInformations.Checksum | src/recordings/additional_information.cpp:522-548 | get_checksum: proved in ChecksumOrderIndependent and against its loops in AdditionalInformation.GetChecksum |
| AdditionalInformations.Serialize | src/recordings/additional_information.cpp:484-520 | to_bytes: proved in SerializeOkIffShallow, SerializeLayout and InfoRoundTrip |
| ColorLiterals.SkipSpaces | src/helper/color_literals.hpp:181-183 | the leading-space loop stops at the first character that is not a space, having passed only spaces |
| ColorLiterals.DigitOf | src/helper/color_literals.hpp:75-98 | a digit is accepted only below its base and never as a separator, terminator or ')' |
| ColorLiterals.Scan | src/helper/color_literals.hpp:199-235 | a number that reads ends on a ',' or ')' inside the string |
| ColorLiterals.AnyValue | src/helper/color_literals.hpp:175-238 | single_color_value_any stops on the ',' or ')' after the number, inside the string |
| ColorLiterals.SingleColorValueAny | src/helper/color_literals.hpp:175-238 | the loop with its overflow guards computes what AnyValue says |
| ColorLiterals.OverflowGuard | src/helper/color_literals.hpp:195-230 | the two overflow tests fire exactly when the next multiply-and-add would exceed the u32 maximum |
| ColorLiterals.HornerGrows | src/helper/color_literals.hpp:232-233 | adding digits never makes the accumulated value smaller |
| ColorLiterals.ScanField | src/helper/color_literals.hpp:199-235 | a field reads as the number its digits spell when that fits in a u32 and as "overflow detected" otherwise, never wrapping |
| ColorLiterals.ScanIsField | src/helper/color_literals.hpp:199-235 | whatever reads is a field of digits, spaces and underscores ending where the scan stopped |
| ColorLiterals.ParseHex | src/helper/color_literals.hpp:242-278 | a hex literal reads only with 7 or 9 characters (characters, not bytes: see Left out), and the 7-character form is opaque |
| ColorLiterals.Component | src/helper/color_literals.hpp:286-298 | a component that reads ends after its separator, inside the string |
| ColorLiterals.Components | src/helper/color_literals.hpp:280-413 | an rgb literal without alpha is opaque |
| ColorLiterals.ParseColor | src/helper/color_literals.hpp:552-593 | the empty string and an unknown first character are rejected with their messages; a literal that reads is tagged Hex exactly when it starts with '#' and RGB exactly when it starts with 'r' |
| ColorLiterals.HexDigitOfDigit16 | src/helper/color_literals.hpp:84-98 | every hex digit, lower or upper case, reads back as its value |
| ColorLiterals.HornerDecimal | src/helper/color_literals.hpp:75-82 | a run of decimal digits accumulates to its decimal value |
| ColorLiterals.DecimalFieldDigits | src/helper/color_literals.hpp:199-235 | a run of decimal digits before a separator is a field whose digits are those of the run |
| ColorLiterals.SkipSpacesOver | src/helper/color_literals.hpp:181-183 | the space loop stops exactly after a run of spaces |
| ColorLiterals.SpelledValue | src/helper/color_literals.hpp:175-238 | a component in any spelling followed by a separator reads as its value and stops on the separator |
| ColorLiterals.HexValue | src/helper/color_literals.hpp:186-190 | a 0x-prefixed two-digit component reads as its value |
| ColorLiterals.DecimalValueAt | src/helper/color_literals.hpp:175-238 | a decimal component reads as its value |
| ColorLiterals.SpelledComponent | src/helper/color_literals.hpp:286-298 | a spelt component with at most one leading space reads as its value and resumes after its separator |
| ColorLiterals.RgbFrom | src/helper/color_literals.hpp:283-338 | three components read in a row make an rgb literal when the text ends after the ')', and "expected end of string" otherwise |
| ColorLiterals.RgbaFrom | src/helper/color_literals.hpp:340-409 | four components read in a row make an rgba literal when the text ends after the ')', and "expected end of string" otherwise |
| ColorLiterals.RgbThen | src/helper/color_literals.hpp:283-338 | an rgb literal followed by t reads as the opaque colour when t is empty or starts with NUL and is rejected otherwise |
| ColorLiterals.RgbaThen | src/helper/color_literals.hpp:340-409 | an rgba literal followed by t reads as the colour when t is empty or starts with NUL and is rejected otherwise |
| ColorLiterals.RgbRoundTrip | src/helper/color_literals.hpp:283-338 | every colour written as rgb(r, g, b), each component decimal or hex, reads back as that colour, opaque |
| ColorLiterals.RgbaRoundTrip | src/helper/color_literals.hpp:340-409 | every colour written as rgba(r, g, b, a) reads back as that colour |
| ColorLiterals.HexByteReads | src/helper/color_literals.hpp:104-115 | two hex digits read back as the byte they spell |
| ColorLiterals.HexRoundTrip | src/helper/color_literals.hpp:242-278 | every colour written as #RRGGBB or #RRGGBBAA, in either case, reads back as that colour (opaque for the short form) |
| ColorLiterals.HexAlphaDefault | src/helper/color_literals.hpp:677 | "#ABCDEF" and "#ABCDEFFF" are the same colour |
| ColorLiterals.RgbAlphaDefault | src/helper/color_literals.hpp:679 | "rgb(0, 0, 0)" and "rgba(0, 0, 0, 0xFF)" are the same colour |
| ColorLiterals.HexComponents | src/helper/color_literals.hpp:680 | "rgb(0xAB, 0xCD, 0xEF)" and "rgb(171, 205, 239)" are the same colour |
| ColorLiterals.UpperHexLiteral | src/helper/color_literals.hpp:680 | "rgb(0xAB, 0xCD, 0xEF)" reads as (171, 205, 239) |
| ColorLiterals.DecimalLiteral | src/helper/color_literals.hpp:680 | "rgb(171, 205, 239)" reads as (171, 205, 239) |
| ColorLiterals.HexLengthRejected | src/helper/color_literals.hpp:276-277 | a '#' literal of any length in characters other than 7 or 9 is rejected as "Unrecognized HEX literal" (see Left out) |
| ColorLiterals.EndedEarlyRejected | src/helper/color_literals.hpp:211-212 | a literal that stops inside a component is rejected with "input ended too early" |
| ColorLiterals.ParseRgb | src/helper/color_literals.hpp:283-338 | the rgb and rgba parser: proved in RgbFrom, RgbaFrom, RgbRoundTrip and RgbaRoundTrip |
| FocusLayouts.Ids | src/ui/layouts/focus_layout.cpp:225-233 | the collected ids are exactly the focus ids of the focusable widgets |
| FocusLayouts.DistinctIdsList | src/ui/layouts/focus_layout.cpp:235-241 | widgets with distinct focus ids give a duplicate-free id list |
| FocusLayouts.WidgetIndex | src/ui/layouts/focus_layout.cpp:215-223 | focusable_index_by_id finds the first widget carrying the id |
| FocusLayouts.WidgetIndexUnique | src/ui/layouts/focus_layout.cpp:215-223 | with distinct ids the widget found is the only one carrying the id |
| FocusLayouts.IdsIgnoreFocus | src/ui/layouts/focus_layout.cpp:225-233 | focusing or unfocusing a widget does not change the ids |
| FocusLayouts.Insert | src/ui/layouts/focus_layout.cpp:242 | inserting into a sorted list keeps it sorted and adds exactly that element |
| FocusLayouts.Sort | src/ui/layouts/focus_layout.cpp:242 | std::ranges::sort yields a sorted permutation of the ids |
| FocusLayouts.InsertDistinct | src/ui/layouts/focus_layout.cpp:242 | inserting a new element into a duplicate-free sorted list keeps it duplicate-free |
| FocusLayouts.SortDistinct | src/ui/layouts/focus_layout.cpp:242 | sorting a duplicate-free list keeps it duplicate-free |
| FocusLayouts.Increasing | src/ui/layouts/focus_layout.cpp:242 | in a sorted duplicate-free list every later id is strictly larger |
| FocusLayouts.IndexOf | src/ui/layouts/focus_layout.cpp:245-247 | index_of is the position of the first occurrence, or the size when the needle is absent |
| FocusLayouts.SortedIds | src/ui/layouts/focus_layout.cpp:225-243 | focusable_ids_sorted holds exactly the widgets' focus ids, sorted, without duplicates when the ids are distinct |
| FocusLayouts.SortedIdsDistinct | src/ui/layouts/focus_layout.cpp:225-243 | distinct ids stay distinct after sorting |
| FocusLayouts.NextIndex | src/ui/layouts/focus_layout.cpp:265-281 | a next index that exists is within the id list |
| FocusLayouts.NextIndexIff | src/ui/layouts/focus_layout.cpp:265-281 | the next index is one step on modulo the size when wrapping, and otherwise exists only inside the list |
| FocusLayouts.NextIndexBack | src/ui/layouts/focus_layout.cpp:265-281 | a step backward undoes a step forward |
| FocusLayouts.NextIndexMoves | src/ui/layouts/focus_layout.cpp:265-281 | with at least two ids the next index differs from the current one |
| FocusLayouts.Refocus | src/ui/layouts/focus_layout.cpp:284-289 | unfocusing one widget and focusing another changes no focus id and no widget count |
| FocusLayouts.NextTarget | src/ui/layouts/focus_layout.cpp:249-292 | the id the layout moves to exists only while something is focused and belongs to a widget |
| FocusLayouts.NextFocus | src/ui/layouts/focus_layout.cpp:249-292 | try_set_next_focus succeeds exactly when there is a next target, then focuses that id and changes nothing else, and otherwise changes nothing |
| FocusLayouts.SwitchFocusKeeps | src/ui/layouts/focus_layout.cpp:284-289 | moving focus keeps the layout valid and exactly the current widget focused |
| FocusLayouts.NextFocusKeeps | src/ui/layouts/focus_layout.cpp:249-292 | moving to the next focus keeps the layout valid and exactly the current widget focused |
| FocusLayouts.NextTargetIndex | src/ui/layouts/focus_layout.cpp:251-281 | there is a next target exactly when something is focused, there are two ids or more and the next index exists; it is the id at that index |
| FocusLayouts.Neighbours | src/ui/layouts/focus_layout.cpp:242-281 | in sorted distinct ids the neighbour of the current one lies between it and any id on that side |
| FocusLayouts.NextFocusInOrder | src/ui/layouts/focus_layout.cpp:249-292 | without wrap-around, forward focus goes to the smallest larger id and backward focus to the largest smaller id |
| FocusLayouts.ForwardThenBackward | src/ui/layouts/focus_layout.cpp:249-292 | a successful step forward followed by a step backward restores the layout |
| FocusLayouts.RefocusBack | src/ui/layouts/focus_layout.cpp:284-289 | moving focus to another widget and back restores the layout |
| FocusLayouts.NavigationDirection | src/ui/layouts/focus_layout.cpp:74-82 | Down (or Tab when allowed) moves forward, Up moves backward, and nothing else moves |
| FocusLayouts.HandleResultKeeps | src/ui/layouts/focus_layout.cpp:130-213 | handling a child's request keeps the layout valid and exactly the current widget focused |
| FocusLayouts.ActionForwarded | src/ui/layouts/focus_layout.cpp:207-210 | a RequestAction is forwarded as it is and changes nothing |
| FocusLayouts.FocusRequestGranted | src/ui/layouts/focus_layout.cpp:139-167 | a focus request moves focus to the requesting widget and is passed up only when the layout itself lacks focus and focus moved |
| FocusLayouts.UnfocusRequest | src/ui/layouts/focus_layout.cpp:168-206 | an unfocus request from the focused widget either moves focus to another widget or is passed up with the layout unchanged |
| FocusLayouts.Moved | src/ui/layouts/focus_layout.cpp:265-289 | the id at a different index of a distinct list is a different id |
| FocusLayouts.FocusLayout.constructor | src/ui/layouts/focus_layout.cpp:10-18 | a new layout has no widgets and no focused widget, and has focus itself exactly when it is top level |
| FocusLayouts.FocusLayout.FocusableIdsSorted | src/ui/layouts/focus_layout.cpp:225-243 | the collecting loop and the sort yield SortedIds |
| FocusLayouts.FocusLayout.TrySetNextFocus | src/ui/layouts/focus_layout.cpp:249-292 | reports and performs exactly the move NextFocus describes |
| FocusLayouts.FocusLayout.StepIndex | src/ui/layouts/focus_layout.cpp:265-281 | the index arithmetic with its wrap-around branches is NextIndex |
| FocusLayouts.FocusLayout.MoveFocus | src/ui/layouts/focus_layout.cpp:284-289 | unfocuses the current widget, focuses the target and records its id |
| FocusLayouts.FocusLayout.FocusChangeButton | src/ui/layouts/focus_layout.cpp:68-86 | navigation events move focus in their direction and other events change nothing |
| FocusLayouts.FocusLayout.GiveFocus | src/ui/layouts/focus_layout.cpp:293-296 | records the widget's id and focuses it, touching no other widget |
| FocusLayouts.FocusLayout.Add | src/ui/layouts/focus_layout.hpp:38-51 | appends the widget at the next index and gives it focus when it is focusable and nothing had focus yet |
| FocusLayouts.FocusLayout.HandleEventResult | src/ui/layouts/focus_layout.cpp:130-213 | handles a child's request as HandleResult describes |
| FocusLayouts.SwitchFocus | src/ui/layouts/focus_layout.cpp:284-289 | the focus switch: proved in SwitchFocusKeeps and RefocusBack |
| FocusLayouts.HandleResult | src/ui/layouts/focus_layout.cpp:130-213 | handle_event_result: proved in HandleResultKeeps, ActionForwarded, FocusRequestGranted and UnfocusRequest |
| GridLayouts.Div | src/ui/layouts/grid_layout.cpp:49 | u32 division of the free room by the cell count is exact division |
| GridLayouts.DivBelow | src/ui/layouts/grid_layout.cpp:49 | the quotient never exceeds the dividend |
| GridLayouts.CellExistsIff | src/ui/layouts/grid_layout.cpp:22-36 | get_layout_for_index returns a cell exactly for indices below total_size() and otherwise fails with "GridLayout is already full" |
| GridLayouts.VerticalAssertionAsWrittenCounterexample | src/ui/layouts/grid_layout.cpp:55-58 | the vertical assertion as written accepts three 10-gapped cells with 5 margins in a 20-high area, where the corrected assertion fails and the u32 cell height wraps beyond the area |
| GridLayouts.GapsFit | src/ui/layouts/grid_layout.cpp:46-49 | when the gaps and margins fit, the u32 additions and products computing them do not wrap |
| GridLayouts.AxisGeometry | src/ui/layouts/grid_layout.cpp:46-62 | along the direction the cell extent is the free room divided by the size and the cell starts after the margin plus index gaps and cells, without wrap-around |
| GridLayouts.CellBounds | src/ui/layouts/grid_layout.cpp:51-53 | the offsets of cell index stay within the gaps and the free room it shares |
| GridLayouts.CellGeometry | src/ui/layouts/grid_layout.cpp:33-72 | a cell of a fitting grid has an equal share of the free room along the direction, starts after index gaps and cells, and spans the area inside the margins across it |
| GridLayouts.Neighbours | src/ui/layouts/grid_layout.cpp:51-62 | neighbouring cells are one cell and one gap apart and never overlap |
| GridLayouts.CellInside | src/ui/layouts/grid_layout.cpp:33-72 | every cell ends inside the area less its far margin |
| GridLayouts.FitsAsserted | src/ui/layouts/grid_layout.cpp:46-58 | whenever the cells fit, the horizontal assertion and the corrected vertical assertion hold |
| GridLayouts.LayoutForIndex | src/ui/layouts/grid_layout.cpp:33-72 | get_layout_for_index: proved in CellExistsIff, CellGeometry, Neighbours and CellInside |
| ScrollLayouts.Clamp | src/ui/layouts/scroll_layout.cpp:308-314 | the scroll height is clamped to the range from 0 to the content height less the viewport, unchanged inside it |
| ScrollLayouts.ShortContentShownWhole | src/ui/layouts/scroll_layout.cpp:304-305 | content shorter than the scroll bar is shown whole from the top |
| ScrollLayouts.ViewportClamped | src/ui/layouts/scroll_layout.cpp:306-317 | longer content gets a viewport of the main rectangle's size at the clamped scroll height, ending inside the content |
| ScrollLayouts.ViewportStable | src/ui/layouts/scroll_layout.cpp:299-317 | recalculating with the viewport's own top leaves the viewport unchanged |
| ScrollLayouts.SumHeightsExact | src/ui/layouts/scroll_layout.cpp:244-247 | the u32 sum of the widget heights is exact when it fits |
| ScrollLayouts.NewItemTop | src/ui/layouts/scroll_layout.cpp:241-260 | a new item starts below all widgets and their gaps |
| ScrollLayouts.AddKeepsStacked | src/ui/layouts/scroll_layout.cpp:241-260 | adding an item keeps the items stacked one gap apart at full width |
| ScrollLayouts.StackedNeighbours | src/ui/layouts/scroll_layout.cpp:241-260 | in a stacked layout each item starts one gap below the end of the one before |
| ScrollLayouts.ToInt | src/ui/layouts/scroll_layout.cpp:190-192 | static_cast<int> keeps a u32 below 2^31 as it is |
| ScrollLayouts.WheelRequestExact | src/ui/layouts/scroll_layout.cpp:187-193 | away from the ends of the range the wheel asks for one step below or above the viewport's top |
| ScrollLayouts.LayoutForIndex | src/ui/layouts/scroll_layout.cpp:236-239 | get_layout_for_index always fails with "NOT SUPPORTED" |
| ScrollLayouts.ScrollLayout.constructor | src/ui/layouts/scroll_layout.cpp:32-64 | a new scroll layout has no widgets, no texture and an empty viewport |
| ScrollLayouts.ScrollLayout.RecalculateSizes | src/ui/layouts/scroll_layout.cpp:299-317 | the viewport becomes the one ViewportFor gives for the content height and the desired scroll height |
| ScrollLayouts.ScrollLayout.LayoutForNew | src/ui/layouts/scroll_layout.cpp:241-260 | the summing loop yields the new item's rectangle |
| ScrollLayouts.ScrollLayout.Add | src/ui/layouts/scroll_layout.hpp:73-90 | appends the new item below the others, creates the texture and recalculates the viewport from the top |
| ScrollLayouts.ScrollLayout.ClearWidgets | src/ui/layouts/scroll_layout.cpp:228-234 | removes all widgets and the texture and recalculates the viewport |
| ScrollLayouts.ScrollLayout.MouseWheel | src/ui/layouts/scroll_layout.cpp:180-196 | a wheel turn recalculates the viewport for one step down or up |
| ScrollLayouts.ViewportFor | src/ui/layouts/scroll_layout.cpp:306-317 | the viewport of recalculate_sizes: proved in ShortContentShownWhole, ViewportClamped and ViewportStable |
| ScrollLayouts.NewItem | src/ui/layouts/scroll_layout.cpp:241-260 | the rectangle of a new item: proved in NewItemTop and AddKeepsStacked |
| ScrollLayouts.WheelRequest | src/ui/layouts/scroll_layout.cpp:187-193 | the scroll height a wheel turn asks for: proved in WheelRequestExact |
| Guids.Offset | src/input/guid.hpp:106 | byte i's hex pair starts at i times the width |
| Guids.WidthOf | src/input/guid.hpp:89-100 | only the lengths 32 and 47 are recognised, with two and three characters per byte |
| Guids.ParseGuid | src/input/guid.hpp:80-120 | a GUID that reads has exactly 16 bytes |
| Guids.GuidFromString | src/input/guid.hpp:103-119 | the loop over the sixteen pairs fills the result array as ParseGuid says, stopping at the first bad digit |
| Guids.ParseGuidLength | src/input/guid.hpp:83-100 | the empty string and every length other than 32 and 47 are rejected with their messages |
| Guids.SeparatorsIgnored | src/input/guid.hpp:105-117 | in the 47-character form the separator characters are never read, so any character there gives the same result (in the source: any single-byte character, see Left out) |
| Guids.CaseIgnored | src/input/guid.hpp:50-64 | lower-casing the text does not change the GUID it reads as |
| Guids.Format | src/input/guid.hpp:35 | the short form has 32 characters and the long form 47 |
| Guids.ParseFormat | src/input/guid.hpp:80-120 | every GUID, printed in either form with any separator, reads back as itself |
| Guids.FormatAt | src/input/guid.hpp:106-110 | the printed pair of byte i sits at its offset, high nibble first |
| Guids.ParsedDigits | src/input/guid.hpp:105-117 | a GUID that reads is the one whose printed digits are the text's digits, lower-cased |
| Guids.LowerDigit | src/input/guid.hpp:50-64 | a hex digit lower-cased is the canonical digit of its value |
| HexDigits.HexDigit | src/input/guid.hpp:50-64 | single_hex_number accepts exactly 0-9, A-F and a-f, with a value below 16, and rejects the rest with its message |
| HexDigits.DecimalDigit | src/helper/color_literals.hpp:75-82 | single_decimal_number accepts exactly 0-9 with a value below 10 |
| HexDigits.HexPair | src/input/guid.hpp:67-78 | single_hex_color_value reads exactly when both characters are hex digits |
| HexDigits.HexDigitOfHexChar | src/input/guid.hpp:50-64 | every canonical hex digit reads as its value |
| HexDigits.HexDigitCaseInsensitive | src/input/guid.hpp:55-61 | upper- and lower-case hex digits read the same |
| HexDigits.HexPairRoundTrip | src/input/guid.hpp:67-78 | the two hex digits of a byte read back as that byte |
| HexDigits.DecimalDigitOfDigitChar | src/helper/color_literals.hpp:75-82 | every decimal digit reads as its value |
| Strings.TrimStart | src/manager/sdl_key.cpp:268 | trimming the front drops exactly the leading white space |
| Strings.TrimEnd | src/manager/sdl_key.cpp:268 | trimming the back drops exactly the trailing white space |
| Strings.Trim | src/manager/sdl_key.cpp:268 | a trimmed token neither starts nor ends with white space |
| Strings.TrimKeeps | src/manager/sdl_key.cpp:268 | trimming a token without outer white space leaves it as it is |
| Strings.ToLowerChar | src/manager/sdl_key.cpp:232 | lower-casing maps A-Z to a-z and keeps every other character |
| Strings.ToLower | src/manager/sdl_key.cpp:232 | a lower-cased string is lower-cased character by character |
| Strings.ToLowerIdempotent | src/manager/sdl_key.cpp:232 | lower-casing twice is lower-casing once |
| Strings.IndexOf | src/manager/sdl_key.cpp:266 | the position of the first separator |
| Strings.Split | src/manager/sdl_key.cpp:266 | splitting yields at least one token and no token holds the separator |
| Strings.JoinSplit | src/manager/sdl_key.cpp:266 | joining the tokens with the separator gives back the string |
| Strings.SplitJoin | src/manager/sdl_key.cpp:266 | splitting a join of separator-free tokens gives back the tokens |
| Strings.SplitStep | src/manager/sdl_key.cpp:266 | the first token ends at the first separator |
| Strings.FirstSeparator | src/manager/sdl_key.cpp:266 | the first separator after a separator-free head is at its end |
| Utf8.DecodeOne | src/ui/components/textinput.cpp:391 | one decoded code point takes one to four bytes |
| Utf8.Decode | src/ui/components/textinput.cpp:372 | a valid byte string decodes to no more code points than bytes |
| Utf8.Encode | src/ui/components/textinput.cpp:391 | a code point is encoded in its minimal length |
| Utf8.EncodeAll | src/ui/components/textinput.cpp:391-399 | encoding never gives fewer bytes than code points |
| Utf8.DecodeEncodeOne | src/ui/components/textinput.cpp:391 | an encoded code point, whatever follows it, decodes back to itself with its length |
| Utf8.DecodeEncode | src/ui/components/textinput.cpp:372-399 | every sequence of code points encodes to valid UTF-8 that decodes back to it |
| Utf8.EncodeDecodeOne | src/ui/components/textinput.cpp:391 | what one decoding step reads is the encoding of the code point it returns |
| Utf8.EncodeDecode | src/ui/components/textinput.cpp:372-399 | valid UTF-8 decoded and encoded again is the same bytes |
| Utf8.EncodeAllConcat | src/ui/components/textinput.cpp:391-399 | encoding a concatenation concatenates the encodings |
| Utf8.DistanceBound | src/ui/components/textinput.cpp:404 | the code-point count is at most the byte count and zero exactly for the empty string |
| Utf8.IsValid | src/ui/components/textinput.cpp:372 | utf8::is_valid: valid text is exactly what encodes code points, proved in DecodeEncode and EncodeDecode |
| Utf8.Distance | src/ui/components/textinput.cpp:404 | utf8::distance: proved in DistanceBound |
| StaticStrings.StringContents | src/libs/core/helper/static_string.hpp:24-29 | string() holds exactly size() characters, the first ones of the array, which is one longer |
| StaticStrings.FromChars | src/libs/core/helper/static_string.hpp:19-22 | the constructor copies all data_size characters of the literal, the terminator included |
| StaticStrings.PlusContents | src/libs/core/helper/static_string.hpp:72-79 | a + b has data_size + other_data_size - 1 elements, size a.size() + b.size(), string a's followed by b's, and ends in the terminator |
| StaticStrings.PlusAssociative | src/libs/core/helper/static_string.hpp:72-79 | concatenation does not depend on grouping |
| StaticStrings.PlusEmpty | src/libs/core/helper/static_string.hpp:72-79 | the empty literal is neutral on both sides for a terminated string |
| StaticStrings.Concat | src/libs/core/helper/static_string.hpp:72-79 | the copying loops produce exactly the concatenation Plus describes |
| StaticStrings.EqualIff | src/libs/core/helper/static_string.hpp:93-103 | two strings of one size compare equal exactly when their strings and terminators agree, that is, when they are the same array |
| StaticStrings.JoinContents | src/libs/core/helper/static_string.hpp:105-113 | join of one part is that part; join of several is terminated and its string is the parts' strings with the separator between each two |
| StaticStrings.JoinSize | src/libs/core/helper/static_string.hpp:105-113 | the size of a join is the parts' sizes plus one separator size per gap |
| StaticStrings.Size | src/libs/core/helper/static_string.hpp:19-22 | size(): one less than the array, proved in StringContents |
| StaticStrings.String | src/libs/core/helper/static_string.hpp:24-29 | string(): the first size() characters, proved in StringContents |
| StaticStrings.Plus | src/libs/core/helper/static_string.hpp:72-79 | operator+: proved in PlusContents, PlusAssociative, PlusEmpty and against the loops in Concat |
| StaticStrings.Equal | src/libs/core/helper/static_string.hpp:93-103 | operator==: proved in EqualIff |
| StaticStrings.Join | src/libs/core/helper/static_string.hpp:105-113 | join: proved in JoinContents and JoinSize |
| TextInputs.Inserted | src/ui/components/textinput.cpp:370-407 | inserting keeps the text before the cursor, puts the added code points at the cursor, keeps the rest after them and moves the cursor past them |
| TextInputs.Removed | src/ui/components/textinput.cpp:410-431 | with the cursor at 0 nothing changes; otherwise the code point before the cursor goes and the cursor moves back by one |
| TextInputs.Handled | src/ui/components/textinput.cpp:105-231 | every event keeps the cursor within the text; bytes go to the clipboard exactly on Ctrl+C; an event is handled exactly unless it is another event or a V or C key without Ctrl |
| TextInputs.TypeThenBackspace | src/ui/components/textinput.cpp:132-147 | typing one code point and pressing backspace gives back the edit state |
| TextInputs.CtrlBackspaceEmpties | src/ui/components/textinput.cpp:133-141 | backspace with control empties the text and puts the cursor at 0 |
| TextInputs.LeftRightInverse | src/ui/components/textinput.cpp:149-173 | one step left then right, or right then left, where that step can be taken, restores the cursor |
| TextInputs.CtrlArrowsJump | src/ui/components/textinput.cpp:151-152 | left with control jumps to the start of the text and right with control to its end |
| TextInputs.InvalidTypingIgnored | src/ui/components/textinput.cpp:372-375 | typed bytes that are not valid UTF-8 leave the text and the cursor as they are |
| TextInputs.InsertedBytes | src/ui/components/textinput.cpp:386-402 | the bytes of the text after an insertion are the old bytes cut at the cursor with the added bytes in between |
| TextInputs.TextInput.constructor | src/ui/components/textinput.cpp:13-43 | a new text input is empty with its cursor at 0 and has focus exactly when it is top level |
| TextInputs.TextInput.AddString | src/ui/components/textinput.cpp:370-407 | invalid UTF-8 is refused and changes nothing; valid UTF-8 is inserted at the cursor as Inserted says |
| TextInputs.TextInput.Spliced | src/ui/components/textinput.cpp:386-402 | the loop over the old code points produces the encoding of the old text with the added code points spliced in at the cursor |
| TextInputs.TextInput.AppendAll | src/ui/components/textinput.cpp:389-393 | appending the code points one by one extends the result by their encoding |
| TextInputs.TextInput.RemoveAtCursor | src/ui/components/textinput.cpp:410-431 | false with the cursor at 0; otherwise true with the code point before the cursor removed as Removed says |
| TextInputs.TextInput.HandleEvent | src/ui/components/textinput.cpp:105-231 | the handled flag, the focus request, the new text and cursor and the bytes put on the clipboard are what Handled says, paste and copy included |
| TextInputs.TextInput.SetText | src/ui/components/textinput.cpp:234-243 | valid UTF-8 becomes the text with the cursor after its last code point, invalid UTF-8 leaves the text empty, and the input loses focus |
| TextInputs.RemovedBytes | src/ui/components/textinput.cpp:416-428 | the bytes of code point c - 1 start after the encoding of the code points before it; cutting them out leaves valid UTF-8 that decodes to the other code points in order |
| TextInputs.RemovedAt | src/ui/components/textinput.cpp:416-428 | the byte range the source erases is exactly the code point before the cursor, so the erased text decodes to Removed's result |
| TextInputs.UpToNul | src/ui/components/textinput.cpp:197 | the bytes `c_str()` hands to SDL are a prefix without NUL that stops at the first NUL or at the end |
| TextInputs.PasteInserts | src/ui/components/textinput.cpp:175-192 | Ctrl+V with valid UTF-8 on the clipboard inserts it at the cursor, as Inserted says |
| TextInputs.InvalidPasteIgnored | src/ui/components/textinput.cpp:185-189 | Ctrl+V with clipboard bytes that are not valid UTF-8 is handled and changes nothing |
| TextInputs.CopyKeeps | src/ui/components/textinput.cpp:195-204 | Ctrl+C is handled, keeps the text and the cursor, and puts the text up to its first NUL on the clipboard |
| TextInputs.CopyPasteRoundTrip | src/ui/components/textinput.cpp:175-204 | a text without NUL copied with Ctrl+C and pasted into an empty field with Ctrl+V comes back with the cursor at its end |
| SdlKeys.Flag | src/manager/sdl_key.cpp:34-76 | every modifier maps to a non-empty SDL modifier mask |
| SdlKeys.Opposite | src/manager/sdl_key.cpp:323-360 | a sided modifier's opposite is the other side, whose bit does not overlap |
| SdlKeys.Sides | src/manager/sdl_key.cpp:361-364 | a group modifier's mask is exactly the union of its left and right sides |
| SdlKeys.ModifierFromString | src/manager/sdl_key.cpp:226-230 | the empty string names no modifier |
| SdlKeys.LowerNamesTable | src/manager/sdl_key.cpp:235-252 | the table maps each modifier's lower-case name to that modifier, and every key in it is such a name |
| SdlKeys.LowerNameOfName | src/manager/sdl_key.cpp:181-252 | lower-casing a modifier's printed name gives its table key |
| SdlKeys.ModifierFromStringIff | src/manager/sdl_key.cpp:226-259 | a string names m exactly when it equals m's name ignoring case |
| SdlKeys.ModifierNameRoundTrip | src/manager/sdl_key.cpp:181-259 | each modifier's printed name reads back as that modifier |
| SdlKeys.ModifierFromStringCaseInsensitive | src/manager/sdl_key.cpp:232 | a name and its lower-case form name the same modifier |
| SdlKeys.SdlModifierFromModifiers | src/manager/sdl_key.cpp:457-466 | the loop ORs every modifier's mask into the result |
| SdlKeys.KeyOfHasModifier | src/manager/sdl_key.cpp:316-321 | a key built from a list of modifiers has x exactly when some modifier in the list overlaps x's mask |
| SdlKeys.MaskOfIntersects | src/manager/sdl_key.cpp:457-466 | the OR of the masks overlaps f exactly when one of them does |
| SdlKeys.KeyOfSingle | src/manager/sdl_key.cpp:316-375 | a key built from one modifier has it, and has it exactly |
| SdlKeys.ExactImpliesHas | src/manager/sdl_key.cpp:316-375 | having a modifier exactly implies having it |
| SdlKeys.ExactSided | src/manager/sdl_key.cpp:323-375 | a key has a sided modifier exactly when it has that side and not the other |
| SdlKeys.ExactSidesExclusive | src/manager/sdl_key.cpp:323-375 | no key has both sides of a pair exactly |
| SdlKeys.GroupHas | src/manager/sdl_key.cpp:316-321 | a key has a group modifier exactly when it has one of its sides |
| SdlKeys.GroupExact | src/manager/sdl_key.cpp:361-364 | a key has a group modifier exactly when it has both sides |
| SdlKeys.AsWrittenNeedsEveryGroup | src/manager/sdl_key.cpp:397-404 | as written, two keys whose masks differ compare equal only when both hold all four of Ctrl, Shift, Alt and Gui |
| SdlKeys.AsWrittenCounterexample | src/manager/sdl_key.cpp:382-414 | as written, Ctrl-L differs from Ctrl and Num lock from the bare key, which the intended equality accepts |
| SdlKeys.IsEqualIff | src/manager/sdl_key.cpp:382-414 | under the intended `is_equal` (see Findings; the C++ computes `IsEqualAsWritten`), keys are equal exactly when the keycodes agree, each group is held by both or neither, and, unless ignored, the special bits agree |
| SdlKeys.IsEqualEquivalence | src/manager/sdl_key.cpp:378-414 | the intended key equality (see Findings; the C++ computes `IsEqualAsWritten`) is reflexive, symmetric and transitive |
| SdlKeys.StrictImpliesLoose | src/manager/sdl_key.cpp:406-413 | under the intended equality (see Findings), keys equal with the special modifiers compared are equal with them ignored |
| SdlKeys.SidesMatchGroup | src/manager/sdl_key.cpp:378-380 | under the intended `operator==` (see Findings; the C++ computes `IsEqualAsWritten`, which rejects these), either side of a group, or both, compare equal to the group |
| SdlKeys.DifferentKeysDiffer | src/manager/sdl_key.cpp:383-385 | keys with different keycodes are never equal |
| SdlKeys.ModsOf | src/manager/sdl_key.cpp:304-309 | the modifiers read from tokens that all name one, in order |
| SdlKeys.FirstDuplicateIff | src/manager/sdl_key.cpp:290-299 | no duplicate is found exactly when the modifiers are distinct and none was seen before; one found occurs twice |
| SdlKeys.FindDuplicate | src/manager/sdl_key.cpp:290-299 | the loop with its seen-set finds the first repeated modifier, as FirstDuplicate says |
| SdlKeys.Tokens | src/manager/sdl_key.cpp:266-269 | splitting on '+' and trimming gives at least one token |
| SdlKeys.FromString | src/manager/sdl_key.cpp:264-313 | the token loop returns what ParseKey says |
| SdlKeys.ParseKeyOk | src/manager/sdl_key.cpp:264-313 | from_string succeeds exactly on modifier names, none repeated, followed by a key name, and then gives that key with the OR of the modifiers |
| SdlKeys.WellFormedParses | src/manager/sdl_key.cpp:280-301 | a well-formed text gives its key and modifiers |
| SdlKeys.ParsedWellFormed | src/manager/sdl_key.cpp:273-310 | a text that parses is well formed |
| SdlKeys.ParseFromOk | src/manager/sdl_key.cpp:273-310 | a successful parse from token i has modifiers up to the last token, a readable key last and no repeated modifier |
| SdlKeys.FinishOk | src/manager/sdl_key.cpp:280-301 | a key name after distinct modifiers gives the key with them |
| SdlKeys.FinishDuplicate | src/manager/sdl_key.cpp:290-297 | a key name after a repeated modifier gives the duplicate message for it |
| SdlKeys.EmptyTokenRejected | src/manager/sdl_key.cpp:276-278 | an empty token after modifiers gives "Empty token" |
| SdlKeys.InvalidModifierRejected | src/manager/sdl_key.cpp:304-307 | a non-last token that names no modifier gives "Not a valid modifier" with that token |
| SdlKeys.MissingKeyRejected | src/manager/sdl_key.cpp:281-288 | a last token that is no key gives "No key but only modifiers given" when it is a modifier name and the lookup's error otherwise |
| SdlKeys.DuplicateRejected | src/manager/sdl_key.cpp:290-297 | a repeated modifier before a valid key is reported by name, the first one found repeated |
| SdlKeys.DuplicateTokensRejected | src/manager/sdl_key.cpp:290-297 | the same, stated on the token list |
| SdlKeys.EmptyTextRejected | src/manager/sdl_key.cpp:266-278 | the empty text gives "Empty token" |
| SdlKeys.ModifierName | src/manager/sdl_key.cpp:181-223 | modifier_to_string: each name reads back, proved in ModifierNameRoundTrip |
| SdlKeys.HasModifier | src/manager/sdl_key.cpp:316-321 | has_modifier: its meaning for lists, sides and groups is proved in KeyOfHasModifier, GroupHas and ExactImpliesHas |
| SdlKeys.HasModifierExact | src/manager/sdl_key.cpp:323-375 | has_modifier_exact: proved in ExactSided, ExactSidesExclusive and GroupExact |
| SdlKeys.IsEqualAsWritten | src/manager/sdl_key.cpp:382-414 | is_equal as the C++ computes it: proved in AsWrittenNeedsEveryGroup and AsWrittenCounterexample (see Findings) |
| SdlKeys.IsEqual | src/manager/sdl_key.cpp:382-414 | is_equal as intended (see Findings): proved in IsEqualIff and IsEqualEquivalence |
| SdlKeys.KeyEquals | src/manager/sdl_key.cpp:378-380 | operator== as intended, the corrected is_equal with the special modifiers ignored (see Findings): proved in SidesMatchGroup |
| SdlKeys.FirstDuplicate | src/manager/sdl_key.cpp:290-299 | the duplicate check: proved in FirstDuplicateIff and against its loop in FindDuplicate |
| SdlKeys.Finish | src/manager/sdl_key.cpp:280-301 | the last token of from_string: proved in FinishOk, FinishDuplicate and MissingKeyRejected |
| SdlKeys.ParseFrom | src/manager/sdl_key.cpp:273-310 | the token loop of from_string: proved in ParseFromOk, EmptyTokenRejected and InvalidModifierRejected |
| SdlKeys.ParseKey | src/manager/sdl_key.cpp:264-313 | from_string: proved in ParseKeyOk, WellFormedParses and ParsedWellFormed |
| NetworkTransportables.ChecksumSnoc | src/network/network_transportable.cpp:16-29 | the byte-by-byte CRC of a longer buffer continues from the CRC of its first part |
| NetworkTransportables.ComputeChecksum | src/network/network_transportable.cpp:16-29 | the loop feeding one byte at a time from CRC 0 gives Checksum of the first length bytes |
| NetworkTransportables.WordBytes | src/network/network_transportable.cpp:39-44 | a u32 stored in memory takes four bytes |
| NetworkTransportables.WordBytesLE | src/network/network_transportable.cpp:39-44 | those four bytes are the little-endian encoding of the word |
| NetworkTransportables.WordBytesValue | src/network/network_transportable.cpp:39-44 | the four stored bytes, weighted least significant first, give back the word |
| NetworkTransportables.WordOf | src/network/network_transportable.cpp:129-141 | a word stored at pos is read back at pos |
| NetworkTransportables.ReadHeaderCases | src/network/network_transportable.cpp:121-143 | read_header fails on fewer than 12 bytes and on a protocol version other than 1, with their messages, and otherwise gives version, UUID and data size |
| NetworkTransportables.HeaderBytes | src/network/network_transportable.cpp:32-45 | a written header has 12 bytes |
| NetworkTransportables.ReadWrittenHeader | src/network/network_transportable.cpp:32-45 | a header written by write_header, whatever follows it, reads back with version 1, its UUID and its data size |
| NetworkTransportables.StoreWord | src/network/network_transportable.cpp:39-44 | storing a word changes exactly its four bytes |
| NetworkTransportables.WriteHeader | src/network/network_transportable.cpp:32-45 | a buffer of another size than 12 is refused unchanged; otherwise it holds exactly the header |
| NetworkTransportables.WriteChecksum | src/network/network_transportable.cpp:56-67 | the last four bytes receive the CRC of all the bytes before them, which stay as they were |
| NetworkTransportables.ReadChecksumCases | src/network/network_transportable.cpp:146-166 | read_checksum fails when the data and a checksum do not fit, fails when the stored word is not the CRC of the data, and otherwise gives it |
| NetworkTransportables.ReadWrittenChecksum | src/network/network_transportable.cpp:56-67 | a checksum written after the data is read back and accepted |
| NetworkTransportables.NextFrame | src/network/network_transportable.cpp:86-115 | a frame read at pos has its data inside the buffer, and reading continues 12 + data size + 4 bytes later |
| NetworkTransportables.ReadFrame | src/network/network_transportable.cpp:88-114 | one round of the loop, checksum call included, gives what NextFrame says |
| NetworkTransportables.FromRawBytes | src/network/network_transportable.cpp:75-119 | the loop appends the frames in order and returns the first error, as ParseFrames says |
| NetworkTransportables.ParseStep | src/network/network_transportable.cpp:86-116 | a frame read at pos is put in front of the frames that follow it |
| NetworkTransportables.ParseLast | src/network/network_transportable.cpp:86 | a frame reaching the end of the buffer is the last one |
| NetworkTransportables.FrameBytes | src/network/network_transportable.cpp:32-67 | a written frame is 12 bytes of header, the data and 4 bytes of checksum |
| NetworkTransportables.RoundTripStep | src/network/network_transportable.cpp:86-116 | a written frame at pos is read back, and parsing continues right after it |
| NetworkTransportables.FramesRoundTripFrom | src/network/network_transportable.cpp:75-119 | written frames, from any offset, are read back in order |
| NetworkTransportables.FramesRoundTrip | src/network/network_transportable.cpp:75-119 | a buffer of written frames is read back as exactly those frames |
| NetworkTransportables.OversizedData | src/network/network_transportable.cpp:97-101 | a header announcing more data than remains gives the from_raw_bytes "couldn't read data" error |
| NetworkTransportables.TruncatedChecksumAccepted | src/network/network_transportable.cpp:112-115 | as written, a lone header of data size 0 with no checksum after it is accepted as a frame |
| NetworkTransportables.WrongChecksumAccepted | src/network/network_transportable.cpp:112-115 | as written, a frame whose stored checksum is any four bytes is accepted |
| NetworkTransportables.NextFrameChecked | src/network/network_transportable.cpp:112-115 | a frame the checked round accepts is the one the unchecked round reads, and its checksum is present and correct |
| NetworkTransportables.CheckedAgreesWhenAccepted | src/network/network_transportable.cpp:75-119 | whatever the checked parser accepts, the parser as written reads the same way |
| NetworkTransportables.TruncatedChecksumRejected | src/network/network_transportable.cpp:146-150 | checked, a frame without its checksum is an error |
| NetworkTransportables.ReadWrongChecksum | src/network/network_transportable.cpp:152-163 | a stored word that is not the CRC of the data gives the mismatch error with both values |
| NetworkTransportables.WrongChecksumRejected | src/network/network_transportable.cpp:152-163 | checked, a frame with a wrong checksum gives the mismatch error |
| NetworkTransportables.CheckedRoundTrip | src/network/network_transportable.cpp:32-166 | checked, a buffer of written frames is still read back as exactly those frames |
| NetworkTransportables.CheckedRoundTripFrom | src/network/network_transportable.cpp:32-166 | the same from any offset |
| NetworkTransportables.Checksum | src/network/network_transportable.cpp:16-29 | the CRC of a buffer fed one byte at a time, proved against the loop in ComputeChecksum and ChecksumSnoc |
| NetworkTransportables.ReadHeader | src/network/network_transportable.cpp:121-143 | read_header: its error and success cases are proved in ReadHeaderCases and its round trip in ReadWrittenHeader |
| NetworkTransportables.ReadChecksum | src/network/network_transportable.cpp:146-166 | read_checksum: its cases are proved in ReadChecksumCases and its round trip in ReadWrittenChecksum |
| NetworkTransportables.ParseFrames | src/network/network_transportable.cpp:75-119 | from_raw_bytes as written: the loop is proved against it in FromRawBytes and its round trip in FramesRoundTrip |
| VersionGrabber.ParseValueCases | tools/version_grabber.py:11-25 | a missing key is a ValueError naming it without a default and gives the default otherwise; a present key's value goes to the parser |
| VersionGrabber.RequiredToBeIff | tools/version_grabber.py:28-34 | the parser accepts its value and nothing else, naming both in its ValueError |
| VersionGrabber.StripStart | tools/version_grabber.py:52 | stripping the front drops exactly the leading white space |
| VersionGrabber.StripEnd | tools/version_grabber.py:52 | stripping the back drops exactly the trailing white space |
| VersionGrabber.StripContents | tools/version_grabber.py:52 | a stripped piece has no white space at either end, and a piece without any there is left as it is |
| VersionGrabber.ParseList | tools/version_grabber.py:47-61 | the loop strips each piece, skips the empty ones, appends the parsed ones in order, and turns a parser error into a "not a list" KeyError, as ParseListOf says |
| VersionGrabber.ItemsStep | tools/version_grabber.py:51-57 | each piece is skipped when empty, ends the loop with the parser's error, or is appended |
| VersionGrabber.ListRoundTrip | tools/version_grabber.py:40-63 | items without commas or outer white space, joined with commas, are read back as the same list, the empty list included |
| VersionGrabber.EntryErrors | tools/version_grabber.py:128-130 | an entry without Status, with a Status other than "install ok installed", or without Package is rejected with the script's message |
| VersionGrabber.EntryFields | tools/version_grabber.py:128-142 | a written entry holds each field exactly when the package has it |
| VersionGrabber.EntryRoundTrip | tools/version_grabber.py:128-142 | an entry written from a package is parsed back to that package, with "" and [] as the defaults |
| VersionGrabber.PrefixIncludes | tools/version_grabber.py:89 | extending a list keeps everything it and its sub-lists held |
| VersionGrabber.ExtendFrom | tools/version_grabber.py:84-89 | the inner loop only touches entry j and only lengthens its dependency list |
| VersionGrabber.ExtendFeatures | tools/version_grabber.py:83-89 | the loop over j's default features only touches entry j and only lengthens its dependency list |
| VersionGrabber.MergeFrom | tools/version_grabber.py:80-89 | the merge keeps every entry apart from its dependency list, which it only lengthens |
| VersionGrabber.ExtendFromIncludes | tools/version_grabber.py:84-89 | after the inner loop entry j includes the dependencies of every matching feature entry |
| VersionGrabber.ExtendFeaturesIncludes | tools/version_grabber.py:83-89 | after the feature loop entry j includes the dependencies of each of its default features' entries |
| VersionGrabber.MergeIncludes | tools/version_grabber.py:80-89 | after the merge every entry with default features includes the input dependencies of each of its features' entries |
| VersionGrabber.FeatureFree | tools/version_grabber.py:76-78 | filtered_input starts with exactly the entries whose feature is empty |
| VersionGrabber.Bases | tools/version_grabber.py:91-93 | one feature-free package is appended, with merged dependencies, for each entry with default features |
| VersionGrabber.KeepDepends | tools/version_grabber.py:103-107 | the kept dependencies are exactly those that are neither build helpers nor the package itself |
| VersionGrabber.CleanedClean | tools/version_grabber.py:99-110 | a new package made from a non-helper entry is clean |
| VersionGrabber.NewIsFirst | tools/version_grabber.py:111-112 | a name not yet in filtered_input_deps belongs to its first candidate |
| VersionGrabber.AppendFromFirsts | tools/version_grabber.py:111-112 | appending keeps every package the cleaned first candidate of its name |
| VersionGrabber.AppendCovers | tools/version_grabber.py:98-112 | after each turn every non-helper name seen has a package |
| VersionGrabber.DedupStepKeeps | tools/version_grabber.py:98-112 | one turn keeps the packages clean, distinctly named, first of their names and covering every name seen |
| VersionGrabber.DedupFromKeeps | tools/version_grabber.py:97-112 | the whole loop ends with that invariant over all candidates |
| VersionGrabber.Insert | tools/version_grabber.py:114-115 | inserting adds exactly the element |
| VersionGrabber.SortByKey | tools/version_grabber.py:114-115 | sorting is a permutation |
| VersionGrabber.InsertAscending | tools/version_grabber.py:114-115 | insertion keeps a list ordered by number of dependencies |
| VersionGrabber.InsertWithKey | tools/version_grabber.py:114-115 | insertion puts the element after those of its own key |
| VersionGrabber.SortAscending | tools/version_grabber.py:114-115 | the result is ordered by number of dependencies |
| VersionGrabber.SortStable | tools/version_grabber.py:114-115 | packages of equal key keep their order, as Python's stable sort does |
| VersionGrabber.InsertDistinct | tools/version_grabber.py:114-115 | insertion of a new name keeps names distinct |
| VersionGrabber.SortDistinct | tools/version_grabber.py:114-115 | sorting keeps names distinct |
| VersionGrabber.ArrangeSorted | tools/version_grabber.py:97-115 | the output is ordered by number of dependencies and is a stable permutation of filtered_input_deps |
| VersionGrabber.ArrangeDistinct | tools/version_grabber.py:111-115 | no two output packages have the same name |
| VersionGrabber.ArrangeMembers | tools/version_grabber.py:98-115 | each output package is clean and is the cleaned first candidate of its name |
| VersionGrabber.ArrangeCovers | tools/version_grabber.py:98-115 | every candidate that is not a build helper has a package of its name in the output |
| VersionGrabber.CandidateFeatureFree | tools/version_grabber.py:76-78 | the feature-free candidates are exactly the input entries without a feature, carrying their merged dependency lists |
| VersionGrabber.CandidateBases | tools/version_grabber.py:91-93 | the appended candidates are exactly one base package per input entry with default features, with its merged dependencies |
| VersionGrabber.ExtendDependencies | tools/version_grabber.py:84-89 | the inner loop is what ExtendFrom says |
| VersionGrabber.ExtendDefaults | tools/version_grabber.py:83-89 | the feature loop is what ExtendFeatures says |
| VersionGrabber.MergeEntry | tools/version_grabber.py:81-89 | one turn of the outer loop extends entry j when it has default features and leaves the others and j's features alone |
| VersionGrabber.Merge | tools/version_grabber.py:80-93 | the outer loop merges in place and appends the base packages in input order |
| VersionGrabber.Dedup | tools/version_grabber.py:97-112 | the loop builds filtered_input_deps as DedupFrom says |
| VersionGrabber.Sorted | tools/version_grabber.py:74-115 | PackageDescription.sorted returns SortedPackages of its input |
| VersionGrabber.StrRoundTrip | tools/version_grabber.py:117-125 | a package's printed line reads back as its name, version and dependencies |
| VersionGrabber.ParseValue | tools/version_grabber.py:11-25 | parse_value: the missing-key and present-key cases, proved in ParseValueCases |
| VersionGrabber.Strip | tools/version_grabber.py:52 | str.strip: drops white space at both ends, proved in StripContents |
| VersionGrabber.ParseEntry | tools/version_grabber.py:128-142 | parse_entry: its errors are proved in EntryErrors and its round trip in EntryRoundTrip |
| VersionGrabber.Str | tools/version_grabber.py:117-125 | PackageDescription.__str__: the printed line reads back, proved in StrRoundTrip |
| VersionGrabber.SortedPackages | tools/version_grabber.py:74-115 | PackageDescription.sorted: ordered, a stable permutation, distinct, clean and covering, proved in ArrangeSorted, ArrangeDistinct, ArrangeMembers and ArrangeCovers |

## Left out

- Rendering, textures, fonts, music, scenes, the renderer calls of the UI components, and the application loop. They are graphics and I/O.
- Floating point. This covers HSV colour literals and `Color(HSVColor)`, which the colour parser passes to an `hsv` parameter. It also covers the accelerated gravity rounding at src/game/simulated_tetrion.cpp:418, the scrollbar mover rectangle at src/ui/layouts/scroll_layout.cpp:320-333, and relative item sizes.
- SHA-256 and CRC32. Both are parameters. The model proves which bytes are fed to them and how their results are compared.
- The random generator behind `Bag`. It is a parameter `deal` that gives the n-th bag drawn. The 7-bag property is proved for whatever bags it gives.
- The SDL key-name lookup (`SDL_GetKeyFromName`). It is a parameter `keyFromName`, whose errors are passed on as the source passes them on.
- `Key::to_string`. It calls `SDL_GetKeyName` and is not a parsing or equality operation, so it is not modelled.
- The file system and streams. Whether a path exists, whether a file opens, and the bytes it holds are parameters. Writes append to a byte sequence.
- The current supported recording version number. Its definition is not part of this model, so it is a parameter.
- The order of the `InputEvent` enumeration. Its declaration is not part of this model. The fourteen events are taken in the order `game_input.cpp` handles them, and `to_underlying` is the position in that order.
- `MinoStacks.TypeIndex` and `MinoStacks.TypeFromIndex`: the declaration of the `TetrominoType` enumeration is not part of this model either. The seven types are taken in the order I, J, L, O, S, T, Z, and `to_underlying` is the position in that order. A recording holding the type bytes of another order reads back different types.
- The grid size constants (`grid_properties.hpp`). They are not part of this model, so the grid's width and height are parameters.
- The iteration order of `std::unordered_map` in `AdditionalInformation::to_bytes`. It is a parameter: any list of the keys without repetition.
- The split, trim and to-lower helpers of `src/helper/string_manipulation.hpp`. That file is not part of this model, so the `Strings` module defines them with their usual meaning in the C locale.
- Host byte order. The network header words and checksums are stored in host order, which is assumed little-endian.
- `Transportable::serialize` and `write_data`. They copy the bytes of a C++ object. The model treats a frame's data as given bytes.
- The `malloc` failure branch of `from_raw_bytes`. Allocation cannot fail in the model.
- `GameInputs.GameInput.Update`: requires `step + 2 < 2^64`. At the top of the u64 range the source's `+= auto_repeat_rate_frames` loop would wrap and never end.
- `ReplayInputs.ReplayGameInput.Update`: requires `step + 2 < 2^64`, for the same reason, because it runs the game input's update.
- `ReplayInputs.ReplayGameInput.LateUpdate`: the source throws on a snapshot mismatch. The model returns that as the error of a `Result`.
- Exceptions in general are modelled as returned errors: each member below returns an error value where the source throws, and no caller is modelled unwinding.
  - `RecordingReaders.RecordingReader.At`: `std::vector::at` throws `std::out_of_range` for an index past the last record (src/libs/recordings/utility/recording_reader.cpp:161-163). The model returns `None`.
  - `AdditionalInformations.AdditionalInformation.AddValue`: the source throws "Can't overwrite already existing key" (src/recordings/additional_information.cpp:462-468). The model returns that message as an error and leaves the map unchanged.
  - `NetworkTransportables.WriteHeader`: the source throws on a buffer of the wrong size (src/network/network_transportable.cpp:34-37). The model returns that message as an error and leaves the buffer unchanged.
  - `GridLayouts.LayoutForIndex` and `ScrollLayouts.LayoutForIndex`: the source throws "GridLayout is already full" and "NOT SUPPORTED". The model returns them as errors.
  - `FocusLayouts.HandleResult`: a request from a widget that is not focusable throws in the source. The model returns the message as an error and leaves the layout unchanged.
- `FocusLayouts.FocusLayout.FocusableIdsSorted`: debug builds throw "Focusables have duplicates" (src/ui/layouts/focus_layout.cpp:234-240). That check is not modelled; the model proves instead that distinct ids stay distinct after sorting.
- `TextInputs.TextInput.HandleEvent`: the clipboard is a parameter of the paste event and a result of the copy event. A failing `SDL_SetClipboardText`, which throws `MinorError` in the source (src/ui/components/textinput.cpp:197-202), is not modelled: copying always succeeds. On Ctrl+V the source reads the text field of the event union of a key event; the model takes whether it is empty as a parameter.
- `Guids.ParseGuid`: the model reads the text as characters, while `get_guid_from_string_impl` (src/input/guid.hpp:80-100) counts bytes. A text holding a character of more than one byte has a different length in the two. For instance, a 47-character text with a non-ASCII separator is "Unrecognized guid literal" in the source and parses in the model.
- `ColorLiterals.ParseHex`: the model measures a '#' literal in characters, while `get_color_from_hex_string` tests `size`, the byte count of the `std::string` (src/helper/color_literals.hpp:245, 259). With a character of more than one byte the two lengths differ. For instance "#ABCDé" (6 characters, 7 bytes) is a hex-digit error in the source and "Unrecognized HEX literal" in the model, and "#ABCDEé" (7 characters, 8 bytes) is the other way round. ASCII literals, and so every literal that reads, give the same result in both.
- `ColorLiterals.HexLengthRejected`: for the same reason its length condition is in characters, where the source's "Unrecognized HEX literal" (src/helper/color_literals.hpp:277) depends on the byte count.
- `Guids.SeparatorsIgnored`: for the same reason it holds in the source only for separator characters of one byte.
- `StaticStrings.EqualIff`: requires both strings to have the same size. `operator==` compares two `std::array`s, which only compiles for arrays of one size.
- The ghost piece, the piece previews, the score and level texts, and the snapshots the simulated tetrion writes. They are display state of the simulated tetrion, or its I/O.
- `SimulatedTetrions.SimulatedTetrion.EndGame`: when a recording writer is attached, the source writes a snapshot on game over in every build (src/game/simulated_tetrion.cpp:163-167). The model does not call a writer there. What `add_snapshot` writes is modelled by `RecordingWriters.RecordingWriter.AddSnapshot`.
- `SimulatedTetrions.SimulatedTetrion.LockActiveTetromino`: the snapshot added on every lock in debug builds (src/game/simulated_tetrion.cpp:338-343) is not written, for the same reason.
- ScrollLayout's mouse handling. This covers clicks on and dragging of the scrollbar, `auto_move_after_focus_change`, and the focus given in `add`. They live in its event handling and are not modelled.
- `to_string` of a GUID. `guid.cpp` is not part of this model. `Guids.Format` is an independent printer, used only to state the round trip.
- For `tools/version_grabber.py`:
  - YAML typing is not modelled: each entry is a map from field names to strings.
  - The script's main block (file reading, `sys.argv`, `print`) is I/O.
  - `repr` escapes in error messages are not modelled.
  - Aliasing of `dependencies = inp.depends` is modelled by value. The merge updates a sequence of packages in place, and the feature-free packages are read after the merge, which matches the shared references in the script.

## Findings

| source | as written | input that shows it | evidently intended | confidence | as-written member | corrected member |
|---|---|---|---|---|---|---|
| src/manager/sdl_key.cpp:397-404 | for each of Ctrl, Shift, Alt and Gui, `is_equal` requires a bit that both keys hold (`(other & m) & (this & m) != 0`) | `Ctrl-L+A` against `Ctrl+A`, or `NumLock+A` against `A` with special modifiers ignored: unequal, because neither key holds Shift | each group held by both keys or by neither | not executed | SdlKeys.AsWrittenCounterexample | SdlKeys.IsEqualIff |
| src/ui/layouts/grid_layout.cpp:55-58 | the vertical assertion compares the height with `total_margin - 2 * margin_y` | three cells, gap 10, margin 5, height 20: the assertion passes, and the cell height wraps around | `total_margin + 2 * margin_y`, the mirror of the horizontal check | not executed | GridLayouts.VerticalAssertionAsWrittenCounterexample | GridLayouts.FitsAsserted |
| src/network/network_transportable.cpp:112-115 | the result of `read_checksum` is never looked at | a header announcing 0 bytes with no checksum after it, or a frame with any 4 bytes as its checksum: accepted | a missing or wrong checksum is an error | not executed | NetworkTransportables.TruncatedChecksumAccepted | NetworkTransportables.CheckedRoundTrip |
