# DMAP record codec

A Dafny model of the DMAP binary record format as src/dmap.rs reads and writes
it, with one correction: the decoder reads every fixed-width value unaligned (see
Findings). SuperDARN radar files are streams of DMAP records. Each record has a 16-byte
header: the code 65537, the record's total size, the scalar count and the array
count, all little-endian i32. Named scalar entries follow, then named array
entries. An entry is a 0-terminated UTF-8 name, a one-byte type tag, and the
payload. For an array, the payload is the dimension count, the dimensions, and
then the elements in row-major order.

The model covers:

- the `DmapType` tag table: `all_keys`, `get_num_bytes`, `get_type_from_key`,
  `get_key` and `to_bytes`;
- the serialisers of `RawDmapScalar`, `RawDmapArray` and `RawDmapRecord`;
- the decoder: `read_data`, `parse_scalar`, `parse_array`, `parse_record` and
  the `read_records` loop.

The decoder is a set of pure functions. Each takes a buffer and a cursor and
returns either an error kind or a value together with the cursor just past it.

Modules, in dependency order:

| file | module | contents |
|---|---|---|
| wrappers.dfy | Wrappers | `Result` and `Option` with `:-` support |
| bytes.dfy | Bytes | fixed-width integer types, little-endian encoding, two's complement, the `as i32` and `as u64` casts |
| utf8.dfy | Utf8 | well-formed UTF-8 as `String::from_utf8` accepts it |
| dmap_type.dfy | Types | `DmapType`, the tag table, value encoding and decoding, the error kinds |
| records.dfy | Raw | raw scalars, arrays and records, and their serialisers |
| parse.dfy | Parse | `read_data` and the parsers, plus the `read_records` loop |
| round_trip.dfy | RoundTrip | each parser reads back what the matching serialiser wrote |
| record_trip.dfy | RecordTrip | whole records and record streams read back |
| failures.dfy | Failures | which check rejects which malformed input |
| vectors.dfy | Vectors | the byte layouts of the unit tests, and the test record decoded back |

The headline results:

- `RecordTrip.RecordRoundTrip`: `read_records(rec.to_bytes())` returns exactly
  `[rec]`.
- `RecordTrip.RecordsRoundTrip`: the same holds for any sequence of records
  written one after another, as `to_file` writes them.
- Both are proved for the decoder with unaligned reads (`Parse.ReadPrim`). The
  source as written reads USHORT, UINT, LONG and ULONG with an aligned cast, and
  so refuses records in which such a payload sits at a misaligned address (see
  Findings). For the corrected decoder, both hold for every record that
  `RecordTrip.Decodable` describes, in the record's own terms:
  - the counts are positive and match the name lists;
  - every listed name has an entry;
  - names contain no 0 byte, and neither do STRING values;
  - no entry is a DMAP value;
  - every array has positive dimensions that multiply to its element count,
    and all its elements share the first one's type;
  - the whole record is shorter than 2^31 bytes.
- Names do not have to be distinct.

## Model

| member | source | states |
|---|---|---|
| Types.AllKeys | src/dmap.rs:52-54 | the table holds twelve tags, each between 0 and 19 |
| Types.Key | src/dmap.rs:96-111 | every value's tag is between 0 and 19; `Types.KeyInverse` shows that `get_type_from_key` maps it back to the same type |
| Types.NumBytes | src/dmap.rs:57-71 | a type's width is 0, 1, 2, 4 or 8, and it is 0 exactly for DMAP and STRING |
| Types.TypeFromKey | src/dmap.rs:74-93 | a tag is accepted exactly when it is in the table; the value returned carries that tag and a zero payload; any other tag is an InvalidKey error naming that tag |
| Types.KeyInverse | src/dmap.rs:74-111 | `get_type_from_key` undoes `get_key`: every value's tag is accepted and maps back to the same tag, and the value itself comes back exactly when its payload is zero |
| Types.SameKeySameWidth | src/dmap.rs:57-111 | two values with the same tag have the same width, and either both are STRING or neither is (likewise for DMAP) |
| Types.ToBytes | src/dmap.rs:114-134 | a non-STRING value takes exactly its type's width; a STRING is its UTF-8 bytes followed by one 0 |
| Types.FromBytes | src/dmap.rs:519-561 | the value read from a window has the tag of the type asked for |
| Types.FromBytesOfToBytes | src/dmap.rs:114-126 | decoding a fixed-width value's encoding, with any type of the same tag, gives the value back |
| Types.ToBytesOfFromBytes | src/dmap.rs:519-561 | encoding what a window decodes to gives back exactly that window |
| Types.Align | src/dmap.rs:529-553 | the alignment is above 1 exactly for USHORT, UINT, LONG and ULONG, and then equals the type's width |
| Bytes.FromLEOfToLE | src/dmap.rs:117-126 | reading a little-endian encoding back gives the number that was encoded |
| Bytes.ToLEOfFromLE | src/dmap.rs:519-561 | re-encoding the number a byte window denotes gives back the window |
| Bytes.Signed | src/dmap.rs:519-561 | the two's-complement reading of an n-byte pattern is in the signed range and differs from the unsigned reading by 0 or 2^(8n) |
| Bytes.Unsigned | src/dmap.rs:117-126 | the bit pattern of a signed number is in range, and reading it as signed gives the number back |
| Bytes.Wrap32 | src/dmap.rs:268 | `as i32` keeps a number's value modulo 2^32, and keeps it unchanged when it already fits |
| Bytes.AsU64 | src/dmap.rs:289 | `size as u64` keeps a non-negative size and sends a negative one to at least 2^64 - 2^31 |
| Utf8.AsciiIsValid | src/dmap.rs:575 | bytes below 0x80 are accepted by `String::from_utf8` |
| Raw.Product | src/dmap.rs:454-475 | the element count of positive dimensions is at least 1 |
| Raw.ScalarToBytes | src/dmap.rs:164-170 | the first byte is the value's tag and the rest is the value's encoding |
| Raw.KeyByte | src/dmap.rs:166 | a tag is written as exactly one byte, the tag itself |
| Raw.I32Bytes | src/dmap.rs:197 | an i32 (a dimension count or a dimension) is written as exactly four bytes |
| Raw.DimsBytes | src/dmap.rs:198-200 | n dimensions are written as exactly 4n bytes |
| Raw.ArrayToBytes | src/dmap.rs:194-205 | the first byte is the first element's tag; the length is 5 bytes, plus 4 per dimension, plus the element bytes |
| RoundTrip.ArrayEntryLayout | src/dmap.rs:194-205 | a named array entry is, in order, the name, a 0, the first element's tag, the dimension count, the dimensions and the elements |
| Raw.Entry | src/dmap.rs:253-257 | a named entry is the name, one 0 terminator, then the entry's bytes, so its length is the name's plus one plus the bytes' |
| Raw.ScalarEntries | src/dmap.rs:252-258 | the scalar entries written for n names take at least 2n bytes: each is at least a 0 terminator and a tag (the step for the first name is `Raw.ScalarEntriesCons`, which states the same bound) |
| Raw.ArrayEntries | src/dmap.rs:259-265 | the array entries written for n names take at least 6n bytes: each is at least a 0 terminator, a tag and a four-byte dimension count (the step for the first name is `Raw.ArrayEntriesCons`, which states the same bound) |
| Raw.RecordToBytes | src/dmap.rs:247-273 | bytes 0-3 are the code 65537; bytes 8-15 are the two counts; the entries follow from byte 16; the size field equals the output length whenever that length fits an i32 |
| Raw.RecordsToBytes | src/dmap.rs:612-620 | a stream of n records takes at least 16n bytes |
| Parse.FirstZero | src/dmap.rs:564-572 | the scan's result is the first 0 at or after the start; when it finds none, no byte from the start onwards is 0 |
| Parse.ReadString | src/dmap.rs:562-578 | an accepted string is exactly the bytes before the first 0, none of which is 0; the cursor lands just past that 0; a buffer with no 0 from the cursor on is refused |
| Parse.ReadFixed | src/dmap.rs:496-561 | a cursor beyond the buffer is refused; the read succeeds exactly when the type's width fits in the rest of the buffer; the cursor then advances by that width and the value has the requested tag |
| Parse.ReadFixedLayout | src/dmap.rs:515-561 | the bytes a fixed-width read consumes are exactly the encoding of the value it returns |
| Parse.ReadPrim | src/dmap.rs:496-583 | a cursor beyond the buffer is refused; on success the cursor stays within the buffer and the value has the requested tag |
| Parse.ReadPrimLayout | src/dmap.rs:496-583 | the bytes any non-DMAP read consumes are exactly the encoding of the value it returns |
| Parse.ReadPrimAsWritten | src/dmap.rs:529-553 | with the aligned casts, a read succeeds exactly when the unaligned read succeeds and the address is a multiple of the type's alignment, and then it returns the same result; otherwise a read that fits in the buffer fails with a cast error |
| Parse.MisalignedUintIsRefused | src/dmap.rs:539-543 | a UINT payload at an odd offset is decoded as 5 by the unaligned read and refused by the source's aligned cast |
| Parse.ReadI32 | src/dmap.rs:279-286 | an INT read succeeds exactly when 4 bytes remain; the cursor advances by 4, and those bytes are the value's encoding |
| Parse.ReadI32IsReadData | src/dmap.rs:279-286 | reading an i32 is `read_data` for INT followed by unwrapping the INT, with the same errors |
| Parse.ReadKey | src/dmap.rs:377-382 | a tag read succeeds exactly when one byte remains; a byte below 0x80 is its own tag, and any other byte gives a negative tag |
| Parse.ReadKeyIsReadData | src/dmap.rs:377-382 | reading a tag is `read_data` for CHAR followed by unwrapping the CHAR |
| Parse.ReadName | src/dmap.rs:371-376 | an accepted name contains no 0, and lies in the buffer followed by its terminating 0; the cursor moves just past that 0 |
| Parse.ReadNameIsReadData | src/dmap.rs:371-376 | reading a name is `read_data` for STRING followed by unwrapping the STRING |
| Parse.ReadData | src/dmap.rs:496-586 | on success the cursor stays within the buffer and the value has the requested tag; for DMAP, a nested record must parse and the cursor is put back where it was |
| Parse.ReadElements | src/dmap.rs:488-491 | an accepted element list has the requested length, and every element has the array's tag |
| Parse.ReadDmapElements | src/dmap.rs:488-491 | for DMAP elements: an accepted list has length n, every element is tagged DMAP, and the cursor ends exactly where it began, because `read_data` resets it to its start after each nested record (src/dmap.rs:516, 583) |
| Parse.ReadPrimElements | src/dmap.rs:488-491 | for any other type, each element is read and the cursor moves past it without leaving the buffer; an accepted list has length n and every element has the requested tag |
| Parse.ReadDims | src/dmap.rs:455-476 | n accepted dimensions take exactly 4n bytes, and each one is between 1 and the record size |
| Parse.ReadEntryHead | src/dmap.rs:371-382 | the name and its 0 lie at the cursor, and the tag byte follows them; the cursor moves past both |
| Parse.ScalarData | src/dmap.rs:384-401 | a tag outside the table is a BadScalarType error naming the tag; otherwise an accepted value carries that tag |
| Parse.ParseScalar | src/dmap.rs:369-404 | an accepted scalar entry takes at least one byte and ends inside the buffer |
| Parse.ParseScalarLayout | src/dmap.rs:369-404 | an accepted scalar entry starts with its name, then a 0, then the tag of its value |
| Parse.ParseScalars | src/dmap.rs:335-340 | n iterations append exactly n names after the ones already listed, leaving those unchanged, and the table's keys remain exactly the listed names |
| Parse.ArrayShape | src/dmap.rs:432-487 | accepted dimensions are nonempty and no more numerous than the record size; each is between 1 and the record size; the element count, and the element count times the width, are at most the record size |
| Parse.ArrayData | src/dmap.rs:422-492 | a tag outside the table is a BadArrayType error; an accepted array passes every bound checked against the record size, and its first element carries the tag |
| Parse.ParseArray | src/dmap.rs:407-493 | an accepted array entry takes at least one byte and ends inside the buffer |
| Parse.ParseArrayLayout | src/dmap.rs:407-493 | an accepted array passes every bound checked against the record size, and its entry starts with its name, a 0 and its elements' tag |
| Parse.ParseArrays | src/dmap.rs:342-348 | n iterations append exactly n names after the ones already listed, leaving those unchanged, and the table's keys remain exactly the listed names |
| Parse.ParseRecord | src/dmap.rs:277-366 | an accepted record takes at least its 16 header bytes and ends inside the buffer |
| Parse.ParseRecordHeader | src/dmap.rs:277-366 | for an accepted record: both counts are positive, are the header's count fields (bytes 8-11 and 12-15) and match the name lists; the name sets match the table keys; the counts sum to at most the size; the size field is the number of bytes consumed, and is below 2^31 |
| Parse.ReadRecordsFrom | src/dmap.rs:602-605 | an empty rest of the buffer reads as no records; otherwise each record read takes at least 16 bytes |
| Parse.ReadRecords | src/dmap.rs:592-606 | an empty buffer reads as no records; n records need at least 16n bytes |
| Parse.ReadRecordsTiles | src/dmap.rs:602-605 | the loop returns a list exactly when those records parse one after another and the last one ends at the end of the buffer (both directions) |
| RoundTrip.ReadStringOf | src/dmap.rs:562-578 | a 0-free UTF-8 string followed by a 0 reads back as that string, with the cursor just past the 0 |
| RoundTrip.ReadFixedOf | src/dmap.rs:515-561 | a fixed-width value's encoding reads back as that value, with the cursor advanced by the width |
| RoundTrip.ReadPrimOf | src/dmap.rs:496-583 | the encoding of any storable value reads back as that value, with the cursor just past the encoding |
| RoundTrip.ReadI32Of | src/dmap.rs:279-286 | the 4-byte encoding of an i32 reads back as that i32 |
| RoundTrip.ReadEntryHeadOf | src/dmap.rs:371-382 | a 0-free name, a 0 and a tag byte read back as that name and tag |
| RoundTrip.ParseScalarOf | src/dmap.rs:369-404 | a scalar entry as `to_bytes` writes it parses back as the same name and scalar, ending where the entry ends |
| RoundTrip.InsertSpec | src/dmap.rs:335-348 | inserting listed entries keeps the old keys and adds the listed ones; a listed key maps to its entry, and any other key keeps its old value |
| RoundTrip.ParseScalarsOf | src/dmap.rs:335-340 | the scalar entries of a name list parse back as that list, with a table holding the same entries |
| RoundTrip.ReadDimsOf | src/dmap.rs:455-476 | dimensions between 1 and the record size read back as themselves |
| RoundTrip.ReadElementsOf | src/dmap.rs:488-491 | storable values of one tag read back, in order, as themselves |
| RoundTrip.ArrayShapeOf | src/dmap.rs:432-487 | a shape within the record-size bounds reads back as those dimensions |
| RoundTrip.ArrayDataOf | src/dmap.rs:422-492 | what follows an array's tag reads back as the same array |
| RoundTrip.ParseArrayOf | src/dmap.rs:407-493 | an array entry as `to_bytes` writes it parses back as the same name and array, ending where the entry ends |
| RoundTrip.ParseArraysOf | src/dmap.rs:342-348 | the array entries of a name list parse back as that list, with a table holding the same entries |
| RecordTrip.EncodedSize | src/dmap.rs:268 | the size a record announces equals the length of its encoding |
| RecordTrip.DimAtMostProduct | src/dmap.rs:454-475 | with positive dimensions, no dimension exceeds the element count |
| RecordTrip.ValuesBytesLength | src/dmap.rs:201-203 | storable values of one tag take at least one byte each, and at least their width each |
| RecordTrip.ArrayFitsOf | src/dmap.rs:439-487 | an array with positive dimensions whose product is its element count, and whose encoding fits in the record, passes every bound `parse_array` checks |
| RecordTrip.ArrayWithinEntries | src/dmap.rs:259-265 | each array's encoding is no longer than all the array entries together |
| RecordTrip.RecordArraysReadable | src/dmap.rs:407-493 | every array of a decodable record passes `parse_array`'s bounds against the record's own size |
| RecordTrip.ParseRecordOf | src/dmap.rs:277-366 | a decodable record's bytes, anywhere in a buffer, parse back as that same record, ending where its bytes end |
| RecordTrip.TilesOf | src/dmap.rs:602-605 | decodable records written one after another up to the buffer's end tile it |
| RecordTrip.RecordsRoundTrip | src/dmap.rs:592-606 | `read_records` of the concatenated encodings of decodable records returns exactly those records |
| RecordTrip.RecordRoundTrip | src/dmap.rs:247-273 | `read_records` of one decodable record's encoding returns exactly that record |
| Failures.NegativeSizeRejected | src/dmap.rs:289-297 | a negative size field is refused by the buffer-size check, because `as u64` sign-extends it, before the size <= 0 check can see it |
| Failures.ZeroSizeRejected | src/dmap.rs:298-304 | a size field of 0 is refused as non-positive |
| Failures.OversizeRejected | src/dmap.rs:289-297 | a size field larger than the rest of the buffer from the record's start is refused |
| Failures.NonPositiveScalarCountRejected | src/dmap.rs:318-321 | once the size field passes its checks, a scalar count field that is not positive is refused |
| Failures.NonPositiveArrayCountRejected | src/dmap.rs:322-325 | after a positive scalar count, an array count field that is not positive is refused |
| Failures.TooManyEntriesRejected | src/dmap.rs:326-332 | positive counts whose sum exceeds the size field are refused |
| Failures.ShortHeaderRejected | src/dmap.rs:505-512 | a buffer holding fewer than 8 bytes from the record's start is refused for lack of bytes |
| Failures.SizeFieldOf | src/dmap.rs:268 | any prefix of an encoding that is at least 8 bytes long holds the record's length as its size field |
| Failures.TruncatedRecordFails | src/dmap.rs:289-297 | a proper prefix of a record's encoding is refused: for lack of bytes when shorter than 8, otherwise by the size check |
| Failures.TruncatedStreamFails | src/dmap.rs:602-605 | `read_records` refuses a stream cut inside its only record |
| Failures.UnknownScalarTagRejected | src/dmap.rs:384-391 | a scalar tag outside the table is a BadScalarType error naming that tag |
| Failures.UnknownArrayTagRejected | src/dmap.rs:422-428 | an array tag outside the table is a BadArrayType error naming that tag |
| Failures.DimensionCountChecks | src/dmap.rs:439-450 | a dimension count above the record size, or one that is not positive, is refused with its own error, in the source's order |
| Failures.DimensionChecks | src/dmap.rs:462-472 | a dimension that is not positive, or one above the record size, is refused as soon as it is read |
| Vectors.StringVector | src/dmap.rs:646-649 | "Test" is written as 84, 101, 115, 116, 0 |
| Vectors.IntVector | src/dmap.rs:652-655 | INT(10) is written as 10, 0, 0, 0 |
| Vectors.ScalarVector | src/dmap.rs:658-661 | the scalar CHAR(10) is written as 1, 10 |
| Vectors.ArrayVector | src/dmap.rs:664-672 | the array of CHARs 0, 1, 2 with dimensions [3] is written as the 12 bytes of the test |
| Vectors.TestBytesLiteral | src/dmap.rs:690 | the header and the two entries, put together, are the 39-byte literal of the test |
| Vectors.RecordVector | src/dmap.rs:675-691 | the test record is written as the 39 bytes of the test |
| Vectors.TestRecordDecodable | src/dmap.rs:675-691 | the test record meets every condition the round trip asks for |
| Vectors.RecordVectorDecodes | src/dmap.rs:675-691 | `read_records` of those 39 bytes returns exactly the test record |

## Left out

- Reading the input (`read_to_end`) and writing files (`to_file`) are left out. The model starts from the buffer the reader delivered and ends at the byte stream that would be written.
- The `Display` implementations and the text of the error messages are left out. Each distinct failure is a distinct `DmapError` constructor instead.
- The `mode` field (always 6 for scalars and 7 for arrays) is not stored. The decoder sets it to a constant and the serialiser never writes it.
- The `PartialEq` implementations are left out; the round trips use Dafny's structural equality, which is stronger. In the source's record comparison, the array loop looks both names up in `self.arrays` (src/dmap.rs:237-238). Two records with equal array names therefore always compare their arrays as equal. Both comparisons also `zip` the lists, so a shorter list compares equal to a longer one that starts with it.
- Parse.ArrayShape: two i32 operations in the source are computed exactly in the model. They are the running product of dimensions (src/dmap.rs:474) and the element count times the type's width (src/dmap.rs:481). In the source, a debug build panics on overflow and a release build wraps. For example, 2^28 elements of an 8-byte type in a record of size 2^31 - 1 wrap to -2^31 at line 481: the check passes, and the record fails later with another error. The model returns `ArrayExceedsSize` instead.
- Parse.ParseRecord: the sum `num_scalars + num_arrays` (src/dmap.rs:326) is an i32 addition in the source, which panics in a debug build and wraps in a release build. The model adds exactly, so two counts near 2^31 are refused with `TooManyEntries` where a release build would wrap to a negative sum and go on to fail later with another error.
- Raw.ArrayToBytes: the source indexes `data[0]` (src/dmap.rs:196) and panics on an array with no elements. The model requires at least one element instead of modelling the panic; the decoder never produces an empty array, since every dimension is positive.
- DMAP values inside a record are read but not kept: the nested record is parsed and its result is dropped, as in the source. A DMAP element or scalar is therefore not part of the round trip. Its encoding is empty, so it could not be read back even in the source. Because `read_data` puts the cursor back where the nested record began (src/dmap.rs:583), every element of a DMAP array parses the same nested record, and the bytes after the array's header are then read again as the next entry. The model does the same (`Parse.ReadDmapElements`).
- FLOAT and DOUBLE values are their IEEE bit patterns. No floating-point arithmetic happens in the codec, and comparing NaNs is not modelled.
- Parse.ReadString: when a STRING starts exactly at the end of the buffer, the source indexes past the end and panics. The model returns `IndexOutOfBounds`.
- Raw.RecordToBytes: the size field is `data_bytes.len() as i32 + 16` with wrap-around. The round trip needs records shorter than 2^31 bytes; a longer record's size field is wrapped and the decoder refuses it.
- Types.ToBytes, Types.FromBytes and Types.Align: `bytemuck` encodes and decodes in the target's native byte order, and `align_of` depends on the target. The model fixes little-endian order and the alignments of a 64-bit target (8 for LONG and ULONG).
- Parse.ReadFixed: it models the intended unaligned reads for every fixed-width type. The aligned casts the source uses for four of the types are modelled separately by Parse.ReadPrimAsWritten (see Findings).
- Failures.NegativeSizeRejected: assumes a buffer shorter than 2^63 bytes, which every Rust `Vec` is.
- Entries whose names repeat within a record are allowed and round-trip. The later entry overwrites the earlier one in the map, exactly as `HashMap::insert` does.

## Findings

| source | as written | input that shows it | evidently intended | confidence | as-written member | corrected member |
|---|---|---|---|---|---|---|
| src/dmap.rs:529-553 | USHORT, UINT, LONG and ULONG are decoded with `bytemuck::try_from_bytes`, which fails unless the byte window's address is a multiple of the type's size. The other fixed-width types use `try_pod_read_unaligned`. | The buffer [18, 5, 0, 0, 0] starting at a 4-aligned address: a UINT read at offset 1 fails with a cast error, although the four bytes encode 5. In the first record of a buffer, a UINT scalar whose name has odd length lands at such an offset. | Read every fixed-width type unaligned, so that whatever `to_bytes` wrote reads back | high, not executed | Parse.ReadPrimAsWritten, Parse.MisalignedUintIsRefused | Parse.ReadPrim, RoundTrip.ReadPrimOf |
