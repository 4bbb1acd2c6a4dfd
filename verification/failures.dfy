/** The ways `parse_record`, `parse_scalar` and `parse_array` refuse their input:
    which check fires for which bytes. */
module Failures {
  import opened Wrappers
  import opened Bytes
  import opened Types
  import opened Raw
  import opened Parse
  import opened RoundTrip
  import opened RecordTrip

  /** A negative size field is refused by the first integrity check, not by the
      `size <= 0` check after it: `size as u64` sign-extends it past any buffer
      (a Rust buffer holds fewer than 2^63 bytes). */
  lemma {:induction false} NegativeSizeRejected(buf: seq<byte>, pos: nat)
    requires |buf| < 0x8000_0000_0000_0000
    requires pos + 8 <= |buf| && ReadI32(buf, pos + 4).value.value < 0
    ensures ParseRecord(buf, pos) == Failure(SizeExceedsBuffer)
  {
    var size := ReadI32(buf, pos + 4).value.value;
    assert AsU64(size) >= 0x1_0000_0000_0000_0000 - 0x8000_0000;
  }

  /** A size field of 0 is refused by the `size <= 0` check. */
  lemma {:induction false} ZeroSizeRejected(buf: seq<byte>, pos: nat)
    requires pos + 8 <= |buf| && ReadI32(buf, pos + 4).value.value == 0
    ensures ParseRecord(buf, pos) == Failure(NonPositiveSize)
  {
  }

  /** A size field larger than what is left of the buffer from the record's start
      is refused. */
  lemma {:induction false} OversizeRejected(buf: seq<byte>, pos: nat)
    requires pos + 8 <= |buf| && ReadI32(buf, pos + 4).value.value > |buf| - pos
    ensures ParseRecord(buf, pos) == Failure(SizeExceedsBuffer)
  {
  }

  /** A scalar count field that is not positive is refused once the size field
      has passed its checks. */
  lemma {:induction false} NonPositiveScalarCountRejected(buf: seq<byte>, pos: nat)
    requires pos + 16 <= |buf| && 0 < ReadI32(buf, pos + 4).value.value <= |buf| - pos
    requires ReadI32(buf, pos + 8).value.value <= 0
    ensures ParseRecord(buf, pos) == Failure(NonPositiveScalarCount)
  {
  }

  /** An array count field that is not positive is refused after a positive
      scalar count. */
  lemma {:induction false} NonPositiveArrayCountRejected(buf: seq<byte>, pos: nat)
    requires pos + 16 <= |buf| && 0 < ReadI32(buf, pos + 4).value.value <= |buf| - pos
    requires ReadI32(buf, pos + 8).value.value > 0 && ReadI32(buf, pos + 12).value.value <= 0
    ensures ParseRecord(buf, pos) == Failure(NonPositiveArrayCount)
  {
  }

  /** Positive counts whose sum exceeds the size field are refused. The sum is
      exact here; in the source it is an i32 addition. */
  lemma {:induction false} TooManyEntriesRejected(buf: seq<byte>, pos: nat)
    requires pos + 16 <= |buf| && 0 < ReadI32(buf, pos + 4).value.value <= |buf| - pos
    requires ReadI32(buf, pos + 8).value.value > 0 && ReadI32(buf, pos + 12).value.value > 0
    requires ReadI32(buf, pos + 8).value.value + ReadI32(buf, pos + 12).value.value > ReadI32(buf, pos + 4).value.value
    ensures ParseRecord(buf, pos) == Failure(TooManyEntries)
  {
  }

  /** A buffer holding less than a record's code and size fields fails. */
  lemma {:induction false} ShortHeaderRejected(buf: seq<byte>, pos: nat)
    requires pos <= |buf| < pos + 8
    ensures ParseRecord(buf, pos) == Failure(NotEnoughBytes)
  {
  }

  /** The size field of an encoded record is its length. */
  lemma {:induction false} SizeFieldOf(r: RawRecord, k: nat)
    requires Decodable(r) && 8 <= k <= |RecordToBytes(r)|
    ensures ReadI32(RecordToBytes(r)[..k], 4).Success? && ReadI32(RecordToBytes(r)[..k], 4).value.value == EncodedSize(r)
  {
    var bs := RecordToBytes(r);
    var size: i32 := EncodedSize(r);
    assert bs[..k][4..8] == bs[4..8];
    assert bs[..k][4..8] == I32Bytes(size);
    IsAtSlice(bs[..k], 4, I32Bytes(size));
    ReadI32Of(bs[..k], 4, size);
  }

  /** Every proper prefix of an encoded record is refused: one shorter than the
      code and size fields for lack of bytes, any other by the size check. */
  lemma {:induction false} TruncatedRecordFails(r: RawRecord, k: nat)
    requires Decodable(r) && k < |RecordToBytes(r)|
    ensures k < 8 ==> ParseRecord(RecordToBytes(r)[..k], 0) == Failure(NotEnoughBytes)
    ensures k >= 8 ==> ParseRecord(RecordToBytes(r)[..k], 0) == Failure(SizeExceedsBuffer)
  {
    var buf := RecordToBytes(r)[..k];
    if k < 8 {
      ShortHeaderRejected(buf, 0);
    } else {
      SizeFieldOf(r, k);
      OversizeRejected(buf, 0);
    }
  }

  /** `read_records` refuses a stream cut inside its only record. */
  lemma {:induction false} TruncatedStreamFails(r: RawRecord, k: nat)
    requires Decodable(r) && 0 < k < |RecordToBytes(r)|
    ensures ReadRecords(RecordToBytes(r)[..k]).Failure?
  {
    TruncatedRecordFails(r, k);
  }

  /** A scalar entry whose tag is not in the table is refused with that tag. */
  lemma {:induction false} UnknownScalarTagRejected(buf: seq<byte>, pos: nat)
    requires ReadEntryHead(buf, pos).Success? && ReadEntryHead(buf, pos).value.value.1 !in AllKeys()
    ensures ParseScalar(buf, pos) == Failure(BadScalarType(ReadEntryHead(buf, pos).value.value.1))
  {
  }

  /** An array entry whose tag is not in the table is refused with that tag. */
  lemma {:induction false} UnknownArrayTagRejected(buf: seq<byte>, pos: nat, size: i32)
    requires ReadEntryHead(buf, pos).Success? && ReadEntryHead(buf, pos).value.value.1 !in AllKeys()
    ensures ParseArray(buf, pos, size) == Failure(BadArrayType(ReadEntryHead(buf, pos).value.value.1))
  {
  }

  /** The dimension-count checks of `parse_array`, in the source's order. */
  lemma {:induction false} DimensionCountChecks(buf: seq<byte>, pos: nat, size: i32, t: DmapType)
    requires pos + 4 <= |buf|
    ensures ReadI32(buf, pos).value.value > size ==> ArrayShape(buf, pos, size, t) == Failure(TooManyDimensions)
    ensures ReadI32(buf, pos).value.value <= 0 && size >= 0 ==> ArrayShape(buf, pos, size, t) == Failure(NonPositiveDimensions)
  {
  }

  /** Each dimension is checked as soon as it is read: first against 0, then
      against the record size. */
  lemma {:induction false} DimensionChecks(buf: seq<byte>, pos: nat, n: nat, size: i32)
    requires n > 0 && pos + 4 <= |buf|
    ensures ReadI32(buf, pos).value.value <= 0 ==> ReadDims(buf, pos, n, size) == Failure(NonPositiveDim)
    ensures 0 < ReadI32(buf, pos).value.value && ReadI32(buf, pos).value.value > size ==>
      ReadDims(buf, pos, n, size) == Failure(DimExceedsSize)
  {
  }
}
