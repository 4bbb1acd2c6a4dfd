/** The byte layouts pinned by the unit tests of src/dmap.rs, and the record of
    the last test decoded back from its 39 bytes. */
module Vectors {
  import opened Wrappers
  import opened Bytes
  import Utf8
  import opened Types
  import opened Raw
  import opened Parse
  import opened RoundTrip
  import opened RecordTrip

  /** ASCII bytes as the UTF-8 text they are. */
  function Ascii(bs: seq<byte>): (t: Text)
    requires forall i | 0 <= i < |bs| :: bs[i] < 0x80
    ensures t == bs
  {
    Utf8.AsciiIsValid(bs);
    bs
  }

  /** `string_to_bytes`: "Test" is written as its bytes and a 0. */
  lemma {:induction false} StringVector()
    ensures ToBytes(STRING(Ascii([84, 101, 115, 116]))) == [84, 101, 115, 116, 0]
  {
  }

  /** A small non-negative i32 is its own low byte followed by three zeros. */
  lemma {:induction false} SmallI32(x: i32)
    requires 0 <= x < 0x100
    ensures I32Bytes(x) == [x, 0, 0, 0]
  {
    assert ToLE(x, 4) == ToLE(x, 2) + ToLE(0, 2);
  }

  /** `int_to_bytes`: INT(10) is written little-endian. */
  lemma {:induction false} IntVector()
    ensures ToBytes(INT(10)) == [10, 0, 0, 0]
  {
    SmallI32(10);
  }

  /** `scalar_to_bytes`: the CHAR tag 1, then the byte 10. */
  lemma {:induction false} ScalarVector()
    ensures ScalarToBytes(RawScalar(CHAR(10))) == [1, 10]
  {
  }

  /** The array of the tests: one dimension of 3, holding the CHARs 0, 1, 2. */
  function TestArray(): (a: RawArray)
    ensures |a.data| == 3 && Key(a.data[0]) == 1
  {
    RawArray([3], [CHAR(0), CHAR(1), CHAR(2)])
  }

  /** `array_to_bytes`: the tag, the dimension count, the dimension, the elements. */
  lemma {:induction false} ArrayVector()
    ensures ArrayToBytes(TestArray()) == [1, 1, 0, 0, 0, 3, 0, 0, 0, 0, 1, 2]
  {
    var a := TestArray();
    SmallI32(1);
    assert DimsBytes([3]) == [3, 0, 0, 0] by {
      SmallI32(3);
      assert DimsBytes([3]) == I32Bytes(3) + DimsBytes([]);
    }
    assert ValuesBytes(a.data) == [0, 1, 2] by {
      assert ValuesBytes(a.data) == [0] + ValuesBytes(a.data[1..]);
      assert ValuesBytes(a.data[1..]) == [1] + ValuesBytes(a.data[2..]);
      assert ValuesBytes(a.data[2..]) == [2] + ValuesBytes(a.data[3..]);
    }
  }

  /** The names of the test record, "scal" and "arr". */
  function Scal(): (t: Text)
    ensures t == [115, 99, 97, 108]
  {
    Ascii([115, 99, 97, 108])
  }

  function Arr(): (t: Text)
    ensures t == [97, 114, 114]
  {
    Ascii([97, 114, 114])
  }

  /** The record of `record_to_bytes`: the scalar "scal" holding CHAR(10) and the
      test array under "arr". */
  function TestRecord(): (r: RawRecord)
    ensures r.scalarList == [Scal()] && r.arrayList == [Arr()]
  {
    RawRecord(1, 1, [Scal()], [Arr()], map[Scal() := RawScalar(CHAR(10))], map[Arr() := TestArray()])
  }

  /** The 39 bytes `record_to_bytes` expects. */
  function TestBytes(): (bs: seq<byte>)
    ensures |bs| == 39
  {
    HeaderBytes() + (ScalarEntryBytes() + ArrayEntryBytes())
  }

  /** The 39 bytes, cut into the header and the two entries. */
  function HeaderBytes(): seq<byte> { [1, 0, 1, 0, 39, 0, 0, 0, 1, 0, 0, 0, 1, 0, 0, 0] }

  function ScalarEntryBytes(): seq<byte> { [115, 99, 97, 108, 0, 1, 10] }

  function ArrayEntryBytes(): seq<byte> { [97, 114, 114, 0, 1, 1, 0, 0, 0, 3, 0, 0, 0, 0, 1, 2] }

  /** The pieces put together are the literal of the test. */
  lemma {:induction false} TestBytesLiteral()
    ensures TestBytes() == [1, 0, 1, 0, 39, 0, 0, 0, 1, 0, 0, 0, 1, 0, 0, 0, 115, 99, 97, 108, 0, 1, 10,
                            97, 114, 114, 0, 1, 1, 0, 0, 0, 3, 0, 0, 0, 0, 1, 2]
  {
  }

  /** The scalar entry of the test record: "scal", its 0, the tag 1, the byte 10. */
  lemma {:induction false} ScalarEntryVector()
    ensures ScalarEntries([Scal()], map[Scal() := RawScalar(CHAR(10))]) == ScalarEntryBytes()
  {
    var scal := Scal();
    var m := map[scal := RawScalar(CHAR(10))];
    ScalarEntriesSplit([scal], m);
    assert [scal][1..] == [];
    ScalarVector();
  }

  /** The array entry of the test record: "arr", its 0, then the test array. */
  lemma {:induction false} ArrayEntryVector()
    ensures ArrayEntries([Arr()], map[Arr() := TestArray()]) == ArrayEntryBytes()
  {
    var arr := Arr();
    var m := map[arr := TestArray()];
    ArrayEntriesSplit([arr], m);
    assert [arr][1..] == [];
    ArrayVector();
  }

  /** The header of the test record: code 65537, size 39, one scalar, one array. */
  lemma {:induction false} HeaderVector()
    ensures I32Bytes(CODE) + I32Bytes(39) + I32Bytes(1) + I32Bytes(1) == HeaderBytes()
  {
    assert ToLE(65537, 4) == ToLE(1, 2) + ToLE(1, 2);
    SmallI32(39);
    SmallI32(1);
  }

  /** `record_to_bytes`: the header, then the two entries. */
  lemma {:induction false} RecordVector()
    ensures RecordToBytes(TestRecord()) == TestBytes()
  {
    var r := TestRecord();
    TestBody();
    HeaderVector();
    assert RecordToBytes(r) == I32Bytes(CODE) + I32Bytes(39) + I32Bytes(1) + I32Bytes(1) + Body(r);
  }

  /** The entries of the test record: 23 bytes. */
  lemma {:induction false} TestBody()
    ensures Serialisable(TestRecord())
    ensures Body(TestRecord()) == ScalarEntryBytes() + ArrayEntryBytes()
  {
    ScalarEntryVector();
    ArrayEntryVector();
  }

  /** The test array is shaped as the decoder expects. */
  lemma {:induction false} TestArrayShaped()
    ensures ArrayShaped(TestArray())
  {
    assert Product([3]) == 3 * Product([]);
  }

  /** The test record is 39 bytes long. */
  lemma {:induction false} TestRecordSize()
    ensures Serialisable(TestRecord()) && EncodedSize(TestRecord()) == 39
  {
    RecordVector();
  }

  /** The tables of the test record are keyed by exactly its listed names. */
  lemma {:induction false} TestRecordKeys()
    ensures TestRecord().scalars.Keys == NameSet(TestRecord().scalarList)
    ensures TestRecord().arrays.Keys == NameSet(TestRecord().arrayList)
  {
    assert TestRecord().scalars.Keys == {Scal()};
    assert TestRecord().arrays.Keys == {Arr()};
  }

  /** The entries of the test record: names without a 0, a CHAR scalar and a
      well-shaped array. */
  lemma {:induction false} TestRecordEntries()
    ensures forall n | n in TestRecord().scalarList :: NoZero(n) && Storable(TestRecord().scalars[n].data)
    ensures forall n | n in TestRecord().arrayList :: NoZero(n) && ArrayShaped(TestRecord().arrays[n])
  {
    TestArrayShaped();
  }

  /** The test record passes every check of the decoder. */
  lemma {:induction false} TestRecordDecodable()
    ensures Decodable(TestRecord())
  {
    TestRecordSize();
    TestRecordKeys();
    TestRecordEntries();
  }

  /** `read_records` reads the 39 bytes back as the test record. */
  lemma {:induction false} RecordVectorDecodes()
    ensures ReadRecords(TestBytes()) == Success([TestRecord()])
  {
    TestRecordDecodable();
    RecordVector();
    RecordRoundTrip(TestRecord());
  }
}
