/** The whole-record round trip: a record `Raw.RecordToBytes` writes is read back
    by `parse_record` as that record, and a stream of such records is read back by
    `read_records` as that stream. */
module RecordTrip {
  import opened Wrappers
  import opened Bytes
  import opened Types
  import opened Raw
  import opened Parse
  import opened RoundTrip

  /** The number of bytes `Raw.RecordToBytes` writes for `r`. */
  function EncodedSize(r: RawRecord): (n: int)
    requires Serialisable(r)
    ensures n == |RecordToBytes(r)|
  {
    16 + |Body(r)|
  }

  /** A record the decoder reads back as itself: positive counts that match its
      name lists, tables keyed by exactly the listed names, names without a 0,
      scalars other than DMAP or a STRING holding a 0, well-shaped arrays, and a
      size that fits the i32 size field. */
  predicate Decodable(r: RawRecord) {
    && Serialisable(r)
    && 0 < r.numScalars == |r.scalarList|
    && 0 < r.numArrays == |r.arrayList|
    && r.scalars.Keys == NameSet(r.scalarList)
    && r.arrays.Keys == NameSet(r.arrayList)
    && EncodedSize(r) < 0x8000_0000
    && (forall n | n in r.scalarList :: NoZero(n) && Storable(r.scalars[n].data))
    && (forall n | n in r.arrayList :: NoZero(n) && ArrayShaped(r.arrays[n]))
  }

  /** An array as `RawDmapArray::to_bytes` can write it and `parse_array` read it:
      at least one dimension, every dimension positive, as many elements as the
      dimensions multiply to, all of the first element's type and none a DMAP or
      a STRING holding a 0. */
  predicate ArrayShaped(a: RawArray) {
    && |a.dimensions| > 0
    && (forall i | 0 <= i < |a.dimensions| :: a.dimensions[i] > 0)
    && |a.data| == Product(a.dimensions)
    && (forall i | 0 <= i < |a.data| :: Storable(a.data[i]) && Key(a.data[i]) == Key(a.data[0]))
  }

  /** Multiplying by a positive factor does not shrink a positive number. */
  lemma {:induction false} GrowsByFactor(a: int, b: int)
    requires a >= 1 && b >= 1
    ensures a <= a * b && b <= a * b
  {
    assert a * b == a * (b - 1) + a;
    assert a * b == (a - 1) * b + b;
  }

  /** A dimension never exceeds the element count. */
  lemma {:induction false} DimAtMostProduct(dims: seq<i32>, i: nat)
    requires i < |dims| && forall j | 0 <= j < |dims| :: dims[j] > 0
    ensures dims[i] <= Product(dims)
    decreases |dims|
  {
    var rest := dims[1..];
    assert forall j | 0 <= j < |rest| :: rest[j] == dims[j + 1];
    var p := Product(rest);
    assert Product(dims) == dims[0] * p;
    GrowsByFactor(dims[0], p);
    if i > 0 {
      DimAtMostProduct(rest, i - 1);
    }
  }

  /** Values of one storable type take at least one byte each, and at least their
      type's width each. */
  lemma {:induction false} ValuesBytesLength(vs: seq<DmapType>, t: DmapType)
    requires forall i | 0 <= i < |vs| :: Storable(vs[i]) && Key(vs[i]) == Key(t)
    ensures |ValuesBytes(vs)| >= |vs| && |ValuesBytes(vs)| >= |vs| * NumBytes(t)
    decreases |vs|
  {
    if |vs| > 0 {
      assert forall i | 0 <= i < |vs[1..]| :: vs[1..][i] == vs[i + 1];
      ValuesBytesLength(vs[1..], t);
      ValuesSplit(vs);
      SameKeySameWidth(vs[0], t);
    }
  }

  /** An array that fits in `size` bytes passes every bound `parse_array` checks
      against a record size of `size`. */
  lemma {:induction false} ArrayFitsOf(a: RawArray, size: int)
    requires ArrayShaped(a) && |ArrayToBytes(a)| <= size
    ensures ArrayFits(a, size)
  {
    ValuesBytesLength(a.data, a.data[0]);
    forall i | 0 <= i < |a.dimensions|
      ensures a.dimensions[i] <= size
    {
      DimAtMostProduct(a.dimensions, i);
    }
  }

  /** Every array entry is part of the array entries. */
  lemma {:induction false} ArrayWithinEntries(names: seq<Text>, m: map<Text, RawArray>, n: Text)
    requires forall k | k in names :: k in m && |m[k].data| > 0
    requires n in names
    ensures |ArrayToBytes(m[n])| <= |ArrayEntries(names, m)|
    decreases |names|
  {
    ArrayEntriesSplit(names, m);
    if names[0] != n {
      assert n in names[1..];
      NonEmptyTail(names, m);
      ArrayWithinEntries(names[1..], m, n);
    }
  }

  /** Every array of a decodable record reads back against the record's size. */
  lemma {:induction false} RecordArraysReadable(r: RawRecord)
    requires Decodable(r)
    ensures forall n | n in r.arrayList :: ArrayReadable(n, r.arrays[n], EncodedSize(r))
  {
    forall n | n in r.arrayList
      ensures ArrayReadable(n, r.arrays[n], EncodedSize(r))
    {
      var a := r.arrays[n];
      ArrayWithinEntries(r.arrayList, r.arrays, n);
      ArrayFitsOf(a, EncodedSize(r));
      ReadableAsOf(a.data, a.data[0]);
    }
  }

  /** Every record of the stream is decodable. */
  predicate AllDecodable(recs: seq<RawRecord>)
    ensures AllDecodable(recs) ==> forall i | 0 <= i < |recs| :: Serialisable(recs[i])
  {
    forall i | 0 <= i < |recs| :: Decodable(recs[i])
  }

  /** One 4-byte header field of an encoded record is read back by `read_data`. */
  lemma {:induction false} HeaderFieldOf(buf: seq<byte>, pos: nat, bs: seq<byte>, i: nat, x: i32)
    requires IsAt(buf, pos, bs) && i + 4 <= |bs| && bs[i..i + 4] == I32Bytes(x)
    ensures ReadI32(buf, pos + i) == Success(Parsed(x, pos + i + 4))
  {
    IsAtSub(buf, pos, bs, i, i + 4);
    ReadI32Of(buf, pos + i, x);
  }

  /** The four header fields of an encoded record are read back. */
  lemma {:induction false} HeaderOf(buf: seq<byte>, pos: nat, r: RawRecord, bs: seq<byte>, size: i32)
    requires Serialisable(r) && size == EncodedSize(r)
    requires bs == RecordToBytes(r) && IsAt(buf, pos, bs)
    ensures ReadI32(buf, pos) == Success(Parsed(CODE, pos + 4))
    ensures ReadI32(buf, pos + 4) == Success(Parsed(size, pos + 8))
    ensures ReadI32(buf, pos + 8) == Success(Parsed(r.numScalars, pos + 12))
    ensures ReadI32(buf, pos + 12) == Success(Parsed(r.numArrays, pos + 16))
  {
    HeaderFieldOf(buf, pos, bs, 0, CODE);
    HeaderFieldOf(buf, pos, bs, 4, size);
    HeaderFieldOf(buf, pos, bs, 8, r.numScalars);
    HeaderFieldOf(buf, pos, bs, 12, r.numArrays);
  }

  /** The scalar entries and the array entries lie one after the other behind the
      header. */
  lemma {:induction false} BodyAt(buf: seq<byte>, pos: nat, r: RawRecord, bs: seq<byte>, mid: int)
    requires Serialisable(r) && bs == RecordToBytes(r) && IsAt(buf, pos, bs)
    requires mid == pos + 16 + |ScalarEntries(r.scalarList, r.scalars)|
    ensures IsAt(buf, pos + 16, ScalarEntries(r.scalarList, r.scalars))
    ensures IsAt(buf, mid, ArrayEntries(r.arrayList, r.arrays))
    ensures mid + |ArrayEntries(r.arrayList, r.arrays)| == pos + |bs|
  {
    IsAtSub(buf, pos, bs, 16, |bs|);
    assert bs[16..|bs|] == Body(r);
    IsAtParts(buf, pos + 16, ScalarEntries(r.scalarList, r.scalars), ArrayEntries(r.arrayList, r.arrays), mid);
  }

  /** Every scalar and array entry of the encoding occupies at least two bytes, so
      the counts cannot exceed the size. */
  lemma {:induction false} CountsFit(r: RawRecord)
    requires Serialisable(r)
    ensures |r.scalarList| + |r.arrayList| <= EncodedSize(r)
  {
  }

  /** The scalar loop reads back the record's scalars. */
  lemma {:induction false} RecordScalarsOf(buf: seq<byte>, pos: nat, r: RawRecord, mid: nat)
    requires Decodable(r)
    requires IsAt(buf, pos, ScalarEntries(r.scalarList, r.scalars))
    requires mid == pos + |ScalarEntries(r.scalarList, r.scalars)|
    ensures pos <= |buf|
    ensures ParseScalars(buf, pos, r.numScalars, Entries([], map[])) == Success(Parsed(Entries(r.scalarList, r.scalars), mid))
  {
    ParseScalarsOf(buf, pos, r.scalarList, r.scalars, mid);
    InsertAll(r.scalarList, r.scalars);
  }

  /** The array loop reads back the record's arrays. */
  lemma {:induction false} RecordArraysOf(buf: seq<byte>, pos: nat, r: RawRecord, size: i32, end: nat)
    requires Decodable(r) && size == EncodedSize(r)
    requires IsAt(buf, pos, ArrayEntries(r.arrayList, r.arrays))
    requires end == pos + |ArrayEntries(r.arrayList, r.arrays)|
    ensures ParseArrays(buf, pos, r.numArrays, size, Entries([], map[])) == Success(Parsed(Entries(r.arrayList, r.arrays), end))
  {
    RecordArraysReadable(r);
    ParseArraysOf(buf, pos, r.arrayList, r.arrays, size, end);
    InsertAll(r.arrayList, r.arrays);
  }

  /** `parse_record` accepts a header that passes its checks followed by scalar
      and array loops that read back the record's entries and end where the size
      field says. */
  lemma {:induction false} RecordOfParts(buf: seq<byte>, pos: nat, r: RawRecord, size: i32, mid: nat, end: nat)
    requires 0 < r.numScalars && 0 < r.numArrays && r.numScalars + r.numArrays <= size
    requires end == pos + size <= |buf|
    requires ReadI32(buf, pos) == Success(Parsed(CODE, pos + 4))
    requires ReadI32(buf, pos + 4) == Success(Parsed(size, pos + 8))
    requires ReadI32(buf, pos + 8) == Success(Parsed(r.numScalars, pos + 12))
    requires ReadI32(buf, pos + 12) == Success(Parsed(r.numArrays, pos + 16))
    requires ParseScalars(buf, pos + 16, r.numScalars, Entries([], map[])) == Success(Parsed(Entries(r.scalarList, r.scalars), mid))
    requires ParseArrays(buf, mid, r.numArrays, size, Entries([], map[])) == Success(Parsed(Entries(r.arrayList, r.arrays), end))
    ensures ParseRecord(buf, pos) == Success(Parsed(r, end))
  {
  }

  /** `parse_record` reads an encoded record back as itself, stopping right after
      it. */
  lemma {:induction false} ParseRecordOf(buf: seq<byte>, pos: nat, r: RawRecord, end: nat)
    requires Decodable(r) && IsAt(buf, pos, RecordToBytes(r)) && end == pos + |RecordToBytes(r)|
    ensures ParseRecord(buf, pos) == Success(Parsed(r, end))
  {
    var bs := RecordToBytes(r);
    var size: i32 := EncodedSize(r);
    var mid := pos + 16 + |ScalarEntries(r.scalarList, r.scalars)|;
    HeaderOf(buf, pos, r, bs, size);
    BodyAt(buf, pos, r, bs, mid);
    IsAtEnd(buf, pos, bs);
    CountsFit(r);
    RecordScalarsOf(buf, pos + 16, r, mid);
    RecordArraysOf(buf, mid, r, size, end);
    RecordOfParts(buf, pos, r, size, mid, end);
  }

  /** Records whose encodings lie one after another up to the end of the buffer
      tile it. */
  lemma {:induction false} TilesOf(buf: seq<byte>, pos: nat, recs: seq<RawRecord>)
    requires AllDecodable(recs)
    requires IsAt(buf, pos, RecordsToBytes(recs)) && pos + |RecordsToBytes(recs)| == |buf|
    ensures Tiles(buf, pos, recs)
    decreases |recs|
  {
    if |recs| > 0 {
      var first := RecordToBytes(recs[0]);
      var rest := RecordsToBytes(recs[1..]);
      var mid := pos + |first|;
      IsAtParts(buf, pos, first, rest, mid);
      ParseRecordOf(buf, pos, recs[0], mid);
      AllDecodableTail(recs);
      TilesOf(buf, mid, recs[1..]);
      TilesCons(buf, pos, recs, mid);
    }
  }

  lemma {:induction false} AllDecodableTail(recs: seq<RawRecord>)
    requires |recs| > 0 && AllDecodable(recs)
    ensures Decodable(recs[0]) && AllDecodable(recs[1..])
  {
    assert forall i | 0 <= i < |recs| - 1 :: recs[1..][i] == recs[i + 1];
  }

  lemma {:induction false} TilesCons(buf: seq<byte>, pos: nat, recs: seq<RawRecord>, mid: nat)
    requires |recs| > 0 && ParseRecord(buf, pos) == Success(Parsed(recs[0], mid))
    requires Tiles(buf, mid, recs[1..])
    ensures Tiles(buf, pos, recs)
  {
  }

  /** A whole buffer lies in itself. */
  lemma {:induction false} IsAtWhole(buf: seq<byte>)
    ensures IsAt(buf, 0, buf)
  {
    IsAtSlice(buf, 0, buf);
  }

  /** Writing records then reading the bytes back yields the same records. */
  lemma {:induction false} RecordsRoundTrip(recs: seq<RawRecord>)
    requires AllDecodable(recs)
    ensures ReadRecords(RecordsToBytes(recs)) == Success(recs)
  {
    var bs := RecordsToBytes(recs);
    IsAtWhole(bs);
    TilesOf(bs, 0, recs);
    ReadRecordsTiles(bs, 0, recs);
  }

  /** `read_records(to_bytes(rec)) == [rec]`. */
  lemma {:induction false} RecordRoundTrip(r: RawRecord)
    requires Decodable(r)
    ensures ReadRecords(RecordToBytes(r)) == Success([r])
  {
    assert AllDecodable([r]);
    RecordsRoundTrip([r]);
    assert RecordsToBytes([r]) == RecordToBytes(r) + RecordsToBytes([]);
    assert RecordToBytes(r) + [] == RecordToBytes(r);
  }
}
