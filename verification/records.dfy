/** The raw DMAP structures (RawDmapScalar, RawDmapArray, RawDmapRecord of
    src/dmap.rs) and their serialisers. The constant `mode` field (6 for scalars,
    7 for arrays) is not stored. */
module Raw {
  import opened Bytes
  import opened Types

  datatype RawScalar = RawScalar(data: DmapType)

  /** A multi-dimensional array, flattened row-major into `data`. */
  datatype RawArray = RawArray(dimensions: seq<i32>, data: seq<DmapType>)

  /** A record: the name lists fix the wire order, the maps hold the entries. */
  datatype RawRecord = RawRecord(
    numScalars: i32,
    numArrays: i32,
    scalarList: seq<Text>,
    arrayList: seq<Text>,
    scalars: map<Text, RawScalar>,
    arrays: map<Text, RawArray>)

  /** The set of names a name list mentions. */
  function NameSet(names: seq<Text>): (s: set<Text>)
    ensures forall n :: n in s <==> n in names
  {
    set n | n in names
  }

  lemma {:induction false} NameSetAppend(names: seq<Text>, n: Text)
    ensures NameSet(names + [n]) == NameSet(names) + {n}
  {
    assert forall x :: x in names + [n] <==> x in names || x == n;
  }

  /** The number of elements an array with these dimensions holds. */
  function Product(dims: seq<i32>): (p: int)
    ensures (forall i | 0 <= i < |dims| :: dims[i] > 0) ==> p >= 1
  {
    if |dims| == 0 then 1 else dims[0] * Product(dims[1..])
  }

  /** The record code written in every header. */
  const CODE: i32 := 65537

  /** One byte holding a wire tag, written as `DmapType::CHAR(key)`. */
  function KeyByte(t: DmapType): (bs: seq<byte>)
    ensures bs == [Key(t)]
  {
    ToBytes(CHAR(Key(t)))
  }

  function ScalarToBytes(s: RawScalar): (bs: seq<byte>)
    ensures |bs| == 1 + |ToBytes(s.data)|
    ensures bs[0] == Key(s.data) && bs[1..] == ToBytes(s.data)
  {
    KeyByte(s.data) + ToBytes(s.data)
  }

  /** The 4-byte little-endian two's-complement form of an i32. */
  function I32Bytes(x: i32): (bs: seq<byte>)
    ensures |bs| == 4
  {
    ToBytes(INT(x))
  }

  function DimsBytes(dims: seq<i32>): (bs: seq<byte>)
    ensures |bs| == 4 * |dims|
  {
    if |dims| == 0 then [] else I32Bytes(dims[0]) + DimsBytes(dims[1..])
  }

  /** The values' bytes, one after another in order. */
  function ValuesBytes(vs: seq<DmapType>): (bs: seq<byte>)
    decreases |vs|, 1
  {
    if |vs| == 0 then [] else ValuesCons(vs)
  }

  /** The first value's bytes, then the rest's. Kept apart from ValuesBytes so
      that unfolding the list once does not also unfold a value's encoding. */
  function ValuesCons(vs: seq<DmapType>): (bs: seq<byte>)
    requires |vs| > 0
    decreases |vs|, 0
  {
    ToBytes(vs[0]) + ValuesBytes(vs[1..])
  }

  /** An array: the tag of its first element, the dimension count, the dimensions,
      then every element. The first element's tag stands for all of them. */
  function ArrayToBytes(a: RawArray): (bs: seq<byte>)
    requires |a.data| > 0
    ensures |bs| == 5 + 4 * |a.dimensions| + |ValuesBytes(a.data)|
    ensures bs[0] == Key(a.data[0])
  {
    KeyByte(a.data[0]) + I32Bytes(Wrap32(|a.dimensions|)) + DimsBytes(a.dimensions) + ValuesBytes(a.data)
  }

  /** A named entry: the name, its 0 terminator, the entry's bytes. */
  function Entry(name: Text, bs: seq<byte>): (e: seq<byte>)
    ensures |e| == |name| + 1 + |bs|
    ensures e[..|name|] == name && e[|name|] == 0 && e[|name| + 1..] == bs
  {
    name + [0] + bs
  }

  /** The scalar entries for `names`, one after another in order. */
  function ScalarEntries(names: seq<Text>, m: map<Text, RawScalar>): (bs: seq<byte>)
    requires forall n | n in names :: n in m
    ensures |bs| >= 2 * |names|
    decreases |names|, 1
  {
    if |names| == 0 then [] else ScalarEntriesCons(names, m)
  }

  /** The first scalar entry, then the rest. Kept apart from ScalarEntries so
      that unfolding the list once does not also unfold an entry's encoding. */
  function ScalarEntriesCons(names: seq<Text>, m: map<Text, RawScalar>): (bs: seq<byte>)
    requires |names| > 0 && forall n | n in names :: n in m
    ensures |bs| >= 2 * |names|
    decreases |names|, 0
  {
    Entry(names[0], ScalarToBytes(m[names[0]])) + ScalarEntries(names[1..], m)
  }

  /** The array entries for `names`, one after another in order. */
  function ArrayEntries(names: seq<Text>, m: map<Text, RawArray>): (bs: seq<byte>)
    requires forall n | n in names :: n in m && |m[n].data| > 0
    ensures |bs| >= 6 * |names|
    decreases |names|, 1
  {
    if |names| == 0 then [] else ArrayEntriesCons(names, m)
  }

  /** The first array entry, then the rest, as for scalars. */
  function ArrayEntriesCons(names: seq<Text>, m: map<Text, RawArray>): (bs: seq<byte>)
    requires |names| > 0 && forall n | n in names :: n in m && |m[n].data| > 0
    ensures |bs| >= 6 * |names|
    decreases |names|, 0
  {
    var e := Entry(names[0], ArrayToBytes(m[names[0]]));
    assert |e| >= 6;
    e + ArrayEntries(names[1..], m)
  }

  /** What serialising a record needs of it: every listed name has an entry, and
      every array has a first element. The source panics otherwise. */
  predicate Serialisable(r: RawRecord) {
    && (forall n | n in r.scalarList :: n in r.scalars)
    && (forall n | n in r.arrayList :: n in r.arrays && |r.arrays[n].data| > 0)
  }

  function Body(r: RawRecord): seq<byte>
    requires Serialisable(r)
  {
    ScalarEntries(r.scalarList, r.scalars) + ArrayEntries(r.arrayList, r.arrays)
  }

  /** A record: the 16-byte header (code, total size, scalar count, array count),
      the scalars in `scalarList` order, then the arrays in `arrayList` order. The
      size field counts the whole output, header included, whenever that fits an i32. */
  function RecordToBytes(r: RawRecord): (bs: seq<byte>)
    requires Serialisable(r)
    ensures |bs| == 16 + |Body(r)|
    ensures bs[..4] == I32Bytes(CODE)
    ensures |bs| < 0x8000_0000 ==> bs[4..8] == I32Bytes(|bs|)
    ensures bs[8..12] == I32Bytes(r.numScalars) && bs[12..16] == I32Bytes(r.numArrays)
    ensures bs[16..] == Body(r)
  {
    var body := Body(r);
    // `data_bytes.len() as i32 + 16`, with the release-mode wrap-around
    var size := Wrap32(Wrap32(|body|) + 16);
    I32Bytes(CODE) + I32Bytes(size) + I32Bytes(r.numScalars) + I32Bytes(r.numArrays) + body
  }

  /** The byte stream `to_file` writes: every record's bytes, in order. */
  function RecordsToBytes(recs: seq<RawRecord>): (bs: seq<byte>)
    requires forall i | 0 <= i < |recs| :: Serialisable(recs[i])
    ensures |bs| >= 16 * |recs|
  {
    if |recs| == 0 then [] else RecordToBytes(recs[0]) + RecordsToBytes(recs[1..])
  }

  /** What `parse_array` guarantees of an array it accepts: at least one dimension,
      every dimension and the element count within the record size, as many
      elements as the dimensions multiply to, all of one type. */
  predicate ArrayFits(a: RawArray, size: int) {
    && 0 < |a.dimensions| <= size
    && (forall i | 0 <= i < |a.dimensions| :: 0 < a.dimensions[i] <= size)
    && 0 < |a.data| == Product(a.dimensions) <= size
    && Product(a.dimensions) * NumBytes(a.data[0]) <= size
    && (forall i | 0 <= i < |a.data| :: Key(a.data[i]) == Key(a.data[0]))
  }
}
