/** The DMAP decoder of src/dmap.rs: `read_data`, `parse_scalar`, `parse_array`,
    `parse_record` and the loop of `read_records`. The source moves one cursor
    through an in-memory buffer; here every step takes the buffer and a position
    and returns what it read together with the position just past it. */
module Parse {
  import opened Wrappers
  import opened Bytes
  import Utf8
  import opened Types
  import opened Raw

  type Outcome<T> = Result<T, DmapError>

  /** A decoded item and the cursor position just past its bytes. */
  datatype Parsed<T> = Parsed(value: T, next: nat)

  /** The entries of one kind read so far: names in wire order, and the map the
      source inserts them into (a later entry replaces an earlier one of the same name). */
  datatype Entries<T> = Entries(names: seq<Text>, table: map<Text, T>)

  /** `bytes` lies in `buf` starting at `pos`, byte by byte. */
  predicate IsAt(buf: seq<byte>, pos: nat, bytes: seq<byte>)
    decreases |bytes|
  {
    if |bytes| == 0 then pos <= |buf|
    else pos < |buf| && buf[pos] == bytes[0] && IsAt(buf, pos + 1, bytes[1..])
  }

  /** IsAt is the slice equation. */
  lemma {:induction false} IsAtSlice(buf: seq<byte>, pos: nat, bytes: seq<byte>)
    ensures IsAt(buf, pos, bytes) <==> pos + |bytes| <= |buf| && buf[pos..pos + |bytes|] == bytes
    decreases |bytes|
  {
    if |bytes| > 0 {
      IsAtSlice(buf, pos + 1, bytes[1..]);
      if pos + |bytes| <= |buf| {
        assert buf[pos..pos + |bytes|] == [buf[pos]] + buf[pos + 1..pos + 1 + |bytes[1..]|];
        assert bytes == [bytes[0]] + bytes[1..];
      }
    }
  }

  /** The position of the first 0 byte at or after `i`, if there is one. */
  function FirstZero(buf: seq<byte>, i: nat): (r: Option<nat>)
    requires i <= |buf|
    ensures r.Some? ==> i <= r.value < |buf| && buf[r.value] == 0
    ensures r.Some? ==> forall j | i <= j < r.value :: buf[j] != 0
    ensures r.None? ==> forall j | i <= j < |buf| :: buf[j] != 0
    decreases |buf| - i
  {
    if i == |buf| then None
    else if buf[i] == 0 then Some(i)
    else FirstZero(buf, i + 1)
  }

  /** The STRING branch of `read_data`: the bytes up to the first 0, which must
      exist and be UTF-8; the cursor moves past the 0. The scan indexes the buffer
      before it tests the bound, so a read at the very end of the buffer is an
      out-of-bounds index in the source. */
  function ReadString(buf: seq<byte>, pos: nat): (r: Outcome<Parsed<Text>>)
    requires pos <= |buf|
    ensures r.Success? ==>
      && r.value.next == pos + |r.value.value| + 1 <= |buf|
      && buf[pos..r.value.next - 1] == r.value.value
      && buf[r.value.next - 1] == 0
    ensures r.Success? ==> forall j | 0 <= j < |r.value.value| :: r.value.value[j] != 0
    ensures (forall j | pos <= j < |buf| :: buf[j] != 0) ==> r.Failure?
  {
    if pos == |buf| then Failure(IndexOutOfBounds)
    else
      match FirstZero(buf, pos)
      case None => Failure(UnterminatedString)
      case Some(z) =>
        if !Utf8.Valid(buf[pos..z]) then Failure(InvalidUtf8)
        else
          var bytes: Text := buf[pos..z];
          Success(Parsed(bytes, z + 1))
  }

  /** `read_data` for the fixed-width types: the two bounds checks, then a
      little-endian load of exactly the type's width. */
  function ReadFixed(buf: seq<byte>, pos: nat, t: DmapType): (r: Outcome<Parsed<DmapType>>)
    requires !t.DMAP? && !t.STRING?
    ensures pos > |buf| ==> r == Failure(CursorOutOfBuffer)
    ensures r.Success? <==> pos + NumBytes(t) <= |buf|
    ensures r.Success? ==> r.value.next == pos + NumBytes(t) && Key(r.value.value) == Key(t)
  {
    if pos > |buf| then Failure(CursorOutOfBuffer)
    else if |buf| - pos < NumBytes(t) then Failure(NotEnoughBytes)
    else
      var next := pos + NumBytes(t);
      Success(Parsed(FromBytes(buf[pos..next], t), next))
  }

  /** What a fixed-width read accepts is exactly the value's own encoding. */
  lemma {:induction false} ReadFixedLayout(buf: seq<byte>, pos: nat, t: DmapType)
    requires !t.DMAP? && !t.STRING? && ReadFixed(buf, pos, t).Success?
    ensures buf[pos..ReadFixed(buf, pos, t).value.next] == ToBytes(ReadFixed(buf, pos, t).value.value)
  {
    ToBytesOfFromBytes(buf[pos..pos + NumBytes(t)], t);
  }

  /** `read_data` for every type but DMAP. For STRING the width check is vacuous
      (the width is 0), so only the cursor check precedes the scan. */
  function ReadPrim(buf: seq<byte>, pos: nat, t: DmapType): (r: Outcome<Parsed<DmapType>>)
    requires !t.DMAP?
    ensures pos > |buf| ==> r == Failure(CursorOutOfBuffer)
    ensures r.Success? ==> pos <= r.value.next <= |buf| && Key(r.value.value) == Key(t)
  {
    if !t.STRING? then ReadFixed(buf, pos, t)
    else if pos > |buf| then Failure(CursorOutOfBuffer)
    else
      var s :- ReadString(buf, pos);
      Success(Parsed(STRING(s.value), s.next))
  }

  /** What `read_data` accepts for a non-DMAP type is exactly the encoding of
      the value it returns. */
  lemma {:induction false} ReadPrimLayout(buf: seq<byte>, pos: nat, t: DmapType)
    requires !t.DMAP? && ReadPrim(buf, pos, t).Success?
    ensures buf[pos..ReadPrim(buf, pos, t).value.next] == ToBytes(ReadPrim(buf, pos, t).value.value)
  {
    if !t.STRING? {
      ReadFixedLayout(buf, pos, t);
    } else {
      var s := ReadString(buf, pos).value;
      assert buf[pos..s.next] == buf[pos..s.next - 1] + [buf[s.next - 1]];
    }
  }

  /** `read_data` for the fixed-width types as the source writes it: USHORT, UINT,
      LONG and ULONG go through `bytemuck::try_from_bytes`, which refuses a window
      whose address is not a multiple of the type's size, where every other type
      uses an unaligned read. `base` is the address of the buffer's first byte. */
  function ReadPrimAsWritten(buf: seq<byte>, base: nat, pos: nat, t: DmapType): (r: Outcome<Parsed<DmapType>>)
    requires !t.DMAP?
    ensures r.Success? ==> r == ReadPrim(buf, pos, t)
    ensures r.Success? <==> ReadPrim(buf, pos, t).Success? && (base + pos) % Align(t) == 0
    ensures ReadPrim(buf, pos, t).Success? && r.Failure? ==> r.error == CastError
  {
    if pos > |buf| then Failure(CursorOutOfBuffer)
    else if |buf| - pos < NumBytes(t) then Failure(NotEnoughBytes)
    else if (base + pos) % Align(t) != 0 then Failure(CastError)
    else ReadPrim(buf, pos, t)
  }

  /** A UINT tag followed by the four bytes of 5, in a buffer whose first byte sits
      at a 4-aligned address: the payload starts at offset 1, so the source's
      aligned cast refuses bytes that the unaligned read decodes as 5. */
  lemma {:induction false} MisalignedUintIsRefused(base: nat)
    requires base % 4 == 0
    ensures ReadPrim([18, 5, 0, 0, 0], 1, UINT(0)) == Success(Parsed(UINT(5), 5))
    ensures ReadPrimAsWritten([18, 5, 0, 0, 0], base, 1, UINT(0)) == Failure(CastError)
  {
    var buf: seq<byte> := [18, 5, 0, 0, 0];
    assert buf[1..5] == [5, 0, 0, 0];
    FromBytesOfToBytes(UINT(5), UINT(0));
    assert ToBytes(UINT(5)) == [5, 0, 0, 0];
  }

  /** An INT read by `read_data` and unwrapped, as the header, the dimension count
      and the dimensions are read: the bounds checks, then a 4-byte
      little-endian two's-complement load. */
  function ReadI32(buf: seq<byte>, pos: nat): (r: Outcome<Parsed<i32>>)
    ensures pos > |buf| ==> r == Failure(CursorOutOfBuffer)
    ensures r.Success? <==> pos + 4 <= |buf|
    ensures r.Success? ==> r.value.next == pos + 4 && buf[pos..pos + 4] == I32Bytes(r.value.value)
  {
    if pos > |buf| then Failure(CursorOutOfBuffer)
    else if |buf| - pos < 4 then Failure(NotEnoughBytes)
    else
      var u := FromLE(buf[pos..pos + 4]);
      ToLEOfFromLE(buf[pos..pos + 4]);
      UnsignedOfSigned(u, 4);
      var x: i32 := Signed(u, 4);
      Success(Parsed(x, pos + 4))
  }

  /** ReadI32 is `read_data` for INT followed by the match that unwraps the INT. */
  lemma {:induction false} ReadI32IsReadData(buf: seq<byte>, pos: nat)
    ensures ReadI32(buf, pos).Failure? ==> ReadFixed(buf, pos, INT(0)) == Failure(ReadI32(buf, pos).error)
    ensures ReadI32(buf, pos).Success? ==>
      ReadFixed(buf, pos, INT(0)) == Success(Parsed(INT(ReadI32(buf, pos).value.value), pos + 4))
  {
  }

  /** A one-byte type tag, read by `read_data` as the signed CHAR it is written as. */
  function ReadKey(buf: seq<byte>, pos: nat): (r: Outcome<Parsed<i8>>)
    ensures pos > |buf| ==> r == Failure(CursorOutOfBuffer)
    ensures r.Success? <==> pos < |buf|
    ensures r.Success? ==> r.value.next == pos + 1
    ensures r.Success? && buf[pos] < 0x80 ==> r.value.value == buf[pos]
    ensures r.Success? && buf[pos] >= 0x80 ==> r.value.value < 0
  {
    if pos > |buf| then Failure(CursorOutOfBuffer)
    else if |buf| - pos < 1 then Failure(NotEnoughBytes)
    else
      var c: i8 := Signed(buf[pos], 1);
      Success(Parsed(c, pos + 1))
  }

  /** ReadKey is `read_data` for CHAR followed by the match that unwraps the CHAR. */
  lemma {:induction false} ReadKeyIsReadData(buf: seq<byte>, pos: nat)
    ensures ReadKey(buf, pos).Failure? ==> ReadFixed(buf, pos, CHAR(0)) == Failure(ReadKey(buf, pos).error)
    ensures ReadKey(buf, pos).Success? ==>
      ReadFixed(buf, pos, CHAR(0)) == Success(Parsed(CHAR(ReadKey(buf, pos).value.value), pos + 1))
  {
  }

  /** A 0-terminated UTF-8 name, read as a STRING. */
  function ReadName(buf: seq<byte>, pos: nat): (r: Outcome<Parsed<Text>>)
    ensures pos > |buf| ==> r == Failure(CursorOutOfBuffer)
    ensures r.Success? ==> r.value.next == pos + |r.value.value| + 1
    ensures r.Success? ==> IsAt(buf, pos, r.value.value + [0])
    ensures r.Success? ==> forall j | 0 <= j < |r.value.value| :: r.value.value[j] != 0
  {
    if pos > |buf| then Failure(CursorOutOfBuffer)
    else
      var s :- ReadString(buf, pos);
      IsAtSlice(buf, pos, s.value + [0]);
      assert buf[pos..pos + |s.value| + 1] == buf[pos..s.next - 1] + [buf[s.next - 1]];
      Success(s)
  }

  /** ReadName is `read_data` for STRING followed by the match that unwraps the STRING. */
  lemma {:induction false} ReadNameIsReadData(buf: seq<byte>, pos: nat)
    ensures ReadName(buf, pos).Failure? ==> ReadPrim(buf, pos, STRING([])) == Failure(ReadName(buf, pos).error)
    ensures ReadName(buf, pos).Success? ==>
      ReadPrim(buf, pos, STRING([])) == Success(Parsed(STRING(ReadName(buf, pos).value.value), ReadName(buf, pos).value.next))
  {
  }

  /** `read_data`, DMAP included: a DMAP value parses a whole record at the cursor
      and then puts the cursor back where it was (the source adds the DMAP width, 0,
      to the starting position). */
  function ReadData(buf: seq<byte>, pos: nat, t: DmapType): (r: Outcome<Parsed<DmapType>>)
    ensures r.Success? ==> pos <= r.value.next <= |buf| && Key(r.value.value) == Key(t)
    ensures t.DMAP? && r.Success? ==> r.value.next == pos
    ensures t.DMAP? ==> (r.Success? <==> ParseRecord(buf, pos).Success?)
    decreases |buf| - pos, 1, 0
  {
    if t.DMAP? then
      if pos > |buf| then Failure(CursorOutOfBuffer)
      else
        var rec :- ParseRecord(buf, pos);
        Success(Parsed(DMAP, pos))
    else ReadPrim(buf, pos, t)
  }

  /** `n` values of type `t`, one after another. */
  function ReadElements(buf: seq<byte>, pos: nat, n: nat, t: DmapType): (r: Outcome<Parsed<seq<DmapType>>>)
    requires pos <= |buf|
    ensures r.Success? ==> pos <= r.value.next <= |buf| && |r.value.value| == n
    ensures r.Success? ==> forall v | v in r.value.value :: Key(v) == Key(t)
    decreases |buf| - pos, 2, n, 1
  {
    if t.DMAP? then ReadDmapElements(buf, pos, n) else ReadPrimElements(buf, pos, n, t)
  }

  /** The element loop for DMAP: each element parses the record at the cursor,
      which `read_data` does not advance, so every element parses the same
      record and the loop ends where it began. */
  function ReadDmapElements(buf: seq<byte>, pos: nat, n: nat): (r: Outcome<Parsed<seq<DmapType>>>)
    requires pos <= |buf|
    ensures r.Success? ==> pos <= r.value.next <= |buf| && |r.value.value| == n
    ensures r.Success? ==> forall v | v in r.value.value :: Key(v) == Key(DMAP)
    ensures r.Success? ==> r.value.next == pos
    decreases |buf| - pos, 2, n, 0
  {
    if n == 0 then Success(Parsed([], pos))
    else
      var v :- ReadData(buf, pos, DMAP);
      var rest :- ReadDmapElements(buf, v.next, n - 1);
      Success(Parsed([v.value] + rest.value, rest.next))
  }

  /** The element loop for every other type: each element is read and the
      cursor moves past it. */
  function ReadPrimElements(buf: seq<byte>, pos: nat, n: nat, t: DmapType): (r: Outcome<Parsed<seq<DmapType>>>)
    requires pos <= |buf| && !t.DMAP?
    ensures r.Success? ==> pos <= r.value.next <= |buf| && |r.value.value| == n
    ensures r.Success? ==> forall v | v in r.value.value :: Key(v) == Key(t)
    decreases n
  {
    if n == 0 then Success(Parsed([], pos))
    else
      var v :- ReadPrim(buf, pos, t);
      var rest :- ReadPrimElements(buf, v.next, n - 1, t);
      Success(Parsed([v.value] + rest.value, rest.next))
  }


  /** `n` array dimensions, each checked to lie in 1..size as soon as it is read. */
  function ReadDims(buf: seq<byte>, pos: nat, n: nat, size: i32): (r: Outcome<Parsed<seq<i32>>>)
    requires pos <= |buf|
    ensures r.Success? ==> |r.value.value| == n && r.value.next == pos + 4 * n <= |buf|
    ensures r.Success? ==> forall i | 0 <= i < n :: 0 < r.value.value[i] <= size
    decreases n
  {
    if n == 0 then Success(Parsed([], pos))
    else
      var d :- ReadI32(buf, pos);
      if d.value <= 0 then Failure(NonPositiveDim)
      else if d.value > size then Failure(DimExceedsSize)
      else
        var rest :- ReadDims(buf, d.next, n - 1, size);
        Success(Parsed([d.value] + rest.value, rest.next))
  }

  /** The name and the type tag that open both a scalar and an array entry. */
  function ReadEntryHead(buf: seq<byte>, pos: nat): (r: Outcome<Parsed<(Text, i8)>>)
    ensures r.Success? ==>
      var (name, key) := r.value.value;
      && IsAt(buf, pos, name + [0])
      && r.value.next == pos + |name| + 2 <= |buf|
      && (key >= 0 ==> buf[pos + |name| + 1] == key)
  {
    var name :- ReadName(buf, pos);
    var key :- ReadKey(buf, name.next);
    assert key.value >= 0 ==> buf[name.next] == key.value by {
      if buf[name.next] >= 0x80 { assert key.value < 0; }
    }
    Success(Parsed((name.value, key.value), key.next))
  }

  /** `parse_scalar`: a name, a tag, then the value the tag announces. */
  function ParseScalar(buf: seq<byte>, pos: nat): (r: Outcome<Parsed<(Text, RawScalar)>>)
    ensures r.Success? ==> pos < r.value.next <= |buf|
    decreases |buf| - pos, 3, 0
  {
    var head :- ReadEntryHead(buf, pos);
    var v :- ScalarData(buf, head.next, head.value.1);
    Success(Parsed((head.value.0, RawScalar(v.value)), v.next))
  }

  /** An accepted scalar entry starts with its name, a 0 and the tag of its value. */
  lemma {:induction false} ParseScalarLayout(buf: seq<byte>, pos: nat)
    requires ParseScalar(buf, pos).Success?
    ensures
      var (name, s) := ParseScalar(buf, pos).value.value;
      && IsAt(buf, pos, name + [0])
      && pos + |name| + 1 < |buf|
      && buf[pos + |name| + 1] == Key(s.data)
  {
    var head := ReadEntryHead(buf, pos).value;
    var v := ScalarData(buf, head.next, head.value.1).value;
    assert head.value.1 == Key(v.value) >= 0;
  }

  /** The part of `parse_scalar` after the tag: the tag must be in the table; a
      DMAP tag parses a nested record and keeps only the DMAP marker, any other
      tag reads one value of its type. */
  function ScalarData(buf: seq<byte>, pos: nat, key: i8): (r: Outcome<Parsed<DmapType>>)
    ensures r.Success? ==> pos <= r.value.next <= |buf| && Key(r.value.value) == key
    ensures key !in AllKeys() ==> r == Failure(BadScalarType(key))
    decreases |buf| - pos, 2, 0
  {
    if key !in AllKeys() then Failure(BadScalarType(key))
    else
      match TypeFromKey(key)
      case Failure(e) => Failure(e)
      case Success(t) =>
        if t.DMAP? then
          var rec :- ParseRecord(buf, pos);
          Success(Parsed(DMAP, rec.next))
        else ReadData(buf, pos, t)
  }

  /** The `for _ in 0..num_scalars` loop of `parse_record`. */
  function ParseScalars(buf: seq<byte>, pos: nat, n: nat, acc: Entries<RawScalar>): (r: Outcome<Parsed<Entries<RawScalar>>>)
    requires pos <= |buf|
    ensures r.Success? ==> pos <= r.value.next <= |buf|
    ensures r.Success? ==>
      && |r.value.value.names| == |acc.names| + n
      && r.value.value.names[..|acc.names|] == acc.names
    ensures r.Success? && acc.table.Keys == NameSet(acc.names) ==>
      r.value.value.table.Keys == NameSet(r.value.value.names)
    decreases |buf| - pos, 4, n
  {
    if n == 0 then Success(Parsed(acc, pos))
    else
      var e :- ParseScalar(buf, pos);
      var (name, s) := e.value;
      var acc' := Entries(acc.names + [name], acc.table[name := s]);
      assert acc'.names[..|acc.names|] == acc.names;
      NameSetAppend(acc.names, name);
      ParseScalars(buf, e.next, n - 1, acc')
  }

  /** The dimension count and the dimensions of an array of type `t`, with every
      bound `parse_array` checks against the record size before it reads elements. */
  function ArrayShape(buf: seq<byte>, pos: nat, size: i32, t: DmapType): (r: Outcome<Parsed<seq<i32>>>)
    ensures r.Success? ==> pos < r.value.next <= |buf|
    ensures r.Success? ==>
      var dims := r.value.value;
      && 0 < |dims| <= size
      && (forall i | 0 <= i < |dims| :: 0 < dims[i] <= size)
      && 0 < Product(dims) <= size
      && Product(dims) * NumBytes(t) <= size
  {
    var ndims :- ReadI32(buf, pos);
    if ndims.value > size then Failure(TooManyDimensions)
    else if ndims.value <= 0 then Failure(NonPositiveDimensions)
    else
      var dims :- ReadDims(buf, ndims.next, ndims.value, size);
      var total := Product(dims.value);
      if total > size then Failure(TooManyElements)
      else if total * NumBytes(t) > size then Failure(ArrayExceedsSize)
      else Success(dims)
  }

  /** `parse_array`: a name, a tag from the table, the shape, then the elements. */
  function ParseArray(buf: seq<byte>, pos: nat, size: i32): (r: Outcome<Parsed<(Text, RawArray)>>)
    ensures r.Success? ==> pos < r.value.next <= |buf|
    decreases |buf| - pos, 3, 0
  {
    var head :- ReadEntryHead(buf, pos);
    var a :- ArrayData(buf, head.next, size, head.value.1);
    Success(Parsed((head.value.0, a.value), a.next))
  }

  /** An accepted array entry starts with its name, a 0 and the tag of its
      elements, and its shape passed every bound against the record size. */
  lemma {:induction false} ParseArrayLayout(buf: seq<byte>, pos: nat, size: i32, name: Text, a: RawArray, end: nat)
    requires ParseArray(buf, pos, size) == Success(Parsed((name, a), end))
    ensures ArrayFits(a, size)
    ensures IsAt(buf, pos, name + [0]) && pos + |name| + 1 < |buf|
    ensures buf[pos + |name| + 1] == Key(a.data[0])
  {
    var head := ParseArrayParts(buf, pos, size, name, a, end);
    ArrayDataFits(buf, head.next, size, head.value.1, a, end);
    TagByteOf(buf, pos, head, name, Key(a.data[0]));
  }

  lemma {:induction false} ArrayDataFits(buf: seq<byte>, pos: nat, size: i32, k: i8, a: RawArray, end: nat)
    requires ArrayData(buf, pos, size, k) == Success(Parsed(a, end))
    ensures ArrayFits(a, size) && Key(a.data[0]) == k
  {
  }

  /** The tag read after a name is the byte stored there, when it is not negative. */
  lemma {:induction false} TagByteOf(buf: seq<byte>, pos: nat, head: Parsed<(Text, i8)>, name: Text, k: i8)
    requires ReadEntryHead(buf, pos) == Success(head) && head.value == (name, k) && k >= 0
    ensures pos + |name| + 1 < |buf| && buf[pos + |name| + 1] == k
  {
  }

  /** The two reads an accepted array entry is made of. */
  lemma {:induction false} ParseArrayParts(buf: seq<byte>, pos: nat, size: i32, name: Text, a: RawArray, end: nat)
      returns (head: Parsed<(Text, i8)>)
    requires ParseArray(buf, pos, size) == Success(Parsed((name, a), end))
    ensures ReadEntryHead(buf, pos) == Success(head) && head.value.0 == name
    ensures ArrayData(buf, head.next, size, head.value.1) == Success(Parsed(a, end))
  {
    head := ReadEntryHead(buf, pos).value;
  }

  /** The part of `parse_array` after the tag: the tag must be in the table, then
      the shape and the elements. */
  function ArrayData(buf: seq<byte>, pos: nat, size: i32, key: i8): (r: Outcome<Parsed<RawArray>>)
    ensures r.Success? ==> pos < r.value.next <= |buf|
    ensures r.Success? ==> ArrayFits(r.value.value, size) && Key(r.value.value.data[0]) == key
    ensures key !in AllKeys() ==> r == Failure(BadArrayType(key))
    decreases |buf| - pos, 2, 1
  {
    if key !in AllKeys() then Failure(BadArrayType(key))
    else
      match TypeFromKey(key)
      case Failure(e) => Failure(e)
      case Success(t) =>
        var dims :- ArrayShape(buf, pos, size, t);
        var data :- ReadElements(buf, dims.next, Product(dims.value), t);
        SameKeySameWidth(data.value[0], t);
        Success(Parsed(RawArray(dims.value, data.value), data.next))
  }

  /** The `for _ in 0..num_arrays` loop of `parse_record`. */
  function ParseArrays(buf: seq<byte>, pos: nat, n: nat, size: i32, acc: Entries<RawArray>): (r: Outcome<Parsed<Entries<RawArray>>>)
    requires pos <= |buf|
    ensures r.Success? ==> pos <= r.value.next <= |buf|
    ensures r.Success? ==>
      && |r.value.value.names| == |acc.names| + n
      && r.value.value.names[..|acc.names|] == acc.names
    ensures r.Success? && acc.table.Keys == NameSet(acc.names) ==>
      r.value.value.table.Keys == NameSet(r.value.value.names)
    decreases |buf| - pos, 4, n
  {
    if n == 0 then Success(Parsed(acc, pos))
    else
      var e :- ParseArray(buf, pos, size);
      var (name, a) := e.value;
      var acc' := Entries(acc.names + [name], acc.table[name := a]);
      assert acc'.names[..|acc.names|] == acc.names;
      NameSetAppend(acc.names, name);
      ParseArrays(buf, e.next, n - 1, size, acc')
  }

  /** `parse_record`: the header (code, size, scalar count, array count) with its
      integrity checks, the scalars, the arrays, and the final check that the
      bytes consumed equal the size field. The code is read but not checked. */
  function ParseRecord(buf: seq<byte>, pos: nat): (r: Outcome<Parsed<RawRecord>>)
    ensures r.Success? ==> pos + 16 <= r.value.next <= |buf|
    decreases |buf| - pos, 0, 0
  {
    var code :- ReadI32(buf, pos);
    var size :- ReadI32(buf, code.next);
    // the 8 bytes of code and size belong to the record too
    if AsU64(size.value) > |buf| - size.next + 2 * NumBytes(INT(0)) then Failure(SizeExceedsBuffer)
    else if size.value <= 0 then Failure(NonPositiveSize)
    else
      var ns :- ReadI32(buf, size.next);
      var na :- ReadI32(buf, ns.next);
      if ns.value <= 0 then Failure(NonPositiveScalarCount)
      else if na.value <= 0 then Failure(NonPositiveArrayCount)
      else if ns.value + na.value > size.value then Failure(TooManyEntries)
      else
        var scalars :- ParseScalars(buf, na.next, ns.value, Entries([], map[]));
        var arrays :- ParseArrays(buf, scalars.next, na.value, size.value, Entries([], map[]));
        if arrays.next - pos != size.value then Failure(SizeMismatch(arrays.next - pos, size.value))
        else
          Success(Parsed(RawRecord(ns.value, na.value, scalars.value.names, arrays.value.names,
                                   scalars.value.table, arrays.value.table), arrays.next))
  }

  /** What an accepted record satisfies: positive counts that match the name
      lists and are the header's count fields, name sets that match the tables,
      and a size field equal to the number of bytes the record took. */
  lemma {:induction false} ParseRecordHeader(buf: seq<byte>, pos: nat)
    requires ParseRecord(buf, pos).Success?
    ensures
      var p := ParseRecord(buf, pos).value;
      var rec := p.value;
      && 0 < rec.numScalars == |rec.scalarList|
      && 0 < rec.numArrays == |rec.arrayList|
      && rec.scalars.Keys == NameSet(rec.scalarList)
      && rec.arrays.Keys == NameSet(rec.arrayList)
      && rec.numScalars + rec.numArrays <= p.next - pos < 0x8000_0000
      && buf[pos + 4..pos + 8] == I32Bytes(p.next - pos)
      && buf[pos + 8..pos + 12] == I32Bytes(rec.numScalars)
      && buf[pos + 12..pos + 16] == I32Bytes(rec.numArrays)
  {
    var code := ReadI32(buf, pos).value;
    var size := ReadI32(buf, code.next).value;
    var ns := ReadI32(buf, size.next).value;
    var na := ReadI32(buf, ns.next).value;
    var scalars := ParseScalars(buf, na.next, ns.value, Entries([], map[])).value;
    var arrays := ParseArrays(buf, scalars.next, na.value, size.value, Entries([], map[])).value;
  }

  /** The loop of `read_records`: while the cursor is inside the buffer, parse one
      more record; the first failure fails the whole read. */
  function ReadRecordsFrom(buf: seq<byte>, pos: nat): (r: Outcome<seq<RawRecord>>)
    requires pos <= |buf|
    ensures r.Success? ==> 16 * |r.value| <= |buf| - pos
    ensures pos == |buf| ==> r == Success([])
    decreases |buf| - pos
  {
    if pos >= |buf| then Success([])
    else
      var first :- ParseRecord(buf, pos);
      var rest :- ReadRecordsFrom(buf, first.next);
      Success([first.value] + rest)
  }

  /** `read_records` over the bytes the reader delivered. */
  function ReadRecords(buf: seq<byte>): (r: Outcome<seq<RawRecord>>)
    ensures r.Success? ==> 16 * |r.value| <= |buf|
    ensures |buf| == 0 ==> r == Success([])
  {
    ReadRecordsFrom(buf, 0)
  }

  /** `recs` are the records that parse one after another from `pos`, the last
      one ending exactly at the end of the buffer. */
  predicate Tiles(buf: seq<byte>, pos: nat, recs: seq<RawRecord>)
    decreases |recs|
  {
    if |recs| == 0 then pos == |buf|
    else
      && ParseRecord(buf, pos).Success?
      && ParseRecord(buf, pos).value.value == recs[0]
      && Tiles(buf, ParseRecord(buf, pos).value.next, recs[1..])
  }

  /** `read_records` accepts exactly the buffers that records tile from the start,
      and returns those records. */
  lemma {:induction false} ReadRecordsTiles(buf: seq<byte>, pos: nat, recs: seq<RawRecord>)
    requires pos <= |buf|
    ensures ReadRecordsFrom(buf, pos) == Success(recs) <==> Tiles(buf, pos, recs)
    decreases |buf| - pos
  {
    if pos < |buf| && ParseRecord(buf, pos).Success? {
      var first := ParseRecord(buf, pos).value;
      if |recs| > 0 {
        ReadRecordsTiles(buf, first.next, recs[1..]);
        if ReadRecordsFrom(buf, first.next).Success? {
          assert recs == [recs[0]] + recs[1..];
        }
      }
    }
  }
}
