/** The closed set of DMAP value types, their wire tags, byte widths and byte
    encodings (the `DmapType` enum of src/dmap.rs), and the decoder's error kinds. */
module Types {
  import opened Wrappers
  import opened Bytes
  import Utf8

  /** A name or a STRING payload: bytes that are well-formed UTF-8, as every Rust `String` is. */
  type Text = s: seq<byte> | Utf8.Valid(s)

  /** One error kind per distinct failure the decoder reports; the message text is not modelled. */
  datatype DmapError =
    | CursorOutOfBuffer          // read_data: cursor beyond the buffer
    | NotEnoughBytes             // read_data: fewer bytes left than the type's width
    | IndexOutOfBounds           // read_data: STRING scan indexes the buffer at its end (a panic in the source)
    | UnterminatedString         // read_data: no 0 byte before the end of the buffer
    | InvalidUtf8                // read_data: the string bytes are not UTF-8
    | CastError                  // read_data: bytemuck refuses the byte window
    | InvalidKey(key: int)       // get_type_from_key: tag outside the table
    | BadScalarType(key: int)    // parse_scalar: tag outside the table
    | BadArrayType(key: int)     // parse_array: tag outside the table
    | SizeExceedsBuffer          // parse_record: size larger than the rest of the buffer
    | NonPositiveSize
    | NonPositiveScalarCount
    | NonPositiveArrayCount
    | TooManyEntries             // parse_record: num_scalars + num_arrays > size
    | TooManyDimensions          // parse_array: ndims > record size
    | NonPositiveDimensions      // parse_array: ndims <= 0
    | NonPositiveDim             // parse_array: a dimension <= 0
    | DimExceedsSize             // parse_array: a dimension > record size
    | TooManyElements            // parse_array: product of dimensions > record size
    | ArrayExceedsSize           // parse_array: product * width > record size
    | SizeMismatch(consumed: int, size: int)  // parse_record: bytes read differ from the size field

  /** A DMAP value. FLOAT and DOUBLE carry the bit pattern of the IEEE number:
      the codec only moves those bits, it never does arithmetic on them. */
  datatype DmapType =
    | DMAP
    | CHAR(c: i8)
    | SHORT(sh: i16)
    | INT(i: i32)
    | FLOAT(fbits: u32)
    | DOUBLE(dbits: u64)
    | STRING(s: Text)
    | LONG(l: i64)
    | UCHAR(uc: u8)
    | USHORT(us: u16)
    | UINT(ui: u32)
    | ULONG(ul: u64)

  /** The wire tags, in the order the source lists them. */
  function AllKeys(): (keys: seq<i8>)
    ensures |keys| == 12
    ensures forall i | 0 <= i < |keys| :: 0 <= keys[i] < 20
  {
    [0, 1, 2, 3, 4, 8, 9, 10, 16, 17, 18, 19]
  }

  /** The fixed byte width of a value: 1, 2, 4 or 8 for the numeric types and 0
      for DMAP and STRING, whose extent on the wire depends on the data. */
  function NumBytes(t: DmapType): (n: nat)
    ensures n in {0, 1, 2, 4, 8}
    ensures n == 0 <==> t.DMAP? || t.STRING?
  {
    match t
    case CHAR(_) => 1
    case SHORT(_) => 2
    case INT(_) => 4
    case FLOAT(_) => 4
    case DOUBLE(_) => 8
    case LONG(_) => 8
    case UCHAR(_) => 1
    case USHORT(_) => 2
    case UINT(_) => 4
    case ULONG(_) => 8
    case _ => 0
  }

  /** The wire tag of a value's type. */
  function Key(t: DmapType): (k: i8)
    ensures 0 <= k < 20
  {
    match t
    case DMAP => 0
    case CHAR(_) => 1
    case SHORT(_) => 2
    case INT(_) => 3
    case FLOAT(_) => 4
    case DOUBLE(_) => 8
    case STRING(_) => 9
    case LONG(_) => 10
    case UCHAR(_) => 16
    case USHORT(_) => 17
    case UINT(_) => 18
    case ULONG(_) => 19
  }

  /** The value of a type whose payload is zero (or empty): the shape the decoder
      reads into. */
  predicate IsZero(t: DmapType) {
    match t
    case DMAP => true
    case CHAR(x) => x == 0
    case SHORT(x) => x == 0
    case INT(x) => x == 0
    case FLOAT(x) => x == 0
    case DOUBLE(x) => x == 0
    case STRING(x) => x == []
    case LONG(x) => x == 0
    case UCHAR(x) => x == 0
    case USHORT(x) => x == 0
    case UINT(x) => x == 0
    case ULONG(x) => x == 0
  }

  /** The type a wire tag names, as a zero-payload value; any tag outside the table is an error. */
  function TypeFromKey(key: int): (r: Result<DmapType, DmapError>)
    ensures r.Success? <==> key in AllKeys()
    ensures r.Success? ==> Key(r.value) == key && IsZero(r.value)
    ensures r.Failure? ==> r.error == InvalidKey(key)
  {
    match key
    case 0 => Success(DMAP)
    case 1 => Success(CHAR(0))
    case 2 => Success(SHORT(0))
    case 3 => Success(INT(0))
    case 4 => Success(FLOAT(0))
    case 8 => Success(DOUBLE(0))
    case 9 => Success(STRING([]))
    case 10 => Success(LONG(0))
    case 16 => Success(UCHAR(0))
    case 17 => Success(USHORT(0))
    case 18 => Success(UINT(0))
    case 19 => Success(ULONG(0))
    case _ => Failure(InvalidKey(key))
  }

  /** The tag table read in both directions: TypeFromKey undoes Key, up to the payload. */
  lemma {:induction false} KeyInverse(t: DmapType)
    ensures TypeFromKey(Key(t)).Success?
    ensures Key(TypeFromKey(Key(t)).value) == Key(t)
    ensures TypeFromKey(Key(t)).value == t <==> IsZero(t)
  {
  }

  /** The tag determines the width. */
  lemma {:induction false} SameKeySameWidth(a: DmapType, b: DmapType)
    requires Key(a) == Key(b)
    ensures NumBytes(a) == NumBytes(b)
    ensures a.STRING? <==> b.STRING?
    ensures a.DMAP? <==> b.DMAP?
  {
  }

  /** The wire bytes of a value: little-endian two's complement for the integers,
      the raw bit pattern for the floating-point types, the UTF-8 bytes and one
      terminating 0 for STRING, and nothing for DMAP. */
  function ToBytes(t: DmapType): (bs: seq<byte>)
    ensures !t.STRING? ==> |bs| == NumBytes(t)
    ensures t.STRING? ==> |bs| == |t.s| + 1 && bs[..|t.s|] == t.s && bs[|t.s|] == 0
  {
    match t
    case DMAP => []
    case CHAR(x) => ToLE(Unsigned(x, 1), 1)
    case UCHAR(x) => ToLE(x, 1)
    case SHORT(x) => ToLE(Unsigned(x, 2), 2)
    case USHORT(x) => ToLE(x, 2)
    case INT(x) => ToLE(Unsigned(x, 4), 4)
    case UINT(x) => ToLE(x, 4)
    case LONG(x) => ToLE(Unsigned(x, 8), 8)
    case ULONG(x) => ToLE(x, 8)
    case FLOAT(x) => ToLE(x, 4)
    case DOUBLE(x) => ToLE(x, 8)
    case STRING(x) => x + [0]
  }

  /** Reinterprets a window of exactly NumBytes(t) little-endian bytes as a value of
      t's type (the bytemuck casts of read_data, read as plain little-endian loads). */
  function FromBytes(window: seq<byte>, t: DmapType): (v: DmapType)
    requires !t.DMAP? && !t.STRING? && |window| == NumBytes(t)
    ensures Key(v) == Key(t)
  {
    var u := FromLE(window);
    match t
    case CHAR(_) => CHAR(Signed(u, 1))
    case UCHAR(_) => UCHAR(u)
    case SHORT(_) => SHORT(Signed(u, 2))
    case USHORT(_) => USHORT(u)
    case INT(_) => INT(Signed(u, 4))
    case UINT(_) => UINT(u)
    case LONG(_) => LONG(Signed(u, 8))
    case ULONG(_) => ULONG(u)
    case FLOAT(_) => FLOAT(u)
    case DOUBLE(_) => DOUBLE(u)
  }

  /** Encoding what was decoded gives the window back: ToBytes undoes FromBytes. */
  lemma {:induction false} ToBytesOfFromBytes(window: seq<byte>, t: DmapType)
    requires !t.DMAP? && !t.STRING? && |window| == NumBytes(t)
    ensures ToBytes(FromBytes(window, t)) == window
  {
    ToLEOfFromLE(window);
    UnsignedOfSigned(FromLE(window), |window|);
  }

  /** Reading a value's own bytes back gives the value: FromBytes undoes ToBytes. */
  lemma {:induction false} FromBytesOfToBytes(v: DmapType, t: DmapType)
    requires !v.DMAP? && !v.STRING? && Key(t) == Key(v)
    ensures FromBytes(ToBytes(v), t) == v
  {
    match v
    case CHAR(x) => FromLEOfToLE(Unsigned(x, 1), 1);
    case UCHAR(x) => FromLEOfToLE(x, 1);
    case SHORT(x) => FromLEOfToLE(Unsigned(x, 2), 2);
    case USHORT(x) => FromLEOfToLE(x, 2);
    case INT(x) => FromLEOfToLE(Unsigned(x, 4), 4);
    case UINT(x) => FromLEOfToLE(x, 4);
    case LONG(x) => FromLEOfToLE(Unsigned(x, 8), 8);
    case ULONG(x) => FromLEOfToLE(x, 8);
    case FLOAT(x) => FromLEOfToLE(x, 4);
    case DOUBLE(x) => FromLEOfToLE(x, 8);
  }

  /** The address alignment `bytemuck::try_from_bytes` demands: USHORT, UINT, LONG and
      ULONG are read with it, every other fixed-width type with an unaligned read. */
  function Align(t: DmapType): (a: nat)
    ensures a >= 1
    ensures a > 1 <==> t.USHORT? || t.UINT? || t.LONG? || t.ULONG?
    ensures a > 1 ==> a == NumBytes(t)
  {
    match t
    case USHORT(_) => 2
    case UINT(_) => 4
    case LONG(_) => 8
    case ULONG(_) => 8
    case _ => 1
  }
}
