/** Encoding then decoding: for every record the decoder can represent, the bytes
    `Raw.RecordToBytes` writes parse back, through `read_records`, to that very
    record. Each decoder step gets a lemma saying what it returns when the bytes
    at the cursor are the encoding of a known value. */
module RoundTrip {
  import opened Wrappers
  import opened Bytes
  import Utf8
  import opened Types
  import opened Raw
  import opened Parse

  /** No byte is the 0 terminator. */
  predicate NoZero(s: seq<byte>) {
    forall j | 0 <= j < |s| :: s[j] != 0
  }

  /** A value whose bytes the decoder reads back as the same value: DMAP is written
      as nothing and read as a nested record, and a STRING is cut at its first 0. */
  predicate Storable(v: DmapType) {
    !v.DMAP? && (v.STRING? ==> NoZero(v.s))
  }

  lemma {:induction false} IsAtSplit(buf: seq<byte>, pos: nat, a: seq<byte>, b: seq<byte>)
    ensures IsAt(buf, pos, a + b) <==> IsAt(buf, pos, a) && IsAt(buf, pos + |a|, b)
  {
    IsAtSlice(buf, pos, a + b);
    IsAtSlice(buf, pos, a);
    IsAtSlice(buf, pos + |a|, b);
    if pos + |a| + |b| <= |buf| {
      var w := buf[pos..pos + |a| + |b|];
      assert w[..|a|] == buf[pos..pos + |a|];
      assert w[|a|..] == buf[pos + |a|..pos + |a| + |b|];
      assert (a + b)[..|a|] == a && (a + b)[|a|..] == b;
      assert w == w[..|a|] + w[|a|..];
    }
  }

  /** The two halves of a placed concatenation, the second one at `mid`. */
  lemma {:induction false} IsAtParts(buf: seq<byte>, pos: nat, a: seq<byte>, b: seq<byte>, mid: int)
    requires IsAt(buf, pos, a + b) && mid == pos + |a|
    ensures pos <= mid && IsAt(buf, pos, a) && IsAt(buf, mid, b)
  {
    IsAtSplit(buf, pos, a, b);
  }

  /** A STRING is read back up to the 0 written after it. */
  lemma {:induction false} ReadStringOf(buf: seq<byte>, pos: nat, s: Text)
    requires NoZero(s) && IsAt(buf, pos, s + [0])
    ensures ReadString(buf, pos) == Success(Parsed(s, pos + |s| + 1))
  {
    var z := pos + |s|;
    assert z < |buf| && FirstZero(buf, pos) == Some(z) && buf[pos..z] == s by {
      IsAtSlice(buf, pos, s + [0]);
      assert buf[z] == (s + [0])[|s|] == 0;
      forall j | pos <= j < z
        ensures buf[j] != 0
      {
        assert buf[j] == (s + [0])[j - pos] == s[j - pos];
      }
      assert buf[pos..z] == (s + [0])[..|s|] == s;
    }
  }

  /** A fixed-width value is read back from its own bytes by `read_data` for a
      type with the same tag. */
  lemma {:induction false} ReadFixedOf(buf: seq<byte>, pos: nat, v: DmapType, t: DmapType)
    requires !v.DMAP? && !v.STRING? && Key(t) == Key(v)
    requires IsAt(buf, pos, ToBytes(v))
    ensures ReadFixed(buf, pos, t) == Success(Parsed(v, pos + NumBytes(v)))
  {
    SameKeySameWidth(v, t);
    IsAtSlice(buf, pos, ToBytes(v));
    FromBytesOfToBytes(v, t);
  }

  /** Any value but DMAP is read back from its own bytes by `read_data` for a type
      with the same tag. */
  lemma {:induction false} ReadPrimOf(buf: seq<byte>, pos: nat, v: DmapType, t: DmapType, end: nat)
    requires Storable(v) && !t.DMAP? && Key(t) == Key(v)
    requires IsAt(buf, pos, ToBytes(v)) && end == pos + |ToBytes(v)|
    ensures ReadPrim(buf, pos, t) == Success(Parsed(v, end))
  {
    SameKeySameWidth(v, t);
    if v.STRING? {
      PrimStringOf(buf, pos, v.s, t, end);
    } else {
      PrimFixedOf(buf, pos, v, t, end);
    }
  }

  lemma {:induction false} PrimStringOf(buf: seq<byte>, pos: nat, s: Text, t: DmapType, end: nat)
    requires NoZero(s) && t.STRING?
    requires IsAt(buf, pos, s + [0]) && end == pos + |s| + 1
    ensures ReadPrim(buf, pos, t) == Success(Parsed(STRING(s), end))
  {
    ReadStringOf(buf, pos, s);
  }

  lemma {:induction false} PrimFixedOf(buf: seq<byte>, pos: nat, v: DmapType, t: DmapType, end: nat)
    requires !v.DMAP? && !v.STRING? && !t.DMAP? && !t.STRING? && Key(t) == Key(v)
    requires IsAt(buf, pos, ToBytes(v)) && end == pos + NumBytes(v)
    ensures ReadPrim(buf, pos, t) == Success(Parsed(v, end))
  {
    ReadFixedOf(buf, pos, v, t);
  }

  lemma {:induction false} ReadI32Of(buf: seq<byte>, pos: nat, x: i32)
    requires IsAt(buf, pos, I32Bytes(x))
    ensures ReadI32(buf, pos) == Success(Parsed(x, pos + 4))
  {
    ReadFixedOf(buf, pos, INT(x), INT(0));
  }

  lemma {:induction false} ReadNameOf(buf: seq<byte>, pos: nat, name: Text)
    requires NoZero(name) && IsAt(buf, pos, name + [0])
    ensures ReadName(buf, pos) == Success(Parsed(name, pos + |name| + 1))
  {
    ReadStringOf(buf, pos, name);
  }

  lemma {:induction false} ReadKeyOf(buf: seq<byte>, pos: nat, v: DmapType)
    requires IsAt(buf, pos, KeyByte(v))
    ensures ReadKey(buf, pos) == Success(Parsed(Key(v), pos + 1))
  {
    ReadFixedOf(buf, pos, CHAR(Key(v)), CHAR(0));
  }

  /** The name, its terminator and a tag are read back as the name and the tag. */
  lemma {:induction false} ReadEntryHeadOf(buf: seq<byte>, pos: nat, name: Text, v: DmapType)
    requires NoZero(name) && IsAt(buf, pos, name + [0] + KeyByte(v))
    ensures ReadEntryHead(buf, pos) == Success(Parsed((name, Key(v)), pos + |name| + 2))
  {
    assert ReadName(buf, pos) == Success(Parsed(name, pos + |name| + 1)) by {
      IsAtSplit(buf, pos, name + [0], KeyByte(v));
      ReadNameOf(buf, pos, name);
    }
    assert ReadKey(buf, pos + |name| + 1) == Success(Parsed(Key(v), pos + |name| + 2)) by {
      IsAtSplit(buf, pos, name + [0], KeyByte(v));
      ReadKeyOf(buf, pos + |name| + 1, v);
    }
  }

  /** A byte window inside an IsAt window. */
  lemma {:induction false} IsAtSub(buf: seq<byte>, pos: nat, bs: seq<byte>, i: nat, j: nat)
    requires IsAt(buf, pos, bs) && i <= j <= |bs|
    ensures IsAt(buf, pos + i, bs[i..j])
  {
    IsAtSlice(buf, pos, bs);
    IsAtSlice(buf, pos + i, bs[i..j]);
    assert pos + j <= |buf|;
    forall k | 0 <= k < j - i
      ensures buf[pos + i..pos + j][k] == bs[i..j][k]
    {
      assert buf[pos + i + k] == buf[pos..pos + |bs|][i + k];
    }
  }


  lemma {:induction false} IsAtEnd(buf: seq<byte>, pos: nat, bs: seq<byte>)
    requires IsAt(buf, pos, bs)
    ensures pos + |bs| <= |buf|
  {
    IsAtSlice(buf, pos, bs);
  }

  /** A scalar's value is read back after its tag. */
  lemma {:induction false} ScalarDataOf(buf: seq<byte>, pos: nat, v: DmapType, end: nat)
    requires Storable(v) && IsAt(buf, pos, ToBytes(v)) && end == pos + |ToBytes(v)|
    ensures ScalarData(buf, pos, Key(v)) == Success(Parsed(v, end))
  {
    var t := ElementType(v);
    ReadPrimOf(buf, pos, v, t, end);
    ScalarDataOfPrim(buf, pos, Key(v), t, v, end);
  }

  lemma {:induction false} ScalarDataOfPrim(buf: seq<byte>, pos: nat, k: i8, t: DmapType, v: DmapType, end: nat)
    requires k in AllKeys() && TypeFromKey(k) == Success(t) && !t.DMAP?
    requires ReadPrim(buf, pos, t) == Success(Parsed(v, end))
    ensures ScalarData(buf, pos, k) == Success(Parsed(v, end))
  {
  }

  lemma {:induction false} ParseScalarOf(buf: seq<byte>, pos: nat, name: Text, s: RawScalar, e: seq<byte>, end: nat)
    requires NoZero(name) && Storable(s.data)
    requires e == Entry(name, ScalarToBytes(s)) && IsAt(buf, pos, e) && end == pos + |e|
    ensures ParseScalar(buf, pos) == Success(Parsed((name, s), end))
  {
    var d := s.data;
    var next := pos + |name| + 2;
    ScalarEntryAt(buf, pos, name, d, e, next, end);
    ReadEntryHeadOf(buf, pos, name, d);
    ScalarDataOf(buf, next, d, end);
  }

  lemma {:induction false} ScalarEntryAt(buf: seq<byte>, pos: nat, name: Text, d: DmapType, e: seq<byte>, next: int, end: int)
    requires e == Entry(name, ScalarToBytes(RawScalar(d))) && IsAt(buf, pos, e)
    requires next == pos + |name| + 2 && end == pos + |e|
    ensures IsAt(buf, pos, name + [0] + KeyByte(d)) && IsAt(buf, next, ToBytes(d))
    ensures end == next + |ToBytes(d)|
  {
    assert (name + [0]) + (KeyByte(d) + ToBytes(d)) == (name + [0] + KeyByte(d)) + ToBytes(d);
    IsAtParts(buf, pos, name + [0] + KeyByte(d), ToBytes(d), next);
  }

  /** The table the decoder builds: each name in turn mapped to its entry, a later
      occurrence of a name overwriting an earlier one. */
  function Insert<T>(table: map<Text, T>, names: seq<Text>, m: map<Text, T>): map<Text, T>
    requires forall n | n in names :: n in m
    decreases |names|
  {
    if |names| == 0 then table
    else Insert(table[names[0] := m[names[0]]], names[1..], m)
  }

  lemma {:induction false} InsertSpec<T>(table: map<Text, T>, names: seq<Text>, m: map<Text, T>)
    requires forall n | n in names :: n in m
    ensures var r := Insert(table, names, m);
      && (forall k :: k in r <==> k in table || k in names)
      && (forall k | k in names :: r[k] == m[k])
      && (forall k | k in table && k !in names :: r[k] == table[k])
    decreases |names|
  {
    if |names| > 0 {
      InsertSpec(table[names[0] := m[names[0]]], names[1..], m);
      assert forall k :: k in names <==> k == names[0] || k in names[1..];
    }
  }

  /** Inserting every listed name of a map whose keys are exactly those names rebuilds the map. */
  lemma {:induction false} InsertAll<T>(names: seq<Text>, m: map<Text, T>)
    requires m.Keys == NameSet(names)
    ensures Insert(map[], names, m) == m
  {
    InsertSpec(map[], names, m);
    var r := Insert(map[], names, m);
    assert r.Keys == m.Keys;
  }

  /** Where the scalar entries for `names` end when they parse one after another
      from `pos`, each to its listed name and value. Stated as a value rather than
      a predicate, so that a fact about it is one equation. */
  function ScalarsEnd(buf: seq<byte>, pos: nat, names: seq<Text>, m: map<Text, RawScalar>): Option<nat>
    requires forall n | n in names :: n in m
    decreases |names|, 1
  {
    if |names| == 0 then (if pos <= |buf| then Some(pos) else None)
    else ScalarStep(buf, pos, names, m)
  }

  /** One step of `ScalarsEnd`, kept apart so that unfolding the loop once does
      not also unfold the decoder of a scalar entry. */
  function ScalarStep(buf: seq<byte>, pos: nat, names: seq<Text>, m: map<Text, RawScalar>): Option<nat>
    requires |names| > 0 && forall n | n in names :: n in m
    decreases |names|, 0
  {
    match ParseScalar(buf, pos)
    case Failure(_) => None
    case Success(p) =>
      if p.value == (names[0], m[names[0]]) then ScalarsEnd(buf, p.next, names[1..], m) else None
  }


  /** Scalar entries that parse one after another are what the scalar loop returns. */
  lemma {:induction false} ParseScalarsOfAt(buf: seq<byte>, pos: nat, names: seq<Text>, m: map<Text, RawScalar>, acc: Entries<RawScalar>, end: nat)
    requires forall n | n in names :: n in m
    requires pos <= |buf| && ScalarsEnd(buf, pos, names, m) == Some(end)
    ensures ParseScalars(buf, pos, |names|, acc) == Success(Parsed(Entries(acc.names + names, Insert(acc.table, names, m)), end))
    decreases |names|
  {
    if |names| == 0 {
      assert acc.names + names == acc.names;
      ScalarsOfNone(buf, pos, acc);
    } else {
      var n := names[0];
      var acc' := Entries(acc.names + [n], acc.table[n := m[n]]);
      var rest := Parsed(Entries(acc'.names + names[1..], Insert(acc'.table, names[1..], m)), end);
      var target := Parsed(Entries(acc.names + names, Insert(acc.table, names, m)), end);
      assert rest == target by {
        assert acc'.names + names[1..] == acc.names + names;
      }
      var next := ParseScalar(buf, pos).value.next;
      ParseScalarsOfAt(buf, next, names[1..], m, acc', end);
      assert |names[1..]| + 1 == |names|;
    }
  }

  /** The encoded scalar entries parse one after another. */
  lemma {:induction false} ScalarsEndOf(buf: seq<byte>, pos: nat, names: seq<Text>, m: map<Text, RawScalar>, bs: seq<byte>, end: nat)
    requires forall n | n in names :: n in m && NoZero(n) && Storable(m[n].data)
    requires bs == ScalarEntries(names, m) && IsAt(buf, pos, bs) && end == pos + |bs|
    ensures ScalarsEnd(buf, pos, names, m) == Some(end)
    decreases |names|
  {
    if |names| == 0 {
      IsAtEnd(buf, pos, bs);
    } else {
      var rest := ScalarEntries(names[1..], m);
      var mid := end - |rest|;
      ScalarsTail(buf, pos, names, m, bs, rest, mid, end);
      ScalarsEndOf(buf, mid, names[1..], m, rest, end);
      ScalarsStep(buf, pos, names, m, bs, rest, mid, end);
    }
  }

  lemma {:induction false} ScalarEntriesSplit(names: seq<Text>, m: map<Text, RawScalar>)
    requires |names| > 0 && forall n | n in names :: n in m
    ensures ScalarEntries(names, m) == Entry(names[0], ScalarToBytes(m[names[0]])) + ScalarEntries(names[1..], m)
  {
  }

  /** The entries after the first one lie in `buf` right after it. */
  lemma {:induction false} ScalarsTail(buf: seq<byte>, pos: nat, names: seq<Text>, m: map<Text, RawScalar>, bs: seq<byte>, rest: seq<byte>, mid: int, end: nat)
    requires |names| > 0 && forall n | n in names :: n in m && NoZero(n) && Storable(m[n].data)
    requires bs == ScalarEntries(names, m) && IsAt(buf, pos, bs) && end == pos + |bs|
    requires rest == ScalarEntries(names[1..], m) && mid == end - |rest|
    ensures pos <= mid && IsAt(buf, mid, rest)
    ensures forall n | n in names[1..] :: n in m && NoZero(n) && Storable(m[n].data)
  {
    ScalarsTailAt(buf, pos, names, m, bs, rest, mid, end);
    StorableTail(names, m);
  }

  lemma {:induction false} ScalarsTailAt(buf: seq<byte>, pos: nat, names: seq<Text>, m: map<Text, RawScalar>, bs: seq<byte>, rest: seq<byte>, mid: int, end: nat)
    requires |names| > 0 && forall n | n in names :: n in m
    requires bs == ScalarEntries(names, m) && IsAt(buf, pos, bs) && end == pos + |bs|
    requires rest == ScalarEntries(names[1..], m) && mid == end - |rest|
    ensures pos <= mid && IsAt(buf, mid, rest)
  {
    var e := Entry(names[0], ScalarToBytes(m[names[0]]));
    ScalarEntriesSplit(names, m);
    IsAtParts(buf, pos, e, rest, mid);
  }

  lemma {:induction false} StorableTail(names: seq<Text>, m: map<Text, RawScalar>)
    requires |names| > 0 && forall n | n in names :: n in m && NoZero(n) && Storable(m[n].data)
    ensures forall n | n in names[1..] :: n in m && NoZero(n) && Storable(m[n].data)
  {
    assert forall n | n in names[1..] :: n in names;
  }

  /** One entry read, then the rest. */
  lemma {:induction false} ScalarsStep(buf: seq<byte>, pos: nat, names: seq<Text>, m: map<Text, RawScalar>, bs: seq<byte>, rest: seq<byte>, mid: nat, end: nat)
    requires |names| > 0 && forall n | n in names :: n in m && NoZero(n) && Storable(m[n].data)
    requires bs == ScalarEntries(names, m) && IsAt(buf, pos, bs) && end == pos + |bs|
    requires rest == ScalarEntries(names[1..], m) && mid == end - |rest|
    requires ScalarsEnd(buf, mid, names[1..], m) == Some(end)
    ensures ScalarsEnd(buf, pos, names, m) == Some(end)
  {
    var e := Entry(names[0], ScalarToBytes(m[names[0]]));
    ScalarEntriesSplit(names, m);
    assert mid == pos + |e|;
    IsAtSplit(buf, pos, e, rest);
    ScalarsEndCons(buf, pos, names, m, e, mid, end);
  }


  lemma {:induction false} ScalarsEndCons(buf: seq<byte>, pos: nat, names: seq<Text>, m: map<Text, RawScalar>, e: seq<byte>, mid: nat, end: nat)
    requires forall n | n in names :: n in m && NoZero(n) && Storable(m[n].data)
    requires |names| > 0 && e == Entry(names[0], ScalarToBytes(m[names[0]]))
    requires IsAt(buf, pos, e) && mid == pos + |e|
    requires ScalarsEnd(buf, mid, names[1..], m) == Some(end)
    ensures ScalarsEnd(buf, pos, names, m) == Some(end)
  {
    ParseScalarOf(buf, pos, names[0], m[names[0]], e, mid);
  }

  /** The scalar loop reads back every encoded scalar entry, in order. */
  lemma {:induction false} ParseScalarsOf(buf: seq<byte>, pos: nat, names: seq<Text>, m: map<Text, RawScalar>, end: nat)
    requires forall n | n in names :: n in m && NoZero(n) && Storable(m[n].data)
    requires IsAt(buf, pos, ScalarEntries(names, m)) && end == pos + |ScalarEntries(names, m)|
    ensures pos <= |buf|
    ensures ParseScalars(buf, pos, |names|, Entries([], map[])) == Success(Parsed(Entries(names, Insert(map[], names, m)), end))
  {
    var acc: Entries<RawScalar> := Entries([], map[]);
    assert acc.names + names == names;
    assert Insert(acc.table, names, m) == Insert(map[], names, m);
    IsAtEnd(buf, pos, ScalarEntries(names, m));
    ScalarsEndOf(buf, pos, names, m, ScalarEntries(names, m), end);
    ParseScalarsOfAt(buf, pos, names, m, acc, end);
  }

  lemma {:induction false} ScalarsOfNone(buf: seq<byte>, pos: nat, acc: Entries<RawScalar>)
    requires pos <= |buf|
    ensures ParseScalars(buf, pos, 0, acc) == Success(Parsed(acc, pos))
  {
  }

  /** Dimensions written as 4-byte integers are read back, each passing its bound. */
  lemma {:induction false} ReadDimsOf(buf: seq<byte>, pos: nat, dims: seq<i32>, size: i32, end: nat)
    requires forall i | 0 <= i < |dims| :: 0 < dims[i] <= size
    requires IsAt(buf, pos, DimsBytes(dims)) && end == pos + 4 * |dims|
    ensures pos <= |buf|
    ensures ReadDims(buf, pos, |dims|, size) == Success(Parsed(dims, end))
    decreases |dims|
  {
    IsAtEnd(buf, pos, DimsBytes(dims));
    if |dims| > 0 {
      IsAtSplit(buf, pos, I32Bytes(dims[0]), DimsBytes(dims[1..]));
      ReadI32Of(buf, pos, dims[0]);
      ReadDimsOf(buf, pos + 4, dims[1..], size, end);
      assert [dims[0]] + dims[1..] == dims;
    }
  }

  /** Every value can be read back by `read_data` for type `t`. Stated value by
      value, so that unfolding it once exposes the head and the rest. */
  predicate ReadableAs(vs: seq<DmapType>, t: DmapType)
    decreases |vs|
  {
    |vs| == 0 || (Storable(vs[0]) && Key(vs[0]) == Key(t) && ReadableAs(vs[1..], t))
  }

  lemma {:induction false} ReadableAsOf(vs: seq<DmapType>, t: DmapType)
    requires forall i | 0 <= i < |vs| :: Storable(vs[i]) && Key(vs[i]) == Key(t)
    ensures ReadableAs(vs, t)
    decreases |vs|
  {
    if |vs| > 0 {
      ReadableAsOf(vs[1..], t);
    }
  }

  /** Values written one after another are read back by `read_data` for their common type. */
  lemma {:induction false} ReadElementsOf(buf: seq<byte>, pos: nat, vs: seq<DmapType>, t: DmapType, bs: seq<byte>, end: nat)
    requires !t.DMAP? && ReadableAs(vs, t)
    requires bs == ValuesBytes(vs)
    requires IsAt(buf, pos, bs) && end == pos + |bs|
    ensures pos <= |buf|
    ensures ReadPrimElements(buf, pos, |vs|, t) == Success(Parsed(vs, end))
    decreases |vs|
  {
    IsAtEnd(buf, pos, bs);
    if |vs| > 0 {
      var rest := ValuesBytes(vs[1..]);
      var mid := end - |rest|;
      ElementsTail(buf, pos, vs, t, bs, rest, mid, end);
      ReadElementsOf(buf, mid, vs[1..], t, rest, end);
      ElementsStep(buf, pos, vs, t, bs, rest, mid, end);
    }
  }

  lemma {:induction false} ValuesSplit(vs: seq<DmapType>)
    requires |vs| > 0
    ensures ValuesBytes(vs) == ToBytes(vs[0]) + ValuesBytes(vs[1..])
  {
  }

  /** The values after the first lie right after the first one's bytes. */
  lemma {:induction false} ElementsTail(buf: seq<byte>, pos: nat, vs: seq<DmapType>, t: DmapType, bs: seq<byte>, rest: seq<byte>, mid: int, end: nat)
    requires |vs| > 0 && ReadableAs(vs, t)
    requires bs == ValuesBytes(vs) && IsAt(buf, pos, bs) && end == pos + |bs|
    requires rest == ValuesBytes(vs[1..]) && mid == end - |rest|
    ensures pos <= mid && IsAt(buf, mid, rest)
    ensures ReadableAs(vs[1..], t)
  {
    ValuesSplit(vs);
    IsAtParts(buf, pos, ToBytes(vs[0]), rest, mid);
  }

  /** The element loop reads the first value, then the rest as the tail's loop does. */
  lemma {:induction false} ElementsStep(buf: seq<byte>, pos: nat, vs: seq<DmapType>, t: DmapType, bs: seq<byte>, rest: seq<byte>, mid: nat, end: nat)
    requires |vs| > 0 && !t.DMAP? && ReadableAs(vs, t)
    requires bs == ValuesBytes(vs) && IsAt(buf, pos, bs) && end == pos + |bs|
    requires rest == ValuesBytes(vs[1..]) && mid == end - |rest| && mid <= |buf|
    requires ReadPrimElements(buf, mid, |vs[1..]|, t) == Success(Parsed(vs[1..], end))
    ensures ReadPrimElements(buf, pos, |vs|, t) == Success(Parsed(vs, end))
  {
    var e := ToBytes(vs[0]);
    ValuesSplit(vs);
    assert mid == pos + |e|;
    IsAtSplit(buf, pos, e, rest);
    ElementsCons(buf, pos, |vs|, |vs[1..]|, t, vs[0], e, mid, vs[1..], end);
    assert [vs[0]] + vs[1..] == vs;
  }

  lemma {:induction false} ElementsCons(buf: seq<byte>, pos: nat, n: nat, k: nat, t: DmapType, v: DmapType, e: seq<byte>, mid: nat, rest: seq<DmapType>, end: nat)
    requires !t.DMAP? && Storable(v) && Key(v) == Key(t) && n == k + 1
    requires e == ToBytes(v) && IsAt(buf, pos, e) && mid == pos + |e| && mid <= |buf|
    requires ReadPrimElements(buf, mid, k, t) == Success(Parsed(rest, end))
    ensures ReadPrimElements(buf, pos, n, t) == Success(Parsed([v] + rest, end))
  {
    ReadPrimOf(buf, pos, v, t, mid);
  }

  /** The dimension count and the dimensions are read back when they pass every
      bound against the record size. */
  lemma {:induction false} ArrayShapeOf(buf: seq<byte>, pos: nat, size: i32, t: DmapType, dims: seq<i32>, end: nat)
    requires 0 < |dims| <= size && forall i | 0 <= i < |dims| :: 0 < dims[i] <= size
    requires Product(dims) <= size && Product(dims) * NumBytes(t) <= size
    requires IsAt(buf, pos, I32Bytes(|dims|) + DimsBytes(dims)) && end == pos + 4 + 4 * |dims|
    ensures ArrayShape(buf, pos, size, t) == Success(Parsed(dims, end))
  {
    IsAtSplit(buf, pos, I32Bytes(|dims|), DimsBytes(dims));
    ReadI32Of(buf, pos, |dims|);
    ReadDimsOf(buf, pos + 4, dims, size, end);
  }

  /** The bytes after an array's tag: its shape, then its elements. */
  function ArrayTail(a: RawArray): (bs: seq<byte>)
    requires |a.dimensions| < 0x8000_0000
    ensures |bs| == 4 + 4 * |a.dimensions| + |ValuesBytes(a.data)|
  {
    I32Bytes(|a.dimensions|) + DimsBytes(a.dimensions) + ValuesBytes(a.data)
  }

  /** An array entry is its name, its tag, then the array's shape and elements. */
  lemma {:induction false} ArrayEntryLayout(name: Text, a: RawArray)
    requires |a.data| > 0 && |a.dimensions| < 0x8000_0000
    ensures Entry(name, ArrayToBytes(a)) == (name + [0] + KeyByte(a.data[0])) + ArrayTail(a)
  {
    var k, i, d, v := KeyByte(a.data[0]), I32Bytes(|a.dimensions|), DimsBytes(a.dimensions), ValuesBytes(a.data);
    assert ArrayToBytes(a) == ((k + i) + d) + v;
    assert k + (i + d) == (k + i) + d;
    assert k + ((i + d) + v) == (k + (i + d)) + v;
    assert (name + [0]) + (k + ArrayTail(a)) == ((name + [0]) + k) + ArrayTail(a);
  }

  /** An array's shape and elements are read back after its tag when the array
      passes every bound `parse_array` checks. */
  lemma {:induction false} ArrayDataOf(buf: seq<byte>, pos: nat, size: i32, a: RawArray, end: nat)
    requires ArrayFits(a, size) && ReadableAs(a.data, a.data[0])
    requires IsAt(buf, pos, ArrayTail(a)) && end == pos + |ArrayTail(a)|
    ensures ArrayData(buf, pos, size, Key(a.data[0])) == Success(Parsed(a, end))
  {
    var t := ElementType(a.data[0]);
    var mid := pos + 4 + 4 * |a.dimensions|;
    ArrayTailAt(buf, pos, a, mid, end);
    ArrayShapeOf(buf, pos, size, t, a.dimensions, mid);
    ReadableAsRetag(a.data, a.data[0], t);
    ReadElementsOf(buf, mid, a.data, t, ValuesBytes(a.data), end);
  }

  /** The element type a tag stands for, as the decoder looks it up. */
  lemma {:induction false} ElementType(v: DmapType) returns (t: DmapType)
    ensures Key(v) in AllKeys() && TypeFromKey(Key(v)) == Success(t)
    ensures Key(t) == Key(v) && NumBytes(t) == NumBytes(v) && (t.DMAP? <==> v.DMAP?)
  {
    KeyInverse(v);
    t := TypeFromKey(Key(v)).value;
    SameKeySameWidth(v, t);
  }

  /** Where an array's shape and its elements lie. */
  lemma {:induction false} ArrayTailAt(buf: seq<byte>, pos: nat, a: RawArray, mid: nat, end: nat)
    requires |a.dimensions| < 0x8000_0000
    requires IsAt(buf, pos, ArrayTail(a)) && end == pos + |ArrayTail(a)| && mid == pos + 4 + 4 * |a.dimensions|
    ensures IsAt(buf, pos, I32Bytes(|a.dimensions|) + DimsBytes(a.dimensions))
    ensures IsAt(buf, mid, ValuesBytes(a.data)) && end == mid + |ValuesBytes(a.data)|
  {
    IsAtSplit(buf, pos, I32Bytes(|a.dimensions|) + DimsBytes(a.dimensions), ValuesBytes(a.data));
  }

  /** Readability depends on the tag only. */
  lemma {:induction false} ReadableAsRetag(vs: seq<DmapType>, t: DmapType, u: DmapType)
    requires ReadableAs(vs, t) && Key(t) == Key(u)
    ensures ReadableAs(vs, u)
    decreases |vs|
  {
    if |vs| > 0 {
      ReadableAsRetag(vs[1..], t, u);
    }
  }

  /** `parse_array` at `pos` reads the entry `name` holding `a` and stops at `end`. */
  predicate ArrayEntryRead(buf: seq<byte>, pos: nat, size: i32, name: Text, a: RawArray, end: nat) {
    ParseArray(buf, pos, size) == Success(Parsed((name, a), end))
  }

  /** An encoded array entry is read back as its name and the array. */
  lemma {:induction false} ParseArrayOf(buf: seq<byte>, pos: nat, size: i32, name: Text, a: RawArray, e: seq<byte>, end: nat)
    requires NoZero(name) && ArrayFits(a, size) && ReadableAs(a.data, a.data[0])
    requires e == Entry(name, ArrayToBytes(a)) && IsAt(buf, pos, e) && end == pos + |e|
    ensures ArrayEntryRead(buf, pos, size, name, a, end)
  {
    ArrayEntryAt(buf, pos, name, a, e);
    ReadEntryHeadOf(buf, pos, name, a.data[0]);
    ArrayEntryOf(buf, pos, size, name, a, pos + |name| + 2, end);
  }

  /** Once the head is read, the rest of an array entry is read back. */
  lemma {:induction false} ArrayEntryOf(buf: seq<byte>, pos: nat, size: i32, name: Text, a: RawArray, next: nat, end: nat)
    requires ArrayFits(a, size) && ReadableAs(a.data, a.data[0])
    requires ReadEntryHead(buf, pos) == Success(Parsed((name, Key(a.data[0])), next))
    requires IsAt(buf, next, ArrayTail(a)) && end == next + |ArrayTail(a)|
    ensures ArrayEntryRead(buf, pos, size, name, a, end)
  {
    ArrayDataOf(buf, next, size, a, end);
  }

  /** Where the head and the body of an array entry lie. */
  lemma {:induction false} ArrayEntryAt(buf: seq<byte>, pos: nat, name: Text, a: RawArray, e: seq<byte>)
    requires |a.data| > 0 && |a.dimensions| < 0x8000_0000
    requires e == Entry(name, ArrayToBytes(a)) && IsAt(buf, pos, e)
    ensures IsAt(buf, pos, name + [0] + KeyByte(a.data[0]))
    ensures IsAt(buf, pos + |name| + 2, ArrayTail(a))
  {
    ArrayEntryLayout(name, a);
    IsAtSplit(buf, pos, name + [0] + KeyByte(a.data[0]), ArrayTail(a));
  }

  /** An array entry the decoder reads back: a name without a 0 in it, and an
      array that passes the bounds and whose values read back for its tag. */
  predicate ArrayReadable(name: Text, a: RawArray, size: int) {
    NoZero(name) && ArrayFits(a, size) && ReadableAs(a.data, a.data[0])
  }

  /** Every listed array entry reads back. The check of the first entry sits in
      `HeadReadable`, which calls back into this predicate, so that unfolding
      one of them does not unfold the bounds of an array. */
  predicate ArraysReadable(names: seq<Text>, m: map<Text, RawArray>, size: int)
    requires forall n | n in names :: n in m
    decreases |names|, 1
  {
    |names| == 0 || HeadReadable(names, m, size)
  }

  predicate HeadReadable(names: seq<Text>, m: map<Text, RawArray>, size: int)
    requires |names| > 0 && forall n | n in names :: n in m
    decreases |names|, 0
  {
    ArrayReadable(names[0], m[names[0]], size) && ArraysReadable(names[1..], m, size)
  }

  lemma {:induction false} ArraysReadableParts(names: seq<Text>, m: map<Text, RawArray>, size: int)
    requires |names| > 0 && forall n | n in names :: n in m
    requires ArraysReadable(names, m, size)
    ensures ArrayReadable(names[0], m[names[0]], size)
    ensures ArraysReadable(names[1..], m, size)
  {
  }

  lemma {:induction false} ArraysReadableOf(names: seq<Text>, m: map<Text, RawArray>, size: int)
    requires forall n | n in names :: n in m && ArrayReadable(n, m[n], size)
    ensures ArraysReadable(names, m, size)
    decreases |names|
  {
    if |names| > 0 {
      assert forall n | n in names[1..] :: n in names;
      ArraysReadableOf(names[1..], m, size);
      assert HeadReadable(names, m, size);
    }
  }

  /** Where the array entries for `names` end when they parse one after another
      from `pos`, each to its listed name and array. */
  function ArraysEnd(buf: seq<byte>, pos: nat, names: seq<Text>, m: map<Text, RawArray>, size: i32): Option<nat>
    requires forall n | n in names :: n in m
    decreases |names|, 1
  {
    if |names| == 0 then (if pos <= |buf| then Some(pos) else None)
    else ArrayStep(buf, pos, names, m, size)
  }

  /** One step of `ArraysEnd`, kept apart so that unfolding the loop once does
      not also unfold the decoder of an array entry. */
  function ArrayStep(buf: seq<byte>, pos: nat, names: seq<Text>, m: map<Text, RawArray>, size: i32): Option<nat>
    requires |names| > 0 && forall n | n in names :: n in m
    decreases |names|, 0
  {
    match ParseArray(buf, pos, size)
    case Failure(_) => None
    case Success(p) =>
      if p.value == (names[0], m[names[0]]) then ArraysEnd(buf, p.next, names[1..], m, size) else None
  }

  /** Array entries that parse one after another are what the array loop returns. */
  lemma {:induction false} ParseArraysOfAt(buf: seq<byte>, pos: nat, names: seq<Text>, m: map<Text, RawArray>, size: i32, acc: Entries<RawArray>, end: nat)
    requires forall n | n in names :: n in m
    requires pos <= |buf| && ArraysEnd(buf, pos, names, m, size) == Some(end)
    ensures ParseArrays(buf, pos, |names|, size, acc) == Success(Parsed(Entries(acc.names + names, Insert(acc.table, names, m)), end))
    decreases |names|
  {
    if |names| == 0 {
      assert acc.names + names == acc.names;
      ArraysOfNone(buf, pos, size, acc);
    } else {
      var n := names[0];
      var acc' := Entries(acc.names + [n], acc.table[n := m[n]]);
      var rest := Parsed(Entries(acc'.names + names[1..], Insert(acc'.table, names[1..], m)), end);
      var target := Parsed(Entries(acc.names + names, Insert(acc.table, names, m)), end);
      assert rest == target by {
        assert acc'.names + names[1..] == acc.names + names;
      }
      var next := ParseArray(buf, pos, size).value.next;
      ParseArraysOfAt(buf, next, names[1..], m, size, acc', end);
      assert |names[1..]| + 1 == |names|;
    }
  }

  /** The encoded array entries parse one after another. */
  lemma {:induction false} ArraysEndOf(buf: seq<byte>, pos: nat, names: seq<Text>, m: map<Text, RawArray>, size: i32, bs: seq<byte>, end: nat)
    requires forall n | n in names :: n in m && |m[n].data| > 0
    requires ArraysReadable(names, m, size)
    requires bs == ArrayEntries(names, m) && IsAt(buf, pos, bs) && end == pos + |bs|
    ensures ArraysEnd(buf, pos, names, m, size) == Some(end)
    decreases |names|
  {
    if |names| == 0 {
      IsAtEnd(buf, pos, bs);
    } else {
      var rest := ArrayEntries(names[1..], m);
      var mid := end - |rest|;
      ArraysTail(buf, pos, names, m, size, bs, rest, mid, end);
      ArraysEndOf(buf, mid, names[1..], m, size, rest, end);
      ArraysStep(buf, pos, names, m, size, bs, rest, mid, end);
    }
  }

  lemma {:induction false} ArrayEntriesSplit(names: seq<Text>, m: map<Text, RawArray>)
    requires |names| > 0 && forall n | n in names :: n in m && |m[n].data| > 0
    ensures ArrayEntries(names, m) == Entry(names[0], ArrayToBytes(m[names[0]])) + ArrayEntries(names[1..], m)
  {
  }

  /** The array entries after the first lie right after the first one. */
  lemma {:induction false} ArraysTail(buf: seq<byte>, pos: nat, names: seq<Text>, m: map<Text, RawArray>, size: i32, bs: seq<byte>, rest: seq<byte>, mid: int, end: nat)
    requires |names| > 0 && forall n | n in names :: n in m && |m[n].data| > 0
    requires ArraysReadable(names, m, size)
    requires bs == ArrayEntries(names, m) && IsAt(buf, pos, bs) && end == pos + |bs|
    requires rest == ArrayEntries(names[1..], m) && mid == end - |rest|
    ensures forall n | n in names[1..] :: n in m && |m[n].data| > 0
    ensures ArraysReadable(names[1..], m, size)
    ensures pos <= mid && IsAt(buf, mid, rest)
  {
    ArraysTailAt(buf, pos, names, m, bs, rest, mid, end);
    ArraysReadableParts(names, m, size);
    NonEmptyTail(names, m);
  }

  lemma {:induction false} ArraysTailAt(buf: seq<byte>, pos: nat, names: seq<Text>, m: map<Text, RawArray>, bs: seq<byte>, rest: seq<byte>, mid: int, end: nat)
    requires |names| > 0 && forall n | n in names :: n in m && |m[n].data| > 0
    requires bs == ArrayEntries(names, m) && IsAt(buf, pos, bs) && end == pos + |bs|
    requires rest == ArrayEntries(names[1..], m) && mid == end - |rest|
    ensures pos <= mid && IsAt(buf, mid, rest)
  {
    var e := Entry(names[0], ArrayToBytes(m[names[0]]));
    ArrayEntriesSplit(names, m);
    IsAtParts(buf, pos, e, rest, mid);
  }

  lemma {:induction false} NonEmptyTail(names: seq<Text>, m: map<Text, RawArray>)
    requires |names| > 0 && forall n | n in names :: n in m && |m[n].data| > 0
    ensures forall n | n in names[1..] :: n in m && |m[n].data| > 0
  {
    assert forall n | n in names[1..] :: n in names;
  }

  /** The array loop reads the first entry, then the rest as the tail's loop does. */
  lemma {:induction false} ArraysStep(buf: seq<byte>, pos: nat, names: seq<Text>, m: map<Text, RawArray>, size: i32, bs: seq<byte>, rest: seq<byte>, mid: nat, end: nat)
    requires |names| > 0 && forall n | n in names :: n in m && |m[n].data| > 0
    requires ArraysReadable(names, m, size)
    requires bs == ArrayEntries(names, m) && IsAt(buf, pos, bs) && end == pos + |bs|
    requires rest == ArrayEntries(names[1..], m) && mid == end - |rest|
    requires ArraysEnd(buf, mid, names[1..], m, size) == Some(end)
    ensures ArraysEnd(buf, pos, names, m, size) == Some(end)
  {
    var e := Entry(names[0], ArrayToBytes(m[names[0]]));
    ArraysReadableParts(names, m, size);
    ArrayEntriesSplit(names, m);
    assert mid == pos + |e|;
    IsAtSplit(buf, pos, e, rest);
    ArraysEndCons(buf, pos, names, m, size, e, mid, end);
  }

  lemma {:induction false} ArraysEndCons(buf: seq<byte>, pos: nat, names: seq<Text>, m: map<Text, RawArray>, size: i32, e: seq<byte>, mid: nat, end: nat)
    requires forall n | n in names :: n in m && |m[n].data| > 0
    requires |names| > 0 && ArrayReadable(names[0], m[names[0]], size)
    requires e == Entry(names[0], ArrayToBytes(m[names[0]])) && IsAt(buf, pos, e) && mid == pos + |e|
    requires ArraysEnd(buf, mid, names[1..], m, size) == Some(end)
    ensures ArraysEnd(buf, pos, names, m, size) == Some(end)
  {
    ParseArrayOf(buf, pos, size, names[0], m[names[0]], e, mid);
  }

  /** The array loop reads back every encoded array entry, in order. */
  lemma {:induction false} ParseArraysOf(buf: seq<byte>, pos: nat, names: seq<Text>, m: map<Text, RawArray>, size: i32, end: nat)
    requires forall n | n in names :: n in m && |m[n].data| > 0
    requires forall n | n in names :: ArrayReadable(n, m[n], size)
    requires IsAt(buf, pos, ArrayEntries(names, m)) && end == pos + |ArrayEntries(names, m)|
    ensures pos <= |buf|
    ensures ParseArrays(buf, pos, |names|, size, Entries([], map[])) == Success(Parsed(Entries(names, Insert(map[], names, m)), end))
  {
    var acc: Entries<RawArray> := Entries([], map[]);
    assert acc.names + names == names;
    assert Insert(acc.table, names, m) == Insert(map[], names, m);
    IsAtEnd(buf, pos, ArrayEntries(names, m));
    ArraysReadableOf(names, m, size);
    ArraysEndOf(buf, pos, names, m, size, ArrayEntries(names, m), end);
    ParseArraysOfAt(buf, pos, names, m, size, acc, end);
  }

  lemma {:induction false} ArraysOfNone(buf: seq<byte>, pos: nat, size: i32, acc: Entries<RawArray>)
    requires pos <= |buf|
    ensures ParseArrays(buf, pos, 0, size, acc) == Success(Parsed(acc, pos))
  {
  }

}
