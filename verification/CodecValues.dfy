/** Which values the codec encodes and which bytes it decodes, said without the codec's own notion
    of a type's size: exactly the C values of the type can be sent, and exactly what begins with
    the encoding of one can be received. */
module CodecValues {
  import opened Bytes
  import opened CodecSpec
  import opened CodecLaws

  const TWO32: int := 0x1_0000_0000
  const TWO64: int := 0x1_0000_0000_0000_0000

  predicate Int32(v: Val)
  {
    v.Num? && -0x8000_0000 <= v.n < 0x8000_0000
  }

  /** Structs in an array take room, and all of them together fit the address space. */
  predicate Room(kind: Kind, meta: Meta, count: nat)
  {
    (kind == Struct || (kind == Enum && meta.Meta? && meta.underlying == Struct)) && meta.Meta? ==>
      0 < meta.size && count * meta.size < TWO64
  }

  /** v is a C value of the type: integers in range, a bool's byte 0 or 1, lengths and counts below
      2^32, members as declared. Handles and pointers are none: they do not travel in a payload. */
  ghost predicate IsValue(kind: Kind, meta: Meta, v: Val)
    decreases meta
  {
    match if kind == Enum && meta.Meta? then meta.underlying else kind
    case U8 => v.Num? && 0 <= v.n < 0x100
    case U16 => v.Num? && 0 <= v.n < 0x1_0000
    case U32 => v.Num? && 0 <= v.n < TWO32
    case U64 => v.Num? && 0 <= v.n < TWO64
    case I8 => v.Num? && -0x80 <= v.n < 0x80
    case I16 => v.Num? && -0x8000 <= v.n < 0x8000
    case I32 => Int32(v)
    case I64 => v.Num? && -0x8000_0000_0000_0000 <= v.n < 0x8000_0000_0000_0000
    case Bool => Int32(v) && (v.n % 256 == 0 || v.n % 256 == 1)
    case Uuid => v.UuidVal? && |v.uuid| == 16
    case Str => v.StrVal? && |v.text| < TWO32
    case Array =>
      && v.ArrVal? && |v.elems| < TWO32
      && (v.elems == [] ||
          (&& meta.Meta?
           && var elem := meta.elementType;
           var ek := if elem.Meta? then elem.kind else meta.elementKind;
           Room(ek, elem, |v.elems|) && forall i | 0 <= i < |v.elems| :: IsValue(ek, elem, v.elems[i])))
    case Struct =>
      && meta.Meta?
      && if meta.kind == Struct then
           && v.StructVal? && |v.members| == |meta.fields|
           && forall i | 0 <= i < |meta.fields| :: IsValue(meta.fields[i].kind, meta.fields[i].meta, v.members[i])
         else meta.fields == [] && Int32(v)
    case _ => false
  }

  /** Encoding succeeds exactly on the values of the type. */
  lemma {:induction false} EncodesIff(kind: Kind, meta: Meta, v: Val)
    ensures Enc(kind, meta, v).Ok? <==> IsValue(kind, meta, v)
    decreases meta, 0
  {
    hide EncArray, EncFields, InRange, EncInt, Pow256;
    if Resolved(kind, meta) == Array {
      if v.ArrVal? { ArrayEncodesIff(kind, meta, v.elems); }
    } else if Resolved(kind, meta) != Struct {
      ScalarEncodesIff(kind, meta, v);
    } else if meta.Meta? && meta.kind == Struct && v.StructVal? {
      StructEncodesIff(kind, meta, v.members);
    } else {
      OtherEncodesIff(kind, meta, v);
    }
  }

  lemma ScalarEncodesIff(kind: Kind, meta: Meta, v: Val)
    requires Resolved(kind, meta) !in {Array, Struct}
    ensures Enc(kind, meta, v).Ok? <==> IsValue(kind, meta, v)
  {
    hide EncArray, EncFields, InRange, EncInt, Pow256;
    if v.Num? { Ranges(v.n); }
  }

  lemma {:induction false} StructEncodesIff(kind: Kind, meta: Meta, vs: seq<Val>)
    requires Resolved(kind, meta) == Struct && meta.Meta? && meta.kind == Struct
    ensures Enc(kind, meta, StructVal(vs)).Ok? <==> IsValue(kind, meta, StructVal(vs))
    decreases meta, 0, |vs| + 1
  {
    assert Enc(kind, meta, StructVal(vs)) == EncFields(meta, 0, vs) by { hide EncFields, InRange; }
    hide Enc, EncFields, EncArray;
    FieldsEncodeIff(meta, 0, vs);
  }

  /** Whatever else is encoded as a struct. */
  lemma OtherEncodesIff(kind: Kind, meta: Meta, v: Val)
    requires Resolved(kind, meta) == Struct && !(meta.Meta? && meta.kind == Struct && v.StructVal?)
    ensures Enc(kind, meta, v).Ok? <==> IsValue(kind, meta, v)
  {
    hide EncArray, EncFields, InRange, EncInt, Pow256;
    if v.Num? { Ranges(v.n); }
  }

  /** The integer ranges in figures. */
  lemma Ranges(n: int)
    ensures InRange(false, 1, n) <==> 0 <= n < 0x100
    ensures InRange(false, 2, n) <==> 0 <= n < 0x1_0000
    ensures InRange(false, 4, n) <==> 0 <= n < TWO32
    ensures InRange(false, 8, n) <==> 0 <= n < TWO64
    ensures InRange(true, 1, n) <==> -0x80 <= n < 0x80
    ensures InRange(true, 2, n) <==> -0x8000 <= n < 0x8000
    ensures InRange(true, 4, n) <==> -0x8000_0000 <= n < 0x8000_0000
    ensures InRange(true, 8, n) <==> -0x8000_0000_0000_0000 <= n < 0x8000_0000_0000_0000
  {
    PowTable();
  }

  lemma {:induction false} ArrayEncodesIff(kind: Kind, meta: Meta, vs: seq<Val>)
    requires Resolved(kind, meta) == Array
    ensures EncArray(meta, vs).Ok? <==> IsValue(kind, meta, ArrVal(vs))
    decreases meta, 0, 0
  {
    if vs != [] && meta.Meta? && |vs| < TWO32 {
      var ek, elem := ElemKind(meta), ElemMeta(meta);
      ElemsEncodeIff(ek, elem, vs);
      EncodesIff(ek, elem, vs[0]);
      SizeRoom(ek, elem, vs[0], |vs|);
    }
  }

  /** The codec's size of an element says whether there is room. */
  lemma SizeRoom(kind: Kind, meta: Meta, v: Val, count: nat)
    requires 0 < count < TWO32
    ensures IsValue(kind, meta, v) ==>
              (Room(kind, meta, count) <==> 0 < TypeSize(kind, meta) && count * TypeSize(kind, meta) <= SIZE_MAX)
  {
    PowTable();
  }

  lemma {:induction false} ElemsEncodeIff(kind: Kind, meta: Meta, vs: seq<Val>)
    ensures EncElems(kind, meta, vs).Ok? <==> forall i | 0 <= i < |vs| :: IsValue(kind, meta, vs[i])
    decreases meta, |vs| + 1
  {
    hide IsValue;
    if vs != [] {
      EncodesIff(kind, meta, vs[0]);
      ElemsEncodeIff(kind, meta, vs[1..]);
      assert forall i | 0 <= i < |vs| :: vs[i] == if i == 0 then vs[0] else vs[1..][i - 1];
    }
  }

  lemma {:induction false} FieldsEncodeIff(meta: Meta, i: nat, vs: seq<Val>)
    requires meta.Meta? && i <= |meta.fields|
    ensures EncFields(meta, i, vs).Ok? <==>
              && i + |vs| == |meta.fields|
              && forall j | 0 <= j < |vs| :: IsValue(meta.fields[i + j].kind, meta.fields[i + j].meta, vs[j])
    decreases meta, 0, |vs|
  {
    hide IsValue;
    if i + |vs| == |meta.fields| && vs != [] {
      EncodesIff(meta.fields[i].kind, meta.fields[i].meta, vs[0]);
      FieldsEncodeIff(meta, i + 1, vs[1..]);
      assert forall j | 0 <= j < |vs| :: vs[j] == if j == 0 then vs[0] else vs[1..][j - 1];
    }
  }

  /** On types that lose nothing, decoding succeeds exactly on bytes that begin with the encoding of
      a value. */
  lemma DecodesIff(kind: Kind, meta: Meta, bs: seq<byte>)
    requires !Inexact(kind, meta)
    ensures Dec(kind, meta, bs).Ok? <==>
              exists v :: IsValue(kind, meta, v) && Enc(kind, meta, v).Ok? && Enc(kind, meta, v).value <= bs
  {
    hide Dec, Enc, IsValue, Inexact;
    if Dec(kind, meta, bs).Ok? {
      var d := Dec(kind, meta, bs).value;
      Canonical(kind, meta, bs, d);
      ExactTidy(kind, meta, bs);
      EncodesIff(kind, meta, d.value);
      assert Enc(kind, meta, d.value).value <= bs;
    }
    if v :| IsValue(kind, meta, v) && Enc(kind, meta, v).Ok? && Enc(kind, meta, v).value <= bs {
      var cs := Enc(kind, meta, v).value;
      RoundTrip(kind, meta, v, cs, bs[|cs|..]);
      assert cs + bs[|cs|..] == bs;
    }
  }

  /** Any byte is received as a bool: true unless it is zero. */
  lemma AnyByteIsBool(meta: Meta, b: byte, rest: seq<byte>)
    ensures Dec(Bool, meta, [b] + rest) == Ok(Decoded(Num(if b == 0 then 0 else 1), 1))
  {
  }

  // ---------- the wire format in bytes ----------

  function FourBytes(n: nat): seq<byte>
    requires n < TWO32
  {
    [n % 256, n / 256 % 256, n / 0x1_0000 % 256, n / 0x100_0000]
  }

  function Concat(parts: seq<seq<byte>>): seq<byte>
  {
    if parts == [] then [] else parts[0] + Concat(parts[1..])
  }

  lemma FourIs(n: nat)
    requires n < TWO32
    ensures EncInt(4, n) == FourBytes(n)
  {
    PowTable();
    assert Pow256(3) == 0x100_0000 && Pow256(0) == 1;
    LittleEndianDigit(n, 4, 0);
    LittleEndianDigit(n, 4, 1);
    LittleEndianDigit(n, 4, 2);
    LittleEndianDigit(n, 4, 3);
  }

  /** A string is four bytes of length, lowest first, and its bytes. */
  lemma StringForm(meta: Meta, text: seq<byte>)
    requires |text| < TWO32
    ensures Enc(Str, meta, StrVal(text)) == Ok(FourBytes(|text|) + text)
  {
    hide EncInt, FourBytes;
    FourIs(|text|);
  }

  /** An array is four bytes of count and its elements, one behind the other. */
  lemma ArrayForm(meta: Meta, vs: seq<Val>, parts: seq<seq<byte>>)
    requires meta.Meta? && IsValue(Array, meta, ArrVal(vs)) && |parts| == |vs|
    requires forall i | 0 <= i < |vs| :: Enc(ElemKind(meta), meta.elementType, vs[i]) == Ok(parts[i])
    ensures Enc(Array, meta, ArrVal(vs)) == Ok(FourBytes(|vs|) + Concat(parts))
  {
    hide IsValue, EncInt, FourBytes, EncElems, TypeSize;
    ArrayEncodesIff(Array, meta, vs);
    FourIs(|vs|);
    if vs == [] {
      assert FourBytes(0) + [] == FourBytes(0);
    } else {
      ElemsForm(ElemKind(meta), meta.elementType, vs, parts);
    }
  }

  lemma {:induction false} ElemsForm(kind: Kind, meta: Meta, vs: seq<Val>, parts: seq<seq<byte>>)
    requires |parts| == |vs| && forall i | 0 <= i < |vs| :: Enc(kind, meta, vs[i]) == Ok(parts[i])
    ensures EncElems(kind, meta, vs) == Ok(Concat(parts))
  {
    hide Enc;
    if vs != [] { ElemsForm(kind, meta, vs[1..], parts[1..]); }
  }

  /** A struct is its fields in the order of their declaration. */
  lemma StructForm(meta: Meta, vs: seq<Val>, parts: seq<seq<byte>>)
    requires meta.Meta? && meta.kind == Struct && |parts| == |vs| == |meta.fields|
    requires forall i | 0 <= i < |vs| :: Enc(meta.fields[i].kind, meta.fields[i].meta, vs[i]) == Ok(parts[i])
    ensures Enc(Struct, meta, StructVal(vs)) == Ok(Concat(parts))
  {
    hide Enc, EncFields, Concat;
    StructIs(meta, vs);
    forall j | 0 <= j < |vs|
      ensures Enc(meta.fields[0 + j].kind, meta.fields[0 + j].meta, vs[j]) == Ok(parts[j])
    {
      assert 0 + j == j;
    }
    FieldsForm(meta, 0, vs, parts);
  }

  /** By definition. */
  lemma StructIs(meta: Meta, vs: seq<Val>)
    requires meta.Meta? && meta.kind == Struct
    ensures Enc(Struct, meta, StructVal(vs)) == EncFields(meta, 0, vs)
  {
    hide EncFields, EncArray, InRange, EncInt, BoolBytes;
  }

  lemma {:induction false} FieldsForm(meta: Meta, i: nat, vs: seq<Val>, parts: seq<seq<byte>>)
    requires meta.Meta? && |parts| == |vs| && i + |vs| == |meta.fields|
    requires forall j | 0 <= j < |vs| :: Enc(meta.fields[i + j].kind, meta.fields[i + j].meta, vs[j]) == Ok(parts[j])
    ensures EncFields(meta, i, vs) == Ok(Concat(parts))
    decreases |vs|
  {
    hide Enc;
    if vs != [] {
      forall j | 0 <= j < |vs| - 1
        ensures Enc(meta.fields[i + 1 + j].kind, meta.fields[i + 1 + j].meta, vs[1..][j]) == Ok(parts[1..][j])
      {
        var k := j + 1;
        assert i + k == i + 1 + j && vs[k] == vs[1..][j] && parts[k] == parts[1..][j];
      }
      assert i + 0 == i;
      FieldsForm(meta, i + 1, vs[1..], parts[1..]);
    }
  }
}
