/** The wire format of facet_rpc_encode_value and facet_rpc_decode_value: what the recursive,
    metadata-driven codec writes for a value and reads from bytes. */
module CodecSpec {
  import opened Bytes

  const SIZE_MAX: int := U64_LIMIT - 1

  datatype Kind =
    | U8 | U16 | U32 | U64 | I8 | I16 | I32 | I64
    | Bool | Uuid | Handle | Str | Bytes | LocalPtr | Enum | Struct | Array

  /** FacetTypeMeta; NoMeta is the null pointer. */
  datatype Meta =
    | NoMeta
    | Meta(kind: Kind, underlying: Kind, size: nat, elementType: Meta, elementKind: Kind, fields: seq<Field>)

  datatype Field = Field(kind: Kind, meta: Meta)

  /** A C value. An enum is its 32-bit representation read as an int32_t. A bool inside a payload
      is the int32_t that starts at its byte: the encoder reads the three bytes behind it too. */
  datatype Val =
    | Num(n: int)
    | UuidVal(uuid: seq<byte>)
    | HandleVal(handle: nat)
    | StrVal(text: seq<byte>)
    | ArrVal(elems: seq<Val>)
    | StructVal(members: seq<Val>)

  /** Error codes. The last two are not the program's: IllTyped marks a value that is not a C
      value of the type it is encoded at, Overrun a store past the end of an array. */
  datatype Code =
    | InvalidArgument | OutOfMemory | ProtocolError | BufferTooSmall | NotSupported
    | IllTyped | Overrun

  datatype Result<+T> = Ok(value: T) | Err(code: Code)

  datatype Decoded<+T> = Decoded(value: T, used: nat)

  // ---------- types ----------

  predicate Signed(k: Kind)
  {
    k in {I8, I16, I32, I64}
  }

  function Width(k: Kind): nat
  {
    match k
    case U8 | I8 => 1
    case U16 | I16 => 2
    case U32 | I32 => 4
    case U64 | I64 => 8
    case _ => 0
  }

  function Resolved(kind: Kind, meta: Meta): Kind
  {
    if kind == Enum && meta.Meta? then meta.underlying else kind
  }

  /** codec_type_size */
  function TypeSize(kind: Kind, meta: Meta): nat
  {
    match Resolved(kind, meta)
    case Bool => 1
    case Uuid | Str | Array => 16
    case Struct => if meta.NoMeta? then 0 else meta.size
    case k => Width(k)
  }

  function ElemMeta(meta: Meta): Meta
  {
    if meta.NoMeta? then NoMeta else meta.elementType
  }

  function ElemKind(meta: Meta): Kind
  {
    if meta.NoMeta? then Bytes else if meta.elementType.Meta? then meta.elementType.kind else meta.elementKind
  }

  // ---------- integers ----------

  predicate InRange(signed: bool, w: nat, n: int)
  {
    if signed then -Pow256(w) <= 2 * n < Pow256(w) else 0 <= n < Pow256(w)
  }

  /** The w low bytes of n in two's complement. */
  function EncInt(w: nat, n: int): (bs: seq<byte>)
    ensures |bs| == w
  {
    LittleEndian(n % Pow256(w), w)
  }

  function DecInt(signed: bool, bs: seq<byte>): int
  {
    var u, p := FromLittleEndian(bs), Pow256(|bs|);
    if signed && 2 * u >= p then u - p else u
  }

  lemma ModSigned(n: int, p: int)
    requires p > 0 && -p <= n < p
    ensures n % p == if n < 0 then n + p else n
  {
    DivUnique(n, p, if n < 0 then -1 else 0, if n < 0 then n + p else n);
  }

  lemma IntRoundTrip(signed: bool, w: nat, n: int)
    requires InRange(signed, w, n)
    ensures DecInt(signed, EncInt(w, n)) == n
  {
    LittleEndianRoundTrip(n % Pow256(w), w);
    ModSigned(n, Pow256(w));
  }

  lemma IntCanonical(signed: bool, bs: seq<byte>)
    ensures InRange(signed, |bs|, DecInt(signed, bs))
    ensures EncInt(|bs|, DecInt(signed, bs)) == bs
  {
    FromLittleEndianRoundTrip(bs);
    ModSigned(DecInt(signed, bs), Pow256(|bs|));
  }

  /** Sign- or zero-extending to 32 or 64 bits keeps the low bytes. */
  lemma LowBytes(signed: bool, w: nat, n: int)
    requires w in {1, 2, 4, 8} && InRange(signed, w, n)
    ensures LittleEndian(n % U64_LIMIT, w) == EncInt(w, n)
    ensures w <= 4 ==> LittleEndian(n % U32_LIMIT, w) == EncInt(w, n)
  {
    PowTable();
    ModSigned(n, Pow256(w));
    ModSigned(n, U64_LIMIT);
    var k :=
      if w == 1 then 0xff_ffff_ffff_ffff else if w == 2 then 0xffff_ffff_ffff else if w == 4 then 0xffff_ffff else 0;
    LittleEndianResidue(n % U64_LIMIT, n % Pow256(w), if n < 0 then k else 0, w);
    if w <= 4 {
      ModSigned(n, U32_LIMIT);
      var j := if w == 1 then 0xff_ffff else if w == 2 then 0xffff else 0;
      LittleEndianResidue(n % U32_LIMIT, n % Pow256(w), if n < 0 then j else 0, w);
    }
  }

  // ---------- encoding ----------

  function Prepend(bs: seq<byte>, r: Result<seq<byte>>): Result<seq<byte>>
  {
    match r case Ok(rest) => Ok(bs + rest) case Err(_) => r
  }

  /** A byte that is 0 or 1, and any three bytes behind it. */
  predicate BoolBytes(v: Val)
  {
    v.Num? && InRange(true, 4, v.n) && v.n % 256 in {0, 1}
  }

  /** What the encoder appends for v, or why it fails. An enum that another interface
      declares comes as kind Struct with its enum metadata, which lists no fields. */
  function Enc(kind: Kind, meta: Meta, v: Val): Result<seq<byte>>
    decreases meta, 0
  {
    match Resolved(kind, meta)
    case Str =>
      if !v.StrVal? then Err(IllTyped)
      else if |v.text| >= U32_LIMIT then Err(InvalidArgument)
      else Ok(EncInt(4, |v.text|) + v.text)
    case Array => if v.ArrVal? then EncArray(meta, v.elems) else Err(IllTyped)
    case Struct =>
      if meta.NoMeta? then Err(InvalidArgument)
      else if meta.kind == Struct then
        if !v.StructVal? then Err(IllTyped) else EncFields(meta, 0, v.members)
      else if meta.fields != [] || !v.Num? || !InRange(true, 4, v.n) then Err(IllTyped)
      else Ok([])
    case Handle | LocalPtr | Bytes | Enum => Err(NotSupported)
    case Uuid => if v.UuidVal? && |v.uuid| == 16 then Ok(v.uuid) else Err(IllTyped)
    case Bool => if BoolBytes(v) then Ok([if v.n != 0 then 1 else 0]) else Err(IllTyped)
    case k =>
      if v.Num? && InRange(Signed(k), Width(k), v.n) then Ok(EncInt(Width(k), v.n)) else Err(IllTyped)
  }

  function EncArray(meta: Meta, vs: seq<Val>): Result<seq<byte>>
    decreases meta, 0, 0
  {
    var kind, elem := ElemKind(meta), ElemMeta(meta);
    var size := TypeSize(kind, elem);
    if |vs| * size > SIZE_MAX then Err(IllTyped)
    else if |vs| >= U32_LIMIT then Err(InvalidArgument)
    else if vs == [] then Ok(EncInt(4, 0))
    else if size == 0 then Err(NotSupported)
    else Prepend(EncInt(4, |vs|), EncElems(kind, elem, vs))
  }

  function EncElems(kind: Kind, meta: Meta, vs: seq<Val>): Result<seq<byte>>
    decreases meta, |vs| + 1
  {
    if vs == [] then Ok([])
    else
      match Enc(kind, meta, vs[0])
      case Ok(bs) => Prepend(bs, EncElems(kind, meta, vs[1..]))
      case Err(e) => Err(e)
  }

  /** vs are the values of the fields from i on. */
  function EncFields(meta: Meta, i: nat, vs: seq<Val>): Result<seq<byte>>
    requires meta.Meta? && i <= |meta.fields|
    decreases meta, 0, |vs|
  {
    if i + |vs| != |meta.fields| then Err(IllTyped)
    else if vs == [] then Ok([])
    else
      match Enc(meta.fields[i].kind, meta.fields[i].meta, vs[0])
      case Ok(bs) => Prepend(bs, EncFields(meta, i + 1, vs[1..]))
      case Err(e) => Err(e)
  }

  // ---------- decoding ----------

  /** Decoding into a zero-initialised destination. */
  function Dec(kind: Kind, meta: Meta, bs: seq<byte>): (r: Result<Decoded<Val>>)
    ensures r.Ok? ==> r.value.used <= |bs|
    decreases meta, 0
  {
    match Resolved(kind, meta)
    case Str =>
      if |bs| < 4 || DecInt(false, bs[..4]) > |bs| - 4 then Err(ProtocolError)
      else
        var end := 4 + DecInt(false, bs[..4]);
        Ok(Decoded(StrVal(bs[4..end]), end))
    case Array =>
      (match DecArray(meta, bs)
       case Ok(d) => Ok(Decoded(ArrVal(d.value), d.used))
       case Err(e) => Err(e))
    case Struct =>
      if meta.NoMeta? then Err(InvalidArgument)
      else
        (match DecFields(meta, 0, bs)
         case Ok(d) => Ok(Decoded(if meta.kind == Struct then StructVal(d.value) else Num(0), d.used))
         case Err(e) => Err(e))
    case Handle | LocalPtr | Bytes | Enum => Err(NotSupported)
    case Uuid => if |bs| < 16 then Err(ProtocolError) else Ok(Decoded(UuidVal(bs[..16]), 16))
    case Bool => if |bs| < 1 then Err(ProtocolError) else Ok(Decoded(Num(if bs[0] != 0 then 1 else 0), 1))
    case k =>
      if |bs| < Width(k) then Err(ProtocolError)
      else Ok(Decoded(Num(DecInt(Signed(k), bs[..Width(k)])), Width(k)))
  }

  /** The next element or field is done; the rest of the loop follows from its end. */
  function Then(v: Decoded<Val>, rest: Result<Decoded<seq<Val>>>): Result<Decoded<seq<Val>>>
  {
    match rest
    case Ok(d) => Ok(Decoded([v.value] + d.value, v.used + d.used))
    case Err(_) => rest
  }

  function DecArray(meta: Meta, bs: seq<byte>): (r: Result<Decoded<seq<Val>>>)
    ensures r.Ok? ==> r.value.used <= |bs|
    decreases meta, 0, 0
  {
    if |bs| < 4 then Err(ProtocolError)
    else
      var count, kind, elem := DecInt(false, bs[..4]), ElemKind(meta), ElemMeta(meta);
      var size := TypeSize(kind, elem);
      if count == 0 then Ok(Decoded([], 4))
      else if size == 0 || count > SIZE_MAX / size then Err(ProtocolError)
      else
        match DecElems(kind, elem, count, bs[4..])
        case Ok(d) => Ok(Decoded(d.value, 4 + d.used))
        case Err(e) => Err(e)
  }

  function DecElems(kind: Kind, meta: Meta, count: nat, bs: seq<byte>): (r: Result<Decoded<seq<Val>>>)
    ensures r.Ok? ==> r.value.used <= |bs| && |r.value.value| == count
    decreases meta, count + 1
  {
    if count == 0 then Ok(Decoded([], 0))
    else
      match Dec(kind, meta, bs)
      case Ok(v) => Then(v, DecElems(kind, meta, count - 1, bs[v.used..]))
      case Err(e) => Err(e)
  }

  function DecFields(meta: Meta, i: nat, bs: seq<byte>): (r: Result<Decoded<seq<Val>>>)
    requires meta.Meta? && i <= |meta.fields|
    ensures r.Ok? ==> r.value.used <= |bs| && |r.value.value| == |meta.fields| - i
    decreases meta, 0, |meta.fields| - i
  {
    if i == |meta.fields| then Ok(Decoded([], 0))
    else
      match Dec(meta.fields[i].kind, meta.fields[i].meta, bs)
      case Ok(v) => Then(v, DecFields(meta, i + 1, bs[v.used..]))
      case Err(e) => Err(e)
  }

  // ---------- what the codec does not carry ----------

  /** Somewhere inside is a bool, which the encoder reads through an int pointer, so that it
      sees the bytes that follow too; or an enum presented as a struct, which it skips. */
  ghost predicate Inexact(kind: Kind, meta: Meta)
    decreases meta
  {
    match Resolved(kind, meta)
    case Bool => true
    case Array => meta.Meta? && Inexact(ElemKind(meta), meta.elementType)
    case Struct =>
      && meta.Meta?
      && (|| meta.kind != Struct
          || exists i | 0 <= i < |meta.fields| :: Inexact(meta.fields[i].kind, meta.fields[i].meta))
    case _ => false
  }

  /** A value as the receiver has it if `coded`, and otherwise as the sender means it: a bool is
      true if its int is not zero, or if its byte is 1; an enum presented as a struct is zero, or
      itself. */
  function Reading(kind: Kind, meta: Meta, v: Val, coded: bool): Val
    decreases meta, 0
  {
    match Resolved(kind, meta)
    case Bool => if !v.Num? then v else if coded then Num(if v.n != 0 then 1 else 0) else Num(v.n % 256)
    case Array =>
      if meta.NoMeta? || !v.ArrVal? then v else ArrVal(Readings(ElemKind(meta), ElemMeta(meta), v.elems, coded))
    case Struct =>
      if meta.NoMeta? then v
      else if meta.kind == Struct then
        if v.StructVal? then StructVal(FieldReadings(meta, 0, v.members, coded)) else v
      else if coded then Num(0) else v
    case _ => v
  }

  function Readings(kind: Kind, meta: Meta, vs: seq<Val>, coded: bool): (r: seq<Val>)
    ensures |r| == |vs|
    decreases meta, |vs| + 1
  {
    if vs == [] then [] else [Reading(kind, meta, vs[0], coded)] + Readings(kind, meta, vs[1..], coded)
  }

  function FieldReadings(meta: Meta, i: nat, vs: seq<Val>, coded: bool): (r: seq<Val>)
    requires meta.Meta? && i <= |meta.fields|
    ensures |r| == |vs|
    decreases meta, 0, |vs|
  {
    if vs == [] || i == |meta.fields| then vs
    else
      [Reading(meta.fields[i].kind, meta.fields[i].meta, vs[0], coded)] + FieldReadings(meta, i + 1, vs[1..], coded)
  }

  /** Every bool in it is true or has three zero bytes behind it, and every enum presented as a
      struct is zero. */
  predicate Intact(kind: Kind, meta: Meta, v: Val)
    decreases meta, 0
  {
    match Resolved(kind, meta)
    case Bool => v.Num? ==> v.n % 256 == 1 || v.n / 256 == 0
    case Array => meta.Meta? && v.ArrVal? ==> AllIntact(ElemKind(meta), ElemMeta(meta), v.elems)
    case Struct =>
      meta.Meta? ==>
        if meta.kind == Struct then v.StructVal? ==> FieldsIntact(meta, 0, v.members) else v == Num(0)
    case _ => true
  }

  predicate AllIntact(kind: Kind, meta: Meta, vs: seq<Val>)
    decreases meta, |vs| + 1
  {
    vs == [] || (Intact(kind, meta, vs[0]) && AllIntact(kind, meta, vs[1..]))
  }

  predicate FieldsIntact(meta: Meta, i: nat, vs: seq<Val>)
    requires meta.Meta? && i <= |meta.fields|
    decreases meta, 0, |vs|
  {
    || vs == [] || i == |meta.fields|
    || (Intact(meta.fields[i].kind, meta.fields[i].meta, vs[0]) && FieldsIntact(meta, i + 1, vs[1..]))
  }

  /** Every byte that decodes to a bool is 0 or 1, and enum metadata lists no fields. */
  predicate Tidy(kind: Kind, meta: Meta, bs: seq<byte>)
    decreases meta, 0
  {
    match Resolved(kind, meta)
    case Bool => |bs| > 0 ==> bs[0] in {0, 1}
    case Array =>
      |bs| >= 4 && meta.Meta? && DecInt(false, bs[..4]) > 0 ==>
        TidyElems(ElemKind(meta), ElemMeta(meta), DecInt(false, bs[..4]), bs[4..])
    case Struct => meta.Meta? ==> if meta.kind == Struct then TidyFields(meta, 0, bs) else meta.fields == []
    case _ => true
  }

  predicate TidyElems(kind: Kind, meta: Meta, count: nat, bs: seq<byte>)
    decreases meta, count + 1
  {
    || count == 0
    || (&& Tidy(kind, meta, bs)
        && var v := Dec(kind, meta, bs);
        v.Ok? ==> TidyElems(kind, meta, count - 1, bs[v.value.used..]))
  }

  predicate TidyFields(meta: Meta, i: nat, bs: seq<byte>)
    requires meta.Meta? && i <= |meta.fields|
    decreases meta, 0, |meta.fields| - i
  {
    || i == |meta.fields|
    || (&& Tidy(meta.fields[i].kind, meta.fields[i].meta, bs)
        && var v := Dec(meta.fields[i].kind, meta.fields[i].meta, bs);
        v.Ok? ==> TidyFields(meta, i + 1, bs[v.value.used..]))
  }
}
