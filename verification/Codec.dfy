/** The codec as the runtime runs it: a growing buffer with a read offset. */
module Codec {
  import opened Bytes
  import opened CodecSpec

  datatype Status = Done | Failed(code: Code)

  /** vs were decoded from the first `used` bytes; the loop goes on from there. */
  function Extend(vs: seq<Val>, used: nat, rest: Result<Decoded<seq<Val>>>): Result<Decoded<seq<Val>>>
  {
    match rest
    case Ok(d) => Ok(Decoded(vs + d.value, used + d.used))
    case Err(_) => rest
  }

  lemma ExtendNil(r: Result<Decoded<seq<Val>>>)
    ensures Extend([], 0, r) == r
  {
    assert r.Ok? ==> [] + r.value.value == r.value.value;
  }

  lemma ExtendThen(vs: seq<Val>, used: nat, v: Decoded<Val>, rest: Result<Decoded<seq<Val>>>)
    ensures Extend(vs, used, Then(v, rest)) == Extend(vs + [v.value], used + v.used, rest)
  {
    assert rest.Ok? ==> vs + ([v.value] + rest.value.value) == vs + [v.value] + rest.value.value;
  }

  lemma Assoc(a: seq<byte>, b: seq<byte>, c: seq<byte>)
    ensures a + (b + c) == a + b + c
  {
  }

  lemma NoFields(meta: Meta)
    requires meta.Meta?
    ensures meta.fields == [] ==> EncFields(meta, 0, []) == Ok([])
  {
  }

  /** One turn of the loop over an array's elements. */
  lemma NextElem(kind: Kind, meta: Meta, n: nat, bs: seq<byte>, vs: seq<Val>, used: nat)
    requires n > 0
    ensures var r, d := Extend(vs, used, DecElems(kind, meta, n, bs)), Dec(kind, meta, bs);
            && (d.Err? ==> r == Err(d.code))
            && (d.Ok? ==> r == Extend(vs + [d.value.value], used + d.value.used,
                                      DecElems(kind, meta, n - 1, bs[d.value.used..])))
  {
    hide Dec;
    var d := Dec(kind, meta, bs);
    if d.Ok? {
      ExtendThen(vs, used, d.value, DecElems(kind, meta, n - 1, bs[d.value.used..]));
    }
  }

  lemma NoElems(kind: Kind, meta: Meta, bs: seq<byte>, vs: seq<Val>, used: nat)
    ensures Extend(vs, used, DecElems(kind, meta, 0, bs)) == Ok(Decoded(vs, used))
  {
    assert vs + [] == vs;
  }

  lemma NextField(meta: Meta, i: nat, bs: seq<byte>, vs: seq<Val>, used: nat)
    requires meta.Meta? && i < |meta.fields|
    ensures var r, d := Extend(vs, used, DecFields(meta, i, bs)), Dec(meta.fields[i].kind, meta.fields[i].meta, bs);
            && (d.Err? ==> r == Err(d.code))
            && (d.Ok? ==> r == Extend(vs + [d.value.value], used + d.value.used,
                                      DecFields(meta, i + 1, bs[d.value.used..])))
  {
    hide Dec;
    var d := Dec(meta.fields[i].kind, meta.fields[i].meta, bs);
    if d.Ok? {
      ExtendThen(vs, used, d.value, DecFields(meta, i + 1, bs[d.value.used..]));
    }
  }

  /** Decoding by kind, by definition. */
  lemma DecByKind(kind: Kind, meta: Meta, bs: seq<byte>)
    ensures var k, r := Resolved(kind, meta), Dec(kind, meta, bs);
            && (k == Array ==>
                  var d := DecArray(meta, bs);
                  r == if d.Ok? then Ok(Decoded(ArrVal(d.value.value), d.value.used)) else Err(d.code))
            && (k == Struct && meta.NoMeta? ==> r == Err(InvalidArgument))
            && (k == Struct && meta.Meta? ==>
                  var d := DecFields(meta, 0, bs);
                  r == if d.Err? then Err(d.code)
                       else Ok(Decoded(if meta.kind == Struct then StructVal(d.value.value) else Num(0), d.value.used)))
            && (k !in {Array, Struct} ==> r == Dec(k, NoMeta, bs))
  {
    hide DecArray, DecFields, DecInt;
  }

  /** Decoding a bool, by definition. */
  lemma DecBool(bs: seq<byte>)
    ensures Dec(Bool, NoMeta, bs) ==
            if |bs| < 1 then Err(ProtocolError)
            else Ok(Decoded(Num(if FromLittleEndian(bs[..1]) != 0 then 1 else 0), 1))
  {
    if |bs| > 0 {
      assert bs[..1] == [bs[0]] && [bs[0]][1..] == [];
    }
  }

  /** Decoding an integer, by definition. */
  lemma DecInteger(k: Kind, bs: seq<byte>)
    requires Width(k) > 0
    ensures Width(k) <= 8
    ensures Dec(k, NoMeta, bs) ==
            if |bs| < Width(k) then Err(ProtocolError)
            else
              var u, p := FromLittleEndian(bs[..Width(k)]), Pow256(Width(k));
              Ok(Decoded(Num(if Signed(k) && 2 * u >= p then u - p else u), Width(k)))
  {
    hide Pow256, FromLittleEndian;
  }

  lemma NoMoreFields(meta: Meta, bs: seq<byte>, vs: seq<Val>, used: nat)
    requires meta.Meta?
    ensures Extend(vs, used, DecFields(meta, |meta.fields|, bs)) == Ok(Decoded(vs, used))
  {
    assert vs + [] == vs;
  }

  lemma PrependNil(r: Result<seq<byte>>)
    ensures Prepend([], r) == r
  {
    assert r.Ok? ==> [] + r.value == r.value;
  }

  lemma PrependTwice(a: seq<byte>, b: seq<byte>, r: Result<seq<byte>>)
    ensures Prepend(a, Prepend(b, r)) == Prepend(a + b, r)
  {
    assert r.Ok? ==> a + (b + r.value) == a + b + r.value;
  }

  class Codec {
    var data: array<byte>
    var size: nat
    var offset: nat

    ghost predicate Valid()
      reads this
    {
      offset <= size <= data.Length <= SIZE_MAX
    }

    ghost function Contents(): seq<byte>
      requires Valid()
      reads this, data
    {
      data[..size]
    }

    /** What is still to be read. */
    ghost function Rest(): seq<byte>
      requires Valid()
      reads this, data
    {
      data[offset..size]
    }

    constructor (capacity: nat)
      requires capacity <= SIZE_MAX
      ensures Valid() && Contents() == [] && fresh(data)
    {
      data := new byte[if capacity == 0 then 256 else capacity];
      size, offset := 0, 0;
    }

    /** A codec over received bytes. */
    constructor Over(bytes: seq<byte>)
      requires |bytes| <= SIZE_MAX
      ensures Valid() && Contents() == Rest() == bytes && offset == 0 && fresh(data)
    {
      data := new byte[|bytes|](i requires 0 <= i < |bytes| => bytes[i]);
      size, offset := |bytes|, 0;
    }

    /** Makes room for n more bytes, doubling the capacity until they fit; the allocator may
        refuse. */
    method Reserve(n: nat) returns (r: Status)
      requires Valid()
      modifies this`data
      ensures Valid() && (data == old(data) || fresh(data)) && Contents() == old(Contents())
      ensures r == Done ==> size + n <= data.Length
      ensures r.Failed? ==> r.code in {BufferTooSmall, OutOfMemory} && old(size + n > data.Length)
      ensures r == Failed(BufferTooSmall) ==> 2 * (size + n) > SIZE_MAX
    {
      if n > SIZE_MAX - size { return Failed(BufferTooSmall); }
      if size + n > data.Length {
        var capacity := if data.Length == 0 then 256 else data.Length;
        while capacity < size + n
          invariant 0 < capacity <= SIZE_MAX
        {
          if capacity > SIZE_MAX / 2 { return Failed(BufferTooSmall); }
          capacity := capacity * 2;
        }
        var granted: bool := *;
        if !granted { return Failed(OutOfMemory); }
        var expanded := new byte[capacity];
        forall i | 0 <= i < size {
          expanded[i] := data[i];
        }
        assert expanded[..size] == data[..size];
        data := expanded;
      }
      r := Done;
    }

    /** Appends bytes. */
    method Write(bytes: seq<byte>) returns (r: Status)
      requires Valid()
      modifies this, data
      ensures Valid() && offset == old(offset) && (data == old(data) || fresh(data))
      ensures Contents() == if r == Done then old(Contents()) + bytes else old(Contents())
      ensures r.Failed? ==> r.code in {BufferTooSmall, OutOfMemory} && old(size + |bytes| > data.Length)
      ensures r == Failed(BufferTooSmall) ==> 2 * (old(size) + |bytes|) > SIZE_MAX
    {
      r := Reserve(|bytes|);
      if r != Done { return; }
      label reserved:
      forall i | 0 <= i < |bytes| {
        data[size + i] := bytes[i];
      }
      assert data[..size] == old@reserved(data[..size]);
      assert data[..size + |bytes|] == data[..size] + bytes;
      size := size + |bytes|;
    }

    method WriteUint(value: nat, n: nat) returns (r: Status)
      requires Valid() && value < U64_LIMIT
      modifies this, data
      ensures Valid() && offset == old(offset) && (data == old(data) || fresh(data))
      ensures r == Done ==> n <= 8 && Contents() == old(Contents()) + LittleEndian(value, n)
      ensures r.Failed? ==> Contents() == old(Contents())
      ensures r.Failed? ==> if n > 8 then r.code == InvalidArgument else r.code in {BufferTooSmall, OutOfMemory}
    {
      if n > 8 { return Failed(InvalidArgument); }
      var bytes := new byte[8];
      for i := 0 to n
        invariant bytes[..i] == LittleEndian(value, i)
        modifies bytes
      {
        LittleEndianStep(value, i);
        bytes[i] := value / Pow256(i) % 256;
        assert bytes[..i + 1] == bytes[..i] + [bytes[i]];
      }
      r := Write(bytes[..n]);
    }

    method Read(n: nat) returns (r: Status, bytes: seq<byte>)
      requires Valid()
      modifies this`offset
      ensures Valid()
      ensures r == if n <= |old(Rest())| then Done else Failed(ProtocolError)
      ensures r == Done ==> bytes == old(Rest())[..n] && offset == old(offset) + n
      ensures r != Done ==> offset == old(offset)
    {
      bytes := [];
      if n > size - offset { return Failed(ProtocolError), []; }
      bytes := data[offset..offset + n];
      offset := offset + n;
      r := Done;
    }

    method ReadUint(n: nat) returns (r: Status, value: nat)
      requires Valid()
      modifies this`offset
      ensures Valid()
      ensures r == if n > 8 then Failed(InvalidArgument)
                   else if n <= |old(Rest())| then Done else Failed(ProtocolError)
      ensures r == Done ==> value == FromLittleEndian(old(Rest())[..n]) && offset == old(offset) + n
      ensures r != Done ==> offset == old(offset)
    {
      value := 0;
      if n > 8 { return Failed(InvalidArgument), 0; }
      var bytes;
      r, bytes := Read(n);
      if r != Done { return; }
      for i := 0 to n
        invariant value == FromLittleEndian(bytes[..i])
        modifies {}
      {
        FromLittleEndianStep(bytes[..i], bytes[i]);
        assert bytes[..i + 1] == bytes[..i] + [bytes[i]];
        value := value + bytes[i] * Pow256(i);
      }
      assert bytes[..n] == bytes;
    }
  
    /** The 32-bit length in front of a string or an array. */
    method WriteLength(n: nat) returns (r: Status)
      requires Valid() && n < U32_LIMIT
      modifies this, data
      ensures Valid() && offset == old(offset) && (data == old(data) || fresh(data))
      ensures Contents() == if r == Done then old(Contents()) + EncInt(4, n) else old(Contents())
      ensures r.Failed? ==> r.code in {BufferTooSmall, OutOfMemory}
    {
      PowTable();
      LowBytes(false, 4, n);
      assert n % U64_LIMIT == n;
      hide LittleEndian, EncInt;
      r := WriteUint(n, 4);
    }

    method ReadLength() returns (r: Status, n: nat)
      requires Valid()
      modifies this`offset
      ensures Valid()
      ensures r == if |old(Rest())| >= 4 then Done else Failed(ProtocolError)
      ensures r == Done ==> n == DecInt(false, old(Rest())[..4]) && offset == old(offset) + 4
      ensures r != Done ==> offset == old(offset)
    {
      r, n := ReadUint(4);
    }

    // ---------- encoding ----------

    method EncodeValue(kind: Kind, meta: Meta, v: Val) returns (r: Status)
      requires Valid() && Enc(kind, meta, v) != Err(IllTyped)
      modifies this, data
      ensures Valid() && offset == old(offset) && (data == old(data) || fresh(data))
      ensures r == Done ==> Enc(kind, meta, v).Ok? && Contents() == old(Contents()) + Enc(kind, meta, v).value
      ensures r.Failed? ==> old(Contents()) <= Contents()
      ensures r.Failed? ==> r.code in {BufferTooSmall, OutOfMemory} || Enc(kind, meta, v) == Err(r.code)
      decreases meta, 1
    {
      hide EncArray, EncFields, EncInt;
      var k := Resolved(kind, meta);
      if k == Str {
        r := EncodeString(v.text);
      } else if k == Array {
        r := EncodeArray(meta, v.elems);
      } else if k == Struct {
        if meta.NoMeta? { return Failed(InvalidArgument); }
        NoFields(meta);
        r := EncodeFields(meta, if meta.kind == Struct then v.members else []);
      } else if k in {Handle, LocalPtr, Bytes, Enum} {
        r := Failed(NotSupported);
      } else {
        r := EncodeScalar(k, v);
      }
    }

    method EncodeScalar(k: Kind, v: Val) returns (r: Status)
      requires Valid() && (k == Uuid || k == Bool || Width(k) > 0) && Enc(k, NoMeta, v).Ok?
      modifies this, data
      ensures Valid() && offset == old(offset) && (data == old(data) || fresh(data))
      ensures Contents() == if r == Done then old(Contents()) + Enc(k, NoMeta, v).value else old(Contents())
      ensures r.Failed? ==> r.code in {BufferTooSmall, OutOfMemory}
    {
      if k == Uuid {
        r := Write(v.uuid);
      } else if k == Bool {
        r := WriteUint(if v.n != 0 then 1 else 0, 1);
      } else {
        LowBytes(Signed(k), Width(k), v.n);
        hide LittleEndian, EncInt;
        r := WriteUint(v.n % U64_LIMIT, Width(k));
      }
    }

    method EncodeString(text: seq<byte>) returns (r: Status)
      requires Valid()
      modifies this, data
      ensures Valid() && offset == old(offset) && (data == old(data) || fresh(data))
      ensures r == Done ==> |text| < U32_LIMIT && Contents() == old(Contents()) + (EncInt(4, |text|) + text)
      ensures r.Failed? ==> old(Contents()) <= Contents()
      ensures r.Failed? ==>
                r.code in {BufferTooSmall, OutOfMemory} || (|text| >= U32_LIMIT && r.code == InvalidArgument)
    {
      hide EncInt;
      if |text| >= U32_LIMIT { return Failed(InvalidArgument); }
      r := WriteLength(|text|);
      if r != Done { return; }
      r := Write(text);
      Assoc(old(Contents()), EncInt(4, |text|), text);
    }

    method EncodeArray(meta: Meta, elems: seq<Val>) returns (r: Status)
      requires Valid() && EncArray(meta, elems) != Err(IllTyped)
      modifies this, data
      ensures Valid() && offset == old(offset) && (data == old(data) || fresh(data))
      ensures r == Done ==> EncArray(meta, elems).Ok? && Contents() == old(Contents()) + EncArray(meta, elems).value
      ensures r.Failed? ==> old(Contents()) <= Contents()
      ensures r.Failed? ==> r.code in {BufferTooSmall, OutOfMemory} || EncArray(meta, elems) == Err(r.code)
      decreases meta, 0
    {
      hide EncElems, EncInt;
      if |elems| >= U32_LIMIT { return Failed(InvalidArgument); }
      r := WriteLength(|elems|);
      var kind, elem := ElemKind(meta), ElemMeta(meta);
      if TypeSize(kind, elem) == 0 && elems != [] { return Failed(NotSupported); }
      if r != Done || elems == [] { return; }
      r := EncodeElems(kind, elem, elems);
      Assoc(old(Contents()), EncInt(4, |elems|), if r == Done then EncElems(kind, elem, elems).value else []);
    }

    method EncodeElems(kind: Kind, meta: Meta, vs: seq<Val>) returns (r: Status)
      requires Valid() && EncElems(kind, meta, vs) != Err(IllTyped)
      modifies this, data
      ensures Valid() && offset == old(offset) && (data == old(data) || fresh(data))
      ensures r == Done ==>
                EncElems(kind, meta, vs).Ok? && Contents() == old(Contents()) + EncElems(kind, meta, vs).value
      ensures r.Failed? ==> old(Contents()) <= Contents()
      ensures r.Failed? ==> r.code in {BufferTooSmall, OutOfMemory} || EncElems(kind, meta, vs) == Err(r.code)
      decreases meta, 2
    {
      hide Enc;
      ghost var written := [];
      assert vs[0..] == vs;
      PrependNil(EncElems(kind, meta, vs));
      for i := 0 to |vs|
        invariant Valid() && offset == old(offset) && (data == old(data) || fresh(data))
        invariant Contents() == old(Contents()) + written
        invariant EncElems(kind, meta, vs) == Prepend(written, EncElems(kind, meta, vs[i..]))
      {
        assert vs[i..][0] == vs[i] && vs[i..][1..] == vs[i + 1..];
        r := EncodeValue(kind, meta, vs[i]);
        if r != Done { return; }
        ghost var next := Enc(kind, meta, vs[i]).value;
        PrependTwice(written, next, EncElems(kind, meta, vs[i + 1..]));
        written := written + next;
      }
      r := Done;
    }

    method EncodeFields(meta: Meta, vs: seq<Val>) returns (r: Status)
      requires Valid() && meta.Meta? && EncFields(meta, 0, vs) != Err(IllTyped)
      modifies this, data
      ensures Valid() && offset == old(offset) && (data == old(data) || fresh(data))
      ensures r == Done ==> EncFields(meta, 0, vs).Ok? && Contents() == old(Contents()) + EncFields(meta, 0, vs).value
      ensures r.Failed? ==> old(Contents()) <= Contents()
      ensures r.Failed? ==> r.code in {BufferTooSmall, OutOfMemory} || EncFields(meta, 0, vs) == Err(r.code)
      decreases meta, 0
    {
      hide Enc;
      ghost var written := [];
      assert vs[0..] == vs;
      PrependNil(EncFields(meta, 0, vs));
      for i := 0 to |meta.fields|
        invariant Valid() && offset == old(offset) && (data == old(data) || fresh(data))
        invariant Contents() == old(Contents()) + written
        invariant |vs| == |meta.fields| && EncFields(meta, 0, vs) == Prepend(written, EncFields(meta, i, vs[i..]))
      {
        var f := meta.fields[i];
        assert vs[i..][0] == vs[i] && vs[i..][1..] == vs[i + 1..];
        r := EncodeValue(f.kind, f.meta, vs[i]);
        if r != Done { return; }
        ghost var next := Enc(f.kind, f.meta, vs[i]).value;
        PrependTwice(written, next, EncFields(meta, i + 1, vs[i + 1..]));
        written := written + next;
      }
      r := Done;
    }

    // ---------- decoding ----------

    method DecodeValue(kind: Kind, meta: Meta) returns (r: Result<Val>)
      requires Valid()
      modifies this`offset
      ensures Valid() && offset >= old(offset)
      ensures r.Ok? ==> Dec(kind, meta, old(Rest())) == Ok(Decoded(r.value, offset - old(offset)))
      ensures r.Err? ==> r.code == OutOfMemory || Dec(kind, meta, old(Rest())) == Err(r.code)
      decreases meta, 1
    {
      var k := Resolved(kind, meta);
      ghost var bs := Rest();
      DecByKind(kind, meta, bs);
      hide Dec, DecArray, DecFields, Resolved;
      if k == Array {
        var vs := DecodeArray(meta);
        r := match vs case Ok(elems) => Ok(ArrVal(elems)) case Err(e) => Err(e);
      } else if k == Struct {
        if meta.NoMeta? { return Err(InvalidArgument); }
        var vs := DecodeFields(meta);
        r := match vs
             case Ok(members) => Ok(if meta.kind == Struct then StructVal(members) else Num(0))
             case Err(e) => Err(e);
      } else {
        r := DecodePlain(k);
      }
    }

    /** Everything but arrays and structs, which needs no metadata. */
    method DecodePlain(k: Kind) returns (r: Result<Val>)
      requires Valid() && k !in {Array, Struct}
      modifies this`offset
      ensures Valid() && offset >= old(offset)
      ensures r.Ok? ==> Dec(k, NoMeta, old(Rest())) == Ok(Decoded(r.value, offset - old(offset)))
      ensures r.Err? ==> r.code == OutOfMemory || Dec(k, NoMeta, old(Rest())) == Err(r.code)
    {
      hide DecInt;
      if k == Str {
        r := DecodeString();
      } else if k in {Handle, LocalPtr, Bytes, Enum} {
        r := Err(NotSupported);
      } else if k == Uuid {
        r := DecodeUuid();
      } else {
        r := DecodeScalar(k);
      }
    }

    method DecodeUuid() returns (r: Result<Val>)
      requires Valid()
      modifies this`offset
      ensures Valid() && offset >= old(offset)
      ensures r == if |old(Rest())| < 16 then Err(ProtocolError) else Ok(UuidVal(old(Rest())[..16]))
      ensures r.Ok? ==> offset == old(offset) + 16
    {
      var s, bytes := Read(16);
      r := if s == Done then Ok(UuidVal(bytes)) else Err(s.code);
    }

    method DecodeScalar(k: Kind) returns (r: Result<Val>)
      requires Valid() && (k == Bool || Width(k) > 0)
      modifies this`offset
      ensures Valid() && offset >= old(offset)
      ensures r.Ok? ==> Dec(k, NoMeta, old(Rest())) == Ok(Decoded(r.value, offset - old(offset)))
      ensures r.Err? ==> Dec(k, NoMeta, old(Rest())) == Err(r.code)
    {
      hide Dec, FromLittleEndian, Pow256;
      if k == Bool {
        DecBool(Rest());
        var s, u := ReadUint(1);
        if s != Done { return Err(s.code); }
        r := Ok(Num(if u != 0 then 1 else 0));
      } else {
        DecInteger(k, Rest());
        hide Width, Signed;
        var s, u := ReadUint(Width(k));
        if s != Done { return Err(s.code); }
        var p := Pow256(Width(k));
        r := Ok(Num(if Signed(k) && 2 * u >= p then u - p else u));
      }
    }

    method DecodeString() returns (r: Result<Val>)
      requires Valid()
      modifies this`offset
      ensures Valid() && offset >= old(offset)
      ensures r.Ok? ==> Dec(Str, NoMeta, old(Rest())) == Ok(Decoded(r.value, offset - old(offset)))
      ensures r.Err? ==> r.code == OutOfMemory || Dec(Str, NoMeta, old(Rest())) == Err(r.code)
    {
      var s, length := ReadLength();
      if s != Done || length > size - offset { return Err(ProtocolError); }
      var granted: bool := *;
      if !granted { return Err(OutOfMemory); }
      var text;
      s, text := Read(length);
      assert text == old(Rest())[4..4 + length];
      r := Ok(StrVal(text));
    }

    method DecodeArray(meta: Meta) returns (r: Result<seq<Val>>)
      requires Valid()
      modifies this`offset
      ensures Valid() && offset >= old(offset)
      ensures r.Ok? ==> DecArray(meta, old(Rest())) == Ok(Decoded(r.value, offset - old(offset)))
      ensures r.Err? ==> r.code == OutOfMemory || DecArray(meta, old(Rest())) == Err(r.code)
      decreases meta, 0
    {
      hide DecElems, DecInt;
      var s, count := ReadLength();
      if s != Done { return Err(s.code); }
      var kind, elem := ElemKind(meta), ElemMeta(meta);
      var size := TypeSize(kind, elem);
      if size == 0 && count != 0 { return Err(ProtocolError); }
      if count != 0 && count > SIZE_MAX / size { return Err(ProtocolError); }
      if count == 0 { return Ok([]); }
      var granted: bool := *;
      if !granted { return Err(OutOfMemory); }
      assert Rest() == old(Rest())[4..];
      r := DecodeElems(kind, elem, count);
    }

    method DecodeElems(kind: Kind, meta: Meta, count: nat) returns (r: Result<seq<Val>>)
      requires Valid()
      modifies this`offset
      ensures Valid() && offset >= old(offset)
      ensures r.Ok? ==> DecElems(kind, meta, count, old(Rest())) == Ok(Decoded(r.value, offset - old(offset)))
      ensures r.Err? ==> r.code == OutOfMemory || DecElems(kind, meta, count, old(Rest())) == Err(r.code)
      decreases meta, 2
    {
      hide Dec, DecElems, Extend;
      ghost var all := DecElems(kind, meta, count, Rest());
      var vs := [];
      ExtendNil(all);
      for i := 0 to count
        invariant Valid() && offset >= old(offset)
        invariant all == Extend(vs, offset - old(offset), DecElems(kind, meta, count - i, Rest()))
      {
        NextElem(kind, meta, count - i, Rest(), vs, offset - old(offset));
        ghost var before, start := Rest(), offset;
        var v := DecodeValue(kind, meta);
        if v.Err? { return Err(v.code); }
        assert Rest() == before[offset - start..];
        vs := vs + [v.value];
      }
      NoElems(kind, meta, Rest(), vs, offset - old(offset));
      r := Ok(vs);
    }

    method DecodeFields(meta: Meta) returns (r: Result<seq<Val>>)
      requires Valid() && meta.Meta?
      modifies this`offset
      ensures Valid() && offset >= old(offset)
      ensures r.Ok? ==> DecFields(meta, 0, old(Rest())) == Ok(Decoded(r.value, offset - old(offset)))
      ensures r.Err? ==> r.code == OutOfMemory || DecFields(meta, 0, old(Rest())) == Err(r.code)
      decreases meta, 0
    {
      hide Dec, DecFields, Extend;
      ghost var all := DecFields(meta, 0, Rest());
      var vs := [];
      ExtendNil(all);
      for i := 0 to |meta.fields|
        invariant Valid() && offset >= old(offset)
        invariant all == Extend(vs, offset - old(offset), DecFields(meta, i, Rest()))
      {
        NextField(meta, i, Rest(), vs, offset - old(offset));
        ghost var before, start := Rest(), offset;
        var v := DecodeValue(meta.fields[i].kind, meta.fields[i].meta);
        if v.Err? { return Err(v.code); }
        assert Rest() == before[offset - start..];
        vs := vs + [v.value];
      }
      NoMoreFields(meta, Rest(), vs, offset - old(offset));
      r := Ok(vs);
    }
  }
}
