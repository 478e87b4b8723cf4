/** The codec is self-delimiting; what a value is after the trip; which values, types and bytes
    survive it. */
module CodecLaws {
  import opened Bytes
  import opened CodecSpec

  lemma LengthRoundTrip(length: nat, body: seq<byte>, suffix: seq<byte>)
    requires length < U32_LIMIT
    ensures var s := EncInt(4, length) + body + suffix;
            DecInt(false, s[..4]) == length && s[4..] == body + suffix && s[4..4 + |body|] == body
  {
    PowTable();
    IntRoundTrip(false, 4, length);
    Sliced(EncInt(4, length), body, suffix);
  }

  lemma LengthCanonical(bs: seq<byte>)
    requires |bs| >= 4
    ensures 0 <= DecInt(false, bs[..4]) < U32_LIMIT
    ensures EncInt(4, DecInt(false, bs[..4])) == bs[..4]
  {
    PowTable();
    IntCanonical(false, bs[..4]);
  }

  lemma CountFits(count: nat, size: nat)
    requires size > 0
    ensures count * size <= SIZE_MAX <==> count <= SIZE_MAX / size
  {
    var most := SIZE_MAX / size;
    assert count > most ==> count * size >= (most + 1) * size;
    assert count <= most ==> count * size <= most * size;
  }

  /** Decoding an encoding, with any bytes behind it, gives the value as coded and stops where the
      encoding ended. */
  lemma {:induction false} RoundTrip(kind: Kind, meta: Meta, v: Val, bs: seq<byte>, suffix: seq<byte>)
    requires Enc(kind, meta, v) == Ok(bs)
    ensures Dec(kind, meta, bs + suffix) == Ok(Decoded(Reading(kind, meta, v, true), |bs|))
    decreases meta, 1
  {
    hide EncArray, DecArray, EncFields, DecFields, Readings, FieldReadings;
    var k := Resolved(kind, meta);
    if k == Str {
      LengthRoundTrip(|v.text|, v.text, suffix);
    } else if k == Array {
      ArrayRoundTrip(meta, v.elems, bs, suffix);
    } else if k == Struct {
      if meta.kind == Struct {
        FieldsRoundTrip(meta, 0, v.members, bs, suffix);
      } else {
        NoFieldsDecoded(meta, suffix);
      }
    } else if k == Uuid {
      assert (bs + suffix)[..16] == bs;
    } else if k != Bool {
      IntegerRoundTrip(k, v.n, suffix);
    }
  }

  lemma IntegerRoundTrip(k: Kind, n: int, suffix: seq<byte>)
    requires Width(k) > 0 && InRange(Signed(k), Width(k), n)
    ensures DecInt(Signed(k), (EncInt(Width(k), n) + suffix)[..Width(k)]) == n
  {
    assert (EncInt(Width(k), n) + suffix)[..Width(k)] == EncInt(Width(k), n);
    IntRoundTrip(Signed(k), Width(k), n);
  }

  lemma NoFieldsDecoded(meta: Meta, suffix: seq<byte>)
    requires meta.Meta? && meta.fields == []
    ensures DecFields(meta, 0, suffix) == Ok(Decoded([], 0)) && [] + suffix == suffix
  {
  }

  /** The array as coded; without metadata it is empty. */
  function ArrayReading(meta: Meta, vs: seq<Val>): seq<Val>
  {
    if meta.NoMeta? then vs else Readings(ElemKind(meta), ElemMeta(meta), vs, true)
  }

  lemma {:induction false} ArrayRoundTrip(meta: Meta, vs: seq<Val>, bs: seq<byte>, suffix: seq<byte>)
    requires EncArray(meta, vs) == Ok(bs)
    ensures DecArray(meta, bs + suffix) == Ok(Decoded(ArrayReading(meta, vs), |bs|))
    decreases meta, 0
  {
    var kind, elem := ElemKind(meta), ElemMeta(meta);
    hide Enc, Dec, EncElems, DecElems, DecInt, EncInt, Reading;
    if vs == [] {
      LengthRoundTrip(0, [], suffix);
      assert bs + [] + suffix == bs + suffix;
    } else {
      var rest := EncElems(kind, elem, vs).value;
      hide TypeSize;
      LengthRoundTrip(|vs|, rest, suffix);
      ElemsRoundTrip(kind, elem, vs, rest, suffix);
      hide Readings;
      CountFits(|vs|, TypeSize(kind, elem));
    }
  }

  lemma {:induction false} ElemsRoundTrip(kind: Kind, meta: Meta, vs: seq<Val>, bs: seq<byte>, suffix: seq<byte>)
    requires EncElems(kind, meta, vs) == Ok(bs)
    ensures DecElems(kind, meta, |vs|, bs + suffix) == Ok(Decoded(Readings(kind, meta, vs, true), |bs|))
    decreases meta, |vs| + 1
  {
    hide Enc, Dec, Reading;
    if vs != [] {
      var first, rest := Enc(kind, meta, vs[0]).value, EncElems(kind, meta, vs[1..]).value;
      RoundTrip(kind, meta, vs[0], first, rest + suffix);
      ElemsRoundTrip(kind, meta, vs[1..], rest, suffix);
      var v := Decoded(Reading(kind, meta, vs[0], true), |first|);
      hide Readings;
      ElemsStep(kind, meta, |vs|, v, Readings(kind, meta, vs[1..], true), first, rest, suffix);
    }
  }

  lemma ElemsStep(
    kind: Kind, meta: Meta, n: nat, v: Decoded<Val>, vs: seq<Val>, first: seq<byte>, rest: seq<byte>, suffix: seq<byte>)
    requires n > 0 && v.used == |first| && Dec(kind, meta, first + (rest + suffix)) == Ok(v)
    requires DecElems(kind, meta, n - 1, rest + suffix) == Ok(Decoded(vs, |rest|))
    ensures DecElems(kind, meta, n, first + rest + suffix) == Ok(Decoded([v.value] + vs, |first + rest|))
  {
    hide Dec;
    Sliced(first, rest, suffix);
  }

  lemma {:induction false} FieldsRoundTrip(meta: Meta, i: nat, vs: seq<Val>, bs: seq<byte>, suffix: seq<byte>)
    requires meta.Meta? && i <= |meta.fields| && EncFields(meta, i, vs) == Ok(bs)
    ensures DecFields(meta, i, bs + suffix) == Ok(Decoded(FieldReadings(meta, i, vs, true), |bs|))
    decreases meta, 0, |vs|
  {
    hide Enc, Dec, Reading;
    if vs != [] {
      var f := meta.fields[i];
      var first, rest := Enc(f.kind, f.meta, vs[0]).value, EncFields(meta, i + 1, vs[1..]).value;
      RoundTrip(f.kind, f.meta, vs[0], first, rest + suffix);
      FieldsRoundTrip(meta, i + 1, vs[1..], rest, suffix);
      Sliced(first, rest, suffix);
    }
  }

  /** Two encodings of one type that begin a common stream end at the same place and are of values
      that are the same as coded. */
  lemma SelfDelimiting(kind: Kind, meta: Meta, v: Val, bs: seq<byte>, s: seq<byte>, w: Val, cs: seq<byte>, t: seq<byte>)
    requires Enc(kind, meta, v) == Ok(bs) && Enc(kind, meta, w) == Ok(cs) && bs + s == cs + t
    ensures Reading(kind, meta, v, true) == Reading(kind, meta, w, true) && bs == cs && s == t
  {
    hide Enc, Dec, Reading;
    RoundTrip(kind, meta, v, bs, s);
    RoundTrip(kind, meta, w, cs, t);
    assert s == (bs + s)[|bs|..] == (cs + t)[|cs|..] == t;
    assert bs == (bs + s)[..|bs|] == (cs + t)[..|cs|] == cs;
  }

  // ---------- which values survive ----------

  /** The receiver has the value the sender means if and only if every bool in it is true or has
      three zero bytes behind it, and every enum presented as a struct is zero. */
  lemma {:induction false} CarriedIff(kind: Kind, meta: Meta, v: Val)
    requires Enc(kind, meta, v).Ok?
    ensures Reading(kind, meta, v, true) == Reading(kind, meta, v, false) <==> Intact(kind, meta, v)
    decreases meta, 1
  {
    var k := Resolved(kind, meta);
    if k == Array && meta.Meta? && v.elems != [] {
      ElemsCarriedIff(ElemKind(meta), ElemMeta(meta), v.elems);
    } else if k == Struct && meta.kind == Struct {
      FieldsCarriedIff(meta, 0, v.members);
    }
  }

  lemma {:induction false} ElemsCarriedIff(kind: Kind, meta: Meta, vs: seq<Val>)
    requires EncElems(kind, meta, vs).Ok?
    ensures Readings(kind, meta, vs, true) == Readings(kind, meta, vs, false) <==> AllIntact(kind, meta, vs)
    decreases meta, |vs| + 1
  {
    hide Enc, Reading, Intact;
    if vs != [] {
      CarriedIff(kind, meta, vs[0]);
      ElemsCarriedIff(kind, meta, vs[1..]);
      SameCons(Reading(kind, meta, vs[0], true), Readings(kind, meta, vs[1..], true),
               Reading(kind, meta, vs[0], false), Readings(kind, meta, vs[1..], false));
    }
  }

  lemma {:induction false} FieldsCarriedIff(meta: Meta, i: nat, vs: seq<Val>)
    requires meta.Meta? && i <= |meta.fields| && EncFields(meta, i, vs).Ok?
    ensures FieldReadings(meta, i, vs, true) == FieldReadings(meta, i, vs, false) <==> FieldsIntact(meta, i, vs)
    decreases meta, 0, |vs|
  {
    hide Enc, Reading, Intact;
    if vs != [] {
      var f := meta.fields[i];
      CarriedIff(f.kind, f.meta, vs[0]);
      FieldsCarriedIff(meta, i + 1, vs[1..]);
      SameCons(Reading(f.kind, f.meta, vs[0], true), FieldReadings(meta, i + 1, vs[1..], true),
               Reading(f.kind, f.meta, vs[0], false), FieldReadings(meta, i + 1, vs[1..], false));
    }
  }

  lemma SameCons<T>(v: T, vs: seq<T>, w: T, ws: seq<T>)
    ensures [v] + vs == [w] + ws <==> v == w && vs == ws
  {
    assert ([v] + vs)[0] == v && ([v] + vs)[1..] == vs && ([w] + ws)[0] == w && ([w] + ws)[1..] == ws;
  }

  /** On an exact type both readings of a value are the value itself. */
  lemma {:induction false} ExactReading(kind: Kind, meta: Meta, v: Val, coded: bool)
    requires !Inexact(kind, meta)
    ensures Reading(kind, meta, v, coded) == v
    decreases meta, 1
  {
    var k := Resolved(kind, meta);
    if k == Array && meta.Meta? && v.ArrVal? {
      ExactReadings(ElemKind(meta), ElemMeta(meta), v.elems, coded);
    } else if k == Struct && meta.Meta? && v.StructVal? {
      ExactFieldReadings(meta, 0, v.members, coded);
    }
  }

  lemma {:induction false} ExactReadings(kind: Kind, meta: Meta, vs: seq<Val>, coded: bool)
    requires !Inexact(kind, meta)
    ensures Readings(kind, meta, vs, coded) == vs
    decreases meta, |vs| + 1
  {
    if vs != [] {
      ExactReading(kind, meta, vs[0], coded);
      ExactReadings(kind, meta, vs[1..], coded);
    }
  }

  lemma {:induction false} ExactFieldReadings(meta: Meta, i: nat, vs: seq<Val>, coded: bool)
    requires meta.Meta? && i <= |meta.fields| && !Inexact(Struct, meta)
    ensures FieldReadings(meta, i, vs, coded) == vs
    decreases meta, 0, |vs|
  {
    if vs != [] && i < |meta.fields| {
      ExactReading(meta.fields[i].kind, meta.fields[i].meta, vs[0], coded);
      ExactFieldReadings(meta, i + 1, vs[1..], coded);
    }
  }

  // ---------- which bytes are an encoding ----------

  /** Whether encoding gives back the bytes a value was decoded from: if and only if every byte
      read as a bool is 0 or 1. */
  ghost predicate Reencodes(r: Result<seq<byte>>, bs: seq<byte>, used: nat, tidy: bool)
    requires used <= |bs|
  {
    (r.Ok? ==> |r.value| == used) && (r == Ok(bs[..used]) <==> tidy)
  }

  lemma {:induction false} Canonical(kind: Kind, meta: Meta, bs: seq<byte>, d: Decoded<Val>)
    requires Dec(kind, meta, bs) == Ok(d)
    ensures Reencodes(Enc(kind, meta, d.value), bs, d.used, Tidy(kind, meta, bs))
    decreases meta, 1
  {
    hide EncArray, DecArray, EncFields, DecFields, TidyElems, TidyFields, Reencodes, EncInt, DecInt;
    var k := Resolved(kind, meta);
    if k == Str {
      StringCanonical(bs);
    } else if k == Array {
      ArrayCanonical(meta, bs, DecArray(meta, bs).value);
    } else if k == Struct {
      if meta.kind == Struct {
        FieldsCanonical(meta, 0, bs, DecFields(meta, 0, bs).value);
      } else {
        SkippedCanonical(meta, bs);
      }
    } else {
      ScalarCanonical(k, bs);
    }
  }

  lemma SkippedCanonical(meta: Meta, bs: seq<byte>)
    requires meta.Meta? && meta.kind != Struct && Dec(Struct, meta, bs).Ok?
    ensures var d := Dec(Struct, meta, bs).value;
            Reencodes(Enc(Struct, meta, d.value), bs, d.used, Tidy(Struct, meta, bs))
  {
    hide DecFields;
    if meta.fields == [] {
      NoFieldsDecoded(meta, bs);
    }
  }

  lemma StringCanonical(bs: seq<byte>)
    requires Dec(Str, NoMeta, bs).Ok?
    ensures var d := Dec(Str, NoMeta, bs).value;
            && d.value.StrVal? && |d.value.text| < U32_LIMIT
            && Reencodes(Ok(EncInt(4, |d.value.text|) + d.value.text), bs, d.used, true)
  {
    hide EncInt, DecInt;
    LengthCanonical(bs);
    var end := Dec(Str, NoMeta, bs).value.used;
    assert bs[..4] + bs[4..end] == bs[..end];
  }

  lemma ScalarCanonical(k: Kind, bs: seq<byte>)
    requires k !in {Str, Array, Struct} && Dec(k, NoMeta, bs).Ok?
    ensures var d := Dec(k, NoMeta, bs).value; Reencodes(Enc(k, NoMeta, d.value), bs, d.used, Tidy(k, NoMeta, bs))
  {
    if k == Bool {
      PowTable();
      assert bs[..1] == [bs[0]];
    } else if k != Uuid {
      IntCanonical(Signed(k), bs[..Width(k)]);
    }
  }

  lemma {:induction false} ArrayCanonical(meta: Meta, bs: seq<byte>, d: Decoded<seq<Val>>)
    requires DecArray(meta, bs) == Ok(d)
    ensures Reencodes(EncArray(meta, d.value), bs, d.used, Tidy(Array, meta, bs))
    decreases meta, 0
  {
    hide Enc, Dec, EncElems, DecElems, TidyElems;
    LengthCanonical(bs);
    var count := DecInt(false, bs[..4]);
    if count != 0 {
      var kind, elem := ElemKind(meta), ElemMeta(meta);
      var es := DecElems(kind, elem, count, bs[4..]).value;
      ElemsCanonical(kind, elem, count, bs[4..], es);
      CountFits(count, TypeSize(kind, elem));
      Appended(bs, 4, es.used, EncInt(4, count), EncElems(kind, elem, es.value));
    }
  }

  /** A part in front that is the same leaves it to the rest. */
  lemma Appended(bs: seq<byte>, at: nat, used: nat, first: seq<byte>, rest: Result<seq<byte>>)
    requires at + used <= |bs| && |first| == at && (rest.Ok? ==> |rest.value| == used)
    ensures Prepend(first, rest) == Ok(bs[..at + used]) <==> first == bs[..at] && rest == Ok(bs[at..][..used])
    ensures rest.Ok? ==> |Prepend(first, rest).value| == at + used
  {
    if rest.Ok? {
      assert bs[..at + used][..at] == bs[..at] && bs[..at + used][at..] == bs[at..][..used];
      assert (first + rest.value)[..at] == first && (first + rest.value)[at..] == rest.value;
      assert bs[..at] + bs[at..][..used] == bs[..at + used];
    }
  }

  lemma {:induction false} ElemsCanonical(kind: Kind, meta: Meta, count: nat, bs: seq<byte>, d: Decoded<seq<Val>>)
    requires DecElems(kind, meta, count, bs) == Ok(d)
    ensures Reencodes(EncElems(kind, meta, d.value), bs, d.used, TidyElems(kind, meta, count, bs))
    decreases meta, count + 1
  {
    hide Enc, Dec, Tidy;
    if count != 0 {
      var first, rest := ElemsUnfold(kind, meta, count, bs, d);
      Canonical(kind, meta, bs, first);
      ElemsCanonical(kind, meta, count - 1, bs[first.used..], rest);
      hide EncElems, DecElems, TidyElems, Prepend;
      var e := Enc(kind, meta, first.value);
      if e.Ok? { Appended(bs, first.used, rest.used, e.value, EncElems(kind, meta, rest.value)); }
    }
  }

  /** The first element and the others, by definition. */
  lemma ElemsUnfold(kind: Kind, meta: Meta, count: nat, bs: seq<byte>, d: Decoded<seq<Val>>)
    returns (first: Decoded<Val>, rest: Decoded<seq<Val>>)
    requires count > 0 && DecElems(kind, meta, count, bs) == Ok(d)
    ensures Dec(kind, meta, bs) == Ok(first) && first.used <= |bs|
    ensures DecElems(kind, meta, count - 1, bs[first.used..]) == Ok(rest)
    ensures d.used == first.used + rest.used
    ensures EncElems(kind, meta, d.value) ==
            var e := Enc(kind, meta, first.value);
            if e.Ok? then Prepend(e.value, EncElems(kind, meta, rest.value)) else e
    ensures TidyElems(kind, meta, count, bs) <==>
            Tidy(kind, meta, bs) && TidyElems(kind, meta, count - 1, bs[first.used..])
  {
    hide Enc, Dec, Tidy;
    first := Dec(kind, meta, bs).value;
    rest := DecElems(kind, meta, count - 1, bs[first.used..]).value;
    assert d.value[0] == first.value && d.value[1..] == rest.value;
  }

  lemma {:induction false} FieldsCanonical(meta: Meta, i: nat, bs: seq<byte>, d: Decoded<seq<Val>>)
    requires meta.Meta? && i <= |meta.fields| && DecFields(meta, i, bs) == Ok(d)
    ensures Reencodes(EncFields(meta, i, d.value), bs, d.used, TidyFields(meta, i, bs))
    decreases meta, 0, |meta.fields| - i
  {
    hide Enc, Dec, Tidy;
    if i < |meta.fields| {
      var f := meta.fields[i];
      var first := Dec(f.kind, f.meta, bs).value;
      var rest := DecFields(meta, i + 1, bs[first.used..]).value;
      Canonical(f.kind, f.meta, bs, first);
      FieldsCanonical(meta, i + 1, bs[first.used..], rest);
      assert d.value[1..] == rest.value;
      var e := Enc(f.kind, f.meta, first.value);
      if e.Ok? { Appended(bs, first.used, rest.used, e.value, EncFields(meta, i + 1, rest.value)); }
    }
  }

  /** Without bools, and with enum metadata as the compiler makes it, all bytes are tidy. */
  lemma {:induction false} ExactTidy(kind: Kind, meta: Meta, bs: seq<byte>)
    requires !Inexact(kind, meta)
    ensures Tidy(kind, meta, bs)
    decreases meta, 1
  {
    var k := Resolved(kind, meta);
    if k == Array && |bs| >= 4 && meta.Meta? && DecInt(false, bs[..4]) > 0 {
      ExactTidyElems(ElemKind(meta), ElemMeta(meta), DecInt(false, bs[..4]), bs[4..]);
    } else if k == Struct && meta.Meta? {
      ExactTidyFields(meta, 0, bs);
    }
  }

  lemma {:induction false} ExactTidyElems(kind: Kind, meta: Meta, count: nat, bs: seq<byte>)
    requires !Inexact(kind, meta)
    ensures TidyElems(kind, meta, count, bs)
    decreases meta, count + 1
  {
    hide Dec, Tidy, Inexact;
    if count > 0 {
      ExactTidy(kind, meta, bs);
      var v := Dec(kind, meta, bs);
      if v.Ok? { ExactTidyElems(kind, meta, count - 1, bs[v.value.used..]); }
    }
  }

  lemma {:induction false} ExactTidyFields(meta: Meta, i: nat, bs: seq<byte>)
    requires meta.Meta? && i <= |meta.fields| && !Inexact(Struct, meta)
    ensures TidyFields(meta, i, bs)
    decreases meta, 0, |meta.fields| - i
  {
    hide Dec, Tidy;
    if i < |meta.fields| {
      var f := meta.fields[i];
      ExactTidy(f.kind, f.meta, bs);
      var v := Dec(f.kind, f.meta, bs);
      if v.Ok? { ExactTidyFields(meta, i + 1, bs[v.value.used..]); }
    }
  }

  // ---------- exactly which types lose values ----------

  /** Every part of the type can be encoded. */
  ghost predicate Supported(kind: Kind, meta: Meta)
    decreases meta
  {
    match Resolved(kind, meta)
    case Handle | LocalPtr | Bytes | Enum => false
    case Array =>
      && meta.Meta? && 0 < TypeSize(ElemKind(meta), meta.elementType) <= SIZE_MAX
      && Supported(ElemKind(meta), meta.elementType)
    case Struct =>
      && meta.Meta?
      && if meta.kind == Struct
         then forall i | 0 <= i < |meta.fields| :: Supported(meta.fields[i].kind, meta.fields[i].meta)
         else meta.fields == []
    case _ => true
  }

  /** Some value of the type: zeros and empty sequences. */
  function Sample(kind: Kind, meta: Meta): Val
    decreases meta, 0
  {
    match Resolved(kind, meta)
    case Str => StrVal([])
    case Array => ArrVal([])
    case Uuid => UuidVal(seq(16, i => 0))
    case Struct => if meta.Meta? && meta.kind == Struct then StructVal(Samples(meta, 0)) else Num(0)
    case _ => Num(0)
  }

  function Samples(meta: Meta, i: nat): (vs: seq<Val>)
    requires meta.Meta? && i <= |meta.fields|
    decreases meta, 0, |meta.fields| - i
  {
    if i == |meta.fields| then []
    else [Sample(meta.fields[i].kind, meta.fields[i].meta)] + Samples(meta, i + 1)
  }

  lemma {:induction false} SampleEncodes(kind: Kind, meta: Meta)
    requires Supported(kind, meta)
    ensures Enc(kind, meta, Sample(kind, meta)).Ok?
    decreases meta, 0
  {
    if Resolved(kind, meta) == Struct && meta.kind == Struct {
      SamplesEncode(meta, 0);
    }
  }

  lemma {:induction false} SamplesEncode(meta: Meta, i: nat)
    requires meta.Meta? && i <= |meta.fields|
    requires forall j | 0 <= j < |meta.fields| :: Supported(meta.fields[j].kind, meta.fields[j].meta)
    ensures EncFields(meta, i, Samples(meta, i)).Ok?
    decreases meta, 0, |meta.fields| - i
  {
    if i < |meta.fields| {
      SampleEncodes(meta.fields[i].kind, meta.fields[i].meta);
      SamplesEncode(meta, i + 1);
      assert Samples(meta, i)[1..] == Samples(meta, i + 1);
    }
  }

  /** An inexact type has two values that mean different things and have one encoding: a false
      bool with a byte behind it and a true one, or two enums. */
  lemma {:induction false} Collision(kind: Kind, meta: Meta) returns (v: Val, w: Val)
    requires Supported(kind, meta) && Inexact(kind, meta)
    ensures Enc(kind, meta, v).Ok? && Enc(kind, meta, v) == Enc(kind, meta, w)
    ensures Reading(kind, meta, v, false) != Reading(kind, meta, w, false)
    decreases meta, 0
  {
    var k := Resolved(kind, meta);
    if k == Bool {
      PowTable();
      v, w := Num(0x100), Num(1);
    } else if k == Array {
      var x, y := Collision(ElemKind(meta), meta.elementType);
      v, w := ArrVal([x]), ArrVal([y]);
      ElemsOne(ElemKind(meta), meta.elementType, x);
      ElemsOne(ElemKind(meta), meta.elementType, y);
    } else if meta.kind != Struct {
      v, w := Num(0), Num(1);
    } else {
      var j :| 0 <= j < |meta.fields| && Inexact(meta.fields[j].kind, meta.fields[j].meta);
      var vs, ws := FieldsCollision(meta, 0, j);
      v, w := StructVal(vs), StructVal(ws);
    }
  }

  lemma ElemsOne(kind: Kind, meta: Meta, v: Val)
    requires Enc(kind, meta, v).Ok?
    ensures EncElems(kind, meta, [v]) == Enc(kind, meta, v)
    ensures Readings(kind, meta, [v], false) == [Reading(kind, meta, v, false)]
  {
    hide Enc, Reading;
    assert [v][1..] == [] && Enc(kind, meta, v).value + [] == Enc(kind, meta, v).value;
  }

  lemma {:induction false} FieldsCollision(meta: Meta, i: nat, j: nat) returns (vs: seq<Val>, ws: seq<Val>)
    requires meta.Meta? && i <= j < |meta.fields| && Inexact(meta.fields[j].kind, meta.fields[j].meta)
    requires forall j | 0 <= j < |meta.fields| :: Supported(meta.fields[j].kind, meta.fields[j].meta)
    ensures EncFields(meta, i, vs).Ok? && EncFields(meta, i, vs) == EncFields(meta, i, ws)
    ensures FieldReadings(meta, i, vs, false) != FieldReadings(meta, i, ws, false)
    decreases meta, 0, j - i
  {
    hide Enc, Reading;
    var f := meta.fields[i];
    var v, w, vs', ws';
    if i == j {
      v, w := Collision(f.kind, f.meta);
      SamplesEncode(meta, i + 1);
      vs', ws' := Samples(meta, i + 1), Samples(meta, i + 1);
    } else {
      SampleEncodes(f.kind, f.meta);
      v, w := Sample(f.kind, f.meta), Sample(f.kind, f.meta);
      vs', ws' := FieldsCollision(meta, i + 1, j);
    }
    vs, ws := [v] + vs', [w] + ws';
    FieldsEncode(meta, i, v, vs');
    FieldsEncode(meta, i, w, ws');
    SameCons(Reading(f.kind, f.meta, v, false), FieldReadings(meta, i + 1, vs', false),
             Reading(f.kind, f.meta, w, false), FieldReadings(meta, i + 1, ws', false));
  }

  lemma FieldsEncode(meta: Meta, i: nat, v: Val, vs: seq<Val>)
    requires meta.Meta? && i < |meta.fields|
    requires Enc(meta.fields[i].kind, meta.fields[i].meta, v).Ok? && EncFields(meta, i + 1, vs).Ok?
    ensures EncFields(meta, i, [v] + vs) ==
            Ok(Enc(meta.fields[i].kind, meta.fields[i].meta, v).value + EncFields(meta, i + 1, vs).value)
    ensures FieldReadings(meta, i, [v] + vs, false) ==
            [Reading(meta.fields[i].kind, meta.fields[i].meta, v, false)] + FieldReadings(meta, i + 1, vs, false)
  {
    hide Enc, Reading;
    assert ([v] + vs)[1..] == vs;
  }

  /** Whenever all parts of a type can be encoded: encodings tell what values mean if and only if
      no part is a bool or an enum presented as a struct. */
  lemma TellsApart(kind: Kind, meta: Meta)
    requires Supported(kind, meta)
    ensures !Inexact(kind, meta) <==>
            forall v, w | Enc(kind, meta, v).Ok? && Enc(kind, meta, v) == Enc(kind, meta, w) ::
              Reading(kind, meta, v, false) == Reading(kind, meta, w, false)
  {
    hide Enc, Reading, Inexact;
    if Inexact(kind, meta) {
      var v, w := Collision(kind, meta);
    } else {
      forall v, w | Enc(kind, meta, v).Ok? && Enc(kind, meta, v) == Enc(kind, meta, w)
        ensures Reading(kind, meta, v, false) == Reading(kind, meta, w, false)
      {
        SelfDelimiting(kind, meta, v, Enc(kind, meta, v).value, [], w, Enc(kind, meta, w).value, []);
        ExactReading(kind, meta, v, true);
        ExactReading(kind, meta, w, true);
      }
    }
  }
}
