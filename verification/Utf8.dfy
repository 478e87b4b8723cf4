/** UTF-8: what the configuration reader appends for a scalar, and what the two validators
    accept. */
module Utf8 {
  import opened Bytes

  predicate Scalar(n: int)
  {
    0 <= n <= 0x10ffff && !(0xd800 <= n <= 0xdfff)
  }

  function Continuation(n: nat): byte
  {
    0x80 + n % 0x40
  }

  /** append_utf8 */
  function Encode(n: int): (bs: seq<byte>)
    requires Scalar(n)
    ensures 1 <= |bs| <= 4
  {
    if n <= 0x7f then [n]
    else if n <= 0x7ff then [0xc0 + n / 0x40, Continuation(n)]
    else if n <= 0xffff then [0xe0 + n / 0x1000, Continuation(n / 0x40), Continuation(n)]
    else [0xf0 + n / 0x40000, Continuation(n / 0x1000), Continuation(n / 0x40), Continuation(n)]
  }

  predicate Scalars(ns: seq<int>)
  {
    forall i | 0 <= i < |ns| :: Scalar(ns[i])
  }

  function EncodeAll(ns: seq<int>): seq<byte>
    requires Scalars(ns)
  {
    if ns == [] then [] else Encode(ns[0]) + EncodeAll(ns[1..])
  }

  // ---------- the validators ----------

  datatype Char = Char(value: nat, size: nat)

  /** The first byte: how many more follow and the bits it contributes. */
  function Lead(first: byte): Option<Char>
  {
    if first < 0x80 then Some(Char(first, 0))
    else if 0xc2 <= first <= 0xdf then Some(Char(first - 0xc0, 1))
    else if 0xe0 <= first <= 0xef then Some(Char(first - 0xe0, 2))
    else if 0xf0 <= first <= 0xf4 then Some(Char(first - 0xf0, 3))
    else None
  }

  /** Folds continuation bytes into a value. */
  function Fold(value: nat, bs: seq<byte>): Option<nat>
    decreases |bs|
  {
    if bs == [] then Some(value)
    else if bs[0] / 0x40 != 2 then None
    else Fold(value * 0x40 + bs[0] % 0x40, bs[1..])
  }

  predicate InRange(value: nat, needed: nat)
  {
    && (needed == 2 ==> value >= 0x800) && (needed == 3 ==> value >= 0x10000)
    && value <= 0x10ffff && !(0xd800 <= value <= 0xdfff)
  }

  /** One turn of the validators' loop. */
  function DecodeOne(bs: seq<byte>): (r: Option<Char>)
    requires bs != []
    ensures r.Some? ==> 1 <= r.value.size <= |bs|
  {
    var lead := Lead(bs[0]);
    if lead.None? || lead.value.size > |bs| - 1 then None
    else
      var needed := lead.value.size;
      var value := Fold(lead.value.value, bs[1..1 + needed]);
      if value.None? || (needed > 0 && !InRange(value.value, needed)) then None else Some(Char(value.value, 1 + needed))
  }

  predicate Accepts(bs: seq<byte>)
    decreases |bs|
  {
    bs == [] || (var c := DecodeOne(bs); c.Some? && Accepts(bs[c.value.size..]))
  }

  // ---------- they accept exactly the encodings ----------

  lemma Fold1(v: nat, a: byte)
    requires a / 0x40 == 2
    ensures Fold(v, [a]) == Some(v * 0x40 + a % 0x40)
  {
    assert [a][1..] == [];
  }

  lemma Fold2(v: nat, a: byte, b: byte)
    requires a / 0x40 == 2 && b / 0x40 == 2
    ensures Fold(v, [a, b]) == Some((v * 0x40 + a % 0x40) * 0x40 + b % 0x40)
  {
    assert [a, b][1..] == [b];
    Fold1(v * 0x40 + a % 0x40, b);
  }

  lemma Fold3(v: nat, a: byte, b: byte, c: byte)
    requires a / 0x40 == 2 && b / 0x40 == 2 && c / 0x40 == 2
    ensures Fold(v, [a, b, c]) == Some(((v * 0x40 + a % 0x40) * 0x40 + b % 0x40) * 0x40 + c % 0x40)
  {
    assert [a, b, c][1..] == [b, c];
    Fold2(v * 0x40 + a % 0x40, b, c);
  }

  // Taking a number apart into six-bit digits, and putting it together again.

  lemma Digits2(n: nat)
    ensures n == n / 0x40 * 0x40 + n % 0x40
    ensures Continuation(n) / 0x40 == 2 && Continuation(n) % 0x40 == n % 0x40
  {
  }

  lemma Digits3(n: nat)
    ensures n == (n / 0x1000 * 0x40 + n / 0x40 % 0x40) * 0x40 + n % 0x40
  {
    assert n / 0x40 / 0x40 == n / 0x1000;
  }

  lemma Digits4(n: nat)
    ensures n == ((n / 0x40000 * 0x40 + n / 0x1000 % 0x40) * 0x40 + n / 0x40 % 0x40) * 0x40 + n % 0x40
  {
    assert n / 0x1000 / 0x40 == n / 0x40000 && n / 0x40 / 0x40 == n / 0x1000;
  }

  /** What DecodeOne makes of a lead byte and its continuation bytes. */
  lemma DecodeParts(first: byte, tail: seq<byte>, rest: seq<byte>)
    requires Lead(first).Some? && Lead(first).value.size == |tail|
    requires Fold(Lead(first).value.value, tail).Some?
    ensures var value := Fold(Lead(first).value.value, tail).value;
            DecodeOne([first] + tail + rest) ==
            if tail != [] && !InRange(value, |tail|) then None else Some(Char(value, 1 + |tail|))
  {
    hide Fold, Lead, InRange;
    var bs := [first] + tail + rest;
    assert bs[0] == first && bs[1..1 + |tail|] == tail;
  }

  lemma DecodeEncode(n: int, rest: seq<byte>)
    requires Scalar(n)
    ensures DecodeOne(Encode(n) + rest) == Some(Char(n, |Encode(n)|))
  {
    hide DecodeOne, Fold, Continuation;
    if n <= 0x7f {
      assert [n] + [] == [n];
      FoldNone(n);
      DecodeParts(n, [], rest);
    } else if n <= 0x7ff {
      var first, a := 0xc0 + n / 0x40, Continuation(n);
      Digits2(n);
      assert [first] + [a] == [first, a];
      Fold1(n / 0x40, a);
      DecodeParts(first, [a], rest);
    } else if n <= 0xffff {
      DecodeThree(n, rest);
    } else {
      DecodeFour(n, rest);
    }
  }

  lemma DecodeThree(n: int, rest: seq<byte>)
    requires Scalar(n) && 0x7ff < n <= 0xffff
    ensures DecodeOne(Encode(n) + rest) == Some(Char(n, 3))
  {
    hide DecodeOne, Fold, Continuation;
    var first, a, b := 0xe0 + n / 0x1000, Continuation(n), Continuation(n / 0x40);
    Digits2(n);
    Digits2(n / 0x40);
    Digits3(n);
    assert [first] + [b, a] == [first, b, a];
    Fold2(n / 0x1000, b, a);
    DecodeParts(first, [b, a], rest);
  }

  lemma DecodeFour(n: int, rest: seq<byte>)
    requires Scalar(n) && n > 0xffff
    ensures DecodeOne(Encode(n) + rest) == Some(Char(n, 4))
  {
    hide DecodeOne, Fold, Continuation;
    var first, a, b, c := 0xf0 + n / 0x40000, Continuation(n), Continuation(n / 0x40), Continuation(n / 0x1000);
    Digits2(n);
    Digits2(n / 0x40);
    Digits2(n / 0x1000);
    Digits4(n);
    assert [first] + [c, b, a] == [first, c, b, a];
    Fold3(n / 0x40000, c, b, a);
    DecodeParts(first, [c, b, a], rest);
  }

  lemma FoldNone(v: nat)
    ensures Fold(v, []) == Some(v)
  {
  }

  lemma {:induction false} FoldContinues(v: nat, bs: seq<byte>)
    requires Fold(v, bs).Some?
    ensures forall i | 0 <= i < |bs| :: bs[i] / 0x40 == 2
    decreases |bs|
  {
    if bs != [] { FoldContinues(v * 0x40 + bs[0] % 0x40, bs[1..]); }
  }

  lemma Undigits2(h: nat, d: byte)
    requires d / 0x40 == 2
    ensures var n := h * 0x40 + d % 0x40;
            n / 0x40 == h && Continuation(n) == d
  {
  }

  lemma Undigits3(h: nat, d: byte, e: byte)
    requires d / 0x40 == 2 && e / 0x40 == 2
    ensures var n := (h * 0x40 + d % 0x40) * 0x40 + e % 0x40;
            n / 0x1000 == h && Continuation(n / 0x40) == d && Continuation(n) == e
  {
    var m := h * 0x40 + d % 0x40;
    Undigits2(h, d);
    Undigits2(m, e);
    assert (m * 0x40 + e % 0x40) / 0x1000 == m / 0x40;
  }

  lemma Undigits4(h: nat, d: byte, e: byte, f: byte)
    requires d / 0x40 == 2 && e / 0x40 == 2 && f / 0x40 == 2
    ensures var n := ((h * 0x40 + d % 0x40) * 0x40 + e % 0x40) * 0x40 + f % 0x40;
            && n / 0x40000 == h && Continuation(n / 0x1000) == d
            && Continuation(n / 0x40) == e && Continuation(n) == f
  {
    var m := (h * 0x40 + d % 0x40) * 0x40 + e % 0x40;
    Undigits3(h, d, e);
    Undigits2(m, f);
    var n := m * 0x40 + f % 0x40;
    assert n / 0x1000 == m / 0x40 && n / 0x40000 == m / 0x1000;
  }

  lemma EncodeDecode(bs: seq<byte>)
    requires bs != [] && DecodeOne(bs).Some?
    ensures var c := DecodeOne(bs).value;
            Scalar(c.value) && Encode(c.value) == bs[..c.size]
  {
    hide Fold, Continuation;
    var c := DecodeOne(bs).value;
    var lead := Lead(bs[0]).value;
    var tail := bs[1..c.size];
    FoldContinues(lead.value, tail);
    assert bs[..c.size] == [bs[0]] + tail;
    if |tail| == 0 {
      FoldNone(lead.value);
    } else if |tail| == 1 {
      assert tail == [tail[0]];
      Fold1(lead.value, tail[0]);
      Undigits2(lead.value, tail[0]);
    } else if |tail| == 2 {
      assert tail == [tail[0], tail[1]];
      Fold2(lead.value, tail[0], tail[1]);
      Undigits3(lead.value, tail[0], tail[1]);
    } else {
      assert tail == [tail[0], tail[1], tail[2]];
      Fold3(lead.value, tail[0], tail[1], tail[2]);
      Undigits4(lead.value, tail[0], tail[1], tail[2]);
    }
  }

  lemma {:induction false} AcceptsEncodings(ns: seq<int>)
    requires Scalars(ns)
    ensures Accepts(EncodeAll(ns))
  {
    if ns != [] {
      var e, rest := Encode(ns[0]), EncodeAll(ns[1..]);
      AcceptsEncodings(ns[1..]);
      DecodeEncode(ns[0], rest);
      assert (e + rest)[|e|..] == rest;
    }
  }

  lemma {:induction false} AcceptedIsEncoding(bs: seq<byte>) returns (ns: seq<int>)
    requires Accepts(bs)
    ensures Scalars(ns) && EncodeAll(ns) == bs
    decreases |bs|
  {
    hide Encode, DecodeOne;
    if bs == [] {
      ns := [];
    } else {
      var c := DecodeOne(bs).value;
      EncodeDecode(bs);
      var rest := AcceptedIsEncoding(bs[c.size..]);
      ns := [c.value] + rest;
      assert ns[1..] == rest && bs == bs[..c.size] + bs[c.size..];
    }
  }

  /** The validators accept exactly the concatenations of encodings of scalars. */
  lemma AcceptsIff(bs: seq<byte>)
    ensures Accepts(bs) <==> exists ns: seq<int> :: Scalars(ns) && EncodeAll(ns) == bs
  {
    if Accepts(bs) {
      var ns := AcceptedIsEncoding(bs);
    }
    if ns: seq<int> :| Scalars(ns) && EncodeAll(ns) == bs {
      AcceptsEncodings(ns);
    }
  }

  lemma {:induction false} AcceptsConcat(a: seq<byte>, b: seq<byte>)
    requires Accepts(a) && Accepts(b)
    ensures Accepts(a + b)
    decreases |a|
  {
    hide Encode, DecodeOne;
    if a == [] {
      assert a + b == b;
    } else {
      var k := DecodeOne(a).value.size;
      EncodeDecode(a);
      var n := DecodeOne(a).value.value;
      assert a + b == Encode(n) + (a[k..] + b);
      DecodeEncode(n, a[k..] + b);
      assert (a + b)[k..] == a[k..] + b;
      AcceptsConcat(a[k..], b);
    }
  }

  // ---------- the loops ----------

  /** The continuation bytes behind a first byte: what they make of its bits, or the offset of the
      first that is not one. */
  method ReadTail(data: seq<byte>, at: nat, needed: nat, lead: nat) returns (value: Option<nat>, i: nat)
    requires at + needed <= |data|
    ensures value == Fold(lead, data[at..at + needed])
    ensures at <= i <= at + needed && (value.None? <==> i < at + needed)
  {
    ghost var tail := data[at..at + needed];
    assert tail[0..] == tail;
    i := at;
    var v: nat := lead;
    while i < at + needed
      invariant at <= i <= at + needed && Fold(lead, tail) == Fold(v, tail[i - at..])
    {
      var next := data[i];
      assert tail[i - at..][0] == next && tail[i - at..][1..] == tail[i + 1 - at..];
      if next / 0x40 != 2 { return None, i; }
      v := v * 0x40 + next % 0x40;
      i := i + 1;
    }
    value := Some(v);
  }

  /** Reads one character: where it ends, or the offset to report. */
  method ReadChar(data: seq<byte>, start: nat) returns (ok: bool, i: nat)
    requires start < |data|
    ensures ok <==> DecodeOne(data[start..]).Some?
    ensures ok ==> i == start + DecodeOne(data[start..]).value.size
    ensures !ok ==> start <= i < |data| && i <= start + 3
  {
    ghost var bs := data[start..];
    var first := data[start];
    assert bs[0] == first;
    i := start + 1;
    var needed: nat, lead: nat := 0, first;
    if first < 0x80 {
      assert bs[1..1] == [] && Fold(lead, []) == Some(lead);
      return true, i;
    }
    if 0xc2 <= first <= 0xdf {
      needed, lead := 1, first % 0x20;
    } else if 0xe0 <= first <= 0xef {
      needed, lead := 2, first % 0x10;
    } else if 0xf0 <= first <= 0xf4 {
      needed, lead := 3, first % 0x08;
    } else {
      return false, start;
    }
    assert Lead(first) == Some(Char(lead, needed));
    hide Lead, Fold;
    if needed > |data| - i { return false, start; }
    assert data[i..i + needed] == bs[1..1 + needed];
    var value;
    value, i := ReadTail(data, i, needed, lead);
    if value.None? { return false, i; }
    if (needed == 2 && value.value < 0x800) || (needed == 3 && value.value < 0x10000) || value.value > 0x10ffff
       || (0xd800 <= value.value <= 0xdfff)
    { return false, start; }
    ok := true;
  }

  /** The offset lies in the first character that is not one: what precedes it is valid. */
  ghost predicate FirstBad(data: seq<byte>, bad: nat)
  {
    exists start: nat :: start <= bad < |data| && bad <= start + 3 && Accepts(data[..start]) && BadCharAt(data, start)
  }

  predicate BadCharAt(data: seq<byte>, start: nat)
  {
    start < |data| && DecodeOne(data[start..]).None?
  }

  /** utf8_validate; facet_utf8_is_valid is the same loop without the offset. */
  method Validate(data: seq<byte>) returns (ok: bool, bad: nat)
    ensures ok <==> Accepts(data)
    ensures ok <==> exists ns: seq<int> :: Scalars(ns) && EncodeAll(ns) == data
    ensures !ok ==> FirstBad(data, bad)
  {
    hide DecodeOne, EncodeAll;
    AcceptsIff(data);
    var i := 0;
    assert data[0..] == data && data[..0] == [];
    while i < |data|
      invariant i <= |data| && (Accepts(data) <==> Accepts(data[i..])) && Accepts(data[..i])
    {
      var good, next := ReadChar(data, i);
      if !good {
        assert BadCharAt(data, i);
        return false, next;
      }
      assert data[i..][next - i..] == data[next..];
      OneMore(data, i, next);
      i := next;
    }
    ok, bad := true, 0;
  }

  lemma OneMore(data: seq<byte>, i: nat, next: nat)
    requires i < |data| && Accepts(data[..i]) && DecodeOne(data[i..]).Some?
    requires next == i + DecodeOne(data[i..]).value.size
    ensures next <= |data| && Accepts(data[..next])
  {
    hide DecodeOne;
    var c := DecodeOne(data[i..]).value;
    EncodeDecode(data[i..]);
    AcceptsOne(c.value);
    assert data[..next] == data[..i] + data[i..][..c.size];
    AcceptsConcat(data[..i], Encode(c.value));
  }

  lemma AcceptsOne(n: int)
    requires Scalar(n)
    ensures Accepts(Encode(n))
  {
    DecodeEncode(n, []);
    assert Encode(n) + [] == Encode(n) && Encode(n)[|Encode(n)|..] == [];
  }
}
