/** Every way of writing a string that the configuration language has: each character of a text
    may stand for itself or be written as an escape, by letter or by number, at will. The parser
    reads each of them as the text's UTF-8. */
module ConfigEscapes {
  import opened Bytes
  import opened Utf8
  import opened ConfigString

  /** How one character is written; a flag per hexadecimal digit says upper or lower case. */
  datatype Spelling =
    | Raw
    | Named
    | Four(upper: seq<bool>)
    | Eight(upper: seq<bool>)

  function Digit(d: nat, upper: bool): byte
    requires d < 16
  {
    if d >= 10 && upper then 65 + d - 10 else HexByte(d)
  }

  /** n in `count` hexadecimal digits, highest first. */
  function HexText(n: nat, count: nat, upper: seq<bool>): (bs: seq<byte>)
    requires |upper| == count && n < Power16(count)
    ensures |bs| == count
    decreases count
  {
    if count == 0 then []
    else
      var p := Power16(count - 1);
      HighDigit(n, p);
      [Digit(n / p, upper[0])] + HexText(n % p, count - 1, upper[1..])
  }

  lemma HighDigit(n: nat, p: int)
    requires p > 0 && n < 16 * p
    ensures 0 <= n / p < 16 && 0 <= n % p < p && n == n / p * p + n % p
  {
    var q, r := n / p, n % p;
    assert n == p * q + r;
    assert q >= 16 ==> p * q >= p * 16;
  }

  /** The letter or sign behind the backslash. */
  function NameOf(n: int): Option<byte>
  {
    if n == QUOTE || n == BACKSLASH then Some(n) else if 0 <= n < 256 then Letter(n) else None
  }

  /** A byte that stands for itself: no line break, no NUL, no other control character than the tab,
      not the closing quote, and between double quotes no backslash. */
  predicate Plain(c: int, quote: byte)
  {
    && c != quote && (quote == QUOTE ==> c != BACKSLASH)
    && (c >= 0x20 || c == TAB) && c != DELETE
  }

  predicate CanSpell(n: int, how: Spelling)
  {
    && n != 0 && Scalar(n)
    && match how
       case Raw => Plain(n, QUOTE)
       case Named => NameOf(n).Some?
       case Four(upper) => n < 0x1_0000 && |upper| == 4
       case Eight(upper) => |upper| == 8
  }

  function Spell(n: int, how: Spelling): (bs: seq<byte>)
    requires CanSpell(n, how)
    ensures bs != []
  {
    HexLimits();
    match how
    case Raw => Encode(n)
    case Named => [BACKSLASH, NameOf(n).value]
    case Four(upper) => [BACKSLASH, 117] + HexText(n, 4, upper)
    case Eight(upper) => [BACKSLASH, 85] + HexText(n, 8, upper)
  }

  predicate CanSpellAll(ns: seq<int>, hows: seq<Spelling>)
  {
    |hows| == |ns| && forall i | 0 <= i < |ns| :: CanSpell(ns[i], hows[i])
  }

  function SpellAll(ns: seq<int>, hows: seq<Spelling>): seq<byte>
    requires CanSpellAll(ns, hows)
  {
    if ns == [] then [] else Spell(ns[0], hows[0]) + SpellAll(ns[1..], hows[1..])
  }

  lemma HexLimits()
    ensures Power16(4) == 0x1_0000 && Power16(8) == 0x1_0000_0000
  {
    assert Power16(2) == 0x100 && Power16(6) == 0x100_0000;
  }

  // ---------- escapes ----------

  lemma DigitBack(d: nat, upper: bool)
    requires d < 16
    ensures HexDigit(Digit(d, upper)) == Some(d)
  {
  }

  /** Hexadecimal digits are read as their number, and reading ends behind them. */
  lemma {:induction false} HexRead(data: seq<byte>, i: nat, n: nat, count: nat, upper: seq<bool>, value: nat)
    requires |upper| == count && n < Power16(count)
    requires i + count <= |data| && data[i..i + count] == HexText(n, count, upper)
    ensures HexNumber(data, i, count, value) == Good(value * Power16(count) + n, i + count)
    decreases count
  {
    if count > 0 {
      var p, w := Power16(count - 1), data[i..i + count];
      HighDigit(n, p);
      var d, r := n / p, n % p;
      var tail := HexText(r, count - 1, upper[1..]);
      assert w == [Digit(d, upper[0])] + tail;
      assert data[i] == w[0] && data[i + 1..i + count] == w[1..] == tail;
      DigitBack(d, upper[0]);
      HexRead(data, i + 1, r, count - 1, upper[1..], value * 16 + d);
      Regroup(value, d, p);
    }
  }

  lemma Regroup(value: int, d: int, p: int)
    ensures (value * 16 + d) * p == value * (16 * p) + d * p
  {
  }

  /** A numbered escape, by definition. */
  lemma NumberRead(data: seq<byte>, i: nat, digits: nat, n: nat)
    requires i + 1 < |data| && data[i] == BACKSLASH
    requires (data[i + 1] == 117 && digits == 4) || (data[i + 1] == 85 && digits == 8)
    requires HexNumber(data, i + 2, digits, 0) == Good(n, i + 2 + digits) && n != 0 && Scalar(n)
    ensures Piece(data, i, QUOTE) == Good(Encode(n), i + 2 + digits)
  {
    hide HexNumber, Encode;
  }

  lemma FourRead(data: seq<byte>, i: nat, n: int, upper: seq<bool>)
    requires CanSpell(n, Four(upper)) && i + 6 <= |data| && data[i..i + 6] == Spell(n, Four(upper))
    ensures data[i] == BACKSLASH && Piece(data, i, QUOTE) == Good(Encode(n), i + 6)
  {
    hide HexNumber, HexText, Encode, Piece, Power16;
    HexLimits();
    var w := data[i..i + 6];
    assert data[i] == w[0] && data[i + 1] == w[1] && data[i + 2..i + 6] == w[2..] == HexText(n, 4, upper);
    HexRead(data, i + 2, n, 4, upper, 0);
    NumberRead(data, i, 4, n);
  }

  lemma EightRead(data: seq<byte>, i: nat, n: int, upper: seq<bool>)
    requires CanSpell(n, Eight(upper)) && i + 10 <= |data| && data[i..i + 10] == Spell(n, Eight(upper))
    ensures data[i] == BACKSLASH && Piece(data, i, QUOTE) == Good(Encode(n), i + 10)
  {
    hide HexNumber, HexText, Encode, Piece, Power16;
    HexLimits();
    var w := data[i..i + 10];
    assert data[i] == w[0] && data[i + 1] == w[1] && data[i + 2..i + 10] == w[2..] == HexText(n, 8, upper);
    HexRead(data, i + 2, n, 8, upper, 0);
    NumberRead(data, i, 8, n);
  }

  lemma NameRead(data: seq<byte>, i: nat, n: int)
    requires CanSpell(n, Named) && i + 2 <= |data| && data[i..i + 2] == Spell(n, Named)
    ensures data[i] == BACKSLASH && Piece(data, i, QUOTE) == Good(Encode(n), i + 2)
  {
    hide HexNumber, HexText;
    var w := data[i..i + 2];
    assert data[i] == w[0] && data[i + 1] == w[1] && Short(data[i + 1]) == Some(n);
  }

  /** Every escape is read as the encoding of its scalar, and ends behind the letter or digits. */
  lemma EscapeRead(data: seq<byte>, i: nat, n: int, how: Spelling)
    requires CanSpell(n, how) && !how.Raw?
    requires i + |Spell(n, how)| <= |data| && data[i..i + |Spell(n, how)|] == Spell(n, how)
    ensures data[i] == BACKSLASH && Piece(data, i, QUOTE) == Good(Encode(n), i + |Spell(n, how)|)
  {
    hide HexText, Encode, Piece, Scalar, Power16;
    HexLimits();
    match how
    case Four(upper) => FourRead(data, i, n, upper);
    case Eight(upper) => EightRead(data, i, n, upper);
    case Named => NameRead(data, i, n);
  }

  // ---------- bytes that stand for themselves ----------

  /** A run of plain bytes is copied. */
  lemma {:induction false} PlainRun(data: seq<byte>, i: nat, bs: seq<byte>, quote: byte, used: nat)
    requires i + |bs| <= |data| && data[i..i + |bs|] == bs && forall k | 0 <= k < |bs| :: Plain(bs[k], quote)
    requires used + |bs| <= MAX_BYTES
    ensures Body(data, i, quote, used) == With(bs, Body(data, i + |bs|, quote, used + |bs|))
    decreases |bs|
  {
    hide Body;
    if bs == [] {
      WithNothing(Body(data, i, quote, used));
    } else {
      var w := data[i..i + |bs|];
      assert data[i] == w[0] == bs[0] && Plain(bs[0], quote);
      PlainPiece(data, i, quote);
      BodyStep(data, i, quote, used);
      assert data[i + 1..i + 1 + |bs[1..]|] == w[1..] == bs[1..];
      PlainRun(data, i + 1, bs[1..], quote, used + 1);
      WithTwice([bs[0]], bs[1..], Body(data, i + |bs|, quote, used + |bs|));
      assert [bs[0]] + bs[1..] == bs;
    }
  }

  lemma PlainPiece(data: seq<byte>, i: nat, quote: byte)
    requires i < |data| && Plain(data[i], quote)
    ensures Piece(data, i, quote) == Good([data[i]], i + 1)
  {
  }

  lemma WithNothing(r: Parsed<seq<byte>>)
    ensures With([], r) == r
  {
    if r.Good? { assert [] + r.value == r.value; }
  }

  lemma WithTwice(a: seq<byte>, b: seq<byte>, r: Parsed<seq<byte>>)
    ensures With(a, With(b, r)) == With(a + b, r)
  {
    if r.Good? { assert a + (b + r.value) == a + b + r.value; }
  }

  /** The bytes of a plain character are plain. */
  lemma PlainEncoded(n: int)
    requires Scalar(n) && Plain(n, QUOTE)
    ensures forall k | 0 <= k < |Encode(n)| :: Plain(Encode(n)[k], QUOTE)
  {
  }

  // ---------- whole strings ----------

  lemma SpelledOne(data: seq<byte>, i: nat, n: int, how: Spelling, used: nat)
    requires CanSpell(n, how) && used + |Encode(n)| <= MAX_BYTES
    requires i + |Spell(n, how)| <= |data| && data[i..i + |Spell(n, how)|] == Spell(n, how)
    ensures Body(data, i, QUOTE, used) == With(Encode(n), Body(data, i + |Spell(n, how)|, QUOTE, used + |Encode(n)|))
  {
    hide Body, Piece, Encode, HexText, Escape, Plain;
    if how.Raw? {
      PlainEncoded(n);
      PlainRun(data, i, Encode(n), QUOTE, used);
    } else {
      EscapeRead(data, i, n, how);
      BodyStep(data, i, QUOTE, used);
    }
  }

  /** Any text without NUL that fits, written between double quotes with raw characters and escapes
      mixed at will, is read as the text's UTF-8. */
  lemma {:induction false} SpelledBack(
    data: seq<byte>, i: nat, ns: seq<int>, hows: seq<Spelling>, used: nat, rest: seq<byte>)
    requires CanSpellAll(ns, hows)
    requires Scalars(ns) && used + |EncodeAll(ns)| <= MAX_BYTES
    requires i <= |data| && data[i..] == SpellAll(ns, hows) + [QUOTE] + rest
    ensures Body(data, i, QUOTE, used) == Good(EncodeAll(ns), i + |SpellAll(ns, hows)| + 1)
    decreases |ns|
  {
    hide Body, Spell, CanSpell, Encode;
    if ns == [] {
      assert data[i] == data[i..][0] == QUOTE;
      BodyEnd(data, i, QUOTE, used);
    } else {
      var w, tail := Spell(ns[0], hows[0]), SpellAll(ns[1..], hows[1..]) + [QUOTE] + rest;
      assert data[i..] == w + tail;
      SuffixSlice(data, i, w, tail);
      SpelledOne(data, i, ns[0], hows[0], used);
      SpelledBack(data, i + |w|, ns[1..], hows[1..], used + |Encode(ns[0])|, rest);
    }
  }

  // ---------- nothing else is read ----------

  /** What a string is made of: bytes that stand for themselves, and escapes. */
  datatype Item = Byte(c: byte) | Escaped(n: int, how: Spelling)

  predicate IsItem(x: Item)
  {
    match x
    case Byte(c) => Plain(c, QUOTE)
    case Escaped(n, how) => !how.Raw? && CanSpell(n, how)
  }

  function Text(x: Item): (bs: seq<byte>)
    requires IsItem(x)
    ensures bs != []
  {
    match x
    case Byte(c) => [c]
    case Escaped(n, how) => Spell(n, how)
  }

  function Meaning(x: Item): (bs: seq<byte>)
    requires IsItem(x)
  {
    match x
    case Byte(c) => [c]
    case Escaped(n, _) => Encode(n)
  }

  predicate AreItems(xs: seq<Item>)
  {
    forall i | 0 <= i < |xs| :: IsItem(xs[i])
  }

  function Texts(xs: seq<Item>): seq<byte>
    requires AreItems(xs)
  {
    if xs == [] then [] else Text(xs[0]) + Texts(xs[1..])
  }

  function Meanings(xs: seq<Item>): seq<byte>
    requires AreItems(xs)
  {
    if xs == [] then [] else Meaning(xs[0]) + Meanings(xs[1..])
  }

  /** Whatever is read as a number was written as one. */
  lemma {:induction false} NumberWritten(data: seq<byte>, i: nat, count: nat, value: nat)
    returns (n: nat, upper: seq<bool>)
    requires i <= |data| && HexNumber(data, i, count, value).Good?
    ensures |upper| == count && n < Power16(count) && i + count <= |data|
    ensures data[i..i + count] == HexText(n, count, upper)
    ensures HexNumber(data, i, count, value) == Good(value * Power16(count) + n, i + count)
    decreases count
  {
    hide HexDigit, Digit, HexText;
    if count == 0 {
      n, upper := 0, [];
    } else {
      var d, p := HexDigit(data[i]).value, Power16(count - 1);
      var m, rest := NumberWritten(data, i + 1, count - 1, value * 16 + d);
      n, upper := d * p + m, [65 <= data[i] <= 70] + rest;
      DigitWritten(data[i]);
      TopDigit(d, m, p);
      Regroup(value, d, p);
      HexCons(d, m, count, upper[0], rest);
      assert data[i..i + count] == [data[i]] + data[i + 1..i + count];
    }
  }

  lemma DigitWritten(c: byte)
    requires HexDigit(c).Some?
    ensures HexDigit(c).value < 16 && c == Digit(HexDigit(c).value, 65 <= c <= 70)
  {
  }

  /** A digit in front. */
  lemma HexCons(d: nat, m: nat, count: nat, first: bool, rest: seq<bool>)
    requires 0 < count == |rest| + 1 && d < 16 && m < Power16(count - 1)
    ensures d * Power16(count - 1) + m < Power16(count)
    ensures HexText(d * Power16(count - 1) + m, count, [first] + rest)
            == [Digit(d, first)] + HexText(m, count - 1, rest)
  {
    hide Digit;
    TopDigit(d, m, Power16(count - 1));
    assert ([first] + rest)[1..] == rest;
  }

  lemma TopDigit(d: nat, m: nat, p: int)
    requires p > 0 && d < 16 && m < p
    ensures (d * p + m) / p == d && (d * p + m) % p == m && d * p + m < 16 * p
  {
    DivUnique(d * p + m, p, d, m);
    assert d * p <= 15 * p;
  }

  /** One turn reads an item. */
  lemma PieceWritten(data: seq<byte>, i: nat) returns (x: Item)
    requires i < |data| && data[i] != QUOTE && Piece(data, i, QUOTE).Good?
    ensures var p := Piece(data, i, QUOTE);
            IsItem(x) && i < p.next <= |data| && data[i..p.next] == Text(x) && p.value == Meaning(x)
  {
    hide HexNumber, HexText, Encode, Power16;
    if data[i] != BACKSLASH {
      x := Byte(data[i]);
    } else {
      var c := data[i + 1];
      if Short(c).Some? {
        x := Escaped(Short(c).value, Named);
        assert data[i..i + 2] == [BACKSLASH, c];
      } else {
        x := NumberItem(data, i, if c == 117 then 4 else 8);
      }
    }
  }

  lemma NumberItem(data: seq<byte>, i: nat, digits: nat) returns (x: Item)
    requires i + 1 < |data| && data[i] == BACKSLASH
    requires (data[i + 1] == 117 && digits == 4) || (data[i + 1] == 85 && digits == 8)
    requires var r := HexNumber(data, i + 2, digits, 0); r.Good? && r.value != 0 && Scalar(r.value)
    ensures var r := HexNumber(data, i + 2, digits, 0);
            && IsItem(x) && x.Escaped? && x.n == r.value
            && r.next == i + 2 + digits <= |data| && data[i..r.next] == Text(x)
  {
    hide HexNumber, HexText, Encode, Power16;
    HexLimits();
    var n, upper := NumberWritten(data, i + 2, digits, 0);
    x := Escaped(n, if digits == 4 then Four(upper) else Eight(upper));
    assert data[i..i + 2 + digits] == [BACKSLASH, data[i + 1]] + data[i + 2..i + 2 + digits];
  }

  /** What is read is made of items. */
  lemma {:induction false} BodyWritten(data: seq<byte>, i: nat, used: nat) returns (xs: seq<Item>)
    requires i <= |data| && used <= MAX_BYTES && Body(data, i, QUOTE, used).Good?
    ensures var r := Body(data, i, QUOTE, used);
            && AreItems(xs) && i < r.next <= |data| && data[i..r.next - 1] == Texts(xs) && data[r.next - 1] == QUOTE
            && r.value == Meanings(xs) && used + |r.value| <= MAX_BYTES
    decreases |data| - i
  {
    hide Body, Piece, Text, Meaning, IsItem;
    BodyEnd(data, i, QUOTE, used);
    if data[i] == QUOTE {
      xs := [];
    } else {
      BodyStep(data, i, QUOTE, used);
      var p := Piece(data, i, QUOTE);
      var x := PieceWritten(data, i);
      var rest := BodyWritten(data, p.next, used + |p.value|);
      xs := [x] + rest;
      assert xs[1..] == rest;
      var end := Body(data, i, QUOTE, used).next;
      assert data[i..end - 1] == data[i..p.next] + data[p.next..end - 1];
    }
  }

  /** What is made of items is read. */
  lemma {:induction false} ItemsRead(data: seq<byte>, i: nat, xs: seq<Item>, used: nat)
    requires AreItems(xs) && used + |Meanings(xs)| <= MAX_BYTES
    requires i + |Texts(xs)| < |data| && data[i..i + |Texts(xs)|] == Texts(xs) && data[i + |Texts(xs)|] == QUOTE
    ensures Body(data, i, QUOTE, used) == Good(Meanings(xs), i + |Texts(xs)| + 1)
    decreases |xs|
  {
    hide Body, Text, Meaning, IsItem;
    if xs == [] {
      BodyEnd(data, i, QUOTE, used);
    } else {
      var w, tail := Text(xs[0]), Texts(xs[1..]);
      var end := i + |Texts(xs)|;
      var s := data[i..end];
      assert s[..|w|] == w && s[|w|..] == tail;
      assert data[i..i + |w|] == s[..|w|] && data[i + |w|..end] == s[|w|..];
      ItemRead(data, i, xs[0], used);
      ItemsRead(data, i + |w|, xs[1..], used + |Meaning(xs[0])|);
    }
  }

  lemma ItemRead(data: seq<byte>, i: nat, x: Item, used: nat)
    requires IsItem(x) && used + |Meaning(x)| <= MAX_BYTES
    requires i + |Text(x)| <= |data| && data[i..i + |Text(x)|] == Text(x)
    ensures Body(data, i, QUOTE, used) == With(Meaning(x), Body(data, i + |Text(x)|, QUOTE, used + |Meaning(x)|))
  {
    hide Body, Encode, CanSpell, Spell;
    match x
    case Byte(c) => PlainRun(data, i, [c], QUOTE, used);
    case Escaped(n, how) => SpelledOne(data, i, n, how, used);
  }

  /** A string between double quotes is read if and only if it is made of plain bytes and escapes
      and fits, and then as what they mean. */
  lemma QuotedIff(data: seq<byte>, i: nat, bs: seq<byte>, end: nat)
    requires i <= |data|
    ensures Body(data, i, QUOTE, 0) == Good(bs, end) <==>
              && i < end <= |data| && data[end - 1] == QUOTE && |bs| <= MAX_BYTES
              && exists xs :: AreItems(xs) && data[i..end - 1] == Texts(xs) && bs == Meanings(xs)
  {
    hide Body, AreItems, Texts, Meanings;
    if Body(data, i, QUOTE, 0) == Good(bs, end) {
      var xs := BodyWritten(data, i, 0);
    }
    if i < end <= |data| && data[end - 1] == QUOTE && |bs| <= MAX_BYTES {
      if xs :| AreItems(xs) && data[i..end - 1] == Texts(xs) && bs == Meanings(xs) {
        assert |Texts(xs)| == end - 1 - i;
        ItemsRead(data, i, xs, 0);
      }
    }
  }

  /** Between apostrophes there are no escapes: a string is read if and only if its bytes are plain,
      and then as those bytes. */
  lemma {:induction false} LiteralIff(data: seq<byte>, i: nat, used: nat, bs: seq<byte>, end: nat)
    requires used <= MAX_BYTES
    ensures Body(data, i, APOSTROPHE, used) == Good(bs, end) <==>
              && end == i + |bs| + 1 <= |data| && data[i..end - 1] == bs && data[end - 1] == APOSTROPHE
              && used + |bs| <= MAX_BYTES && forall k | 0 <= k < |bs| :: Plain(bs[k], APOSTROPHE)
    decreases |bs|
  {
    hide Body;
    BodyEnd(data, i, APOSTROPHE, used);
    if i < |data| {
      var c := data[i];
      if bs != [] && i + |bs| <= |data| && data[i..i + |bs|] == bs { assert c == data[i..i + |bs|][0] == bs[0]; }
      if c != APOSTROPHE {
        LiteralPiece(data, i);
        BodyStep(data, i, APOSTROPHE, used);
        if Plain(c, APOSTROPHE) && used < MAX_BYTES && bs != [] {
          LiteralIff(data, i + 1, used + 1, bs[1..], end);
          if c == bs[0] { LiteralCons(data, i, bs, end); }
          var r := Body(data, i + 1, APOSTROPHE, used + 1);
          if r.Good? { assert ([c] + r.value)[1..] == r.value && ([c] + r.value)[0] == c; }
          assert [bs[0]] + bs[1..] == bs;
        }
      }
    }
  }

  lemma LiteralCons(data: seq<byte>, i: nat, bs: seq<byte>, end: nat)
    requires i < |data| && bs != [] && bs[0] == data[i]
    ensures end == i + |bs| + 1 <= |data| ==> (data[i..end - 1] == bs <==> data[i + 1..end - 1] == bs[1..])
    ensures (forall k | 0 <= k < |bs| :: Plain(bs[k], APOSTROPHE)) <==>
              Plain(bs[0], APOSTROPHE) && forall k | 0 <= k < |bs[1..]| :: Plain(bs[1..][k], APOSTROPHE)
  {
    hide Plain;
    assert forall k | 0 < k < |bs| :: bs[k] == bs[1..][k - 1];
    if end == i + |bs| + 1 <= |data| {
      var w := data[i..end - 1];
      assert w[1..] == data[i + 1..end - 1] && w == [w[0]] + w[1..] && bs == [bs[0]] + bs[1..];
    }
  }

  lemma LiteralPiece(data: seq<byte>, i: nat)
    requires i < |data| && data[i] != APOSTROPHE
    ensures var r := Piece(data, i, APOSTROPHE);
            if Plain(data[i], APOSTROPHE) then r == Good([data[i]], i + 1) else r.Bad?
  {
  }
}
