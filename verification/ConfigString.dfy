/** Quoted strings of the configuration language. */
module ConfigString {
  import opened Bytes
  import opened Utf8

  const MAX_BYTES: nat := 65536   // FACET_CONFIG_MAX_STRING_BYTES

  // ASCII characters the parser looks for.
  const TAB: byte := 9
  const NEWLINE: byte := 10
  const RETURN: byte := 13
  const QUOTE: byte := 34
  const APOSTROPHE: byte := 39
  const BACKSLASH: byte := 92
  const DELETE: byte := 127

  datatype Problem = Syntax | Schema | Limit | Memory

  datatype Parsed<+T> = Good(value: T, next: nat) | Bad(problem: Problem)

  // ---------- what a quoted string means ----------

  /** The number in `digits` hexadecimal digits from i on. */
  function HexNumber(data: seq<byte>, i: nat, digits: nat, value: nat): Parsed<nat>
    decreases digits
  {
    if digits == 0 then Good(value, i)
    else if i >= |data| || HexDigit(data[i]).None? then Bad(Syntax)
    else HexNumber(data, i + 1, digits - 1, value * 16 + HexDigit(data[i]).value)
  }

  function Short(c: byte): Option<nat>
  {
    if c == 98 then Some(8) else if c == 116 then Some(9) else if c == 110 then Some(10)
    else if c == 102 then Some(12) else if c == 114 then Some(13)
    else if c == QUOTE || c == BACKSLASH then Some(c) else None
  }

  /** The escape behind the backslash before i: a scalar and where it ends. */
  function Escape(data: seq<byte>, i: nat): Parsed<nat>
  {
    if i >= |data| then Bad(Syntax)
    else if Short(data[i]).Some? then Good(Short(data[i]).value, i + 1)
    else if data[i] == 117 then HexNumber(data, i + 1, 4, 0)
    else if data[i] == 85 then HexNumber(data, i + 1, 8, 0)
    else Bad(Syntax)
  }

  /** What one turn of the loop appends, and where it goes on. */
  function Piece(data: seq<byte>, i: nat, quote: byte): Parsed<seq<byte>>
    requires i < |data|
  {
    var c := data[i];
    if c == NEWLINE || c == RETURN then Bad(Syntax)
    else if quote == QUOTE && c == BACKSLASH then
      match Escape(data, i + 1)
      case Bad(p) => Bad(p)
      case Good(n, next) =>
        if n == 0 then Bad(Schema) else if Scalar(n) then Good(Encode(n), next) else Bad(Syntax)
    else if c == 0 then Bad(Schema)
    else if (c < 0x20 && c != TAB) || c == DELETE then Bad(Syntax)
    else Good([c], i + 1)
  }

  lemma {:induction false} HexNumberAdvances(data: seq<byte>, i: nat, digits: nat, value: nat)
    requires i <= |data|
    ensures var r := HexNumber(data, i, digits, value);
            r.Good? ==> i <= r.next <= |data| && forall k | i <= k < r.next :: data[k] < 0x80
    decreases digits
  {
    if digits > 0 && i < |data| && HexDigit(data[i]).Some? {
      HexNumberAdvances(data, i + 1, digits - 1, value * 16 + HexDigit(data[i]).value);
    }
  }

  /** A piece ends behind where it began, inside the data, and an escape is ASCII. */
  lemma PieceAdvances(data: seq<byte>, i: nat, quote: byte)
    requires i < |data|
    ensures var r := Piece(data, i, quote);
            r.Good? ==> && i < r.next <= |data|
                        && if quote == QUOTE && data[i] == BACKSLASH
                           then (forall k | i <= k < r.next :: data[k] < 0x80) && Accepts(r.value)
                           else r.next == i + 1 && r.value == [data[i]]
  {
    hide Encode, Accepts;
    if quote == QUOTE && data[i] == BACKSLASH && i + 1 < |data| {
      if i + 2 <= |data| {
        HexNumberAdvances(data, i + 2, 4, 0);
        HexNumberAdvances(data, i + 2, 8, 0);
      }
      var e := Escape(data, i + 1);
      if e.Good? && Scalar(e.value) { AcceptsOne(e.value); }
    }
  }

  /** The contents of a string from i up to its closing quote, when `used` bytes came before. */
  function Body(data: seq<byte>, i: nat, quote: byte, used: nat): Parsed<seq<byte>>
    decreases |data| - i
  {
    if i >= |data| then Bad(Syntax)
    else if data[i] == quote then Good([], i + 1)
    else
      PieceAdvances(data, i, quote);
      match Piece(data, i, quote)
      case Bad(p) => Bad(p)
      case Good(bs, next) =>
        if used + |bs| > MAX_BYTES then Bad(Limit)
        else
          match Body(data, next, quote, used + |bs|)
          case Bad(p) => Bad(p)
          case Good(rest, end) => Good(bs + rest, end)
  }

  // ---------- every string is valid UTF-8 ----------

  /** Inside a character of more than one byte there is no ASCII. */
  lemma InsideChar(bs: seq<byte>, j: nat)
    requires bs != [] && DecodeOne(bs).Some? && j < DecodeOne(bs).value.size
    ensures j > 0 ==> bs[j] >= 0x80
    ensures bs[0] < 0x80 <==> DecodeOne(bs).value.size == 1
  {
    var needed := Lead(bs[0]).value.size;
    var tail := bs[1..1 + needed];
    FoldContinues(Lead(bs[0]).value.value, tail);
    assert j > 0 ==> bs[j] == tail[j - 1];
  }

  /** The data from b on is valid, and i is inside or at the end of its first character, whose
      bytes so far have been copied. */
  ghost predicate Within(data: seq<byte>, b: nat, i: nat)
  {
    b <= i <= |data| && Accepts(data[b..]) && (i > b ==> i - b < DecodeOne(data[b..]).value.size)
  }

  lemma AsciiAtBoundary(data: seq<byte>, b: nat, i: nat)
    requires Within(data, b, i) && i < |data| && data[i] < 0x80
    ensures i == b && Accepts(data[i + 1..])
  {
    hide DecodeOne;
    var bs := data[b..];
    assert data[i] == bs[i - b];
    InsideChar(bs, i - b);
    assert bs[1..] == data[b + 1..];
  }

  lemma {:induction false} AsciiRun(data: seq<byte>, i: nat, end: nat)
    requires i <= end <= |data| && Accepts(data[i..]) && forall k | i <= k < end :: data[k] < 0x80
    ensures Accepts(data[end..])
    decreases end - i
  {
    hide DecodeOne;
    if i < end {
      AsciiAtBoundary(data, i, i);
      AsciiRun(data, i + 1, end);
    }
  }

  /** Whatever mixture of raw bytes and escapes a string of a valid file is made of, what has
      been copied of the current character together with the rest of the string is valid. */
  lemma {:induction false} BodyValid(data: seq<byte>, b: nat, i: nat, quote: byte, used: nat)
    requires Within(data, b, i) && quote < 0x80 && Body(data, i, quote, used).Good?
    ensures Accepts(data[b..i] + Body(data, i, quote, used).value)
    decreases |data| - i
  {
    BodyEnd(data, i, quote, used);
    hide DecodeOne, Piece, Body, Accepts;
    if data[i] == quote {
      AsciiAtBoundary(data, b, i);
      NothingAccepted();
      assert data[b..i] + [] == [];
    } else {
      BodyStep(data, i, quote, used);
      PieceAdvances(data, i, quote);
      var p := Piece(data, i, quote);
      var rest := Body(data, p.next, quote, used + |p.value|).value;
      if quote == QUOTE && data[i] == BACKSLASH {
        AsciiAtBoundary(data, b, i);
        AsciiRun(data, i, p.next);
        BodyValid(data, p.next, p.next, quote, used + |p.value|);
        assert data[p.next..p.next] + rest == rest;
        AcceptsConcat(p.value, rest);
        assert data[b..i] + (p.value + rest) == p.value + rest;
      } else {
        RawStep(data, b, i);
        var size := DecodeOne(data[b..]).value.size;
        if i + 1 - b == size {
          BodyValid(data, i + 1, i + 1, quote, used + 1);
          assert data[i + 1..i + 1] + rest == rest;
          assert data[b..i] + ([data[i]] + rest) == data[b..i + 1] + rest;
          CharAccepted(data, b, i + 1);
          AcceptsConcat(data[b..i + 1], rest);
        } else {
          BodyValid(data, b, i + 1, quote, used + 1);
          assert data[b..i] + ([data[i]] + rest) == data[b..i + 1] + rest;
        }
      }
    }
  }

  lemma NothingAccepted()
    ensures Accepts([])
  {
  }

  /** A raw byte extends the current character, or completes it. */
  lemma RawStep(data: seq<byte>, b: nat, i: nat)
    requires Within(data, b, i) && i < |data|
    ensures b < |data| && DecodeOne(data[b..]).Some?
    ensures var size := DecodeOne(data[b..]).value.size;
            if i + 1 - b == size then Within(data, i + 1, i + 1) else Within(data, b, i + 1)
  {
    hide DecodeOne;
    var bs := data[b..];
    var size := DecodeOne(bs).value.size;
    assert bs[size..] == data[b + size..];
  }

  lemma CharAccepted(data: seq<byte>, b: nat, end: nat)
    requires b < |data| && DecodeOne(data[b..]).Some? && end == b + DecodeOne(data[b..]).value.size
    ensures end <= |data| && Accepts(data[b..end])
  {
    hide DecodeOne;
    EncodeDecode(data[b..]);
    AcceptsOne(DecodeOne(data[b..]).value.value);
    assert data[b..end] == data[b..][..end - b];
  }

  /** In valid data every ASCII byte is a character of its own. */
  lemma {:induction false} AsciiSplits(data: seq<byte>, b: nat, i: nat)
    requires b <= i < |data| && Accepts(data[b..]) && data[i] < 0x80
    ensures Accepts(data[i..])
    decreases i - b
  {
    hide DecodeOne;
    if b < i {
      var bs := data[b..];
      var size := DecodeOne(bs).value.size;
      assert data[i] == bs[i - b];
      if i - b < size { InsideChar(bs, i - b); }
      assert bs[size..] == data[b + size..];
      AsciiSplits(data, b + size, i);
    }
  }

  /** A string that starts at a quote of a valid file is valid UTF-8. */
  lemma StringValid(data: seq<byte>, i: nat)
    requires i < |data| && Accepts(data) && data[i] in {QUOTE, APOSTROPHE} && Body(data, i + 1, data[i], 0).Good?
    ensures Accepts(Body(data, i + 1, data[i], 0).value)
  {
    hide DecodeOne;
    assert data[0..] == data;
    AsciiSplits(data, 0, i);
    AsciiAtBoundary(data, i, i);
    BodyValid(data, i + 1, i + 1, data[i], 0);
    var s := Body(data, i + 1, data[i], 0).value;
    assert data[i + 1..i + 1] + s == s;
  }

  // ---------- limits, and strings written with escapes ----------

  lemma PieceClean(data: seq<byte>, i: nat, quote: byte)
    requires i < |data|
    ensures var r := Piece(data, i, quote); r.Good? ==> 0 !in r.value
  {
    hide Escape;
  }

  /** No string holds a NUL or is longer than the limit. */
  lemma {:induction false} BodyClean(data: seq<byte>, i: nat, quote: byte, used: nat)
    requires used <= MAX_BYTES
    ensures var r := Body(data, i, quote, used);
            r.Good? ==> && 0 !in r.value && used + |r.value| <= MAX_BYTES
                        && i < r.next <= |data| && data[r.next - 1] == quote
    decreases |data| - i
  {
    hide Piece;
    if i < |data| && data[i] != quote {
      PieceAdvances(data, i, quote);
      PieceClean(data, i, quote);
      var p := Piece(data, i, quote);
      if p.Good? && used + |p.value| <= MAX_BYTES { BodyClean(data, p.next, quote, used + |p.value|); }
    }
  }

  function HexByte(d: nat): byte
    requires d < 16
  {
    if d < 10 then 48 + d else 97 + d - 10
  }

  /** The letter that names a control character, where there is one. */
  function Letter(c: byte): Option<byte>
  {
    if c == 8 then Some(98) else if c == 9 then Some(116) else if c == 10 then Some(110)
    else if c == 12 then Some(102) else if c == 13 then Some(114) else None
  }

  /** One byte as it may be written between double quotes, with or without the letters. */
  function Written(c: byte, letters: bool): (bs: seq<byte>)
    ensures bs != []
  {
    if c == QUOTE || c == BACKSLASH then [BACKSLASH, c]
    else if letters && Letter(c).Some? then [BACKSLASH, Letter(c).value]
    else if c < 0x20 || c == DELETE then [BACKSLASH, 117, 48, 48, HexByte(c / 16), HexByte(c % 16)]
    else [c]
  }

  function WrittenAll(s: seq<byte>, letters: bool): seq<byte>
  {
    if s == [] then [] else Written(s[0], letters) + WrittenAll(s[1..], letters)
  }

  lemma HexByteBack(d: nat)
    requires d < 16
    ensures HexDigit(HexByte(d)) == Some(d)
  {
  }

  lemma FourDigits(data: seq<byte>, i: nat, c: byte)
    requires i + 4 <= |data| && data[i..i + 4] == [48, 48, HexByte(c / 16), HexByte(c % 16)]
    ensures HexNumber(data, i, 4, 0) == Good(c, i + 4)
  {
    var w := data[i..i + 4];
    assert data[i] == w[0] && data[i + 1] == w[1] && data[i + 2] == w[2] && data[i + 3] == w[3];
    HexByteBack(c / 16);
    HexByteBack(c % 16);
    hide HexByte, HexDigit;
    assert HexDigit(48) == Some(0) by { HexByteBack(0); assert HexByte(0) == 48 by { ZeroDigit(); } }
    assert HexNumber(data, i + 4, 0, c) == Good(c, i + 4);
    assert HexNumber(data, i + 3, 1, c / 16) == HexNumber(data, i + 4, 0, c / 16 * 16 + c % 16);
    assert HexNumber(data, i + 2, 2, 0) == HexNumber(data, i + 3, 1, c / 16);
    assert HexNumber(data, i + 1, 3, 0) == HexNumber(data, i + 2, 2, 0);
  }

  lemma ZeroDigit()
    ensures HexByte(0) == 48
  {
  }

  lemma WrittenPiece(data: seq<byte>, i: nat, c: byte, letters: bool)
    requires c != 0 && i + |Written(c, letters)| <= |data| && data[i..i + |Written(c, letters)|] == Written(c, letters)
    ensures Piece(data, i, QUOTE) == Good([c], i + |Written(c, letters)|)
    ensures data[i] != QUOTE
  {
    var w := data[i..i + |Written(c, letters)|];
    assert data[i] == w[0];
    if c == QUOTE || c == BACKSLASH || (letters && Letter(c).Some?) {
      assert data[i + 1] == w[1];
    } else if c < 0x20 || c == DELETE {
      assert data[i + 1] == w[1];
      assert data[i + 2..i + 6] == w[2..6] == [48, 48, HexByte(c / 16), HexByte(c % 16)];
      FourDigits(data, i + 2, c);
      hide HexNumber, HexByte;
      assert Escape(data, i + 1) == Good(c, i + 6);
    }
  }

  /** Writing any NUL-free string that fits between quotes and parsing it gives it back. */
  lemma {:induction false} WrittenBack(data: seq<byte>, i: nat, s: seq<byte>, letters: bool, used: nat, rest: seq<byte>)
    requires 0 !in s && used + |s| <= MAX_BYTES
    requires i <= |data| && data[i..] == WrittenAll(s, letters) + [QUOTE] + rest
    ensures Body(data, i, QUOTE, used) == Good(s, i + |WrittenAll(s, letters)| + 1)
    decreases |s|
  {
    hide Piece, Written, Body;
    if s == [] {
      assert data[i] == data[i..][0] == QUOTE;
      BodyEnd(data, i, QUOTE, used);
    } else {
      var w, tail := Written(s[0], letters), WrittenAll(s[1..], letters) + [QUOTE] + rest;
      assert data[i..] == w + tail;
      SuffixSlice(data, i, w, tail);
      assert s[0] in s && forall c | c in s[1..] :: c in s;
      WrittenPiece(data, i, s[0], letters);
      BodyStep(data, i, QUOTE, used);
      WrittenBack(data, i + |w|, s[1..], letters, used + 1, rest);
      assert s == [s[0]] + s[1..];
    }
  }

  // ---------- the parser ----------

  /** A NUL-terminated buffer that grows by doubling up to the limit. */
  class Buffer {
    var data: array<byte>
    var used: nat

    ghost predicate Valid()
      reads this, data
    {
      && used <= MAX_BYTES && data.Length <= MAX_BYTES + 1
      && (data.Length == 0 ==> used == 0) && (data.Length > 0 ==> used < data.Length && data[used] == 0)
    }

    ghost function Contents(): seq<byte>
      requires Valid()
      reads this, data
    {
      data[..used]
    }

    constructor ()
      ensures Valid() && Contents() == [] && fresh(data)
    {
      data := new byte[0];
      used := 0;
    }

    /** Makes room for n bytes and the NUL; the allocator may refuse. */
    method Grow(n: nat) returns (ok: bool)
      requires Valid() && 1 <= n <= 4 && used + n <= MAX_BYTES
      modifies this`data
      ensures used < data.Length || data.Length == used == 0
      ensures data.Length <= MAX_BYTES + 1 && (data == old(data) || fresh(data))
      ensures data[..used] == old(data[..used])
      ensures if ok then used + n + 1 <= data.Length else data == old(data)
    {
      ok := true;
      if used + n + 1 > data.Length {
        var next := if data.Length == 0 then 32 else data.Length * 2;
        while next < used + n + 1
          invariant next > 0
        {
          next := next * 2;
        }
        if next > MAX_BYTES + 1 { next := MAX_BYTES + 1; }
        var granted: bool := *;
        if !granted { return false; }
        var grown := new byte[next];
        forall i | 0 <= i < used {
          grown[i] := data[i];
        }
        assert grown[..used] == data[..used];
        data := grown;
      }
    }

    method Append(bs: seq<byte>) returns (r: Option<Problem>)
      requires Valid() && 1 <= |bs| <= 4
      modifies this, data
      ensures Valid() && (data == old(data) || fresh(data))
      ensures r.None? ==> Contents() == old(Contents()) + bs
      ensures r.Some? ==> Contents() == old(Contents())
      ensures r == Some(Limit) <==> old(used) + |bs| > MAX_BYTES
      ensures r.Some? ==> r.value in {Limit, Memory}
    {
      if used + |bs| > MAX_BYTES { return Some(Limit); }
      var ok := Grow(|bs|);
      if !ok { return Some(Memory); }
      ghost var before := data[..used];
      forall i | 0 <= i < |bs| {
        data[used + i] := bs[i];
      }
      assert data[..used + |bs|] == before + bs;
      used := used + |bs|;
      data[used] := 0;
      r := None;
    }
  }

  /** Line and column of an offset. */
  function Position(data: seq<byte>, n: nat): (nat, nat)
    requires n <= |data|
  {
    if n == 0 then (1, 1)
    else
      var (line, column) := Position(data, n - 1);
      if data[n - 1] == NEWLINE then (line + 1, 1) else (line, column + 1)
  }

  class Parser {
    const data: seq<byte>
    var offset: nat
    var line: nat
    var column: nat

    ghost predicate Valid()
      reads this
    {
      offset <= |data| && (line, column) == Position(data, offset)
    }

    constructor (data: seq<byte>)
      ensures Valid() && this.data == data && offset == 0
    {
      this.data := data;
      offset, line, column := 0, 1, 1;
    }

    /** The next byte, or nothing at the end. */
    method Take() returns (c: Option<byte>)
      requires Valid()
      modifies this
      ensures Valid()
      ensures old(offset) < |data| ==> c == Some(data[old(offset)]) && offset == old(offset) + 1
      ensures old(offset) >= |data| ==> c == None && offset == old(offset)
    {
      if offset >= |data| { return None; }
      c := Some(data[offset]);
      offset := offset + 1;
      if c == Some(NEWLINE) {
        line, column := line + 1, 1;
      } else {
        column := column + 1;
      }
    }

    method TakeHex(digits: nat) returns (r: Option<nat>)
      requires Valid()
      modifies this
      ensures Valid() && offset >= old(offset)
      ensures var e := HexNumber(data, old(offset), digits, 0);
              if e.Good? then r == Some(e.value) && offset == e.next else r == None
    {
      var value: nat := 0;
      for i := 0 to digits
        invariant Valid() && offset >= old(offset)
        invariant HexNumber(data, old(offset), digits, 0) == HexNumber(data, offset, digits - i, value)
      {
        var c := Take();
        if c.None? || HexDigit(c.value).None? { return None; }
        value := value * 16 + HexDigit(c.value).value;
      }
      r := Some(value);
    }

    /** The escape behind a backslash. */
    method TakeEscape() returns (r: Option<nat>)
      requires Valid()
      modifies this
      ensures Valid() && offset >= old(offset)
      ensures var e := Escape(data, old(offset));
              if e.Good? then r == Some(e.value) && offset == e.next else r == None
    {
      hide HexNumber;
      var c := Take();
      if c.None? { return None; }
      if Short(c.value).Some? { return Short(c.value); }
      if c.value == 117 {
        r := TakeHex(4);
      } else if c.value == 85 {
        r := TakeHex(8);
      } else {
        r := None;
      }
    }

    /** parse_quoted_string, at a quote. */
    method ParseQuoted() returns (r: Parsed<seq<byte>>)
      requires Valid() && offset < |data| && data[offset] in {QUOTE, APOSTROPHE}
      modifies this
      ensures Valid()
      ensures r == Bad(Memory) ||
              var e := Body(data, old(offset) + 1, data[old(offset)], 0);
              if e.Good? then r == Good(e.value, offset) && offset == e.next else r == e
      ensures r.Good? ==> 0 !in r.value && |r.value| <= MAX_BYTES
      ensures r.Good? && Accepts(data) ==> Accepts(r.value)
    {
      hide Piece, Accepts, Position, Body, With;
      var first := Take();
      var quote := first.value;
      var buffer := new Buffer();
      ghost var begin := offset;
      ghost var all := Body(data, begin, quote, 0);
      BodyClean(data, begin, quote, 0);
      if Accepts(data) && all.Good? { StringValid(data, begin - 1); }
      WithNil(all);
      while offset < |data| && data[offset] != quote
        invariant Valid() && buffer.Valid() && fresh(buffer) && fresh(buffer.data) && offset >= begin
        invariant all == With(buffer.Contents(), Body(data, offset, quote, buffer.used))
        decreases |data| - offset
      {
        ghost var before := buffer.Contents();
        BodyStep(data, offset, quote, buffer.used);
        PieceAdvances(data, offset, quote);
        WithBad(before);
        var piece := TakePiece(quote);
        if piece.Bad? { return piece; }
        var problem := buffer.Append(piece.value);
        if problem.Some? { return Bad(problem.value); }
        WithTwice(before, piece.value, Body(data, offset, quote, buffer.used));
      }
      BodyEnd(data, offset, quote, buffer.used);
      WithBad(buffer.Contents());
      var last := Take();
      if last != Some(quote) { return Bad(Syntax); }
      WithEnd(buffer.Contents(), offset);
      r := Good(buffer.data[..buffer.used], offset);
    }

    /** One turn of the loop: the bytes to append. */
    method TakePiece(quote: byte) returns (r: Parsed<seq<byte>>)
      requires Valid() && offset < |data|
      modifies this
      ensures Valid()
      ensures var e := Piece(data, old(offset), quote);
              && r == e && (e.Good? ==> offset == e.next)
              && (e.Good? ==> 1 <= |e.value| <= 4)
    {
      hide Escape, Encode;
      var c := Take();
      if c.value == NEWLINE || c.value == RETURN { return Bad(Syntax); }
      if quote == QUOTE && c.value == BACKSLASH {
        var n := TakeEscape();
        EscapeFails(data, old(offset) + 1);
        if n.None? { return Bad(Syntax); }
        if n.value == 0 { return Bad(Schema); }
        if !Scalar(n.value) { return Bad(Syntax); }
        r := Good(Encode(n.value), offset);
      } else {
        if c.value == 0 { return Bad(Schema); }
        if (c.value < 0x20 && c.value != TAB) || c.value == DELETE { return Bad(Syntax); }
        r := Good([c.value], offset);
      }
    }
  }

  /** What is in the buffer goes before what is still to come. */
  function With(bs: seq<byte>, rest: Parsed<seq<byte>>): Parsed<seq<byte>>
  {
    match rest case Good(more, next) => Good(bs + more, next) case Bad(_) => rest
  }

  lemma BodyStep(data: seq<byte>, i: nat, quote: byte, used: nat)
    requires i < |data| && data[i] != quote
    ensures var p := Piece(data, i, quote);
            Body(data, i, quote, used) ==
            if p.Bad? then p
            else if used + |p.value| > MAX_BYTES then Bad(Limit)
            else With(p.value, Body(data, p.next, quote, used + |p.value|))
  {
    hide Piece;
  }

  lemma BodyEnd(data: seq<byte>, i: nat, quote: byte, used: nat)
    ensures i >= |data| ==> Body(data, i, quote, used) == Bad(Syntax)
    ensures i < |data| && data[i] == quote ==> Body(data, i, quote, used) == Good([], i + 1)
  {
  }

  lemma WithBad(a: seq<byte>)
    ensures forall p: Problem {:trigger With(a, Bad(p))} :: With(a, Bad(p)) == Bad(p)
  {
  }

  lemma WithEnd(a: seq<byte>, n: nat)
    ensures With(a, Good([], n)) == Good(a, n)
  {
    assert a + [] == a;
  }

  lemma WithNil(rest: Parsed<seq<byte>>)
    ensures With([], rest) == rest
  {
    assert rest.Good? ==> [] + rest.value == rest.value;
  }

  lemma WithTwice(a: seq<byte>, b: seq<byte>, rest: Parsed<seq<byte>>)
    ensures With(a, With(b, rest)) == With(a + b, rest)
  {
    assert rest.Good? ==> a + (b + rest.value) == a + b + rest.value;
  }

  lemma {:induction false} HexFails(data: seq<byte>, i: nat, digits: nat, value: nat)
    ensures var r := HexNumber(data, i, digits, value); r.Bad? ==> r == Bad(Syntax)
    decreases digits
  {
    if digits > 0 && i < |data| && HexDigit(data[i]).Some? {
      HexFails(data, i + 1, digits - 1, value * 16 + HexDigit(data[i]).value);
    }
  }

  lemma EscapeFails(data: seq<byte>, i: nat)
    ensures Escape(data, i).Bad? ==> Escape(data, i) == Bad(Syntax)
  {
    HexFails(data, i + 1, 4, 0);
    HexFails(data, i + 1, 8, 0);
  }
}
