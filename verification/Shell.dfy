/** The two shells' command lines: words, quotes and backslashes, tokenised in place. The POSIX
    shell's parser is the native one with a check for operators it does not support; `strict`
    selects it. */
module Shell {
  import opened Bytes

  datatype Quote = Plain | Inside(mark: char)

  datatype Words = Good(words: seq<string>) | Bad

  /** A word and the line behind it. */
  datatype Lexed = Word(text: string, rest: string) | Broken

  predicate Blank(c: char)
  {
    c == ' ' || c == '\t'
  }

  predicate Operator(c: char)
  {
    c in {'|', '>', '<', '&', '*'}
  }

  function SkipBlanks(s: string): (r: string)
    ensures |r| <= |s|
  {
    if s != "" && Blank(s[0]) then SkipBlanks(s[1..]) else s
  }

  function Prefix(text: string, l: Lexed): Lexed
  {
    match l case Word(more, rest) => Word(text + more, rest) case Broken => Broken
  }

  /** The rest of a word. A backslash takes the next character as it is, also inside quotes. */
  function Lex(s: string, quote: Quote, strict: bool): (l: Lexed)
    ensures l.Word? ==> |l.rest| <= |s|
    ensures l.Word? && s != "" && !Blank(s[0]) ==> |l.rest| < |s|
  {
    if s == "" then if quote == Plain then Word("", "") else Broken
    else if s[0] == '\\' then if |s| == 1 then Broken else Prefix([s[1]], Lex(s[2..], quote, strict))
    else if quote.Inside? then
      if s[0] == quote.mark then Lex(s[1..], Plain, strict) else Prefix([s[0]], Lex(s[1..], quote, strict))
    else if s[0] == '\'' || s[0] == '"' then Lex(s[1..], Inside(s[0]), strict)
    else if strict && Operator(s[0]) then Broken
    else if Blank(s[0]) then Word("", s)
    else Prefix([s[0]], Lex(s[1..], quote, strict))
  }

  lemma {:induction false} SkipBlanksEnd(s: string)
    ensures SkipBlanks(s) != "" ==> !Blank(SkipBlanks(s)[0])
  {
    if s != "" && Blank(s[0]) { SkipBlanksEnd(s[1..]); }
  }

  function Tokenise(s: string, capacity: nat, strict: bool): Words
    decreases |s|
  {
    var t := SkipBlanks(s);
    SkipBlanksEnd(s);
    if t == "" then Good([])
    else if capacity == 0 then Bad
    else
      match Lex(t, Plain, strict)
      case Broken => Bad
      case Word(text, rest) =>
        match Tokenise(rest, capacity - 1, strict)
        case Bad => Bad
        case Good(more) => Good([text] + more)
  }

  // ---------- quoted words come back ----------

  /** A word between double quotes, with its quotes and backslashes escaped. */
  function Escaped(w: string): string
  {
    if w == "" then "" else (if w[0] == '"' || w[0] == '\\' then ['\\', w[0]] else [w[0]]) + Escaped(w[1..])
  }

  function Quoted(w: string): string
  {
    "\"" + Escaped(w) + "\""
  }

  /** The words, quoted, with blanks between. */
  function Line(ws: seq<string>): string
  {
    if ws == [] then "" else Quoted(ws[0]) + " " + Line(ws[1..])
  }

  /** One character of a word; Lex by its definition. */
  lemma LexHead(s: string, quote: Quote, strict: bool)
    ensures var l := Lex(s, quote, strict);
            if s == "" then l == if quote == Plain then Word("", "") else Broken
            else if s[0] == '\\' then
              if |s| == 1 then l == Broken else l == Prefix([s[1]], Lex(s[2..], quote, strict))
            else if quote.Inside? then
              if s[0] == quote.mark then l == Lex(s[1..], Plain, strict)
              else l == Prefix([s[0]], Lex(s[1..], quote, strict))
            else if s[0] == '\'' || s[0] == '"' then l == Lex(s[1..], Inside(s[0]), strict)
            else if strict && Operator(s[0]) then l == Broken
            else if Blank(s[0]) then l == Word("", s)
            else l == Prefix([s[0]], Lex(s[1..], quote, strict))
  {
  }

  lemma {:induction false} LexEscaped(w: string, rest: string, strict: bool)
    ensures Lex(Escaped(w) + "\"" + rest, Inside('"'), strict) == Prefix(w, Lex(rest, Plain, strict))
  {
    hide Lex;
    var s := Escaped(w) + "\"" + rest;
    LexHead(s, Inside('"'), strict);
    if w == "" {
      assert s == "\"" + rest && s[1..] == rest;
      PrefixNone(Lex(rest, Plain, strict));
    } else {
      var tail := Escaped(w[1..]) + "\"" + rest;
      LexEscaped(w[1..], rest, strict);
      assert w == [w[0]] + w[1..];
      PrefixTwice([w[0]], w[1..], Lex(rest, Plain, strict));
      if w[0] == '"' || w[0] == '\\' {
        assert s == ['\\', w[0]] + tail && s[2..] == tail;
      } else {
        assert s == [w[0]] + tail && s[1..] == tail;
      }
    }
  }

  lemma PrefixNone(l: Lexed)
    ensures Prefix("", l) == l
  {
    assert l.Word? ==> "" + l.text == l.text;
  }

  lemma PrefixTwice(a: string, b: string, l: Lexed)
    ensures Prefix(a, Prefix(b, l)) == Prefix(a + b, l)
  {
    assert l.Word? ==> a + (b + l.text) == a + b + l.text;
  }

  /** The quoted rendering of any words that fit the capacity is tokenised to those words, by
      either parser. */
  lemma {:induction false} LineBack(ws: seq<string>, capacity: nat, strict: bool)
    requires |ws| <= capacity
    ensures Tokenise(Line(ws), capacity, strict) == Good(ws)
    ensures Tokenise(" " + Line(ws), capacity, strict) == Good(ws)
    decreases |ws|
  {
    hide Lex;
    var line := Line(ws);
    assert SkipBlanks(" " + line) == SkipBlanks(line) by {
      assert (" " + line)[1..] == line;
    }
    if ws != [] {
      var more := " " + Line(ws[1..]);
      QuotedLex(ws[0], more, strict);
      assert line == Quoted(ws[0]) + more;
      LineBack(ws[1..], capacity - 1, strict);
      assert SkipBlanks(line) == line;
    }
  }

  lemma QuotedLex(w: string, more: string, strict: bool)
    requires more != "" && Blank(more[0])
    ensures Lex(Quoted(w) + more, Plain, strict) == Word(w, more)
  {
    hide Lex;
    var s := Escaped(w) + "\"" + more;
    assert Quoted(w) + more == "\"" + s && ("\"" + s)[1..] == s;
    LexHead("\"" + s, Plain, strict);
    LexEscaped(w, more, strict);
    LexHead(more, Plain, strict);
    assert w + "" == w;
  }

  // ---------- the strict parser ----------

  /** Somewhere outside quotes and not behind a backslash there is an operator. */
  predicate HasOperator(s: string, quote: Quote)
  {
    if s == "" then false
    else if s[0] == '\\' then |s| > 1 && HasOperator(s[2..], quote)
    else if quote.Inside? then HasOperator(s[1..], if s[0] == quote.mark then Plain else quote)
    else if s[0] == '\'' || s[0] == '"' then HasOperator(s[1..], Inside(s[0]))
    else Operator(s[0]) || HasOperator(s[1..], quote)
  }

  lemma {:induction false} LexStrict(s: string, quote: Quote)
    ensures var strict, loose := Lex(s, quote, true), Lex(s, quote, false);
            && (strict.Word? ==> loose == strict && (HasOperator(s, quote) <==> HasOperator(strict.rest, Plain)))
            && (loose.Word? && !HasOperator(s, quote) ==> strict == loose)
    decreases |s|
  {
    if s != "" {
      if s[0] == '\\' {
        if |s| > 1 { LexStrict(s[2..], quote); }
      } else if quote.Inside? {
        LexStrict(s[1..], if s[0] == quote.mark then Plain else quote);
      } else if s[0] == '\'' || s[0] == '"' {
        LexStrict(s[1..], Inside(s[0]));
      } else if !Operator(s[0]) && !Blank(s[0]) {
        LexStrict(s[1..], quote);
      }
    }
  }

  lemma {:induction false} BlanksNoOperator(s: string)
    ensures HasOperator(s, Plain) <==> HasOperator(SkipBlanks(s), Plain)
  {
    if s != "" && Blank(s[0]) { BlanksNoOperator(s[1..]); }
  }

  /** The POSIX shell accepts a line exactly if the native one does and no operator is left
      unquoted, and then both see the same words. */
  lemma {:induction false} StrictIff(s: string, capacity: nat)
    ensures Tokenise(s, capacity, true).Good? <==> Tokenise(s, capacity, false).Good? && !HasOperator(s, Plain)
    ensures Tokenise(s, capacity, true).Good? ==> Tokenise(s, capacity, true) == Tokenise(s, capacity, false)
    decreases |s|
  {
    hide Lex, HasOperator;
    var t := SkipBlanks(s);
    SkipBlanksEnd(s);
    BlanksNoOperator(s);
    if t == "" {
      EmptyLine();
    } else if capacity > 0 {
      LexStrict(t, Plain);
      var strict, loose := Lex(t, Plain, true), Lex(t, Plain, false);
      if strict.Word? {
        StrictIff(strict.rest, capacity - 1);
      }
    }
  }

  lemma EmptyLine()
    ensures !HasOperator("", Plain)
  {
  }

  // ---------- in place ----------

  /** The words one after the other, each with its NUL. */
  function Flat(ws: seq<string>): string
  {
    if ws == [] then "" else Flat(ws[..|ws| - 1]) + ws[|ws| - 1] + ['\0']
  }

  lemma FlatSnoc(ws: seq<string>, w: string)
    ensures Flat(ws + [w]) == Flat(ws) + w + ['\0']
  {
    assert (ws + [w])[..|ws|] == ws;
  }

  /** What is still to be read is untouched. */
  ghost predicate Unread(line: array<char>, text: string, source: nat)
    reads line
  {
    && source <= |text| < line.Length && line[|text|] == '\0'
    && forall i | source <= i < |text| :: line[i] == text[i]
  }

  datatype Turn = More | End | Fail

  /** One turn of the inner loop: the word so far grows by at most one character, and the write
      cursor never overtakes the read cursor. */
  method Step(line: array<char>, source: nat, dest: nat, quote: Quote, strict: bool, ghost text: string)
    returns (turn: Turn, s: nat, d: nat, q: Quote)
    requires Unread(line, text, source) && dest <= source && '\0' !in text
    modifies line
    ensures turn == Fail ==> Lex(text[source..], quote, strict) == Broken
    ensures turn == End ==> s == source && d == dest && Lex(text[source..], quote, strict) == Word("", text[source..])
    ensures turn != Fail ==> Unread(line, text, s) && dest <= d <= s && line[..dest] == old(line[..dest])
    ensures turn == More ==>
              && s > source
              && Lex(text[source..], quote, strict) == Prefix(line[dest..d], Lex(text[s..], q, strict))
  {
    hide Lex;
    assert forall i | 0 <= i < |text| :: text[i] in text;
    turn, s, d, q := More, source, dest, quote;
    var c := line[source];
    ghost var rest := text[source..];
    LexHead(rest, quote, strict);
    assert source < |text| ==> rest[0] == c && rest[1..] == text[source + 1..];
    assert line[dest..d] == "";
    if c == '\0' {
      assert rest == "";
      turn := if quote == Plain then End else Fail;
    } else if c == '\\' {
      s := s + 1;
      if line[s] == '\0' {
        turn := Fail;
      } else {
        assert rest[1] == text[s] && rest[2..] == text[s + 1..];
        s, d := Put(line, s, d, text);
      }
    } else if quote.Inside? {
      if c == quote.mark {
        q, s := Plain, s + 1;
        PrefixNone(Lex(text[s..], q, strict));
      } else {
        s, d := Put(line, s, d, text);
      }
    } else if c == '\'' || c == '"' {
      q, s := Inside(c), s + 1;
      PrefixNone(Lex(text[s..], q, strict));
    } else if strict && Operator(c) {
      turn := Fail;
    } else if Blank(c) {
      turn := End;
    } else {
      s, d := Put(line, s, d, text);
    }
  }

  /** Copies the character being read to where it goes. */
  method Put(line: array<char>, source: nat, dest: nat, ghost text: string) returns (s: nat, d: nat)
    requires Unread(line, text, source) && dest <= source < |text|
    modifies line
    ensures s == source + 1 && d == dest + 1 && Unread(line, text, s)
    ensures line[..dest] == old(line[..dest]) && line[dest..d] == [text[source]]
  {
    line[dest] := line[source];
    s, d := source + 1, dest + 1;
  }

  /** Reads one word from `start` on and writes it at `destination`. */
  method ParseWord(line: array<char>, start: nat, destination: nat, strict: bool, ghost text: string)
    returns (ok: bool, source: nat, dest: nat)
    requires Unread(line, text, start) && destination <= start && '\0' !in text
    modifies line
    ensures ok <==> Lex(text[start..], Plain, strict).Word?
    ensures ok ==> Unread(line, text, source) && destination <= dest <= source
    ensures ok ==> && Lex(text[start..], Plain, strict) == Word(line[destination..dest], text[source..])
                   && line[..destination] == old(line[..destination])
  {
    hide Lex;
    source, dest := start, destination;
    var quote := Plain;
    ghost var all := Lex(text[start..], Plain, strict);
    assert line[destination..dest] == "";
    PrefixNone(all);
    while true
      invariant Unread(line, text, source) && destination <= dest <= source
      invariant all == Prefix(line[destination..dest], Lex(text[source..], quote, strict))
      invariant line[..destination] == old(line[..destination])
      decreases |text| - source
    {
      ghost var front, done, from := line[..dest], line[destination..dest], dest;
      var turn;
      turn, source, dest, quote := Step(line, source, dest, quote, strict, text);
      if turn == Fail { return false, source, dest; }
      assert line[..from] == front;
      assert line[destination..from] == front[destination..] == done;
      assert line[..destination] == front[..destination];
      if turn == End {
        assert done + "" == done;
        return true, source, dest;
      }
      PrefixTwice(done, line[from..dest], Lex(text[source..], quote, strict));
      assert line[destination..dest] == done + line[from..dest];
    }
  }

  method SkipLine(line: array<char>, source: nat, ghost text: string) returns (s: nat)
    requires Unread(line, text, source) && '\0' !in text
    ensures source <= s && Unread(line, text, s) && text[s..] == SkipBlanks(text[source..])
    ensures s < |text| ==> !Blank(text[s])
    ensures source < |text| && Blank(text[source]) ==> s > source
  {
    s := source;
    while line[s] == ' ' || line[s] == '\t'
      invariant source <= s && Unread(line, text, s) && SkipBlanks(text[s..]) == SkipBlanks(text[source..])
      invariant source < |text| && Blank(text[source]) && s == source ==> Blank(line[s])
      decreases |text| - s
    {
      assert text[s..][0] == text[s] && text[s..][1..] == text[s + 1..];
      s := s + 1;
    }
    assert s < |text| ==> text[s..][0] == text[s];
  }

  /** The words read so far go before those still to come. */
  function After(ws: seq<string>, more: Words): Words
  {
    match more case Good(vs) => Good(ws + vs) case Bad => Bad
  }

  lemma AfterNone(more: Words)
    ensures After([], more) == more
  {
    assert more.Good? ==> [] + more.words == more.words;
  }

  lemma TokeniseStep(s: string, capacity: nat, strict: bool, ws: seq<string>)
    ensures Tokenise(SkipBlanks(s), capacity, strict) == Tokenise(s, capacity, strict)
    ensures s != "" && !Blank(s[0]) ==>
              && (capacity == 0 ==> Tokenise(s, capacity, strict) == Bad)
              && (capacity > 0 ==>
                    var l := Lex(s, Plain, strict);
                    && (l == Broken ==> Tokenise(s, capacity, strict) == Bad)
                    && (l.Word? ==> After(ws, Tokenise(s, capacity, strict))
                                    == After(ws + [l.text], Tokenise(l.rest, capacity - 1, strict))))
  {
    hide Lex;
    var t := SkipBlanks(s);
    SkipBlanksEnd(s);
    assert SkipBlanks(t) == t;
    if s != "" && !Blank(s[0]) && capacity > 0 {
      var l := Lex(s, Plain, strict);
      if l.Word? {
        var more := Tokenise(l.rest, capacity - 1, strict);
        assert more.Good? ==> ws + ([l.text] + more.words) == ws + [l.text] + more.words;
      }
    }
  }

  lemma {:induction false} RestIsBlank(s: string, quote: Quote, strict: bool)
    ensures var l := Lex(s, quote, strict); l.Word? ==> l.rest == "" || Blank(l.rest[0])
    decreases |s|
  {
    if s != "" {
      if s[0] == '\\' {
        if |s| > 1 { RestIsBlank(s[2..], quote, strict); }
      } else if quote.Inside? {
        RestIsBlank(s[1..], if s[0] == quote.mark then Plain else quote, strict);
      } else if s[0] == '\'' || s[0] == '"' {
        RestIsBlank(s[1..], Inside(s[0]), strict);
      } else if !Blank(s[0]) {
        RestIsBlank(s[1..], quote, strict);
      }
    }
  }

  /** The words lie in the line one after the other, and the arguments point at them. */
  ghost predicate Laid(line: array<char>, arguments: array<nat>, words: seq<string>, dest: nat)
    reads line, arguments
  {
    && |words| <= arguments.Length && dest <= line.Length && line[..dest] == Flat(words)
    && forall k | 0 <= k < |words| :: arguments[k] == |Flat(words[..k])|
  }

  /** facet_shell_parse_command, and with `strict` the POSIX shell's parse: rewrites the line in
      place into its words. */
  method ParseCommand(line: array<char>, arguments: array<nat>, strict: bool, ghost text: string)
    returns (ok: bool, count: nat)
    requires Unread(line, text, 0) && '\0' !in text
    modifies line, arguments
    ensures ok <==> Tokenise(text, arguments.Length, strict).Good?
    ensures ok ==> var words := Tokenise(text, arguments.Length, strict).words;
                   count == |words| && Laid(line, arguments, words, |Flat(words)|)
  {
    hide Lex, Tokenise, SkipBlanks, Flat;
    var source: nat, dest: nat := 0, 0;
    count := 0;
    ghost var words: seq<string> := [];
    ghost var all := Tokenise(text, arguments.Length, strict);
    assert text[0..] == text;
    AfterNone(all);
    NoWords();
    assert line[..0] == "";
    while line[source] != '\0'
      invariant Unread(line, text, source) && (dest <= source || source == |text|) && dest <= |text| + 1
      invariant Laid(line, arguments, words, dest) && count == |words|
      invariant all == After(words, Tokenise(text[source..], arguments.Length - count, strict))
      decreases |text| - source
    {
      ghost var before := text[source..];
      TokeniseStep(before, arguments.Length - count, strict, words);
      source := SkipLine(line, source, text);
      if line[source] == '\0' { break; }
      ghost var s := text[source..];
      assert s[0] == text[source];
      TokeniseStep(s, arguments.Length - count, strict, words);
      if count == arguments.Length { return false, count; }
      RestIsBlank(s, Plain, strict);
      ok, source, dest := NextWord(line, arguments, source, dest, count, strict, text, words);
      if !ok { return; }
      ghost var word := Lex(s, Plain, strict);
      TokeniseStep(word.rest, arguments.Length - count - 1, strict, words);
      words := words + [word.text];
      count := count + 1;
    }
    assert forall i | 0 <= i < |text| :: text[i] in text;
    assert text[source..] == "";
    NoMoreWords(arguments.Length - count, strict);
    assert words + [] == words;
    assert line[..dest] == Flat(words);
    ok := true;
  }

  lemma NoWords()
    ensures Flat([]) == ""
  {
  }

  lemma NoMoreWords(capacity: nat, strict: bool)
    ensures Tokenise("", capacity, strict) == Good([])
  {
  }

  /** One word with the blanks behind it and its NUL. */
  method NextWord(line: array<char>, arguments: array<nat>, start: nat, destination: nat, count: nat, strict: bool,
                  ghost text: string, ghost words: seq<string>)
    returns (ok: bool, source: nat, dest: nat)
    requires Unread(line, text, start) && start < |text| && destination <= start && '\0' !in text
    requires Laid(line, arguments, words, destination) && count == |words| < arguments.Length
    requires var l := Lex(text[start..], Plain, strict); l.Word? ==> l.rest == "" || Blank(l.rest[0])
    modifies line, arguments
    ensures var l := Lex(text[start..], Plain, strict);
            && (ok <==> l.Word?)
            && (ok ==> && Unread(line, text, source) && text[source..] == SkipBlanks(l.rest)
                       && (dest <= source || source == |text|) && dest <= |text| + 1
                       && Laid(line, arguments, words + [l.text], dest))
  {
    hide Lex, SkipBlanks, Flat;
    arguments[count] := destination;
    ok, source, dest := ParseWord(line, start, destination, strict, text);
    if !ok { return; }
    ghost var l := Lex(text[start..], Plain, strict);
    ghost var at := source;
    assert l.rest == text[at..];
    source := SkipLine(line, source, text);
    assert at < |text| ==> text[at..][0] == text[at];
    ghost var front := line[..dest];
    assert front == line[..destination] + l.text;
    line[dest] := '\0';
    dest := dest + 1;
    FlatSnoc(words, l.text);
    assert line[..dest] == front + ['\0'];
    forall k | 0 <= k < |words| + 1
      ensures arguments[k] == |Flat((words + [l.text])[..k])|
    {
      assert (words + [l.text])[..k] == words[..k];
      assert k == |words| ==> words[..k] == words;
    }
  }
}
