/** The shells' command language, written down as a grammar: which lines there are and what their
    words mean. Tokenising accepts exactly the lines of the grammar, as those words. */
module ShellGrammar {
  import opened Shell

  /** A character of a word, as it is or behind a backslash. */
  datatype Glyph = Glyph(c: char, slashed: bool)

  /** A piece of a word: one character, or a span between quotes. */
  datatype Part = One(g: Glyph) | Span(mark: char, gs: seq<Glyph>)

  /** A word and the blanks before it. */
  datatype Entry = Entry(gap: string, word: seq<Part>)

  // ---------- which lines there are ----------

  predicate Blanks(s: string)
  {
    forall i | 0 <= i < |s| :: s[i] == ' ' || s[i] == '\t'
  }

  /** Outside quotes a blank, a quote or a backslash needs a backslash, and so does an operator for
      the POSIX shell. */
  predicate BareOk(g: Glyph, strict: bool)
  {
    g.slashed || (g.c !in {' ', '\t', '\'', '"', '\\'} && (strict ==> g.c !in {'|', '>', '<', '&', '*'}))
  }

  /** Between quotes only the closing quote and the backslash do. */
  predicate SpanOk(gs: seq<Glyph>, mark: char)
  {
    forall i | 0 <= i < |gs| :: gs[i].slashed || (gs[i].c != mark && gs[i].c != '\\')
  }

  predicate PartOk(p: Part, strict: bool)
  {
    match p
    case One(g) => BareOk(g, strict)
    case Span(mark, gs) => (mark == '\'' || mark == '"') && SpanOk(gs, mark)
  }

  predicate WordOk(w: seq<Part>, strict: bool)
  {
    forall i | 0 <= i < |w| :: PartOk(w[i], strict)
  }

  /** Words have blanks between them. */
  predicate LineOk(es: seq<Entry>, strict: bool, first: bool)
  {
    es == [] ||
    (&& Blanks(es[0].gap) && (first || es[0].gap != "") && es[0].word != [] && WordOk(es[0].word, strict)
     && LineOk(es[1..], strict, false))
  }

  // ---------- how they are written and what they mean ----------

  function GlyphText(g: Glyph): string
  {
    if g.slashed then ['\\', g.c] else [g.c]
  }

  function GlyphsText(gs: seq<Glyph>): string
  {
    if gs == [] then "" else GlyphText(gs[0]) + GlyphsText(gs[1..])
  }

  function PartText(p: Part): string
  {
    match p
    case One(g) => GlyphText(g)
    case Span(mark, gs) => [mark] + GlyphsText(gs) + [mark]
  }

  function WordText(w: seq<Part>): string
  {
    if w == [] then "" else PartText(w[0]) + WordText(w[1..])
  }

  function LineText(es: seq<Entry>, last: string): string
  {
    if es == [] then last else es[0].gap + WordText(es[0].word) + LineText(es[1..], last)
  }

  function Chars(gs: seq<Glyph>): string
  {
    if gs == [] then "" else [gs[0].c] + Chars(gs[1..])
  }

  function PartMeaning(p: Part): string
  {
    match p case One(g) => [g.c] case Span(_, gs) => Chars(gs)
  }

  function WordMeaning(w: seq<Part>): string
  {
    if w == [] then "" else PartMeaning(w[0]) + WordMeaning(w[1..])
  }

  function LineMeaning(es: seq<Entry>): (ws: seq<string>)
    ensures |ws| == |es|
  {
    if es == [] then [] else [WordMeaning(es[0].word)] + LineMeaning(es[1..])
  }

  // ---------- lines of the grammar are accepted ----------

  lemma {:induction false} LexSpan(gs: seq<Glyph>, mark: char, rest: string, strict: bool)
    requires SpanOk(gs, mark) && (mark == '\'' || mark == '"')
    ensures Lex(GlyphsText(gs) + [mark] + rest, Inside(mark), strict)
            == Prefix(Chars(gs), Lex(rest, Quote.Plain, strict))
  {
    hide Lex;
    var s := GlyphsText(gs) + [mark] + rest;
    LexHead(s, Inside(mark), strict);
    if gs == [] {
      assert s == [mark] + rest && s[1..] == rest;
      PrefixNone(Lex(rest, Quote.Plain, strict));
    } else {
      var tail := GlyphsText(gs[1..]) + [mark] + rest;
      LexSpan(gs[1..], mark, rest, strict);
      PrefixTwice([gs[0].c], Chars(gs[1..]), Lex(rest, Quote.Plain, strict));
      assert s == GlyphText(gs[0]) + tail;
      assert s[|GlyphText(gs[0])|..] == tail;
    }
  }

  lemma LexOne(g: Glyph, rest: string, strict: bool)
    requires BareOk(g, strict)
    ensures Lex(GlyphText(g) + rest, Quote.Plain, strict) == Prefix([g.c], Lex(rest, Quote.Plain, strict))
  {
    hide Lex, Prefix;
    var s := GlyphText(g) + rest;
    LexHead(s, Quote.Plain, strict);
    assert s[|GlyphText(g)|..] == rest;
  }

  lemma LexPart(p: Part, rest: string, strict: bool)
    requires PartOk(p, strict)
    ensures Lex(PartText(p) + rest, Quote.Plain, strict) == Prefix(PartMeaning(p), Lex(rest, Quote.Plain, strict))
  {
    hide Lex, Prefix, GlyphText, GlyphsText, BareOk, SpanOk;
    match p
    case One(g) => LexOne(g, rest, strict);
    case Span(mark, gs) =>
      var s := PartText(p) + rest;
      LexHead(s, Quote.Plain, strict);
      assert s[1..] == GlyphsText(gs) + [mark] + rest;
      LexSpan(gs, mark, rest, strict);
  }

  lemma {:induction false} LexWord(w: seq<Part>, rest: string, strict: bool)
    requires WordOk(w, strict) && (rest == "" || Blank(rest[0]))
    ensures Lex(WordText(w) + rest, Quote.Plain, strict) == Word(WordMeaning(w), rest)
  {
    hide Lex, PartOk, PartText, PartMeaning;
    var s := WordText(w) + rest;
    if w == [] {
      assert s == rest;
      LexHead(rest, Quote.Plain, strict);
    } else {
      assert s == PartText(w[0]) + (WordText(w[1..]) + rest);
      LexPart(w[0], WordText(w[1..]) + rest, strict);
      LexWord(w[1..], rest, strict);
    }
  }

  lemma {:induction false} SkipGap(gap: string, s: string)
    requires Blanks(gap)
    ensures SkipBlanks(gap + s) == SkipBlanks(s)
  {
    if gap == "" {
      assert gap + s == s;
    } else {
      assert (gap + s)[1..] == gap[1..] + s;
      SkipGap(gap[1..], s);
    }
  }

  /** A word starts with something that is not blank, and a gap with a blank. */
  lemma WordStarts(w: seq<Part>, strict: bool)
    requires w != [] && WordOk(w, strict)
    ensures WordText(w) != "" && !Blank(WordText(w)[0])
  {
    assert PartOk(w[0], strict);
  }

  lemma RestStarts(es: seq<Entry>, last: string, strict: bool)
    requires LineOk(es, strict, false) && Blanks(last)
    ensures var s := LineText(es, last); s == "" || Blank(s[0])
  {
  }

  lemma {:induction false} LineTokenised(es: seq<Entry>, last: string, capacity: nat, strict: bool, first: bool)
    requires LineOk(es, strict, first) && Blanks(last) && |es| <= capacity
    ensures Tokenise(LineText(es, last), capacity, strict) == Good(LineMeaning(es))
    decreases |es|
  {
    hide Lex, WordOk, WordText, WordMeaning;
    if es == [] {
      SkipGap(last, "");
      assert last + "" == last;
    } else {
      var w, rest := es[0].word, LineText(es[1..], last);
      var s := WordText(w) + rest;
      assert LineText(es, last) == es[0].gap + s;
      SkipGap(es[0].gap, s);
      WordStarts(w, strict);
      assert s[0] == WordText(w)[0] && SkipBlanks(s) == s;
      RestStarts(es[1..], last, strict);
      LexWord(w, rest, strict);
      LineTokenised(es[1..], last, capacity - 1, strict, false);
    }
  }

  // ---------- nothing else is ----------

  /** s is the rest of a word, from inside a span or outside, as the grammar has it, and l what is
      read. */
  ghost predicate Reads(s: string, quote: Quote, strict: bool, l: Lexed, gs: seq<Glyph>, w: seq<Part>)
  {
    && l.Word? && WordOk(w, strict) && (l.rest == "" || Blank(l.rest[0]))
    && match quote
       case Plain => s == WordText(w) + l.rest && l.text == WordMeaning(w)
       case Inside(mark) =>
         && SpanOk(gs, mark) && s == GlyphsText(gs) + [mark] + (WordText(w) + l.rest)
         && l.text == Chars(gs) + WordMeaning(w)
  }

  lemma {:induction false} LexWritten(s: string, quote: Quote, strict: bool)
    returns (gs: seq<Glyph>, w: seq<Part>)
    requires quote.Inside? ==> quote.mark == '\'' || quote.mark == '"'
    requires Lex(s, quote, strict).Word?
    ensures Reads(s, quote, strict, Lex(s, quote, strict), gs, w)
    decreases |s|
  {
    hide Lex, Reads;
    LexHead(s, quote, strict);
    gs, w := [], [];
    if s == "" || (!quote.Inside? && s[0] != '\\' && Blank(s[0])) {
      ReadsNothing(s, strict);
    } else if quote.Inside? && s[0] == quote.mark {
      gs, w := LexWritten(s[1..], Quote.Plain, strict);
      gs := ReadsClose(s, quote.mark, strict, Lex(s, quote, strict), gs, w);
    } else if !quote.Inside? && (s[0] == '\'' || s[0] == '"') {
      gs, w := LexWritten(s[1..], Inside(s[0]), strict);
      w := ReadsOpen(s, strict, Lex(s, quote, strict), gs, w);
    } else {
      var g := if s[0] == '\\' then Glyph(s[1], true) else Glyph(s[0], false);
      gs, w := LexWritten(s[|GlyphText(g)|..], quote, strict);
      gs, w := ReadsGlyph(s, quote, strict, g, Lex(s[|GlyphText(g)|..], quote, strict), gs, w);
    }
  }

  lemma ReadsNothing(s: string, strict: bool)
    requires s == "" || Blank(s[0])
    ensures Reads(s, Quote.Plain, strict, Word("", s), [], [])
  {
  }

  lemma ReadsClose(s: string, mark: char, strict: bool, l: Lexed, gs: seq<Glyph>, w: seq<Part>)
    returns (gs': seq<Glyph>)
    requires s != "" && s[0] == mark && Reads(s[1..], Quote.Plain, strict, l, gs, w)
    ensures Reads(s, Inside(mark), strict, l, gs', w)
  {
    hide WordText, WordMeaning, WordOk;
    gs' := [];
    assert s == [mark] + s[1..] && "" + ([mark] + s[1..]) == [mark] + s[1..];
    assert "" + WordMeaning(w) == WordMeaning(w);
  }

  lemma ReadsOpen(s: string, strict: bool, l: Lexed, gs: seq<Glyph>, w: seq<Part>) returns (w': seq<Part>)
    requires s != "" && (s[0] == '\'' || s[0] == '"') && Reads(s[1..], Inside(s[0]), strict, l, gs, w)
    ensures Reads(s, Quote.Plain, strict, l, gs, w')
  {
    hide GlyphsText, Chars, SpanOk, WordText, WordMeaning;
    w' := [Span(s[0], gs)] + w;
    SpanWritten(s[0], gs, w);
    SpanJoined([s[0]], GlyphsText(gs), WordText(w), l.rest);
    assert s == [s[0]] + s[1..];
  }

  /** A span in front, by definition. */
  lemma SpanWritten(mark: char, gs: seq<Glyph>, w: seq<Part>)
    ensures WordText([Span(mark, gs)] + w) == [mark] + GlyphsText(gs) + [mark] + WordText(w)
    ensures WordMeaning([Span(mark, gs)] + w) == Chars(gs) + WordMeaning(w)
  {
    hide GlyphsText, Chars;
    assert ([Span(mark, gs)] + w)[1..] == w;
  }

  lemma SpanJoined(mark: string, inside: string, word: string, rest: string)
    ensures mark + (inside + mark + (word + rest)) == mark + inside + mark + word + rest
  {
  }

  lemma ReadsGlyph(s: string, quote: Quote, strict: bool, g: Glyph, l: Lexed, gs: seq<Glyph>, w: seq<Part>)
    returns (gs': seq<Glyph>, w': seq<Part>)
    requires GlyphText(g) <= s && Reads(s[|GlyphText(g)|..], quote, strict, l, gs, w)
    requires if quote.Inside? then g.slashed || (g.c != quote.mark && g.c != '\\') else BareOk(g, strict)
    ensures Reads(s, quote, strict, Prefix([g.c], l), gs', w')
  {
    hide GlyphText, GlyphsText, Chars, WordText, WordMeaning;
    GlyphWritten(g, gs, w);
    gs', w' := gs, w;
    var n := |GlyphText(g)|;
    assert s == GlyphText(g) + s[n..];
    if quote.Inside? {
      gs' := [g] + gs;
      var t := [quote.mark] + (WordText(w) + l.rest);
      assert GlyphText(g) + (GlyphsText(gs) + t) == (GlyphText(g) + GlyphsText(gs)) + t;
      assert s[n..] == GlyphsText(gs) + t;
      assert [g.c] + (Chars(gs) + WordMeaning(w)) == ([g.c] + Chars(gs)) + WordMeaning(w);
    } else {
      w' := [One(g)] + w;
      assert GlyphText(g) + (WordText(w) + l.rest) == (GlyphText(g) + WordText(w)) + l.rest;
    }
  }

  /** One character in front, by definition. */
  lemma GlyphWritten(g: Glyph, gs: seq<Glyph>, w: seq<Part>)
    ensures GlyphsText([g] + gs) == GlyphText(g) + GlyphsText(gs) && Chars([g] + gs) == [g.c] + Chars(gs)
    ensures WordText([One(g)] + w) == GlyphText(g) + WordText(w) && WordMeaning([One(g)] + w) == [g.c] + WordMeaning(w)
  {
    assert ([g] + gs)[1..] == gs && ([One(g)] + w)[1..] == w;
  }

  /** The blanks a line begins with. */
  lemma {:induction false} GapWritten(s: string) returns (gap: string)
    ensures Blanks(gap) && s == gap + SkipBlanks(s)
    ensures s != "" && Blank(s[0]) ==> gap != ""
  {
    if s != "" && Blank(s[0]) {
      var rest := GapWritten(s[1..]);
      gap := [s[0]] + rest;
    } else {
      gap := "";
    }
  }

  lemma {:induction false} LineWritten(s: string, capacity: nat, strict: bool, first: bool)
    returns (es: seq<Entry>, last: string)
    requires Tokenise(s, capacity, strict).Good? && (first || s == "" || Blank(s[0]))
    ensures LineOk(es, strict, first) && Blanks(last) && |es| <= capacity
    ensures s == LineText(es, last) && Tokenise(s, capacity, strict) == Good(LineMeaning(es))
    decreases |s|
  {
    hide Lex, WordOk, WordText, WordMeaning, Blanks;
    var gap := GapWritten(s);
    var t := SkipBlanks(s);
    SkipBlanksEnd(s);
    if t == "" {
      es, last := [], s;
      assert gap + "" == gap;
    } else {
      var l := Lex(t, Quote.Plain, strict);
      var gs, w := LexWritten(t, Quote.Plain, strict);
      if w == [] { WordNothing(l.rest); }
      var more, end := LineWritten(l.rest, capacity - 1, strict, false);
      es, last := [Entry(gap, w)] + more, end;
      assert es[1..] == more;
      assert s == gap + (WordText(w) + LineText(more, end)) == gap + WordText(w) + LineText(more, end);
    }
  }

  lemma WordNothing(rest: string)
    ensures WordText([]) + rest == rest
  {
  }

  /** A line is accepted if and only if it is a line of the grammar with at most as many words as
      there is room for, and its words are what the grammar says. */
  lemma TokeniseIff(s: string, capacity: nat, strict: bool, ws: seq<string>)
    ensures Tokenise(s, capacity, strict) == Good(ws) <==>
              exists es, last ::
                && LineOk(es, strict, true) && Blanks(last) && |es| <= capacity
                && s == LineText(es, last) && ws == LineMeaning(es)
  {
    hide Tokenise, LineOk, LineText, LineMeaning, Blanks;
    if Tokenise(s, capacity, strict) == Good(ws) {
      var es, last := LineWritten(s, capacity, strict, true);
    }
    if es, last :| && LineOk(es, strict, true) && Blanks(last) && |es| <= capacity
                   && s == LineText(es, last) && ws == LineMeaning(es)
    {
      LineTokenised(es, last, capacity, strict, true);
    }
  }
}
