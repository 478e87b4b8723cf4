/** Which names an archive may have, by their components, and which records are refused. */
module InitrdNames {
  import opened Bytes
  import opened PathSpec
  import opened Paths
  import opened InitrdSpec

  /** What stands between the slashes. */
  function Components(s: string): (cs: seq<string>)
    ensures cs != []
    decreases |s|
  {
    var n := NameEnd(s);
    if n == |s| then [s] else [s[..n]] + Components(s[n + 1..])
  }

  /** No component is "..", none holds a NUL, and none is empty but the first and the last. */
  predicate OkParts(cs: seq<string>)
  {
    forall k | 0 <= k < |cs| :: '\0' !in cs[k] && cs[k] != ".." && (0 < k < |cs| - 1 ==> cs[k] != "")
  }

  /** Any number of "./". */
  function Dots(k: nat): string
  {
    if k == 0 then "" else "./" + Dots(k - 1)
  }

  function Slashes(m: nat): string
  {
    if m == 0 then "" else "/" + Slashes(m - 1)
  }

  ghost predicate Bad(s: string)
  {
    exists i | 0 <= i < |s| :: BadAt(s, i)
  }

  /** Behind a slash nothing changes. */
  lemma BadBehind(s: string, n: nat, j: nat)
    requires n < |s| && s[n] == '/' && j < |s| - n - 1
    ensures BadAt(s, n + 1 + j) <==> BadAt(s[n + 1..], j)
  {
    var rest := s[n + 1..];
    assert forall i | 0 <= i < |rest| :: rest[i] == s[n + 1 + i];
  }

  /** What is wrong in the first component, and at the slash that ends it. */
  lemma BadBefore(s: string)
    ensures var n := NameEnd(s);
            && ((exists i | 0 <= i < n :: BadAt(s, i)) <==> '\0' in s[..n] || s[..n] == "..")
            && (n < |s| ==> (BadAt(s, n) <==> n + 1 < |s| && s[n + 1] == '/'))
  {
    var n := NameEnd(s);
    assert forall i | 0 <= i < n :: s[..n][i] == s[i];
    if '\0' in s[..n] {
      var i :| 0 <= i < n && s[..n][i] == '\0';
      assert BadAt(s, i);
    }
    if s[..n] == ".." {
      assert s[0] == s[..n][0] && s[1] == s[..n][1];
      assert BadAt(s, 0);
    }
    if i :| 0 <= i < n && BadAt(s, i) {
      if s[i] != '\0' { assert i == 0 && n == 2 && s[..n] == [s[0], s[1]]; }
    }
  }

  ghost predicate BadFirst(s: string)
  {
    exists i | 0 <= i < NameEnd(s) :: BadAt(s, i)
  }

  lemma BadParts(s: string)
    ensures NameEnd(s) == |s| ==> (Bad(s) <==> BadFirst(s))
    ensures NameEnd(s) < |s| ==>
              (Bad(s) <==> BadFirst(s) || BadAt(s, NameEnd(s)) || Bad(s[NameEnd(s) + 1..]))
  {
    hide BadAt, NameEnd;
    var n := NameEnd(s);
    if n < |s| {
      var rest := s[n + 1..];
      if Bad(s) {
        var i :| 0 <= i < |s| && BadAt(s, i);
        if i > n { BadBehind(s, n, i - n - 1); }
      }
      if Bad(rest) {
        var j :| 0 <= j < |rest| && BadAt(rest, j);
        BadBehind(s, n, j);
      }
    }
  }

  lemma FirstParts(s: string)
    ensures var n := NameEnd(s);
            && (BadFirst(s) <==> '\0' in s[..n] || s[..n] == "..")
            && (n < |s| ==> (BadAt(s, n) <==> n + 1 < |s| && s[n + 1] == '/'))
  {
    hide BadAt, NameEnd;
    BadBefore(s);
  }

  lemma {:induction false} ComponentsStep(s: string)
    ensures var n := NameEnd(s);
            Components(s) == if n == |s| then [s] else [s[..n]] + Components(s[n + 1..])
  {
    hide NameEnd;
  }

  lemma {:induction false} BadIff(s: string)
    ensures Bad(s) <==> !OkParts(Components(s))
    decreases |s|
  {
    hide BadAt, Bad, BadFirst, OkParts, Components, NameEnd;
    var n := NameEnd(s);
    BadParts(s);
    FirstParts(s);
    ComponentsStep(s);
    if n == |s| {
      assert s[..n] == s;
      PartOne(s);
    } else {
      var rest := s[n + 1..];
      BadIff(rest);
      PartsCons(s[..n], Components(rest));
      RestEmpty(rest);
      if rest != "" { assert rest[0] == s[n + 1]; }
    }
  }

  lemma PartOne(c: string)
    ensures OkParts([c]) <==> '\0' !in c && c != ".."
  {
    assert [c][0] == c;
  }

  lemma PartsCons(c: string, cs: seq<string>)
    requires cs != []
    ensures OkParts([c] + cs) <==>
              '\0' !in c && c != ".." && OkParts(cs) && (|cs| > 1 ==> cs[0] != "")
  {
    var all := [c] + cs;
    assert forall k | 0 <= k < |cs| :: all[k + 1] == cs[k];
    if OkParts(all) {
      assert all[0] == c && (|cs| > 1 ==> all[1] != "");
      forall k | 0 <= k < |cs| ensures '\0' !in cs[k] && cs[k] != ".." && (0 < k < |cs| - 1 ==> cs[k] != "") {
        assert all[k + 1] == cs[k];
      }
    }
  }

  lemma RestEmpty(rest: string)
    ensures |Components(rest)| > 1 && Components(rest)[0] == "" <==> rest != "" && rest[0] == '/'
  {
    var n := NameEnd(rest);
    if n < |rest| { assert Components(rest)[0] == rest[..n]; }
  }

  lemma {:induction false} DotsOff(k: nat, t: string)
    requires !("./" <= t)
    ensures StripDots(Dots(k) + t) == t
  {
    if k == 0 {
      assert Dots(0) + t == t;
      if |t| >= 2 { assert t[..2] == [t[0], t[1]]; }
    } else {
      DotsOff(k - 1, t);
      var u := Dots(k - 1) + t;
      assert Dots(k) + t == "./" + u && ("./" + u)[2..] == u;
    }
  }

  lemma Stripped(k: nat, m: nat, s: string)
    requires (s == "" || s[0] != '/') && (m == 0 ==> !("./" <= s))
    ensures StripDots(Dots(k) + Slashes(m) + s) == Slashes(m) + s
    ensures StripSlashes(Slashes(m) + s) == s
  {
    hide StripDots, StripSlashes, Dots;
    var t := Slashes(m) + s;
    if m == 0 { assert t == s; } else { assert t[0] == '/'; }
    assert Dots(k) + Slashes(m) + s == Dots(k) + t;
    DotsOff(k, t);
    SlashesOff(m, s);
  }

  lemma {:induction false} SlashesOff(m: nat, s: string)
    requires s == "" || s[0] != '/'
    ensures StripSlashes(Slashes(m) + s) == s
  {
    if m == 0 {
      assert Slashes(0) + s == s;
    } else {
      SlashesOff(m - 1, s);
      assert (Slashes(m) + s)[1..] == Slashes(m - 1) + s;
    }
  }

  /** Every name is some "./", some "/", and the rest. */
  lemma {:induction false} NameSplit(name: string) returns (k: nat, m: nat, s: string)
    ensures (s == "" || s[0] != '/') && (m == 0 ==> !("./" <= s))
    ensures name == Dots(k) + Slashes(m) + s
    decreases |name|
  {
    if |name| >= 2 && name[0] == '.' && name[1] == '/' {
      k, m, s := NameSplit(name[2..]);
      k := k + 1;
      assert name == "./" + name[2..];
    } else {
      m, s := SlashSplit(name);
      k := 0;
      assert Dots(0) + Slashes(m) + s == Slashes(m) + s;
      if m == 0 { assert Slashes(0) + s == s; }
    }
  }

  lemma {:induction false} SlashSplit(name: string) returns (m: nat, s: string)
    ensures (s == "" || s[0] != '/') && name == Slashes(m) + s
    decreases |name|
  {
    if name != "" && name[0] == '/' {
      m, s := SlashSplit(name[1..]);
      m := m + 1;
      assert name == "/" + name[1..];
    } else {
      m, s := 0, name;
    }
  }

  /** The path of a name: what follows its leading "./" and "/", unless that is nothing or ".", or
      has a component "..", a NUL, or an empty component before its end. */
  lemma CanonicalIff(k: nat, m: nat, s: string)
    requires (s == "" || s[0] != '/') && (m == 0 ==> !("./" <= s))
    ensures CanonicalPath(Dots(k) + Slashes(m) + s) ==
            if s != "" && s != "." && OkParts(Components(s)) then Some("/" + s) else None
  {
    hide BadAt, OkParts, Components;
    Stripped(k, m, s);
    BadIff(s);
  }

  // ---------- records ----------

  predicate HexText(s: string)
  {
    forall i | 0 <= i < |s| :: '0' <= s[i] <= '9' || 'a' <= s[i] <= 'f' || 'A' <= s[i] <= 'F'
  }

  lemma {:induction false} HexIff(s: string)
    ensures HexValue(s).Some? <==> HexText(s)
  {
    if s != "" {
      var front := s[..|s| - 1];
      HexIff(front);
      assert forall i | 0 <= i < |front| :: front[i] == s[i];
    }
  }

  predicate HexField(data: string, offset: nat, at: nat)
    requires offset + HEADER <= |data| && at + 8 <= HEADER
  {
    HexText(data[offset + at..offset + at + 8])
  }

  /** The header is of either magic number with hexadecimal fields, and name and contents are inside
      the archive, the name with its NUL. */
  predicate Sound(data: string, offset: nat)
    requires offset + HEADER <= |data|
  {
    && (data[offset..offset + 6] == "070701" || data[offset..offset + 6] == "070702")
    && HexField(data, offset, 14) && HexField(data, offset, 22) && HexField(data, offset, 30)
    && HexField(data, offset, 54) && HexField(data, offset, 94)
    && Field(data, offset, 54).Some? && Field(data, offset, 94).Some?
    && var end := offset + HEADER + Field(data, offset, 94).value;
       && offset + HEADER < end <= |data| && data[end - 1] == '\0'
       && Align4(end) + Field(data, offset, 54).value <= |data|
  }

  /** A record is taken exactly if it is sound and is the trailer, the root directory, or a file or
      directory of a legal name. */
  lemma RecordIff(data: string, offset: nat)
    requires offset + HEADER <= |data|
    ensures ParseRecord(data, offset) != Fail <==>
              && Sound(data, offset)
              && var name := data[offset + HEADER..offset + HEADER + Field(data, offset, 94).value];
                 || CString(name) == "TRAILER!!!" || CString(name) == "."
                 || (&& CanonicalPath(name[..|name| - 1]).Some? && Field(data, offset, 14).Some?
                     && Field(data, offset, 14).value / 0x1000 % 0x10 in {0x8, 0x4})
  {
    hide HexValue, CanonicalPath, HexText, Align4;
    HexIff(data[offset + 14..offset + 22]);
    HexIff(data[offset + 22..offset + 30]);
    HexIff(data[offset + 30..offset + 38]);
    HexIff(data[offset + 54..offset + 62]);
    HexIff(data[offset + 94..offset + 102]);
  }

  /** The format with checksums is read as the one without. */
  lemma ChecksumFormat(data: string, offset: nat)
    requires offset + HEADER <= |data| && data[offset..offset + 6] == "070701"
    ensures ParseRecord(data[offset + 5 := '2'], offset) == ParseRecord(data, offset)
  {
    hide HexValue, CanonicalPath, ParseNamed, Align4;
    var other := data[offset + 5 := '2'];
    var w := data[offset..offset + 6];
    assert other[offset..offset + 6] == w[5 := '2'] == "070702";
    forall i: nat, j: nat | offset + 6 <= i <= j <= |data| ensures other[i..j] == data[i..j] {}
    assert Field(other, offset, 14) == Field(data, offset, 14) && Field(other, offset, 22) == Field(data, offset, 22);
    assert Field(other, offset, 30) == Field(data, offset, 30) && Field(other, offset, 54) == Field(data, offset, 54);
    assert Field(other, offset, 94) == Field(data, offset, 94);
  }
}
