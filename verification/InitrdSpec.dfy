/** The "New ASCII" cpio archive as the initrd reads it. An archive is a string whose characters
    are its bytes. */
module InitrdSpec {
  import opened Bytes
  import opened PathSpec
  import opened Paths

  const HEADER := 110
  const MAX_ENTRIES := 1024
  const FILE_KIND: nat := 0x8000        // 0100000
  const DIRECTORY_KIND: nat := 0x4000   // 0040000
  const ROOT_MODE: nat := 0x41ed        // 0040755

  datatype Entry = Entry(path: string, offset: nat, size: nat, directory: bool, mode: nat, uid: nat, gid: nat)

  const Root := Entry("/", 0, 0, true, ROOT_MODE, 0, 0)

  function Align4(n: nat): (m: nat)
    ensures n <= m < n + 4 && m % 4 == 0
  {
    (n + 3) / 4 * 4
  }

  // ---------- fields ----------

  function HexValue(s: string): Option<nat>
  {
    if s == "" then Some(0)
    else
      var high, low := HexValue(s[..|s| - 1]), HexDigit(s[|s| - 1] as int);
      if high.None? || low.None? then None else Some(16 * high.value + low.value)
  }

  // ---------- names ----------

  function StripDots(name: string): (r: string)
    ensures |r| <= |name|
  {
    if |name| >= 2 && name[0] == '.' && name[1] == '/' then StripDots(name[2..]) else name
  }

  function StripSlashes(name: string): (r: string)
    ensures |r| <= |name|
  {
    if name != "" && name[0] == '/' then StripSlashes(name[1..]) else name
  }

  /** A NUL, a doubled slash or a ".." component at i. */
  predicate BadAt(name: string, i: nat)
    requires i < |name|
  {
    || name[i] == '\0'
    || (name[i] == '/' && i + 1 < |name| && name[i + 1] == '/')
    || (&& name[i] == '.' && i + 1 < |name| && name[i + 1] == '.'
        && (i == 0 || name[i - 1] == '/') && (i + 2 == |name| || name[i + 2] == '/'))
  }

  /** canonical_path */
  function CanonicalPath(name: string): Option<string>
  {
    var s := StripSlashes(StripDots(name));
    if s == "" || s == "." || exists i | 0 <= i < |s| :: BadAt(s, i) then None else Some("/" + s)
  }

  /** Names joined by slashes, as archivers write them, with or without "./" or "/" in front,
      become the canonical path. */
  lemma CanonicalNames(names: seq<string>)
    requires Names(names) && names != [] && '\0' !in Render(names)
    ensures CanonicalPath(Relative(names)) == Some(Render(names))
    ensures CanonicalPath("./" + Relative(names)) == Some(Render(names))
    ensures CanonicalPath("/" + Relative(names)) == Some(Render(names))
  {
    var s := Relative(names);
    NothingBad(names);
    NameFirst(names);
    assert StripDots(s) == s && StripSlashes(s) == s;
    assert ("./" + s)[2..] == s && ("/" + s)[1..] == s;
    assert StripDots("/" + s) == "/" + s;
    assert Render(names) == "/" + s;
  }

  /** A relative path of names starts with one. */
  lemma NameFirst(names: seq<string>)
    requires Names(names) && names != []
    ensures var s := Relative(names);
            s != "" && s != "." && s[0] != '/' && !(|s| >= 2 && s[0] == '.' && s[1] == '/')
  {
    var name, rest := names[0], Slashed(names[1..]);
    SlashedCons(names);
    SlashFirst(names[1..]);
    var s := Relative(names);
    assert s == name + rest && Name(name);
    assert forall i | 0 <= i < |name| :: s[i] == name[i] && name[i] in name;
    assert |name| == 1 ==> name != ['.'] && s[0] != '.';
  }

  lemma {:induction false} NothingBad(names: seq<string>)
    requires Names(names) && names != [] && '\0' !in Render(names)
    ensures forall i | 0 <= i < |Relative(names)| :: !BadAt(Relative(names), i)
  {
    var s, full := Relative(names), Render(names);
    forall i | 0 <= i < |s|
      ensures !BadAt(s, i)
    {
      assert forall j | 0 <= j < |s| :: s[j] == full[j + 1];
      assert full[i + 1] in full;
      if full[i] == '/' { SlashThenName(names, i); }
      if full[i + 1] == '/' { SlashThenName(names, i + 1); }
    }
  }

  /** What follows position k neither is another slash, nor is "..", nor is missing. */
  predicate NameFollows(s: string, k: nat)
  {
    && k + 1 < |s| && s[k + 1] != '/'
    && !(k + 2 < |s| && s[k + 1] == '.' && s[k + 2] == '.' && (k + 3 == |s| || s[k + 3] == '/'))
  }

  lemma FirstNameFollows(name: string, rest: string)
    requires Name(name) && (rest == "" || rest[0] == '/')
    ensures NameFollows("/" + (name + rest), 0)
  {
    var s := "/" + (name + rest);
    assert s[1] == name[0] && name[0] in name;
    if |name| == 2 {
      assert name == [name[0], name[1]];
    } else if |name| > 2 {
      assert s[3] == name[2] && name[2] in name;
    }
  }

  lemma {:induction false} SlashThenName(names: seq<string>, k: nat)
    requires Names(names) && k < |Slashed(names)| && Slashed(names)[k] == '/'
    ensures NameFollows(Slashed(names), k)
    decreases |names|
  {
    var name, rest := names[0], Slashed(names[1..]);
    SlashedCons(names);
    SlashFirst(names[1..]);
    if k == 0 {
      FirstNameFollows(name, rest);
    } else {
      var s, j := "/" + (name + rest), k - 1 - |name|;
      assert forall i | 0 <= i < |name| :: s[i + 1] == name[i] && name[i] in name;
      assert rest == s[1 + |name|..];
      SlashThenName(names[1..], j);
    }
  }

  // ---------- records ----------

  /** What the record at an offset comes to. */
  datatype Step = Fail | Stop | Skip(next: nat) | Add(entry: Entry, next: nat)

  function Field(data: string, offset: nat, at: nat): Option<nat>
    requires offset + HEADER <= |data| && at + 8 <= HEADER
  {
    HexValue(data[offset + at..offset + at + 8])
  }

  function ParseRecord(data: string, offset: nat): (step: Step)
    requires offset + HEADER <= |data|
    ensures step.Skip? || step.Add? ==> step.next > offset
    ensures step.Add? ==> offset < step.entry.offset && step.entry.offset + step.entry.size <= step.next
    ensures step.Add? ==> step.entry.offset + step.entry.size <= |data|
  {
    var magic := data[offset..offset + 6];
    var mode, uid, gid := Field(data, offset, 14), Field(data, offset, 22), Field(data, offset, 30);
    var size, nameSize := Field(data, offset, 54), Field(data, offset, 94);
    if magic != "070701" && magic != "070702" then Fail
    else if mode.None? || uid.None? || gid.None? || size.None? || nameSize.None? || nameSize.value == 0 then Fail
    else
      var at := offset + HEADER;
      if nameSize.value > |data| - at then Fail
      else
        var name := data[at..at + nameSize.value];
        var start := Align4(at + nameSize.value);
        if name[|name| - 1] != '\0' || start > |data| || size.value > |data| - start then Fail
        else ParseNamed(name, start, size.value, mode.value, uid.value, gid.value)
  }

  function ParseNamed(name: string, start: nat, size: nat, mode: nat, uid: nat, gid: nat): Step
    requires name != ""
  {
    var next := Align4(start + size);
    if CString(name) == "TRAILER!!!" then Stop
    else if CString(name) == "." then Skip(next)
    else
      var kind := mode / 0x1000 % 0x10 * 0x1000;
      var path := CanonicalPath(name[..|name| - 1]);
      if (kind != FILE_KIND && kind != DIRECTORY_KIND) || path.None? then Fail
      else Add(Entry(path.value, start, size, kind == DIRECTORY_KIND, mode, uid, gid), next)
  }

  predicate HasPath(entries: seq<Entry>, path: string)
  {
    exists i | 0 <= i < |entries| :: entries[i].path == path
  }

  /** The entries of the archive from an offset on, after those already read. */
  function Parse(data: string, offset: nat, entries: seq<Entry>): Option<seq<Entry>>
    decreases |data| - offset
  {
    if offset + HEADER > |data| then Some(entries)
    else
      match ParseRecord(data, offset)
      case Fail => None
      case Stop => Some(entries)
      case Skip(next) => Parse(data, next, entries)
      case Add(entry, next) =>
        if |entries| == MAX_ENTRIES || HasPath(entries, entry.path) then None
        else Parse(data, next, entries + [entry])
  }

  // ---------- what an accepted archive gives ----------

  predicate Distinct(entries: seq<Entry>)
  {
    forall i, j | 0 <= i < j < |entries| :: entries[i].path != entries[j].path
  }

  /** Each entry's data lies inside the archive and ends before the next one's begins. */
  predicate Ordered(data: string, entries: seq<Entry>, end: nat)
  {
    && (forall i | 0 <= i < |entries| :: entries[i].offset + entries[i].size <= |data|)
    && (forall i, j | 0 <= i < j < |entries| :: entries[i].offset + entries[i].size <= entries[j].offset)
    && (forall i | 0 <= i < |entries| :: entries[i].offset + entries[i].size <= end)
  }

  predicate WellFormed(data: string, entries: seq<Entry>, end: nat)
  {
    && 0 < |entries| <= MAX_ENTRIES && entries[0] == Root
    && Distinct(entries) && Ordered(data, entries, end)
  }

  /** On any bytes, an accepted archive starts with the root and has pairwise distinct paths and
      data slices in bounds, disjoint and in archive order. */
  lemma {:induction false} ParseWellFormed(data: string, offset: nat, entries: seq<Entry>)
    requires WellFormed(data, entries, offset)
    ensures var r := Parse(data, offset, entries);
            r.Some? ==> entries <= r.value && exists end :: WellFormed(data, r.value, end)
    decreases |data| - offset
  {
    if offset + HEADER <= |data| {
      hide ParseRecord;
      var step := ParseRecord(data, offset);
      match step
      case Fail =>
      case Stop =>
      case Skip(next) =>
        assert WellFormed(data, entries, next);
        ParseWellFormed(data, next, entries);
      case Add(entry, next) =>
        if |entries| < MAX_ENTRIES && !HasPath(entries, entry.path) {
          assert WellFormed(data, entries + [entry], next);
          ParseWellFormed(data, next, entries + [entry]);
        }
    }
  }

  lemma ArchiveWellFormed(data: string)
    ensures Parse(data, 0, [Root]).Some? ==> exists end :: WellFormed(data, Parse(data, 0, [Root]).value, end)
  {
    ParseWellFormed(data, 0, [Root]);
  }
}
