/** facet_initrd_create and the helpers it loops with. */
module Initrd {
  import opened Bytes
  import opened Paths
  import opened InitrdSpec

  datatype Loading = Loaded(entries: seq<Entry>) | Rejected | OutOfMemory

  /** hex_field */
  method HexField(text: string) returns (r: Option<nat>)
    ensures r == HexValue(text)
  {
    var value := 0;
    assert text[..0] == "";
    for i := 0 to |text|
      invariant HexValue(text[..i]) == Some(value)
    {
      var c := text[i];
      var digit;
      assert text[..i + 1][..i] == text[..i];
      if '0' <= c <= '9' { digit := c as nat - '0' as nat; }
      else if 'a' <= c <= 'f' { digit := c as nat - 'a' as nat + 10; }
      else if 'A' <= c <= 'F' { digit := c as nat - 'A' as nat + 10; }
      else {
        BadPrefix(text, i + 1);
        return None;
      }
      value := value * 16 + digit;
    }
    assert text[..|text|] == text;
    r := Some(value);
  }

  lemma {:induction false} BadPrefix(text: string, n: nat)
    requires n <= |text| && HexValue(text[..n]).None?
    ensures HexValue(text).None?
    decreases |text| - n
  {
    if n < |text| {
      assert text[..n + 1][..n] == text[..n];
      BadPrefix(text, n + 1);
    } else {
      assert text[..n] == text;
    }
  }

  /** canonical_path, when there is memory for it. */
  method MakePath(name: string) returns (r: Option<string>)
    ensures r == CanonicalPath(name)
  {
    var s := name;
    while |s| >= 2 && s[0] == '.' && s[1] == '/'
      invariant StripDots(s) == StripDots(name)
    {
      s := s[2..];
    }
    while s != "" && s[0] == '/'
      invariant StripSlashes(s) == StripSlashes(StripDots(name))
      decreases |s|
    {
      s := s[1..];
    }
    if s == "" || s == "." { return None; }
    for i := 0 to |s|
      invariant forall j | 0 <= j < i :: !BadAt(s, j)
    {
      if || s[i] == '\0' || (s[i] == '/' && i + 1 < |s| && s[i + 1] == '/')
         || (s[i] == '.' && i + 1 < |s| && s[i + 1] == '.' && (i == 0 || s[i - 1] == '/')
             && (i + 2 == |s| || s[i + 2] == '/'))
      {
        assert BadAt(s, i);
        return None;
      }
    }
    r := Some("/" + s);
  }

  method FindPath(entries: seq<Entry>, path: string) returns (found: bool)
    ensures found <==> HasPath(entries, path)
  {
    for i := 0 to |entries|
      invariant forall j | 0 <= j < i :: entries[j].path != path
    {
      if path == entries[i].path { return true; }
    }
    found := false;
  }

  /** Reads one header, name and data range. */
  method ReadRecord(data: string, offset: nat) returns (step: Step)
    requires offset + HEADER <= |data|
    ensures step == ParseRecord(data, offset)
  {
    hide HexValue, CString, CanonicalPath;
    var magic := data[offset..offset + 6];
    if magic != "070701" && magic != "070702" { return Fail; }
    var mode := HexField(data[offset + 14..offset + 22]);
    var uid := HexField(data[offset + 22..offset + 30]);
    var gid := HexField(data[offset + 30..offset + 38]);
    var size := HexField(data[offset + 54..offset + 62]);
    var nameSize := HexField(data[offset + 94..offset + 102]);
    if mode.None? || uid.None? || gid.None? || size.None? || nameSize.None? || nameSize.value == 0 { return Fail; }
    var nameOffset := offset + HEADER;
    if nameOffset > |data| || nameSize.value > |data| - nameOffset { return Fail; }
    var name := data[nameOffset..nameOffset + nameSize.value];
    if name[nameSize.value - 1] != '\0' { return Fail; }
    var dataOffset := Align4(nameOffset + nameSize.value);
    if dataOffset > |data| || size.value > |data| - dataOffset { return Fail; }
    if CString(name) == "TRAILER!!!" { return Stop; }
    if CString(name) == "." { return Skip(Align4(dataOffset + size.value)); }
    var kind := mode.value / 0x1000 % 0x10 * 0x1000;
    if kind != FILE_KIND && kind != DIRECTORY_KIND { return Fail; }
    var path := MakePath(name[..nameSize.value - 1]);
    if path.None? { return Fail; }
    step := Add(Entry(path.value, dataOffset, size.value, kind == DIRECTORY_KIND, mode.value, uid.value, gid.value),
                Align4(dataOffset + size.value));
  }

  /** facet_initrd_create; growing the entry array may fail. */
  method Create(data: string) returns (r: Loading)
    ensures r.Loaded? ==> |data| >= HEADER && Parse(data, 0, [Root]) == Some(r.entries)
    ensures r.Rejected? ==> |data| < HEADER || Parse(data, 0, [Root]).None?
    ensures r.Loaded? ==> exists end :: WellFormed(data, r.entries, end)
  {
    hide ParseRecord, HasPath;
    if |data| < HEADER { return Rejected; }
    ArchiveWellFormed(data);
    var entries := [Root];
    var offset: nat := 0;
    while offset + HEADER <= |data|
      invariant Parse(data, 0, [Root]) == Parse(data, offset, entries)
      decreases |data| - offset
    {
      var step := ReadRecord(data, offset);
      if step == Fail { return Rejected; }
      if step == Stop { return Loaded(entries); }
      if step.Add? {
        if |entries| == MAX_ENTRIES { return Rejected; }
        var found := FindPath(entries, step.entry.path);
        if found { return Rejected; }
        var granted: bool := *;
        if !granted { return OutOfMemory; }
        entries := entries + [step.entry];
      }
      offset := step.next;
    }
    r := Loaded(entries);
  }
}
