/** Writing an archive in the "New ASCII" cpio format, and reading it back. */
module InitrdWriter {
  import opened Bytes
  import opened Paths
  import opened InitrdSpec

  const TRAILER := "TRAILER!!!"

  /** The header fields the reader ignores. */
  datatype Others = Others(
    ino: nat, links: nat, mtime: nat, devMajor: nat, devMinor: nat, rdevMajor: nat, rdevMinor: nat, check: nat)

  datatype File = File(name: string, content: string, mode: nat, uid: nat, gid: nat, others: Others)

  // ---------- header fields ----------

  function DigitChar(d: nat, upper: bool): char
    requires d < 16
  {
    if d < 10 then ('0' as nat + d) as char
    else if upper then ('A' as nat + d - 10) as char else ('a' as nat + d - 10) as char
  }

  function Hex(n: nat, count: nat, upper: bool): (s: string)
    ensures |s| == count
    decreases count
  {
    if count == 0 then "" else Hex(n / 16, count - 1, upper) + [DigitChar(n % 16, upper)]
  }

  lemma {:induction false} HexBack(n: nat, count: nat, upper: bool)
    requires n < Power16(count)
    ensures HexValue(Hex(n, count, upper)) == Some(n)
    decreases count
  {
    if count > 0 {
      HexBack(n / 16, count - 1, upper);
      var s := Hex(n, count, upper);
      assert s[..count - 1] == Hex(n / 16, count - 1, upper) && HexDigit(s[count - 1] as int) == Some(n % 16);
    }
  }

  predicate Fits(n: nat)
  {
    n < U32_LIMIT
  }

  lemma HexFieldBack(n: nat, upper: bool)
    requires Fits(n)
    ensures HexValue(Hex(n, 8, upper)) == Some(n)
  {
    assert Power16(4) == 0x1_0000 && Power16(8) == 0x1_0000_0000 by {
      assert Power16(2) == 0x100 && Power16(6) == 0x100_0000;
    }
    HexBack(n, 8, upper);
  }

  /** Eight digits for each number. */
  function Fields(ns: seq<nat>, upper: bool): (s: string)
    ensures |s| == 8 * |ns|
  {
    if ns == [] then "" else Hex(ns[0], 8, upper) + Fields(ns[1..], upper)
  }

  lemma {:induction false} FieldAt(ns: seq<nat>, i: nat, upper: bool)
    requires i < |ns|
    ensures Fields(ns, upper)[8 * i..8 * i + 8] == Hex(ns[i], 8, upper)
  {
    hide Hex;
    if i > 0 {
      FieldAt(ns[1..], i - 1, upper);
      var rest := Fields(ns[1..], upper);
      assert Fields(ns, upper)[8 * i..8 * i + 8] == rest[8 * (i - 1)..8 * (i - 1) + 8];
    }
  }

  // ---------- records ----------

  function Numbers(f: File): (ns: seq<nat>)
    ensures |ns| == 13
  {
    var o := f.others;
    [o.ino, f.mode, f.uid, f.gid, o.links, o.mtime, |f.content|,
     o.devMajor, o.devMinor, o.rdevMajor, o.rdevMinor, |f.name| + 1, o.check]
  }

  function Header(f: File, upper: bool): (s: string)
    ensures |s| == HEADER
  {
    "070701" + Fields(Numbers(f), upper)
  }

  /** NULs up to a multiple of four. */
  function Pad(n: nat): (s: string)
    ensures |s| == Align4(n) - n
  {
    seq(Align4(n) - n, i => '\0')
  }

  function DataStart(f: File): nat
  {
    Align4(HEADER + |f.name| + 1)
  }

  function Record(f: File, upper: bool): (s: string)
    ensures |s| == RecordLength(f)
  {
    Header(f, upper) + (f.name + ['\0'] + (Pad(HEADER + |f.name| + 1) + (f.content + Pad(|f.content|))))
  }

  function RecordLength(f: File): (n: nat)
    ensures n % 4 == 0
  {
    DataStart(f) + Align4(|f.content|)
  }

  function KindOf(mode: nat): nat
  {
    mode / 0x1000 % 0x10 * 0x1000
  }

  predicate NumbersFit(f: File)
  {
    Fits(f.mode) && Fits(f.uid) && Fits(f.gid) && Fits(|f.content|) && Fits(|f.name| + 1)
  }

  /** A record that the format allows and the reader is meant to take. */
  predicate Legal(f: File)
  {
    && NumbersFit(f) && '\0' !in f.name && f.name != TRAILER
    && (f.name != "." ==> CanonicalPath(f.name).Some? && KindOf(f.mode) in {FILE_KIND, DIRECTORY_KIND})
  }

  predicate AllLegal(files: seq<File>)
  {
    files != [] ==> Legal(files[0]) && AllLegal(files[1..])
  }

  function EntryOf(f: File, offset: nat): Entry
  {
    var path := CanonicalPath(f.name);
    Entry(if path.Some? then path.value else "", offset + DataStart(f), |f.content|,
          KindOf(f.mode) == DIRECTORY_KIND, f.mode, f.uid, f.gid)
  }

  /** The string stands at this offset. */
  ghost predicate Stands(data: string, offset: nat, s: string)
  {
    offset + |s| <= |data| && data[offset..offset + |s|] == s
  }

  lemma StandsSplit(data: string, offset: nat, a: string, b: string)
    requires Stands(data, offset, a + b)
    ensures Stands(data, offset, a) && Stands(data, offset + |a|, b)
  {
    var s := data[offset..offset + |a + b|];
    assert a == s[..|a|] == data[offset..offset + |a|];
    assert b == s[|a|..] == data[offset + |a|..offset + |a| + |b|];
  }

  lemma RecordStands(data: string, offset: nat, f: File, upper: bool)
    requires Stands(data, offset, Record(f, upper))
    ensures Stands(data, offset, Header(f, upper)) && Stands(data, offset + HEADER, f.name + ['\0'])
    ensures Stands(data, offset + DataStart(f), f.content)
  {
    hide Header, Pad, Stands;
    var h, n, p, q := Header(f, upper), f.name + ['\0'], Pad(HEADER + |f.name| + 1), Pad(|f.content|);
    StandsSplit(data, offset, h, n + (p + (f.content + q)));
    StandsSplit(data, offset + HEADER, n, p + (f.content + q));
    StandsSplit(data, offset + HEADER + |n|, p, f.content + q);
    StandsSplit(data, offset + DataStart(f), f.content, q);
  }

  lemma FieldStands(data: string, offset: nat, f: File, upper: bool, i: nat)
    requires Stands(data, offset, Header(f, upper)) && i < 13 && Fits(Numbers(f)[i])
    ensures Field(data, offset, 6 + 8 * i) == Some(Numbers(f)[i])
  {
    hide Hex, Fields, HexValue, Numbers;
    FieldAt(Numbers(f), i, upper);
    HexFieldBack(Numbers(f)[i], upper);
    var fs := Fields(Numbers(f), upper);
    StandsSplit(data, offset, "070701", fs);
    var k := 8 * i;
    assert |fs| == 104 && k + 8 <= |fs|;
    var at := offset + |"070701"|;
    assert data[at..at + |fs|] == fs;
    SliceOfSlice(data, at, |fs|, k, 8);
  }

  lemma SliceOfSlice(s: string, at: nat, n: nat, k: nat, m: nat)
    requires at + n <= |s| && k + m <= n
    ensures s[at..at + n][k..k + m] == s[at + k..at + k + m]
  {
    var t := s[at..at + n];
    var a, b := t[k..k + m], s[at + k..at + k + m];
    assert forall i | 0 <= i < m :: a[i] == b[i];
    assert a == b;
  }

  lemma AlignShift(offset: nat, n: nat)
    requires offset % 4 == 0
    ensures Align4(offset + n) == offset + Align4(n)
  {
  }

  lemma HeaderFields(data: string, offset: nat, f: File, upper: bool)
    requires Stands(data, offset, Header(f, upper)) && NumbersFit(f)
    ensures data[offset..offset + 6] == "070701"
    ensures Field(data, offset, 14) == Some(f.mode) && Field(data, offset, 22) == Some(f.uid)
    ensures Field(data, offset, 30) == Some(f.gid) && Field(data, offset, 54) == Some(|f.content|)
    ensures Field(data, offset, 94) == Some(|f.name| + 1)
  {
    hide Fields, Field;
    StandsSplit(data, offset, "070701", Fields(Numbers(f), upper));
    FieldStands(data, offset, f, upper, 1);
    FieldStands(data, offset, f, upper, 2);
    FieldStands(data, offset, f, upper, 3);
    FieldStands(data, offset, f, upper, 6);
    FieldStands(data, offset, f, upper, 11);
  }

  /** The reader understands a record that stands at an aligned offset. */
  lemma RecordParses(data: string, offset: nat, f: File, upper: bool)
    requires offset % 4 == 0 && Stands(data, offset, Record(f, upper)) && NumbersFit(f)
    ensures ParseRecord(data, offset) ==
            ParseNamed(f.name + ['\0'], offset + DataStart(f), |f.content|, f.mode, f.uid, f.gid)
    ensures Align4(offset + DataStart(f) + |f.content|) == offset + RecordLength(f)
  {
    hide Record, Header, Field, ParseNamed, Align4;
    RecordStands(data, offset, f, upper);
    HeaderFields(data, offset, f, upper);
    AlignShift(offset, HEADER + |f.name| + 1);
    AlignShift(offset + DataStart(f), |f.content|);
  }

  lemma LegalParses(data: string, offset: nat, f: File, upper: bool)
    requires offset % 4 == 0 && Legal(f) && Stands(data, offset, Record(f, upper))
    ensures var next := offset + RecordLength(f);
            ParseRecord(data, offset) == if f.name == "." then Skip(next) else Add(EntryOf(f, offset), next)
  {
    hide Record, CanonicalPath, ParseRecord, RecordLength, Align4;
    RecordParses(data, offset, f, upper);
    NameBack(f.name);
  }

  lemma NameBack(name: string)
    requires '\0' !in name
    ensures CString(name + ['\0']) == name && (name + ['\0'])[..|name|] == name
  {
    CStringConcat(name, ['\0']);
  }

  // ---------- archives ----------

  const TrailerFile := File(TRAILER, "", 0, 0, 0, Others(0, 1, 0, 0, 0, 0, 0, 0))

  /** The archive of some files; anything may follow the trailer. */
  function Archive(files: seq<File>, upper: bool, junk: string): string
  {
    if files == [] then Record(TrailerFile, upper) + junk
    else Record(files[0], upper) + Archive(files[1..], upper, junk)
  }

  /** The entries the files should get, the first record being at this offset. */
  function Entries(files: seq<File>, offset: nat): seq<Entry>
  {
    if files == [] then []
    else
      var rest := Entries(files[1..], offset + RecordLength(files[0]));
      if files[0].name == "." then rest else [EntryOf(files[0], offset)] + rest
  }

  /** Reading on from the records that are left. */
  lemma {:induction false} RecordsParse(
    data: string, offset: nat, files: seq<File>, upper: bool, entries: seq<Entry>, junk: string)
    requires AllLegal(files) && offset % 4 == 0 && Stands(data, offset, Archive(files, upper, junk))
    requires Distinct(entries + Entries(files, offset)) && |entries + Entries(files, offset)| <= MAX_ENTRIES
    ensures Parse(data, offset, entries) == Some(entries + Entries(files, offset))
    decreases |files|
  {
    hide Record, RecordLength, ParseRecord, EntryOf, Legal;
    if files == [] {
      TrailerParses(data, offset, upper, junk);
      assert entries + [] == entries;
    } else {
      var f := files[0];
      var next, rest := offset + RecordLength(f), Archive(files[1..], upper, junk);
      StandsSplit(data, offset, Record(f, upper), rest);
      LegalParses(data, offset, f, upper);
      RecordFits(data, offset, f, upper);
      var more := Entries(files[1..], next);
      if f.name == "." {
        RecordsParse(data, next, files[1..], upper, entries, junk);
      } else {
        var e := EntryOf(f, offset);
        assert entries + ([e] + more) == entries + [e] + more;
        NewPath(entries, e, more);
        RecordsParse(data, next, files[1..], upper, entries + [e], junk);
      }
    }
  }

  lemma RecordFits(data: string, offset: nat, f: File, upper: bool)
    requires Stands(data, offset, Record(f, upper))
    ensures offset + HEADER <= |data|
  {
  }

  lemma NewPath(entries: seq<Entry>, e: Entry, rest: seq<Entry>)
    requires Distinct(entries + [e] + rest)
    ensures !HasPath(entries, e.path)
  {
    var all := entries + [e] + rest;
    assert all[|entries|] == e;
    assert forall i | 0 <= i < |entries| :: all[i] == entries[i];
  }

  lemma TrailerParses(data: string, offset: nat, upper: bool, junk: string)
    requires offset % 4 == 0 && Stands(data, offset, Archive([], upper, junk))
    ensures offset + HEADER <= |data| && ParseRecord(data, offset) == Stop
  {
    hide Record, ParseRecord;
    StandsSplit(data, offset, Record(TrailerFile, upper), junk);
    RecordParses(data, offset, TrailerFile, upper);
    RecordFits(data, offset, TrailerFile, upper);
    NameBack(TRAILER);
  }

  /** Whatever is archived under legal, distinct names is what the reader returns after the
      root, in order. */
  lemma ArchiveBack(files: seq<File>, upper: bool, junk: string)
    requires AllLegal(files)
    requires Distinct([Root] + Entries(files, 0)) && |Entries(files, 0)| < MAX_ENTRIES
    ensures Parse(Archive(files, upper, junk), 0, [Root]) == Some([Root] + Entries(files, 0))
  {
    hide Archive, Parse;
    var data := Archive(files, upper, junk);
    assert data[0..|data|] == data;
    RecordsParse(data, 0, files, upper, [Root], junk);
  }

  /** The files that get an entry. */
  function Kept(files: seq<File>): seq<File>
  {
    if files == [] then []
    else if files[0].name == "." then Kept(files[1..]) else [files[0]] + Kept(files[1..])
  }

  /** An entry of a file at an offset differs only in where its data stand. */
  predicate Describes(e: Entry, f: File)
  {
    e == EntryOf(f, 0).(offset := e.offset)
  }

  lemma FirstDescribed(data: string, offset: nat, f: File, upper: bool)
    requires Stands(data, offset, Record(f, upper))
    ensures Describes(EntryOf(f, offset), f) && Stands(data, EntryOf(f, offset).offset, f.content)
  {
    hide Record, CanonicalPath, DataStart;
    RecordStands(data, offset, f, upper);
  }

  /** The entries carry the files' names, kinds, owners and data, one for one. */
  lemma {:induction false} EntriesDescribe(
    data: string, offset: nat, files: seq<File>, upper: bool, junk: string, k: nat)
    requires Stands(data, offset, Archive(files, upper, junk)) && k < |Kept(files)|
    ensures |Entries(files, offset)| == |Kept(files)|
    ensures var f, e := Kept(files)[k], Entries(files, offset)[k]; Describes(e, f) && Stands(data, e.offset, f.content)
    decreases |files|
  {
    hide Record, RecordLength, EntryOf, Describes, Stands;
    var f := files[0];
    var next := offset + RecordLength(f);
    StandsSplit(data, offset, Record(f, upper), Archive(files[1..], upper, junk));
    EntriesLength(files[1..], next);
    if f.name == "." {
      EntriesDescribe(data, next, files[1..], upper, junk, k);
    } else if k > 0 {
      EntriesDescribe(data, next, files[1..], upper, junk, k - 1);
    } else {
      FirstDescribed(data, offset, f, upper);
    }
  }

  lemma {:induction false} EntriesLength(files: seq<File>, offset: nat)
    ensures |Entries(files, offset)| == |Kept(files)|
    decreases |files|
  {
    if files != [] { EntriesLength(files[1..], offset + RecordLength(files[0])); }
  }
}
