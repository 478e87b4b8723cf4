/** ELF64 files as records: the file header and the program headers written as little-endian
    fields in the order of the format. The loader reads such a file as those records. */
module ElfWriter {
  import opened Bytes
  import opened ElfLoader

  /** The fields behind the 16 bytes of identification, in order. */
  datatype FileHeader = FileHeader(
    ident: seq<byte>, kind: nat, machine: nat, version: nat, entry: nat, phoff: nat, shoff: nat, flags: nat,
    ehsize: nat, phentsize: nat, phnum: nat, shentsize: nat, shnum: nat, shstrndx: nat)

  datatype ProgramHeader = ProgramHeader(
    kind: nat, flags: nat, offset: nat, vaddr: nat, paddr: nat, filesz: nat, memsz: nat, align: nat)

  predicate Half(n: nat)
  {
    n < 0x1_0000
  }

  predicate Word(n: nat)
  {
    n < U32_LIMIT
  }

  predicate Xword(n: nat)
  {
    n < U64_LIMIT
  }

  predicate HeaderFits(h: FileHeader)
  {
    && |h.ident| == 16 && Half(h.kind) && Half(h.machine) && Word(h.version) && Xword(h.entry) && Xword(h.phoff)
    && Xword(h.shoff) && Word(h.flags) && Half(h.ehsize) && Half(h.phentsize) && Half(h.phnum)
    && Half(h.shentsize) && Half(h.shnum) && Half(h.shstrndx)
  }

  predicate ProgramFits(p: ProgramHeader)
  {
    && Word(p.kind) && Word(p.flags) && Xword(p.offset) && Xword(p.vaddr) && Xword(p.paddr)
    && Xword(p.filesz) && Xword(p.memsz) && Xword(p.align)
  }

  /** The file header in four groups. */
  function FrontBytes(h: FileHeader): (bs: seq<byte>)
    ensures |bs| == 8
  {
    LittleEndian(h.kind, 2) + LittleEndian(h.machine, 2) + LittleEndian(h.version, 4)
  }

  function PlaceBytes(h: FileHeader): (bs: seq<byte>)
    ensures |bs| == 24
  {
    LittleEndian(h.entry, 8) + LittleEndian(h.phoff, 8) + LittleEndian(h.shoff, 8)
  }

  function SizeBytes(h: FileHeader): (bs: seq<byte>)
    ensures |bs| == 16
  {
    LittleEndian(h.flags, 4) + LittleEndian(h.ehsize, 2)
    + LittleEndian(h.phentsize, 2) + LittleEndian(h.phnum, 2)
    + LittleEndian(h.shentsize, 2) + LittleEndian(h.shnum, 2) + LittleEndian(h.shstrndx, 2)
  }

  function HeaderBytes(h: FileHeader): (bs: seq<byte>)
    requires HeaderFits(h)
    ensures |bs| == 64
  {
    h.ident + FrontBytes(h) + PlaceBytes(h) + SizeBytes(h)
  }

  function ProgramBytes(p: ProgramHeader): (bs: seq<byte>)
    requires ProgramFits(p)
    ensures |bs| == 56
  {
    LittleEndian(p.kind, 4) + LittleEndian(p.flags, 4)
    + LittleEndian(p.offset, 8) + LittleEndian(p.vaddr, 8) + LittleEndian(p.paddr, 8)
    + LittleEndian(p.filesz, 8) + LittleEndian(p.memsz, 8) + LittleEndian(p.align, 8)
  }

  predicate Stands(image: seq<byte>, k: nat, bs: seq<byte>)
  {
    k + |bs| <= |image| && image[k..k + |bs|] == bs
  }

  /** The image begins with the file header, which says where the program headers stand, one behind
      the other. */
  predicate Written(image: seq<byte>, h: FileHeader, ps: seq<ProgramHeader>)
  {
    && HeaderFits(h) && h.phnum == |ps| && Stands(image, 0, HeaderBytes(h))
    && forall i | 0 <= i < |ps| :: ProgramFits(ps[i]) && Stands(image, h.phoff + 56 * i, ProgramBytes(ps[i]))
  }

  // ---------- fields ----------

  /** Part of what stands somewhere. */
  lemma StandsPart(image: seq<byte>, k: nat, bs: seq<byte>, j: nat, part: seq<byte>)
    requires Stands(image, k, bs) && j + |part| <= |bs| && bs[j..j + |part|] == part
    ensures Stands(image, k + j, part)
  {
    var w := image[k..k + |bs|];
    forall m | 0 <= m < |part| ensures image[k + j + m] == part[m] {
      assert image[k + j + m] == w[j + m] && bs[j..j + |part|][m] == bs[j + m];
    }
  }

  lemma ReadHalf(image: seq<byte>, k: nat, n: nat)
    requires Half(n) && Stands(image, k, LittleEndian(n, 2))
    ensures U16(image, k) == n
  {
    PowTable();
    LittleEndianRoundTrip(n, 2);
    FromTwo(image[k..k + 2]);
  }

  lemma ReadWord(image: seq<byte>, k: nat, n: nat)
    requires Word(n) && Stands(image, k, LittleEndian(n, 4))
    ensures U32(image, k) == n
  {
    PowTable();
    LittleEndianRoundTrip(n, 4);
    FromFour(image[k..k + 4]);
  }

  /** A 64-bit field is read if and only if it is below 4 GiB. */
  lemma ReadXword(image: seq<byte>, k: nat, n: nat)
    requires Xword(n) && Stands(image, k, LittleEndian(n, 8))
    ensures Low32(image, k) == if n < U32_LIMIT then Some(n) else None
  {
    PowTable();
    LittleEndianRoundTrip(n, 8);
    var w := image[k..k + 8];
    FromEight(w);
    FromFour(w[..4]);
    FromFour(w[4..]);
    assert U32(image, k) == FromLittleEndian(w[..4]) && U32(image, k + 4) == FromLittleEndian(w[4..]);
  }

  lemma FromTwo(w: seq<byte>)
    requires |w| == 2
    ensures FromLittleEndian(w) == w[0] as int + 256 * (w[1] as int)
  {
    assert w == [w[0]] + [w[1]];
    FromLittleEndianStep([w[0]], w[1]);
    assert FromLittleEndian([w[0]]) == w[0] + 256 * FromLittleEndian([]);
  }

  lemma FromFour(w: seq<byte>)
    requires |w| == 4
    ensures FromLittleEndian(w) ==
            w[0] as int + 256 * (w[1] as int) + 0x1_0000 * (w[2] as int) + 0x100_0000 * (w[3] as int)
  {
    FromTwo(w[..2]);
    FromLittleEndianStep(w[..2], w[2]);
    FromLittleEndianStep(w[..3], w[3]);
    assert w[..2] + [w[2]] == w[..3] && w[..3] + [w[3]] == w;
    PowTable();
    assert Pow256(3) == 0x100_0000;
  }

  lemma FromEight(w: seq<byte>)
    requires |w| == 8
    ensures FromLittleEndian(w) == FromLittleEndian(w[..4]) + U32_LIMIT * FromLittleEndian(w[4..])
    ensures FromLittleEndian(w[..4]) < U32_LIMIT
  {
    PowTable();
    FromHalves(w, 4);
  }

  lemma {:induction false} FromHalves(w: seq<byte>, k: nat)
    requires k <= |w|
    ensures FromLittleEndian(w) == FromLittleEndian(w[..k]) + Pow256(k) * FromLittleEndian(w[k..])
    decreases k
  {
    if k == 0 {
      assert w[0..] == w;
    } else {
      FromHalves(w[1..], k - 1);
      assert w[1..][..k - 1] == w[..k][1..] && w[1..][k - 1..] == w[k..];
      Carried(w[0], FromLittleEndian(w[..k][1..]), Pow256(k - 1), FromLittleEndian(w[k..]));
    }
  }

  lemma Carried(b: int, low: int, p: int, high: int)
    ensures b + 256 * (low + p * high) == b + 256 * low + 256 * p * high
  {
    MulAssoc(p, high);
  }

  /** Where the fields that the loader reads stand. */
  lemma HeaderFields(h: FileHeader)
    requires HeaderFits(h)
    ensures var bs := HeaderBytes(h);
            && bs[..16] == h.ident && bs[18..20] == LittleEndian(h.machine, 2) && bs[24..32] == LittleEndian(h.entry, 8)
            && bs[32..40] == LittleEndian(h.phoff, 8) && bs[54..56] == LittleEndian(h.phentsize, 2)
            && bs[56..58] == LittleEndian(h.phnum, 2)
  {
    hide LittleEndian, HeaderFits;
    var bs, front, place, size := HeaderBytes(h), FrontBytes(h), PlaceBytes(h), SizeBytes(h);
    assert front[2..4] == LittleEndian(h.machine, 2);
    assert place[0..8] == LittleEndian(h.entry, 8) && place[8..16] == LittleEndian(h.phoff, 8);
    assert size[6..8] == LittleEndian(h.phentsize, 2) && size[8..10] == LittleEndian(h.phnum, 2);
    hide FrontBytes, PlaceBytes, SizeBytes;
    assert bs[18..20] == front[2..4] && bs[24..32] == place[0..8] && bs[32..40] == place[8..16];
    assert bs[54..56] == size[6..8] && bs[56..58] == size[8..10];
  }

  lemma ProgramFields(p: ProgramHeader)
    requires ProgramFits(p)
    ensures var bs := ProgramBytes(p);
            && bs[..4] == LittleEndian(p.kind, 4) && bs[8..16] == LittleEndian(p.offset, 8)
            && bs[24..32] == LittleEndian(p.paddr, 8) && bs[32..40] == LittleEndian(p.filesz, 8)
            && bs[40..48] == LittleEndian(p.memsz, 8)
  {
    hide LittleEndian;
  }

  // ---------- the loader reads the records ----------

  /** What the loader asks of a file header. */
  predicate KernelHeader(h: FileHeader)
  {
    && |h.ident| == 16 && h.ident[..6] == [0x7f, 69, 76, 70, 2, 1]
    && h.machine == 62 && h.phentsize == 56 && h.phoff < U32_LIMIT
  }

  /** The file header is accepted exactly as its fields say, and its count and entry point are read. */
  lemma HeaderRead(image: seq<byte>, h: FileHeader, ps: seq<ProgramHeader>)
    requires Written(image, h, ps)
    ensures HeaderOk(image) <==> KernelHeader(h)
    ensures |image| >= 64 && HeaderCount(image) == |ps|
    ensures Low32(image, 24) == if h.entry < U32_LIMIT then Some(h.entry) else None
    ensures Low32(image, 32) == if h.phoff < U32_LIMIT then Some(h.phoff) else None
  {
    hide LittleEndian, ProgramBytes, U16, U32, HeaderBytes, Low32;
    var bs := HeaderBytes(h);
    HeaderFields(h);
    StandsPart(image, 0, bs, 0, h.ident);
    StandsPart(image, 0, bs, 18, LittleEndian(h.machine, 2));
    StandsPart(image, 0, bs, 24, LittleEndian(h.entry, 8));
    StandsPart(image, 0, bs, 32, LittleEndian(h.phoff, 8));
    StandsPart(image, 0, bs, 54, LittleEndian(h.phentsize, 2));
    StandsPart(image, 0, bs, 56, LittleEndian(h.phnum, 2));
    ReadHalf(image, 18, h.machine);
    ReadXword(image, 24, h.entry);
    ReadXword(image, 32, h.phoff);
    ReadHalf(image, 54, h.phentsize);
    ReadHalf(image, 56, h.phnum);
    IdentRead(image, h);
    if ps != [] { assert Stands(image, h.phoff + 56 * (|ps| - 1), ProgramBytes(ps[|ps| - 1])); }
  }

  lemma IdentRead(image: seq<byte>, h: FileHeader)
    requires |h.ident| == 16 && Stands(image, 0, h.ident) && |image| >= 64
    ensures h.ident[..6] == [0x7f, 69, 76, 70, 2, 1] <==>
              && image[0] == 0x7f && image[1] == 69 && image[2] == 76 && image[3] == 70
              && image[4] == ELFCLASS64 && image[5] == ELFDATA2LSB
  {
    assert h.ident[..6] == [h.ident[0], h.ident[1], h.ident[2], h.ident[3], h.ident[4], h.ident[5]];
    assert forall j | 0 <= j < 6 :: image[j] == image[0..16][j];
  }

  /** Each program header is read as its record: the type, and the four fields if they are below
      4 GiB. */
  lemma ProgramRead(image: seq<byte>, h: FileHeader, ps: seq<ProgramHeader>, i: nat)
    requires Written(image, h, ps) && KernelHeader(h) && i < |ps|
    ensures HeaderOk(image) && HeaderCount(image) == |ps|
    ensures Loads(image, i) <==> ps[i].kind == 1
    ensures var p := ps[i];
            SegmentAt(image, i) ==
            if p.offset < U32_LIMIT && p.paddr < U32_LIMIT && p.filesz < U32_LIMIT && p.memsz < U32_LIMIT
            then Some(Segment(p.offset, p.paddr, p.filesz, p.memsz)) else None
  {
    hide LittleEndian, U16, U32, HeaderBytes, ProgramBytes, HeaderOk, KernelHeader, Low32;
    HeaderPlace(image, h, ps, i);
    FieldsRead(image, h.phoff + 56 * i, ps[i]);
  }

  lemma FieldsRead(image: seq<byte>, k: nat, p: ProgramHeader)
    requires ProgramFits(p) && Stands(image, k, ProgramBytes(p))
    ensures k + 56 <= |image| && U32(image, k) == p.kind
    ensures Low32(image, k + 8) == if p.offset < U32_LIMIT then Some(p.offset) else None
    ensures Low32(image, k + 24) == if p.paddr < U32_LIMIT then Some(p.paddr) else None
    ensures Low32(image, k + 32) == if p.filesz < U32_LIMIT then Some(p.filesz) else None
    ensures Low32(image, k + 40) == if p.memsz < U32_LIMIT then Some(p.memsz) else None
  {
    hide LittleEndian, U32, ProgramBytes, Low32;
    var bs := ProgramBytes(p);
    ProgramFields(p);
    StandsPart(image, k, bs, 0, LittleEndian(p.kind, 4));
    StandsPart(image, k, bs, 8, LittleEndian(p.offset, 8));
    StandsPart(image, k, bs, 24, LittleEndian(p.paddr, 8));
    StandsPart(image, k, bs, 32, LittleEndian(p.filesz, 8));
    StandsPart(image, k, bs, 40, LittleEndian(p.memsz, 8));
    ReadWord(image, k, p.kind);
    ReadXword(image, k + 8, p.offset);
    ReadXword(image, k + 24, p.paddr);
    ReadXword(image, k + 32, p.filesz);
    ReadXword(image, k + 40, p.memsz);
  }

  lemma HeaderPlace(image: seq<byte>, h: FileHeader, ps: seq<ProgramHeader>, i: nat)
    requires Written(image, h, ps) && KernelHeader(h) && i < |ps|
    ensures HeaderOk(image) && HeaderCount(image) == |ps| && HeaderAt(image, i) == h.phoff + 56 * i
  {
    hide HeaderBytes, ProgramBytes, U16, U32;
    HeaderRead(image, h, ps);
  }

  // ---------- what is loaded ----------

  /** A loadable program header: its file bytes are in the module, and its place ends below 4 GiB,
      apart from the stub and from the module. */
  predicate RecordOk(at: Layout, p: ProgramHeader)
  {
    && p.filesz <= p.memsz && p.offset + p.filesz <= at.end - at.start && p.paddr + p.memsz < U32_LIMIT
    && (p.paddr + p.memsz <= at.stubStart || at.stubEnd <= p.paddr)
    && (p.paddr + p.memsz <= at.start || at.end <= p.paddr)
  }

  /** The loader accepts the file. */
  predicate KernelOk(at: Layout, h: FileHeader, ps: seq<ProgramHeader>)
  {
    KernelHeader(h) && h.entry < U32_LIMIT && forall i | 0 <= i < |ps| && ps[i].kind == 1 :: RecordOk(at, ps[i])
  }

  lemma LoadableIff(at: Layout, image: seq<byte>, h: FileHeader, ps: seq<ProgramHeader>)
    requires Addresses(at) && at.start < at.end && |image| == at.end - at.start && Written(image, h, ps)
    ensures Loadable(at, image) <==> KernelOk(at, h, ps)
  {
    hide Written, KernelHeader, HeaderOk, Loads, SegmentAt, HeaderCount, Low32;
    HeaderRead(image, h, ps);
    if KernelHeader(h) {
      forall i | 0 <= i < |ps| ensures ProgramOk(at, image, i) <==> (ps[i].kind == 1 ==> RecordOk(at, ps[i])) {
        ProgramRead(image, h, ps, i);
      }
    }
  }

  /** Program header p puts something at a. */
  predicate Puts(p: ProgramHeader, a: nat)
  {
    p.kind == 1 && p.paddr <= a < p.paddr + p.memsz
  }

  /** The byte at a after the first n records: the last one that puts something there decides, its
      file bytes first and zeros behind them. */
  function Loaded(image: seq<byte>, ps: seq<ProgramHeader>, n: nat, a: nat, before: byte): byte
    requires n <= |ps| && forall i | 0 <= i < |ps| && ps[i].kind == 1 :: ps[i].offset + ps[i].filesz <= |image|
  {
    if n == 0 then before
    else if !Puts(ps[n - 1], a) then Loaded(image, ps, n - 1, a, before)
    else if a - ps[n - 1].paddr < ps[n - 1].filesz then image[ps[n - 1].offset + (a - ps[n - 1].paddr)]
    else 0
  }

  lemma {:induction false} LoadedBytes(
    at: Layout, image: seq<byte>, h: FileHeader, ps: seq<ProgramHeader>, n: nat, a: nat, before: byte)
    requires at.start < at.end && |image| == at.end - at.start < U32_LIMIT
    requires Written(image, h, ps) && KernelOk(at, h, ps) && n <= |ps|
    ensures HeaderOk(image) && HeaderCount(image) == |ps|
    ensures ByteAfter(image, n, a, before) == Loaded(image, ps, n, a, before)
    decreases n
  {
    hide Written, KernelHeader, HeaderOk, Loads, SegmentAt, HeaderCount, Low32;
    HeaderRead(image, h, ps);
    if n > 0 {
      ProgramRead(image, h, ps, n - 1);
      LoadedBytes(at, image, h, ps, n - 1, a, before);
    }
  }

  /** load_kernel_elf on an ELF file: it returns exactly for files with an acceptable header and
      loadable segments, with the file's entry point; memory then holds each segment at its physical
      address and is otherwise unchanged. */
  method LoadWritten(m: Memory, ghost h: FileHeader, ghost ps: seq<ProgramHeader>) returns (entry: Option<nat>)
    requires m.Valid() && m.at.start < m.at.end && Written(m.Image(), h, ps)
    modifies m.bytes
    ensures entry == if KernelOk(m.at, h, ps) then Some(h.entry) else None
    ensures KernelOk(m.at, h, ps) ==> forall a | 0 <= a < U32_LIMIT ::
              m.bytes[a] == Loaded(old(m.Image()), ps, |ps|, a, old(m.bytes[a]))
  {
    ghost var image := m.Image();
    LoadableIff(m.at, image, h, ps);
    HeaderRead(image, h, ps);
    hide Written, KernelOk, KernelHeader, HeaderOk, Loadable, ByteAfter, Loaded, HeaderCount, Low32;
    entry := m.LoadKernelElf();
    if entry.Some? {
      forall a | 0 <= a < U32_LIMIT ensures m.bytes[a] == Loaded(image, ps, |ps|, a, old(m.bytes[a])) {
        LoadedBytes(m.at, image, h, ps, |ps|, a, old(m.bytes[a]));
      }
    }
  }
}
