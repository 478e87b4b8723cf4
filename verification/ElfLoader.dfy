/** The boot stub's ELF64 loader, which reads program headers from the memory it writes, and the
    removal of the kernel from the module list. */
module ElfLoader {
  import opened Bytes

  const EHDR_SIZE := 64
  const PHDR_SIZE := 56
  const ELFCLASS64 := 2
  const ELFDATA2LSB := 1
  const EM_X86_64 := 62
  const PT_LOAD := 1

  /** The kernel module and the stub itself, as half-open address ranges. */
  datatype Layout = Layout(start: nat, end: nat, stubStart: nat, stubEnd: nat)

  predicate InModule(at: Layout, a: nat)
  {
    at.start <= a < at.end
  }

  predicate InStub(at: Layout, a: nat)
  {
    at.stubStart <= a < at.stubEnd
  }

  /** 32-bit addresses; the module's end comes from the boot loader and is not trusted. */
  predicate Addresses(at: Layout)
  {
    at.start < U32_LIMIT && at.end < U32_LIMIT && at.stubStart <= at.stubEnd < U32_LIMIT
  }

  // ---------- the image ----------

  function U16(image: seq<byte>, k: nat): nat
    requires k + 2 <= |image|
  {
    image[k] as int + 256 * (image[k + 1] as int)
  }

  function U32(image: seq<byte>, k: nat): (n: nat)
    requires k + 4 <= |image|
    ensures n < U32_LIMIT
  {
    image[k] as int + 256 * (image[k + 1] as int)
    + 0x1_0000 * (image[k + 2] as int) + 0x100_0000 * (image[k + 3] as int)
  }

  /** A 64-bit field whose upper half must be zero. */
  function Low32(image: seq<byte>, k: nat): Option<nat>
    requires k + 8 <= |image|
  {
    if U32(image, k + 4) != 0 then None else Some(U32(image, k))
  }

  predicate IdentOk(image: seq<byte>)
    requires |image| >= EHDR_SIZE
  {
    && image[0] == 0x7f && image[1] == 69 && image[2] == 76 && image[3] == 70
    && image[4] == ELFCLASS64 && image[5] == ELFDATA2LSB
    && U16(image, 18) == EM_X86_64 && U16(image, 54) == PHDR_SIZE
  }

  function HeaderCount(image: seq<byte>): nat
    requires |image| >= EHDR_SIZE
  {
    U16(image, 56)
  }

  /** The program headers lie inside the image. */
  predicate HeaderOk(image: seq<byte>)
  {
    && |image| >= EHDR_SIZE && IdentOk(image)
    && var phoff := Low32(image, 32);
       phoff.Some? && (HeaderCount(image) != 0 ==> phoff.value + HeaderCount(image) * PHDR_SIZE <= |image|)
  }

  function HeaderAt(image: seq<byte>, i: nat): (k: nat)
    requires HeaderOk(image) && i < HeaderCount(image)
    ensures k + PHDR_SIZE <= |image|
  {
    Low32(image, 32).value + i * PHDR_SIZE
  }

  predicate Loads(image: seq<byte>, i: nat)
    requires HeaderOk(image) && i < HeaderCount(image)
  {
    U32(image, HeaderAt(image, i)) == PT_LOAD
  }

  datatype Segment = Segment(offset: nat, paddr: nat, filesz: nat, memsz: nat)

  /** The four fields of a program header, if they fit 32 bits. */
  function SegmentAt(image: seq<byte>, i: nat): Option<Segment>
    requires HeaderOk(image) && i < HeaderCount(image)
  {
    var k := HeaderAt(image, i);
    var offset, paddr := Low32(image, k + 8), Low32(image, k + 24);
    var filesz, memsz := Low32(image, k + 32), Low32(image, k + 40);
    if offset.None? || paddr.None? || filesz.None? || memsz.None? then None
    else Some(Segment(offset.value, paddr.value, filesz.value, memsz.value))
  }

  predicate Overlap(aStart: nat, aEnd: nat, bStart: nat, bEnd: nat)
  {
    aStart < bEnd && bStart < aEnd
  }

  predicate SegmentOk(at: Layout, s: Segment)
  {
    && s.filesz <= s.memsz && s.offset + s.filesz <= at.end - at.start && s.paddr + s.memsz < U32_LIMIT
    && !Overlap(s.paddr, s.paddr + s.memsz, at.stubStart, at.stubEnd)
    && !Overlap(s.paddr, s.paddr + s.memsz, at.start, at.end)
  }

  predicate ProgramOk(at: Layout, image: seq<byte>, i: nat)
    requires HeaderOk(image) && i < HeaderCount(image)
  {
    Loads(image, i) ==> var s := SegmentAt(image, i); s.Some? && SegmentOk(at, s.value)
  }

  /** The loader accepts the image. */
  predicate Loadable(at: Layout, image: seq<byte>)
  {
    && HeaderOk(image) && Low32(image, 24).Some?
    && forall i | 0 <= i < HeaderCount(image) :: ProgramOk(at, image, i)
  }

  // ---------- what memory should hold ----------

  predicate Covers(s: Segment, a: nat)
  {
    s.paddr <= a < s.paddr + s.memsz
  }

  function SegmentByte(image: seq<byte>, s: Segment, a: nat): byte
    requires Covers(s, a) && s.offset + s.filesz <= |image|
  {
    if a - s.paddr < s.filesz then image[s.offset + (a - s.paddr)] else 0
  }

  /** Program header i loads something at a. */
  predicate CoveredBy(image: seq<byte>, i: nat, a: nat)
    requires HeaderOk(image) && i < HeaderCount(image)
  {
    Loads(image, i) && var s := SegmentAt(image, i);
                       s.Some? && s.value.offset + s.value.filesz <= |image| && Covers(s.value, a)
  }

  /** The byte at a after the first n program headers. */
  function ByteAfter(image: seq<byte>, n: nat, a: nat, before: byte): byte
    requires HeaderOk(image) && n <= HeaderCount(image)
  {
    if n == 0 then before
    else if CoveredBy(image, n - 1, a) then SegmentByte(image, SegmentAt(image, n - 1).value, a)
    else ByteAfter(image, n - 1, a, before)
  }

  /** The last segment that covers an address decides; an uncovered one keeps its byte. */
  lemma {:induction false} LastSegmentWins(image: seq<byte>, n: nat, a: nat, before: byte, i: nat)
    requires HeaderOk(image) && n <= HeaderCount(image)
    requires i < n ==> CoveredBy(image, i, a)
    requires forall j: nat | (i < n ==> i < j) && j < n :: !CoveredBy(image, j, a)
    ensures ByteAfter(image, n, a, before) ==
            if i < n then SegmentByte(image, SegmentAt(image, i).value, a) else before
    decreases n
  {
    hide CoveredBy, SegmentAt;
    if n > 0 && !CoveredBy(image, n - 1, a) {
      LastSegmentWins(image, n - 1, a, before, if i < n then i else n);
    }
  }

  // ---------- the loader ----------

  /** All 32-bit addressable memory. */
  class Memory {
    const bytes: array<byte>
    const at: Layout

    ghost predicate Valid()
      reads this
    {
      bytes.Length == U32_LIMIT && Addresses(at)
    }

    ghost function Image(): (image: seq<byte>)
      requires Valid() && at.start <= at.end
      reads this, bytes
    {
      bytes[at.start..at.end]
    }

    constructor (at: Layout)
      requires Addresses(at)
      ensures Valid() && this.at == at && fresh(bytes)
    {
      bytes := new byte[U32_LIMIT];
      this.at := at;
    }

    /** Every read is inside the module. */
    function Read(a: nat): byte
      requires Valid() && InModule(at, a)
      reads this, bytes
    {
      bytes[a]
    }

    /** Every write is outside the module and outside the stub. */
    method Write(a: nat, b: byte)
      requires Valid() && a < U32_LIMIT && !InModule(at, a) && !InStub(at, a)
      modifies bytes
      ensures bytes[..] == old(bytes[..])[a := b]
    {
      bytes[a] := b;
    }

    method Fetch16(k: nat) returns (n: nat)
      requires Valid() && at.start + k + 2 <= at.end
      ensures n == U16(Image(), k)
    {
      var b0, b1 := Read(at.start + k), Read(at.start + k + 1);
      n := b0 as int + 256 * (b1 as int);
    }

    method Fetch32(k: nat) returns (n: nat)
      requires Valid() && at.start + k + 4 <= at.end
      ensures n == U32(Image(), k)
    {
      var a := at.start + k;
      var b0, b1, b2, b3 := Read(a), Read(a + 1), Read(a + 2), Read(a + 3);
      n := b0 as int + 256 * (b1 as int) + 0x1_0000 * (b2 as int) + 0x100_0000 * (b3 as int);
    }

    /** checked_low32 */
    method FetchLow32(k: nat) returns (r: Option<nat>)
      requires Valid() && at.start + k + 8 <= at.end
      ensures r == Low32(Image(), k)
    {
      hide U32;
      var hi := Fetch32(k + 4);
      if hi != 0 { return None; }
      var lo := Fetch32(k);
      r := Some(lo);
    }

    /** copy_bytes from the module. */
    method CopyBytes(dst: nat, src: nat, count: nat)
      requires Valid() && dst + count < U32_LIMIT
      requires at.start <= src && src + count <= at.end
      requires forall a | dst <= a < dst + count :: !InModule(at, a) && !InStub(at, a)
      modifies bytes
      ensures forall a | 0 <= a < U32_LIMIT ::
                bytes[a] == if dst <= a < dst + count then old(bytes[src + (a - dst)]) else old(bytes[a])
    {
      for i := 0 to count
        invariant forall a | 0 <= a < U32_LIMIT ::
                    bytes[a] == if dst <= a < dst + i then old(bytes[src + (a - dst)]) else old(bytes[a])
      {
        ghost var before := bytes[..];
        var b := Read(src + i);
        assert b == old(bytes[src + i]);
        Write(dst + i, b);
        assert forall a | 0 <= a < U32_LIMIT :: bytes[a] == bytes[..][a];
      }
    }

    method ZeroBytes(dst: nat, count: nat)
      requires Valid() && dst + count < U32_LIMIT
      requires forall a | dst <= a < dst + count :: !InModule(at, a) && !InStub(at, a)
      modifies bytes
      ensures forall a | 0 <= a < U32_LIMIT :: bytes[a] == if dst <= a < dst + count then 0 else old(bytes[a])
    {
      for i := 0 to count
        invariant forall a | 0 <= a < U32_LIMIT :: bytes[a] == if dst <= a < dst + i then 0 else old(bytes[a])
      {
        Write(dst + i, 0);
        assert forall a | 0 <= a < U32_LIMIT :: bytes[a] == bytes[..][a];
      }
    }

    /** The checks on the file header. */
    method CheckHeader() returns (ok: bool)
      requires Valid() && at.start < at.end
      ensures ok <==> HeaderOk(Image())
    {
      hide U16, U32;
      if at.end - at.start < EHDR_SIZE { return false; }
      if Read(at.start) != 0x7f || Read(at.start + 1) != 69 || Read(at.start + 2) != 76 || Read(at.start + 3) != 70
      { return false; }
      if Read(at.start + 4) != ELFCLASS64 || Read(at.start + 5) != ELFDATA2LSB { return false; }
      var machine := Fetch16(18);
      if machine != EM_X86_64 { return false; }
      var phentsize := Fetch16(54);
      if phentsize != PHDR_SIZE { return false; }
      var phoff := FetchLow32(32);
      if phoff.None? { return false; }
      var phnum := Fetch16(56);
      if phnum != 0 {
        var size := at.end - at.start;
        if phoff.value > size || phnum * PHDR_SIZE > size - phoff.value { return false; }
      }
      ok := true;
    }

    /** Reads one program header. */
    method FetchSegment(i: nat) returns (loads: bool, r: Option<Segment>)
      requires Valid() && at.start < at.end && HeaderOk(Image()) && i < HeaderCount(Image())
      ensures loads == Loads(Image(), i)
      ensures loads ==> r == SegmentAt(Image(), i)
    {
      hide U32, U16, IdentOk;
      ghost var image := Image();
      var phoff := FetchLow32(32);
      var k := phoff.value + i * PHDR_SIZE;
      assert k == HeaderAt(image, i);
      var kind := Fetch32(k);
      loads, r := kind == PT_LOAD, None;
      if !loads { return; }
      var offset := FetchLow32(k + 8);
      var paddr := FetchLow32(k + 24);
      var filesz := FetchLow32(k + 32);
      var memsz := FetchLow32(k + 40);
      if offset.None? || paddr.None? || filesz.None? || memsz.None? { return; }
      r := Some(Segment(offset.value, paddr.value, filesz.value, memsz.value));
    }

    /** Checks and loads one segment. */
    method LoadSegment(s: Segment) returns (ok: bool)
      requires Valid() && at.start < at.end
      modifies bytes
      ensures ok <==> SegmentOk(at, s)
      ensures ok ==> forall a | 0 <= a < U32_LIMIT ::
                       bytes[a] == if Covers(s, a) then SegmentByte(old(Image()), s, a) else old(bytes[a])
      ensures ok ==> Image() == old(Image())
    {
      var size := at.end - at.start;
      if s.filesz > s.memsz { return false; }
      if s.offset > size || s.filesz > size - s.offset { return false; }
      if s.paddr > 0xffff_ffff || s.memsz > 0xffff_ffff - s.paddr { return false; }
      var dstEnd := s.paddr + s.memsz;
      if Overlap(s.paddr, dstEnd, at.stubStart, at.stubEnd) { return false; }
      if Overlap(s.paddr, dstEnd, at.start, at.end) { return false; }
      FillSegment(s);
      ok := true;
    }

    /** The bytes of a segment that has passed its checks. */
    method FillSegment(s: Segment)
      requires Valid() && at.start < at.end && SegmentOk(at, s)
      modifies bytes
      ensures forall a | 0 <= a < U32_LIMIT ::
                bytes[a] == if Covers(s, a) then SegmentByte(old(Image()), s, a) else old(bytes[a])
      ensures Image() == old(Image())
    {
      CopyBytes(s.paddr, at.start + s.offset, s.filesz);
      ZeroBytes(s.paddr + s.filesz, s.memsz - s.filesz);
      forall a | 0 <= a < U32_LIMIT
        ensures bytes[a] == if Covers(s, a) then SegmentByte(old(Image()), s, a) else old(bytes[a])
      {
        assert Covers(s, a) && a - s.paddr < s.filesz ==>
                 old(bytes[at.start + s.offset + (a - s.paddr)]) == old(Image())[s.offset + (a - s.paddr)];
      }
    }

    /** load_kernel_elf: returns the entry point exactly if the image is loadable; then memory
        holds the segments, the later over the earlier, and is otherwise unchanged, in
        particular in the module and the stub. */
    method LoadKernelElf() returns (entry: Option<nat>)
      requires Valid()
      modifies bytes
      ensures entry.Some? <==> at.start < at.end && Loadable(at, old(bytes[at.start..at.end]))
      ensures entry.Some? ==>
                var image := old(bytes[at.start..at.end]);
                && entry == Low32(image, 24)
                && (forall a | 0 <= a < U32_LIMIT ::
                      bytes[a] == ByteAfter(image, HeaderCount(image), a, old(bytes[a])))
                && (forall a | 0 <= a < U32_LIMIT :: InModule(at, a) || InStub(at, a) ==> bytes[a] == old(bytes[a]))
    {
      hide IdentOk, U16, U32, Loads, SegmentAt, SegmentByte, HeaderAt, Low32;
      if at.end <= at.start { return None; }
      ghost var image := Image();
      var ok := CheckHeader();
      if !ok { return None; }
      var i := 0;
      var phnum := Count();
      while i < phnum
        invariant Image() == image && HeaderOk(image) && phnum == HeaderCount(image) && i <= phnum
        invariant forall j | 0 <= j < i :: ProgramOk(at, image, j)
        invariant forall a | 0 <= a < U32_LIMIT :: bytes[a] == ByteAfter(image, i, a, old(bytes[a]))
        invariant forall a | 0 <= a < U32_LIMIT :: InModule(at, a) || InStub(at, a) ==> bytes[a] == old(bytes[a])
      {
        var loads, s := FetchSegment(i);
        if loads {
          assert ProgramOk(at, image, i) <==> s.Some? && SegmentOk(at, s.value);
          if s.None? { return None; }
          ok := LoadSegment(s.value);
          if !ok { return None; }
          SegmentCovers(at, image, i, s.value);
        }
        i := i + 1;
        phnum := Count();
      }
      entry := Entry();
    }

    method Count() returns (n: nat)
      requires Valid() && at.start < at.end && HeaderOk(Image())
      ensures n == HeaderCount(Image())
    {
      n := Fetch16(56);
    }

    method Entry() returns (r: Option<nat>)
      requires Valid() && at.start < at.end && HeaderOk(Image())
      ensures r == Low32(Image(), 24)
    {
      r := FetchLow32(24);
    }
  }

  lemma SegmentCovers(at: Layout, image: seq<byte>, i: nat, s: Segment)
    requires HeaderOk(image) && i < HeaderCount(image) && Loads(image, i) && SegmentAt(image, i) == Some(s)
    requires SegmentOk(at, s) && |image| == at.end - at.start && at.stubStart <= at.stubEnd
    ensures forall a: nat :: CoveredBy(image, i, a) <==> Covers(s, a)
    ensures forall a: nat | Covers(s, a) :: !InModule(at, a) && !InStub(at, a)
  {
  }

  // ---------- the module list ----------

  datatype Module = Module(start: nat, end: nat, text: nat, reserved: nat)

  /** remove_kernel_module: the modules behind the first move down, in order. */
  method RemoveKernelModule(mods: array<Module>, count: nat) returns (left: nat)
    requires 1 <= count <= mods.Length
    modifies mods
    ensures left == count - 1 && mods[..left] == old(mods[1..count])
    ensures mods[left..] == old(mods[left..])
  {
    for i := 1 to count
      invariant forall j | 0 <= j < i - 1 :: mods[j] == old(mods[j + 1])
      invariant forall j | i - 1 <= j < mods.Length :: mods[j] == old(mods[j])
    {
      mods[i - 1] := mods[i];
    }
    left := count - 1;
  }
}
