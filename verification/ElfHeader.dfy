/** The headers of an ELF executable (System V gABI, chapters 4 and 5): how they are read, and what they hold. */
module ElfHeader {
  import opened PhysMem
  import opened VmaList
  import opened StackImage

  // ---------- Headers ----------

  const EHDR_SIZE: nat := 64
  const PHDR_SIZE: nat := 56
  const PT_LOAD: nat := 1

  /** The little-endian field of `n` bytes at offset `o`. */
  function Field(data: seq<byte>, o: nat, n: nat): nat
    requires o + n <= |data|
  {
    Val(data[o..o + n])
  }

  datatype ElfError =
    | TooSmall | BadMagic | NotElf64 | NotLittleEndian | NotExecutable | NotX86
    | PhentsizeTooSmall | PhdrOverflow | PhdrOutOfBounds
    | DataOverflow | DataOutOfBounds | AreaTaken | NoMemory | PageMapFailed

  datatype Header = Header(entry: nat, phoff: nat, phentsize: nat, phnum: nat)

  datatype HeaderResult = Valid(header: Header) | Invalid(error: ElfError)

  /** The checks of the file header, in order. */
  function ParseHeader(data: seq<byte>): HeaderResult {
    if |data| < EHDR_SIZE then Invalid(TooSmall)
    else if data[..4] != [0x7f, 0x45, 0x4c, 0x46] then Invalid(BadMagic)
    else if data[4] != 2 then Invalid(NotElf64)
    else if data[5] != 1 then Invalid(NotLittleEndian)
    else if Field(data, 16, 2) != 2 then Invalid(NotExecutable)
    else if Field(data, 18, 2) != 62 then Invalid(NotX86)
    else
      var h := Header(Field(data, 24, 8), Field(data, 32, 8), Field(data, 54, 2), Field(data, 56, 2));
      if h.phentsize < PHDR_SIZE then Invalid(PhentsizeTooSmall)
      else if h.phoff + h.phnum * h.phentsize >= 0x1_0000_0000_0000_0000 then Invalid(PhdrOverflow)
      else if h.phoff + h.phnum * h.phentsize > |data| then Invalid(PhdrOutOfBounds)
      else Valid(h)
  }

  datatype Segment = Segment(kind: nat, flags: VmaFlags, offset: nat, vaddr: nat, filesz: nat, memsz: nat)

  /** Every program header of a checked file lies inside it. */
  lemma HeaderInside(data: seq<byte>, h: Header, i: nat)
    requires ParseHeader(data) == Valid(h) && i < h.phnum
    ensures h.phoff + i * h.phentsize + PHDR_SIZE <= |data|
  {
    assert (i + 1) * h.phentsize <= h.phnum * h.phentsize;
    assert (i + 1) * h.phentsize == i * h.phentsize + h.phentsize;
  }

  function Bit(v: nat, b: nat): bool
    requires b > 0
  {
    v / b % 2 == 1
  }

  /** The program header at offset `o`. */
  function SegmentAt(data: seq<byte>, o: nat): Segment
    requires o + PHDR_SIZE <= |data|
  {
    var flags := Field(data, o + 4, 4);
    Segment(Field(data, o, 4), VmaFlags(Bit(flags, 4), Bit(flags, 2), Bit(flags, 1)),
            Field(data, o + 8, 8), Field(data, o + 16, 8), Field(data, o + 32, 8), Field(data, o + 40, 8))
  }

  /** The segments of the file, in order. */
  ghost function Segments(data: seq<byte>, h: Header): seq<Segment>
    requires ParseHeader(data) == Valid(h)
  {
    seq(h.phnum, i requires 0 <= i < h.phnum => HeaderInside(data, h, i); SegmentAt(data, h.phoff + i * h.phentsize))
  }

  // ---------- Round trips ----------

  /** Fields one after another, each a value and its size in bytes. */
  function Layout(fs: seq<(nat, nat)>): seq<byte> {
    if fs == [] then [] else Layout(fs[..|fs| - 1]) + Le(fs[|fs| - 1].0, fs[|fs| - 1].1)
  }

  /** Where field `i` begins. */
  function Start(fs: seq<(nat, nat)>, i: nat): nat
    requires i <= |fs|
  {
    if i == 0 then 0 else Start(fs, i - 1) + fs[i - 1].1
  }

  /** Every value fits its field. */
  predicate InWidth(fs: seq<(nat, nat)>) {
    forall i :: 0 <= i < |fs| ==> InBytes(fs[i].0, fs[i].1)
  }

  predicate InBytes(v: nat, n: nat) { v < Pow256(n) }

  lemma {:induction false} StartKept(fs: seq<(nat, nat)>, i: nat, n: nat)
    requires i <= n <= |fs|
    ensures Start(fs[..n], i) == Start(fs, i)
  {
    if i > 0 { StartKept(fs, i - 1, n); }
  }

  lemma {:induction false} LayoutSize(fs: seq<(nat, nat)>)
    ensures |Layout(fs)| == Start(fs, |fs|)
  {
    if fs != [] {
      var n := |fs| - 1;
      LayoutSize(fs[..n]);
      StartKept(fs, n, n);
    }
  }

  /** The bytes of `v` are the `n` bytes of `b` from `a` on. */
  predicate PartIs(b: seq<byte>, a: nat, v: nat, n: nat) {
    a + n <= |b| && b[a..a + n] == Le(v, n)
  }

  lemma {:induction false} LayoutField(fs: seq<(nat, nat)>, i: nat)
    requires i < |fs|
    ensures PartIs(Layout(fs), Start(fs, i), fs[i].0, fs[i].1)
    decreases |fs|
  {
    var n := |fs| - 1;
    LayoutSize(fs[..n]);
    StartKept(fs, n, n);
    if i < n {
      LayoutField(fs[..n], i);
      StartKept(fs, i, n);
    }
  }

  /** The layout lies in `data` at `o`, and every value fits its field. */
  predicate LaidAt(data: seq<byte>, o: nat, fs: seq<(nat, nat)>) {
    BytesAt(data, 0, o, Layout(fs)) && InWidth(fs)
  }

  /** A field that is laid out reads back. */
  lemma FieldReads(data: seq<byte>, o: nat, fs: seq<(nat, nat)>, i: nat)
    requires LaidAt(data, o, fs) && i < |fs|
    ensures o + Start(fs, i) + fs[i].1 <= |data| && Field(data, o + Start(fs, i), fs[i].1) == fs[i].0
  {
    LayoutField(fs, i);
    assert InBytes(fs[i].0, fs[i].1);
    PartReads(data, o, Layout(fs), Start(fs, i), fs[i].0, fs[i].1);
  }

  lemma PartReads(data: seq<byte>, o: nat, b: seq<byte>, a: nat, v: nat, n: nat)
    requires BytesAt(data, 0, o, b) && PartIs(b, a, v, n) && InBytes(v, n)
    ensures o + a + n <= |data| && Field(data, o + a, n) == v
  {
    LeVal(v, n);
    var c := data[o + a..o + a + n];
    forall j | 0 <= j < n ensures c[j] == b[a..a + n][j] {
      assert data[o - 0 + (a + j)] == b[a + j];
    }
    assert c == b[a..a + n];
  }

  /** A program header: `p_flags` is the sum of PF_X = 1, PF_W = 2, PF_R = 4 and other bits. */
  datatype Phdr = Phdr(kind: nat, exec: bool, write: bool, read: bool, other: nat, offset: nat, vaddr: nat, paddr: nat,
                       filesz: nat, memsz: nat, align: nat)

  function PhdrFields(p: Phdr): seq<(nat, nat)> {
    var flags := (if p.exec then 1 else 0) + (if p.write then 2 else 0) + (if p.read then 4 else 0) + 8 * p.other;
    [(p.kind, 4), (flags, 4), (p.offset, 8), (p.vaddr, 8), (p.paddr, 8), (p.filesz, 8), (p.memsz, 8), (p.align, 8)]
  }

  /** The 56 bytes at `o` are the program header `p`. */
  predicate PhdrAt(data: seq<byte>, o: nat, p: Phdr) {
    o + 56 <= |data| && LaidAt(data, o, PhdrFields(p))
  }

  function SegmentOf(p: Phdr): Segment {
    Segment(p.kind, VmaFlags(p.read, p.write, p.exec), p.offset, p.vaddr, p.filesz, p.memsz)
  }

  lemma PhdrStarts(p: Phdr)
    ensures var fs := PhdrFields(p);
      && Start(fs, 0) == 0 && Start(fs, 1) == 4 && Start(fs, 2) == 8 && Start(fs, 3) == 16 && Start(fs, 5) == 32
      && Start(fs, 6) == 40 && |Layout(fs)| == 56
  {
    var fs := PhdrFields(p);
    assert Start(fs, 1) == 4;
    assert Start(fs, 2) == 8;
    assert Start(fs, 3) == 16;
    assert Start(fs, 4) == 24;
    assert Start(fs, 5) == 32;
    assert Start(fs, 6) == 40;
    assert Start(fs, 7) == 48;
    LayoutSize(fs);
  }

  lemma FlagBits(exec: bool, write: bool, read: bool, other: nat)
    ensures var v := (if exec then 1 else 0) + (if write then 2 else 0) + (if read then 4 else 0) + 8 * other;
      Bit(v, 1) == exec && Bit(v, 2) == write && Bit(v, 4) == read
  {
    LowBits((if exec then 1 else 0) + (if write then 2 else 0) + (if read then 4 else 0), other);
  }

  lemma LowBits(c: nat, other: nat)
    requires c < 8
    ensures var v := c + 8 * other; v / 1 % 2 == c % 2 && v / 2 % 2 == c / 2 % 2 && v / 4 % 2 == c / 4 % 2
  {
    var v := c + 8 * other;
    assert v / 2 == c / 2 + 4 * other;
    assert v / 4 == c / 4 + 2 * other;
  }

  /** A program header that is laid out reads back. */
  lemma PhdrReads(data: seq<byte>, o: nat, p: Phdr)
    requires PhdrAt(data, o, p)
    ensures SegmentAt(data, o) == SegmentOf(p)
  {
    var fs := PhdrFields(p);
    PhdrStarts(p);
    FlagBits(p.exec, p.write, p.read, p.other);
    FieldReads(data, o, fs, 0);
    FieldReads(data, o, fs, 1);
    FieldReads(data, o, fs, 2);
    FieldReads(data, o, fs, 3);
    FieldReads(data, o, fs, 5);
    FieldReads(data, o, fs, 6);
  }

  /** A file header after its 16 identification bytes. */
  datatype Ehdr = Ehdr(kind: nat, machine: nat, version: nat, entry: nat, phoff: nat, shoff: nat, flags: nat,
                       ehsize: nat, phentsize: nat, phnum: nat, shentsize: nat, shnum: nat, shstrndx: nat)

  function EhdrFields(e: Ehdr): seq<(nat, nat)> {
    [(e.kind, 2), (e.machine, 2), (e.version, 4), (e.entry, 8), (e.phoff, 8), (e.shoff, 8), (e.flags, 4),
     (e.ehsize, 2), (e.phentsize, 2), (e.phnum, 2), (e.shentsize, 2), (e.shnum, 2), (e.shstrndx, 2)]
  }

  /** The file begins with the identification `ident` and the header `e`, 64 bytes in all. */
  predicate EhdrIn(data: seq<byte>, ident: seq<byte>, e: Ehdr) {
    |data| >= 64 && |ident| == 16 && data[..16] == ident && LaidAt(data, 16, EhdrFields(e))
  }

  lemma EhdrStarts(e: Ehdr)
    ensures var fs := EhdrFields(e);
      && Start(fs, 0) == 0 && Start(fs, 1) == 2 && Start(fs, 3) == 8 && Start(fs, 4) == 16 && Start(fs, 8) == 38
      && Start(fs, 9) == 40 && |Layout(fs)| == 48
  {
    var fs := EhdrFields(e);
    assert Start(fs, 1) == 2;
    assert Start(fs, 2) == 4;
    assert Start(fs, 3) == 8;
    assert Start(fs, 4) == 16;
    assert Start(fs, 5) == 24;
    assert Start(fs, 6) == 32;
    assert Start(fs, 7) == 36;
    assert Start(fs, 8) == 38;
    assert Start(fs, 9) == 40;
    assert Start(fs, 10) == 42;
    assert Start(fs, 11) == 44;
    assert Start(fs, 12) == 46;
    LayoutSize(fs);
  }

  /**
   * What is said of a header that is laid out: it is refused for the first of its fields that is wrong, or else its
   * entry point and the place of its program headers are read.
   */
  lemma EhdrReads(data: seq<byte>, ident: seq<byte>, e: Ehdr)
    requires EhdrIn(data, ident, e)
    ensures ParseHeader(data) ==
      if ident[..4] != [127, 69, 76, 70] then Invalid(BadMagic)
      else if ident[4] != 2 then Invalid(NotElf64)
      else if ident[5] != 1 then Invalid(NotLittleEndian)
      else if e.kind != 2 then Invalid(NotExecutable)
      else if e.machine != 62 then Invalid(NotX86)
      else if e.phentsize < 56 then Invalid(PhentsizeTooSmall)
      else if e.phoff + e.phnum * e.phentsize >= 0x1_0000_0000_0000_0000 then Invalid(PhdrOverflow)
      else if e.phoff + e.phnum * e.phentsize > |data| then Invalid(PhdrOutOfBounds)
      else Valid(Header(e.entry, e.phoff, e.phentsize, e.phnum))
  {
    var fs := EhdrFields(e);
    EhdrStarts(e);
    FieldReads(data, 16, fs, 0);
    FieldReads(data, 16, fs, 1);
    FieldReads(data, 16, fs, 3);
    FieldReads(data, 16, fs, 4);
    FieldReads(data, 16, fs, 8);
    FieldReads(data, 16, fs, 9);
    assert data[..4] == data[..16][..4] && data[4] == data[..16][4] && data[5] == data[..16][5];
  }

  /** A table of program headers reads back, header by header. */
  lemma TableReads(data: seq<byte>, h: Header, ps: seq<Phdr>)
    requires ParseHeader(data) == Valid(h) && |ps| == h.phnum
    requires forall i :: 0 <= i < |ps| ==> PhdrAt(data, h.phoff + i * h.phentsize, ps[i])
    ensures |Segments(data, h)| == |ps| && forall i :: 0 <= i < |ps| ==> Segments(data, h)[i] == SegmentOf(ps[i])
  {
    forall i | 0 <= i < |ps| ensures Segments(data, h)[i] == SegmentOf(ps[i]) {
      HeaderInside(data, h, i);
      PhdrReads(data, h.phoff + i * h.phentsize, ps[i]);
    }
  }
}
