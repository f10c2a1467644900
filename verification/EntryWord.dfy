/**
 * The 64-bit page-table word behind an unpacked entry (section 4.5 of the Intel SDM, volume 3A): permission and status
 * bits around a 40-bit frame number in bits 12 to 51.
 */
module EntryWord {
  import opened PhysMem
  import opened PageTable

  const PHYS_ADDR_MASK: bv64 := 0x000F_FFFF_FFFF_F000
  const PRESENT: bv64 := 0x1
  const WRITABLE: bv64 := 0x2
  const USER: bv64 := 0x4
  const HUGE: bv64 := 0x80
  const NO_EXEC: bv64 := 0x8000_0000_0000_0000

  /** Every flag the kernel names, with the accessed and dirty bits that only the processor sets. */
  const ALL_FLAGS: bv64 := 0x8000_0000_0000_00E7

  /** The frame numbers that fit the word. */
  const FRAMES: nat := 0x100_0000_0000

  // ---------- The operations on words ----------

  function NewEntry(phys: bv64, flags: bv64): bv64 { phys | flags }
  function PhysAddr(w: bv64): bv64 { w & PHYS_ADDR_MASK }
  function FlagsOf(w: bv64): bv64 { w & ALL_FLAGS }
  predicate Contains(flags: bv64, bit: bv64) { flags & bit == bit }
  predicate IsPresent(w: bv64) { w & PRESENT != 0 }

  // ---------- Bytes ----------

  /** A number below 256 as a byte, by its two hexadecimal digits. */
  function ByteOf(x: nat): bv8
    requires x < 256
  {
    Hex((x / 16) as bv4, (x % 16) as bv4)
  }

  function Hex(h: bv4, l: bv4): bv8 { (h as bv8 << 4) | (l as bv8) }
  function High(b: bv8): bv4 { (b >> 4) as bv4 }
  function Low(b: bv8): bv4 { (b & 0xF) as bv4 }

  function Value(b: bv8): (x: nat)
    ensures x < 256
  {
    16 * (High(b) as nat) + (Low(b) as nat)
  }

  lemma HexParts(h: bv4, l: bv4)
    ensures High(Hex(h, l)) == h && Low(Hex(h, l)) == l
  {
  }

  lemma HexBack(b: bv8)
    ensures Hex(High(b), Low(b)) == b
  {
  }

  lemma HexDigit(x: nat)
    requires x < 16
    ensures (x as bv4) as nat == x
  {
  }

  lemma HexNumber(h: bv4)
    ensures h as nat < 16 && (h as nat) as bv4 == h
  {
  }

  lemma ByteValue(x: nat)
    requires x < 256
    ensures Value(ByteOf(x)) == x
  {
    HexParts((x / 16) as bv4, (x % 16) as bv4);
    HexDigit(x / 16);
    HexDigit(x % 16);
  }

  lemma SplitHex(h: nat, l: nat)
    requires h < 16 && l < 16
    ensures (16 * h + l) / 16 == h && (16 * h + l) % 16 == l
  {
  }

  lemma ByteBack(b: bv8)
    ensures ByteOf(Value(b)) == b
  {
    HexNumber(High(b));
    HexNumber(Low(b));
    SplitHex(High(b) as nat, Low(b) as nat);
    HexBack(b);
  }

  // ---------- Frame numbers ----------

  /** Byte `i` of a number. */
  function Digit(f: nat, i: nat): (d: nat)
    ensures d < 256
  {
    if i == 0 then f % 256 else Digit(f / 256, i - 1)
  }

  /** The number with the given bytes, lowest first. */
  function Number(a: nat, b: nat, c: nat, d: nat, e: nat): nat {
    a + 256 * (b + 256 * (c + 256 * (d + 256 * e)))
  }

  lemma LowPart(x: nat, n: nat)
    requires x < 256
    ensures (x + 256 * n) % 256 == x && (x + 256 * n) / 256 == n
  {
  }

  lemma HigherDigit(x: nat, n: nat, i: nat)
    requires x < 256
    ensures Digit(x + 256 * n, i + 1) == Digit(n, i)
  {
    LowPart(x, n);
  }

  lemma NumberDigits(a: nat, b: nat, c: nat, d: nat, e: nat)
    requires a < 256 && b < 256 && c < 256 && d < 256 && e < 256
    ensures var n := Number(a, b, c, d, e);
      Digit(n, 0) == a && Digit(n, 1) == b && Digit(n, 2) == c && Digit(n, 3) == d && Digit(n, 4) == e
  {
    var n3 := d + 256 * e;
    var n2 := c + 256 * n3;
    var n1 := b + 256 * n2;
    LowPart(a, n1);
    LowPart(b, n2);
    LowPart(c, n3);
    LowPart(d, e);
    LowPart(e, 0);
    HigherDigit(a, n1, 0);
    HigherDigit(a, n1, 1);
    HigherDigit(b, n2, 0);
    HigherDigit(a, n1, 2);
    HigherDigit(b, n2, 1);
    HigherDigit(c, n3, 0);
    HigherDigit(a, n1, 3);
    HigherDigit(b, n2, 2);
    HigherDigit(c, n3, 1);
    HigherDigit(d, e, 0);
  }

  lemma DigitStep(f: nat, i: nat)
    ensures Digit(f, i + 1) == Digit(f / 256, i)
  {
  }

  lemma DigitsAre(f: nat, g: nat, h: nat, i: nat, j: nat)
    requires g == f / 256 && h == g / 256 && i == h / 256 && j == i / 256
    ensures Digit(f, 0) == f % 256 && Digit(f, 1) == g % 256 && Digit(f, 2) == h % 256 && Digit(f, 3) == i % 256
    ensures Digit(f, 4) == j % 256
  {
    DigitStep(f, 0);
    DigitStep(f, 1);
    DigitStep(g, 0);
    DigitStep(f, 2);
    DigitStep(g, 1);
    DigitStep(h, 0);
    DigitStep(f, 3);
    DigitStep(g, 2);
    DigitStep(h, 1);
    DigitStep(i, 0);
  }

  lemma Base256(f: nat, g: nat, h: nat, i: nat, j: nat)
    requires f < FRAMES && g == f / 256 && h == g / 256 && i == h / 256 && j == i / 256
    ensures f == f % 256 + 256 * g && g == g % 256 + 256 * h && h == h % 256 + 256 * i && i == i % 256 + 256 * j
    ensures j % 256 == j
  {
  }

  lemma DigitsGiveNumber(f: nat)
    requires f < FRAMES
    ensures Number(Digit(f, 0), Digit(f, 1), Digit(f, 2), Digit(f, 3), Digit(f, 4)) == f
  {
    var g := f / 256;
    var h := g / 256;
    var i := h / 256;
    var j := i / 256;
    DigitsAre(f, g, h, i, j);
    Base256(f, g, h, i, j);
  }

  /** The address word of frame `f`: its five bytes, from bit 12 on. */
  function FrameWord(f: nat): bv64 {
    Joined(ByteOf(Digit(f, 0)), ByteOf(Digit(f, 1)), ByteOf(Digit(f, 2)), ByteOf(Digit(f, 3)), ByteOf(Digit(f, 4)))
  }

  function Joined(a: bv8, b: bv8, c: bv8, d: bv8, e: bv8): bv64 {
    (a as bv64 << 12) | (b as bv64 << 20) | (c as bv64 << 28) | (d as bv64 << 36) | (e as bv64 << 44)
  }

  function ByteAt(w: bv64, shift: bv64): bv8
    requires shift < 64
  {
    ((w >> (shift as bv7)) & 0xFF) as bv8
  }

  /** The frame number in a word. */
  function FrameOf(w: bv64): nat {
    Number(Value(ByteAt(w, 12)), Value(ByteAt(w, 20)), Value(ByteAt(w, 28)), Value(ByteAt(w, 36)), Value(ByteAt(w, 44)))
  }

  // ---------- Entries and words ----------

  function Bit(b: bool, bit: bv64): bv64 { if b then bit else 0 }

  function FlagWord(e: Entry): bv64 {
    Bit(e.present, PRESENT) | Bit(e.writable, WRITABLE) | Bit(e.user, USER) | Bit(e.huge, HUGE) | Bit(e.noExec, NO_EXEC)
  }

  /** The word of an entry: its address and its flags. */
  function Encode(e: Entry): bv64 {
    NewEntry(FrameWord(e.frame), FlagWord(e))
  }

  function Decode(w: bv64): Entry {
    Entry(IsPresent(w), Contains(FlagsOf(w), WRITABLE), Contains(FlagsOf(w), USER), Contains(FlagsOf(w), HUGE),
          Contains(FlagsOf(w), NO_EXEC), FrameOf(w))
  }

  /** The bytes of an address come back out of a word whose other bits are flags. */
  lemma JoinedBytes(a: bv8, b: bv8, c: bv8, d: bv8, e: bv8, flags: bv64)
    requires flags & !ALL_FLAGS == 0
    ensures var w := Joined(a, b, c, d, e) | flags;
      ByteAt(w, 12) == a && ByteAt(w, 20) == b && ByteAt(w, 28) == c && ByteAt(w, 36) == d && ByteAt(w, 44) == e
  {
  }

  /** Flags come back out of a word whose other bits are an address. */
  lemma JoinedFlags(a: bv8, b: bv8, c: bv8, d: bv8, e: bv8, flags: bv64)
    requires flags & !ALL_FLAGS == 0
    ensures var w := Joined(a, b, c, d, e) | flags;
      && w & ALL_FLAGS == flags
      && w & PHYS_ADDR_MASK == Joined(a, b, c, d, e)
      && (w & PRESENT != 0 <==> flags & PRESENT != 0)
  {
  }

  lemma FlagWordBits(e: Entry)
    ensures FlagWord(e) & !ALL_FLAGS == 0
    ensures (FlagWord(e) & PRESENT != 0 <==> e.present) && (Contains(FlagWord(e), WRITABLE) <==> e.writable)
    ensures (Contains(FlagWord(e), USER) <==> e.user) && (Contains(FlagWord(e), HUGE) <==> e.huge)
    ensures (Contains(FlagWord(e), NO_EXEC) <==> e.noExec)
  {
  }

  lemma EncodedFrame(e: Entry)
    requires e.frame < FRAMES
    ensures FrameOf(Encode(e)) == e.frame
  {
    var f := e.frame;
    FlagWordBits(e);
    JoinedBytes(ByteOf(Digit(f, 0)), ByteOf(Digit(f, 1)), ByteOf(Digit(f, 2)), ByteOf(Digit(f, 3)), ByteOf(Digit(f, 4)),
                FlagWord(e));
    ByteValue(Digit(f, 0));
    ByteValue(Digit(f, 1));
    ByteValue(Digit(f, 2));
    ByteValue(Digit(f, 3));
    ByteValue(Digit(f, 4));
    DigitsGiveNumber(f);
  }

  lemma EncodedFlags(e: Entry)
    ensures FlagsOf(Encode(e)) == FlagWord(e) && PhysAddr(Encode(e)) == FrameWord(e.frame)
    ensures IsPresent(Encode(e)) <==> FlagWord(e) & PRESENT != 0
  {
    var f := e.frame;
    FlagWordBits(e);
    JoinedFlags(ByteOf(Digit(f, 0)), ByteOf(Digit(f, 1)), ByteOf(Digit(f, 2)), ByteOf(Digit(f, 3)), ByteOf(Digit(f, 4)),
                FlagWord(e));
  }

  /** An entry comes back out of its word, so the kernel's tests of the word are the model's tests of the entry. */
  lemma DecodeEncode(e: Entry)
    requires e.frame < FRAMES
    ensures Decode(Encode(e)) == e
  {
    var w := Encode(e);
    assert FrameOf(w) == e.frame by { EncodedFrame(e); }
    assert FlagsOf(w) == FlagWord(e) && (IsPresent(w) <==> FlagWord(e) & PRESENT != 0) by { EncodedFlags(e); }
    FlagWordBits(e);
  }

  lemma FlagsOnly(w: bv64)
    ensures w & 0x1 == (w & ALL_FLAGS) & 0x1 && w & 0x2 == (w & ALL_FLAGS) & 0x2 && w & 0x4 == (w & ALL_FLAGS) & 0x4
    ensures w & 0x80 == (w & ALL_FLAGS) & 0x80
    ensures w & 0x8000_0000_0000_0000 == (w & ALL_FLAGS) & 0x8000_0000_0000_0000
  {
  }

  /** The processor finds the entry's flags in bits 0, 1, 2, 7 and 63 of the word. */
  lemma HardwareBits(e: Entry)
    ensures Encode(e) & 0x1 != 0 <==> e.present
    ensures Encode(e) & 0x2 != 0 <==> e.writable
    ensures Encode(e) & 0x4 != 0 <==> e.user
    ensures Encode(e) & 0x80 != 0 <==> e.huge
    ensures Encode(e) & 0x8000_0000_0000_0000 != 0 <==> e.noExec
  {
    EncodedFlags(e);
    FlagsOnly(Encode(e));
    FlagWordBits(e);
  }

  // ---------- From words to entries and back ----------

  lemma WordParts(w: bv64)
    ensures Joined(ByteAt(w, 12), ByteAt(w, 20), ByteAt(w, 28), ByteAt(w, 36), ByteAt(w, 44)) == w & PHYS_ADDR_MASK
  {
  }

  /** The address in a word is that of the frame it is read as. */
  lemma FrameBack(w: bv64)
    ensures FrameWord(FrameOf(w)) == PhysAddr(w) && FrameOf(w) < FRAMES
  {
    WordParts(w);
    NumberDigits(Value(ByteAt(w, 12)), Value(ByteAt(w, 20)), Value(ByteAt(w, 28)), Value(ByteAt(w, 36)),
                 Value(ByteAt(w, 44)));
    ByteBack(ByteAt(w, 12));
    ByteBack(ByteAt(w, 20));
    ByteBack(ByteAt(w, 28));
    ByteBack(ByteAt(w, 36));
    ByteBack(ByteAt(w, 44));
  }

  /** The bits that an entry has. */
  const ENTRY_BITS: bv64 := 0x800F_FFFF_FFFF_F087

  lemma FlagsBack(w: bv64)
    ensures FlagWord(Decode(w)) == w & 0x8000_0000_0000_0087
  {
  }

  /** A word with no other bits comes back from the entry it is read as. */
  lemma EncodeDecode(w: bv64)
    ensures Encode(Decode(w)) == w & ENTRY_BITS
  {
    FrameBack(w);
    FlagsBack(w);
    MaskSplits(w);
  }

  lemma MaskSplits(w: bv64)
    ensures (w & PHYS_ADDR_MASK) | (w & 0x8000_0000_0000_0087) == w & ENTRY_BITS
  {
  }

  // ---------- Opening a table to user mode ----------

  /** The word that `ensure_table` writes over `w`: same address, same flags, and the user flag. */
  function Opened(w: bv64): bv64 {
    NewEntry(PhysAddr(w), FlagsOf(w) | USER)
  }

  lemma OpenedBits(w: bv64)
    ensures Opened(w) & PHYS_ADDR_MASK == w & PHYS_ADDR_MASK && Opened(w) & ALL_FLAGS == (w & ALL_FLAGS) | USER
    ensures Opened(w) & PRESENT == w & PRESENT
  {
  }

  lemma SameBytes(w: bv64, v: bv64)
    requires w & PHYS_ADDR_MASK == v & PHYS_ADDR_MASK
    ensures FrameOf(w) == FrameOf(v)
  {
    SameByte(w, v);
  }

  lemma SameByte(w: bv64, v: bv64)
    requires w & PHYS_ADDR_MASK == v & PHYS_ADDR_MASK
    ensures ByteAt(w, 12) == ByteAt(v, 12) && ByteAt(w, 20) == ByteAt(v, 20) && ByteAt(w, 28) == ByteAt(v, 28)
    ensures ByteAt(w, 36) == ByteAt(v, 36) && ByteAt(w, 44) == ByteAt(v, 44)
  {
  }

  lemma UserFlagAdded(f: bv64)
    ensures Contains(f | USER, USER) && (Contains(f | USER, WRITABLE) <==> Contains(f, WRITABLE))
    ensures (Contains(f | USER, HUGE) <==> Contains(f, HUGE)) && (Contains(f | USER, NO_EXEC) <==> Contains(f, NO_EXEC))
  {
  }

  /** Rebuilding a word with the user flag sets the user bit of the entry and nothing else. */
  lemma OpenedDecodes(w: bv64)
    ensures Decode(Opened(w)) == Decode(w).(user := true)
  {
    OpenedBits(w);
    SameBytes(Opened(w), w);
    UserFlagAdded(w & ALL_FLAGS);
  }

  // ---------- Tables ----------

  /** The words of a table in memory stand for its entries. */
  ghost predicate Represents(ws: seq<bv64>, c: Cell) {
    IsTable(c) && |ws| == 512 && forall i :: 0 <= i < 512 ==> Decode(ws[i]) == c.entries[i]
  }

  /** Storing the word of an entry into a table is what the model does with the entry. */
  lemma StoreRepresents(m: Mem, t: nat, ws: seq<bv64>, i: nat, e: Entry)
    requires Represents(ws, At(m, t)) && i < 512 && e.frame < FRAMES
    ensures Represents(ws[i := Encode(e)], At(SetEntry(m, t, i, e), t))
  {
    DecodeEncode(e);
  }

  /** Opening a table entry to user mode is what the model does with the entry. */
  lemma OpenRepresents(m: Mem, t: nat, ws: seq<bv64>, i: nat)
    requires Represents(ws, At(m, t)) && i < 512
    ensures Represents(ws[i := Opened(ws[i])], At(SetEntry(m, t, i, EntryAt(m, t, i).(user := true)), t))
  {
    OpenedDecodes(ws[i]);
  }

  /** A zeroed page of words is the empty table. */
  lemma ZeroRepresents()
    ensures Represents(seq(512, _ => 0 as bv64), EMPTY_TABLE)
  {
    ZeroDecodes();
  }

  lemma ZeroDecodes()
    ensures Decode(0) == EMPTY
  {
    ZeroBytes();
  }

  lemma ZeroBytes()
    ensures ByteAt(0, 12) == 0 && ByteAt(0, 20) == 0 && ByteAt(0, 28) == 0 && ByteAt(0, 36) == 0 && ByteAt(0, 44) == 0
  {
  }
}
