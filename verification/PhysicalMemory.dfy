/**
  Physical memory as the kernel sees it through the identity map: frames of 512
  eight-byte words. One and the same word is a page-table entry, the link of a
  free frame or client data, so `Word` is the bit-field layout of `struct PTE`
  and a page-aligned pointer is the word whose only non-zero field is `address`.
 */
module PhysicalMemory {

  /** A frame is named by its number, its physical address divided by 4096. Frame 0 stands for NULL. */
  type Frame = nat

  const NULL: Frame := 0

  /** The frames of the first gigabyte, which are those the kernel can reach by their address, through the identity map. */
  const REACH: Frame := 0x4_0000

  datatype Word = Word(
    present: bool,      // bit 0
    writable: bool,     // bit 1
    low: nat,           // bits 2-6
    huge: bool,         // bit 7
    global: bool,       // bit 8
    demand: bool,       // bit 9
    available: nat,     // bits 10-11
    address: nat,       // bits 12-51
    high: nat)          // bits 52-63

  predicate InRange(w: Word) {
    w.low < 0x20 && w.available < 4 && w.address < 0x100_0000_0000 && w.high < 0x1000
  }

  /** The word stored by writing the page-aligned pointer to frame `f`. */
  function Pointer(f: Frame): Word {
    Word(false, false, 0, false, false, false, 0, f, 0)
  }

  /** `pte_set_addr`: store the pointer over the whole entry, then set two bits of it. */
  function EntryFor(f: Frame): Word {
    Pointer(f).(present := true, writable := true)
  }

  function Bit(b: bool): nat {
    if b then 1 else 0
  }

  /** Bits 0 to 8 of the word as a number, lowest field first. */
  function Flags(w: Word): nat {
    Bit(w.present) + 2 * (Bit(w.writable) + 2 * (w.low + 0x20 * (Bit(w.huge) + 2 * Bit(w.global))))
  }

  /** Bits 9 to 63. */
  function Upper(w: Word): nat {
    Bit(w.demand) + 2 * (w.available + 4 * (w.address + 0x100_0000_0000 * w.high))
  }

  /** The 64-bit integer whose bit fields are those of `w`. */
  function Pack(w: Word): nat {
    Flags(w) + 0x200 * Upper(w)
  }

  /** The word whose bits 0 to 8 are `flags` and whose other bits are `upper`. */
  function Fields(flags: nat, upper: nat): Word {
    Word(flags % 2 == 1, flags / 2 % 2 == 1, flags / 2 / 2 % 0x20, flags / 2 / 2 / 0x20 % 2 == 1,
         flags / 2 / 2 / 0x20 / 2 % 2 == 1,
         upper % 2 == 1, upper / 2 % 4, upper / 2 / 4 % 0x100_0000_0000, upper / 2 / 4 / 0x100_0000_0000)
  }

  function Unpack(n: nat): Word {
    Fields(n % 0x200, n / 0x200)
  }

  lemma {:induction false} LowBit(b: bool, n: nat)
    ensures (Bit(b) + 2 * n) / 2 == n && ((Bit(b) + 2 * n) % 2 == 1) == b
  {
  }

  lemma {:induction false} FlagFields(w: Word)
    requires InRange(w)
    ensures var n := Flags(w);
            && n < 0x200 && (n % 2 == 1) == w.present && (n / 2 % 2 == 1) == w.writable
            && n / 2 / 2 % 0x20 == w.low && (n / 2 / 2 / 0x20 % 2 == 1) == w.huge
            && (n / 2 / 2 / 0x20 / 2 % 2 == 1) == w.global
  {
    var n7 := Bit(w.huge) + 2 * Bit(w.global);
    var n2 := w.low + 0x20 * n7;
    LowBit(w.present, Bit(w.writable) + 2 * n2);
    LowBit(w.writable, n2);
    LowBit(w.huge, Bit(w.global));
    assert n2 / 0x20 == n7 && n2 % 0x20 == w.low;
  }

  lemma {:induction false} UpperFields(w: Word)
    requires InRange(w)
    ensures var n := Upper(w);
            && n < 0x80_0000_0000_0000 && (n % 2 == 1) == w.demand && n / 2 % 4 == w.available
            && n / 2 / 4 % 0x100_0000_0000 == w.address && n / 2 / 4 / 0x100_0000_0000 == w.high
  {
    var n12 := w.address + 0x100_0000_0000 * w.high;
    var n10 := w.available + 4 * n12;
    LowBit(w.demand, n10);
    assert n10 / 4 == n12 && n10 % 4 == w.available;
    assert n12 / 0x100_0000_0000 == w.high && n12 % 0x100_0000_0000 == w.address;
  }

  lemma {:induction false} HalfAndBit(n: nat)
    ensures Bit(n % 2 == 1) + 2 * (n / 2) == n
  {
  }

  lemma {:induction false} FlagsOf(flags: nat, upper: nat)
    requires flags < 0x200
    ensures Flags(Fields(flags, upper)) == flags && Fields(flags, upper).low < 0x20
  {
    HalfAndBit(flags);
    HalfAndBit(flags / 2);
    var n7 := flags / 2 / 2 / 0x20;
    assert flags / 2 / 2 == flags / 2 / 2 % 0x20 + 0x20 * n7;
    HalfAndBit(n7);
    HalfAndBit(n7 / 2);
    assert flags / 2 < 0x100 && flags / 2 / 2 < 0x80 && n7 < 4;
  }

  lemma {:induction false} UpperOf(flags: nat, upper: nat)
    requires upper < 0x80_0000_0000_0000
    ensures Upper(Fields(flags, upper)) == upper
    ensures var w := Fields(flags, upper); w.available < 4 && w.address < 0x100_0000_0000 && w.high < 0x1000
  {
    HalfAndBit(upper);
    var n10 := upper / 2;
    var n12 := n10 / 4;
    assert n10 == n10 % 4 + 4 * n12;
    assert n12 == n12 % 0x100_0000_0000 + 0x100_0000_0000 * (n12 / 0x100_0000_0000);
    assert n10 < 0x40_0000_0000_0000 && n12 < 0x10_0000_0000_0000;
  }

  /** The bit-field view loses nothing of the 64-bit word. */
  lemma {:induction false} UnpackPack(w: Word)
    requires InRange(w)
    ensures Pack(w) < 0x1_0000_0000_0000_0000 && Unpack(Pack(w)) == w
  {
    hide Flags, Upper;
    FlagFields(w);
    UpperFields(w);
    assert Pack(w) / 0x200 == Upper(w) && Pack(w) % 0x200 == Flags(w);
  }

  lemma {:induction false} PackUnpack(n: nat)
    requires n < 0x1_0000_0000_0000_0000
    ensures InRange(Unpack(n)) && Pack(Unpack(n)) == n
  {
    hide Flags, Upper, Fields;
    FlagsOf(n % 0x200, n / 0x200);
    UpperOf(n % 0x200, n / 0x200);
  }

  /** A frame pointer is the frame's byte address; a table entry for it is that address with bits 0 and 1 set. */
  lemma {:induction false} PointerIsByteAddress(f: Frame)
    ensures Pack(Pointer(f)) == 4096 * f
    ensures Pack(EntryFor(f)) == 4096 * f + 3
  {
  }

  datatype Slot = Slot(frame: Frame, index: nat)

  /** The words written so far; a word never written reads as zero. */
  type Memory = map<Slot, Word>

  function Read(m: Memory, s: Slot): Word {
    if s in m then m[s] else Pointer(NULL)
  }

  /** Every word is one of 64 bits. */
  ghost predicate Bounded(m: Memory) {
    forall x: Slot :: InRange(Read(m, x))
  }

  lemma {:induction false} BoundedWrite(m: Memory, x: Slot, w: Word)
    requires Bounded(m) && InRange(w)
    ensures Bounded(m[x := w])
  {
    var m' := m[x := w];
    forall y: Slot
      ensures InRange(Read(m', y))
    {
      assert InRange(Read(m, y));
    }
  }
}
