/**
 * The LOLopener GPIO kernel driver: function select, set, clear and level
 * registers of the BCM2835 GPIO block (section 6.1 of the BCM2835 ARM
 * Peripherals manual), reached through the mapped pointer `mgpio`.
 */
module LolGpio {

  const MaskMode: bv32 := 7
  const InputMode: int := 0
  const OutputMode: int := 1

  /**
   * Pin numbers, bit offsets and register indices are 8-bit values here:
   * every one the driver uses is below 64, so the C `int` arithmetic of the
   * macros gives the same numbers.
   */

  /** GPF_IDX: the GPFSEL register that holds a pin's function field, ten pins per register. */
  function GpfIdx(g: bv8): (i: bv8)
    requires g < 64
    ensures i <= 6 && (g < 60 ==> i < 6)
  {
    g / 10
  }

  /** GPF_OFFS: the bit offset of a pin's 3-bit function field. */
  function GpfOffs(g: bv8): (o: bv8)
    requires g < 64
    ensures o <= 27
  {
    3 * (g - 10 * GpfIdx(g))
  }

  /** A pin is the `GpfOffs(g) / 3`-th field of word `GpfIdx(g)`, and its offset is a multiple of three. */
  lemma GpfLocation(g: bv8)
    requires g < 64
    ensures 10 * GpfIdx(g) <= g && g - 10 * GpfIdx(g) < 10
    ensures GpfOffs(g) % 3 == 0 && g == 10 * GpfIdx(g) + GpfOffs(g) / 3
  {
  }

  /** GPSCL_IDX: the GPSET/GPCLR/GPLEV register of a pin, 32 pins per register. */
  function GpsclIdx(g: bv8): (i: bv8)
    requires g < 64
    ensures i < 2
  {
    g / 32
  }

  /** GPSCL_OFFS: the bit of a pin in its GPSET/GPCLR/GPLEV register. */
  function GpsclOffs(g: bv8): (o: bv8)
    requires g < 64
    ensures o < 32
  {
    g % 32
  }

  /** A pin is bit `GpsclOffs(g)` of word `GpsclIdx(g)`. */
  lemma GpsclLocation(g: bv8)
    requires g < 64
    ensures g == 32 * GpsclIdx(g) + GpsclOffs(g)
  {
  }

  /** Two pins never share a function field. */
  lemma FunctionFieldsDistinct(g: bv8, h: bv8)
    requires g < 64 && h < 64 && g != h
    ensures GpfIdx(g) != GpfIdx(h) || GpfOffs(g) != GpfOffs(h)
  {
    GpfLocation(g);
    GpfLocation(h);
  }

  /** Two pins never share a set/clear/level bit. */
  lemma LevelBitsDistinct(g: bv8, h: bv8)
    requires g < 64 && h < 64 && g != h
    ensures GpsclIdx(g) != GpsclIdx(h) || GpsclOffs(g) != GpsclOffs(h)
  {
    GpsclLocation(g);
    GpsclLocation(h);
  }

  /** Bit `i` of a register word. */
  predicate Bit(w: bv32, i: bv8)
    requires i < 32
  {
    (w >> i) & 1 == 1
  }

  /** The 3-bit field at offset `offs` of a register word. */
  function FieldOf(w: bv32, offs: bv8): bv32
    requires offs <= 29
  {
    (w >> offs) & MaskMode
  }

  /** `MASK_MODE << offs`: the three bits of the field at `offs`. */
  function FieldMask(offs: bv8): bv32
    requires offs <= 29
  {
    MaskMode << offs
  }

  /** `mode << offs`: a mode moved to the field at `offs`. */
  function Placed(mode: bv32, offs: bv8): bv32
    requires offs <= 29
  {
    mode << offs
  }

  /** A word with the bits of `clear` cleared, then the bits of `bits` set. */
  function ClearSet(w: bv32, clear: bv32, bits: bv32): bv32 {
    (w & !clear) | bits
  }

  /** The word with its 3-bit field at `offs` cleared and then set to `mode`. */
  function WithField(w: bv32, offs: bv8, mode: bv32): bv32
    requires offs <= 29 && mode <= 7
  {
    ClearSet(w, FieldMask(offs), Placed(mode, offs))
  }

  /** The word after the two statements of the read-modify-write: the cleared value, then the mode or-ed in. */
  lemma ClearThenSetIsWithField(w: bv32, offs: bv8, mode: bv32, cleared: bv32, result: bv32)
    requires offs <= 29 && mode <= 7
    requires cleared == w & !FieldMask(offs) && result == cleared | Placed(mode, offs)
    ensures result == WithField(w, offs, mode)
  {
  }

  /** Afterwards the field holds `mode`. */
  lemma WithFieldSetsField(w: bv32, offs: bv8, mode: bv32)
    requires offs <= 29 && mode <= 7
    ensures FieldOf(WithField(w, offs, mode), offs) == mode
  {
  }

  /** Outside the field the word is as before. */
  lemma WithFieldKeepsRest(w: bv32, offs: bv8, mode: bv32)
    requires offs <= 29 && mode <= 7
    ensures WithField(w, offs, mode) & !FieldMask(offs) == w & !FieldMask(offs)
  {
  }

  /** Only the three bits of the field change. */
  lemma WithFieldKeepsOtherBits(w: bv32, offs: bv8, mode: bv32, i: bv8)
    requires offs <= 29 && mode <= 7 && i < 32 && (i < offs || offs + 3 <= i)
    ensures Bit(WithField(w, offs, mode), i) == Bit(w, i)
  {
  }

  /** Writing a field leaves a field at another offset as it was. */
  lemma FieldIsolation(w: bv32, offs: bv8, other: bv8, mode: bv32)
    requires offs <= 29 && other <= 29 && FieldMask(offs) & FieldMask(other) == 0 && mode <= 7
    ensures FieldOf(WithField(w, offs, mode), other) == FieldOf(w, other)
  {
    PlacedWithinMask(offs, mode);
    ClearSetOutside(w, FieldMask(offs), Placed(mode, offs), FieldMask(other));
    FieldOfMasked(WithField(w, offs, mode), other);
    FieldOfMasked(w, other);
  }

  /** A mode of at most three bits, moved to `offs`, lies within the field's mask. */
  lemma PlacedWithinMask(offs: bv8, mode: bv32)
    requires offs <= 29 && mode <= 7
    ensures Placed(mode, offs) & !FieldMask(offs) == 0
  {
  }

  /** A clear-then-set update confined to mask `a` leaves the bits of a disjoint mask `c` alone. */
  lemma ClearSetOutside(w: bv32, a: bv32, b: bv32, c: bv32)
    requires a & c == 0 && b & !a == 0
    ensures ClearSet(w, a, b) & c == w & c
  {
  }

  /** A field depends only on the bits of its mask. */
  lemma FieldOfMasked(w: bv32, offs: bv8)
    requires offs <= 29
    ensures FieldOf(w, offs) == FieldOf(w & FieldMask(offs), offs)
  {
  }

  /** Writing the same field twice with the same mode is writing it once. */
  lemma WithFieldIdempotent(w: bv32, offs: bv8, mode: bv32)
    requires offs <= 29 && mode <= 7
    ensures WithField(WithField(w, offs, mode), offs, mode) == WithField(w, offs, mode)
  {
  }

  /** Fields at two different offsets that are multiples of three share no bit. */
  lemma FieldsDisjoint(offs: bv8, other: bv8)
    requires offs <= 27 && other <= 27 && offs % 3 == 0 && other % 3 == 0 && offs != other
    ensures FieldMask(offs) & FieldMask(other) == 0
  {
  }

  /** Two different pins of one GPFSEL word have fields that share no bit. */
  lemma PinFieldsDisjoint(g: bv8, h: bv8)
    requires g < 64 && h < 64 && g != h && GpfIdx(g) == GpfIdx(h)
    ensures FieldMask(GpfOffs(g)) & FieldMask(GpfOffs(h)) == 0
  {
    GpfLocation(g);
    GpfLocation(h);
    FieldsDisjoint(GpfOffs(g), GpfOffs(h));
  }

  /** Two clear-then-set updates written out as one expression. */
  lemma ClearSetTwice(w: bv32, a: bv32, b: bv32, c: bv32, d: bv32)
    ensures ClearSet(ClearSet(w, a, b), c, d) == (((w & !a) | b) & !c) | d
  {
  }

  /** Two clear-then-set updates of disjoint masks, each setting only bits of its own mask, commute. */
  lemma ClearSetCommutes(w: bv32, a: bv32, b: bv32, c: bv32, d: bv32)
    requires a & c == 0 && b & !a == 0 && d & !c == 0
    ensures ClearSet(ClearSet(w, a, b), c, d) == ClearSet(ClearSet(w, c, d), a, b)
  {
    ClearSetTwice(w, a, b, c, d);
    ClearSetTwice(w, c, d, a, b);
    DisjointUpdatesCommute(w, a, b, c, d);
  }

  lemma DisjointUpdatesCommute(w: bv32, a: bv32, b: bv32, c: bv32, d: bv32)
    requires a & c == 0 && b & !a == 0 && d & !c == 0
    ensures (((w & !a) | b) & !c) | d == (((w & !c) | d) & !a) | b
  {
  }

  /** Writes to two different fields of a word commute. */
  lemma WithFieldCommutes(w: bv32, offs: bv8, other: bv8, mode: bv32, mode': bv32)
    requires offs <= 29 && other <= 29 && FieldMask(offs) & FieldMask(other) == 0
    requires mode <= 7 && mode' <= 7
    ensures WithField(WithField(w, offs, mode), other, mode') == WithField(WithField(w, other, mode'), offs, mode)
  {
    var a, b := FieldMask(offs), Placed(mode, offs);
    var c, d := FieldMask(other), Placed(mode', other);
    assert b & !a == 0;
    assert d & !c == 0;
    ClearSetCommutes(w, a, b, c, d);
  }

  /** The function field of pin `g` in the six GPFSEL words. */
  function PinMode(fsel: seq<bv32>, g: bv8): bv32
    requires |fsel| == 6 && g < 60
  {
    FieldOf(fsel[GpfIdx(g)], GpfOffs(g))
  }

  /** GPFSEL after setting pin `g` to `mode`: its field in its word is rewritten. */
  function SetupWords(fsel: seq<bv32>, g: bv8, mode: bv32): seq<bv32>
    requires |fsel| == 6 && g < 60 && mode <= 7
  {
    fsel[GpfIdx(g) := WithField(fsel[GpfIdx(g)], GpfOffs(g), mode)]
  }

  /** After a setup the pin's function field holds the mode. */
  lemma SetupSetsPin(fsel: seq<bv32>, g: bv8, mode: bv32)
    requires |fsel| == 6 && g < 60 && mode <= 7
    ensures |SetupWords(fsel, g, mode)| == 6 && PinMode(SetupWords(fsel, g, mode), g) == mode
  {
    WithFieldSetsField(fsel[GpfIdx(g)], GpfOffs(g), mode);
  }

  /** A setup leaves every other pin's function field as it was. */
  lemma SetupKeepsOtherPins(fsel: seq<bv32>, g: bv8, mode: bv32, h: bv8)
    requires |fsel| == 6 && g < 60 && mode <= 7 && h < 60 && h != g
    ensures PinMode(SetupWords(fsel, g, mode), h) == PinMode(fsel, h)
  {
    if GpfIdx(h) == GpfIdx(g) {
      SetupKeepsOtherPinInWord(fsel, g, mode, h);
    }
  }

  lemma SetupKeepsOtherPinInWord(fsel: seq<bv32>, g: bv8, mode: bv32, h: bv8)
    requires |fsel| == 6 && g < 60 && mode <= 7 && h < 60 && h != g && GpfIdx(h) == GpfIdx(g)
    ensures PinMode(SetupWords(fsel, g, mode), h) == PinMode(fsel, h)
  {
    var w := fsel[GpfIdx(g)];
    PinFieldsDisjoint(g, h);
    FieldIsolation(w, GpfOffs(g), GpfOffs(h), mode);
    assert SetupWords(fsel, g, mode)[GpfIdx(h)] == WithField(w, GpfOffs(g), mode);
  }

  /** A setup leaves the bits outside the pin's field as they were, in its word and in every other word. */
  lemma SetupKeepsOtherBits(fsel: seq<bv32>, g: bv8, mode: bv32)
    requires |fsel| == 6 && g < 60 && mode <= 7
    ensures forall k: bv8 :: k < 6 && k != GpfIdx(g) ==> SetupWords(fsel, g, mode)[k] == fsel[k]
    ensures SetupWords(fsel, g, mode)[GpfIdx(g)] & !FieldMask(GpfOffs(g)) == fsel[GpfIdx(g)] & !FieldMask(GpfOffs(g))
  {
    WithFieldKeepsRest(fsel[GpfIdx(g)], GpfOffs(g), mode);
  }

  /** Setting a pin to the same mode twice gives the registers of setting it once. */
  lemma SetupIdempotent(fsel: seq<bv32>, g: bv8, mode: bv32)
    requires |fsel| == 6 && g < 60 && mode <= 7
    ensures SetupWords(SetupWords(fsel, g, mode), g, mode) == SetupWords(fsel, g, mode)
  {
    WithFieldIdempotent(fsel[GpfIdx(g)], GpfOffs(g), mode);
  }

  /** Setting up two different pins gives the same registers in either order. */
  lemma SetupCommutes(fsel: seq<bv32>, g: bv8, h: bv8, mode: bv32, mode': bv32)
    requires |fsel| == 6 && g < 60 && h < 60 && g != h && mode <= 7 && mode' <= 7
    ensures SetupWords(SetupWords(fsel, g, mode), h, mode') == SetupWords(SetupWords(fsel, h, mode'), g, mode)
  {
    if GpfIdx(g) == GpfIdx(h) {
      SetupCommutesInOneWord(fsel, g, h, mode, mode');
    }
  }

  lemma SetupCommutesInOneWord(fsel: seq<bv32>, g: bv8, h: bv8, mode: bv32, mode': bv32)
    requires |fsel| == 6 && g < 60 && h < 60 && g != h && mode <= 7 && mode' <= 7
    requires GpfIdx(g) == GpfIdx(h)
    ensures SetupWords(SetupWords(fsel, g, mode), h, mode') == SetupWords(SetupWords(fsel, h, mode'), g, mode)
  {
    var i, w := GpfIdx(g), fsel[GpfIdx(g)];
    PinFieldsDisjoint(g, h);
    WithFieldCommutes(w, GpfOffs(g), GpfOffs(h), mode, mode');
    SameSlotTwice(fsel, i as int, WithField(w, GpfOffs(g), mode), WithField(WithField(w, GpfOffs(g), mode), GpfOffs(h), mode'));
    SameSlotTwice(fsel, i as int, WithField(w, GpfOffs(h), mode'), WithField(WithField(w, GpfOffs(h), mode'), GpfOffs(g), mode));
  }

  /** Updating one slot of a sequence twice keeps only the second value. */
  lemma SameSlotTwice<T>(s: seq<T>, i: int, x: T, y: T)
    requires 0 <= i < |s|
    ensures s[i := x][i := y] == s[i := y]
  {
  }

  /** The one-bit mask of pin `g` in its set/clear/level word. */
  function PinMask(g: bv8): bv32
    requires g < 64
  {
    1 << GpsclOffs(g)
  }

  /** The mask of a pin has exactly the pin's bit set. */
  lemma PinMaskSelectsPin(g: bv8, i: bv8)
    requires g < 64 && i < 32
    ensures Bit(PinMask(g), i) <==> i == GpsclOffs(g)
  {
  }

  /** The GPFSEL words after the pin configuration of the module init: pin 4 input, pins 7, 8, 9 and 11 output. */
  function Configured(fsel: seq<bv32>): seq<bv32>
    requires |fsel| == 6
  {
    SetupWords(SetupWords(SetupWords(SetupWords(SetupWords(fsel, 4, 0), 7, 1), 8, 1), 9, 1), 11, 1)
  }

  /** After the configuration pin 4 is input, pins 7, 8, 9 and 11 are output, and every other pin keeps its mode. */
  lemma ConfiguredModes(fsel: seq<bv32>, h: bv8)
    requires |fsel| == 6 && h < 60
    ensures |Configured(fsel)| == 6
    ensures h == 4 ==> PinMode(Configured(fsel), h) == 0
    ensures h in {7, 8, 9, 11} ==> PinMode(Configured(fsel), h) == 1
    ensures h !in {4, 7, 8, 9, 11} ==> PinMode(Configured(fsel), h) == PinMode(fsel, h)
  {
    var f0 := fsel;
    var f1 := SetupWords(f0, 4, 0);
    var f2 := SetupWords(f1, 7, 1);
    var f3 := SetupWords(f2, 8, 1);
    var f4 := SetupWords(f3, 9, 1);
    var f5 := SetupWords(f4, 11, 1);
    SetupSetsPin(f0, 4, 0);
    SetupSetsPin(f1, 7, 1);
    SetupSetsPin(f2, 8, 1);
    SetupSetsPin(f3, 9, 1);
    SetupSetsPin(f4, 11, 1);
    if h != 4 { SetupKeepsOtherPins(f0, 4, 0, h); }
    if h != 7 { SetupKeepsOtherPins(f1, 7, 1, h); }
    if h != 8 { SetupKeepsOtherPins(f2, 8, 1, h); }
    if h != 9 { SetupKeepsOtherPins(f3, 9, 1, h); }
    if h != 11 { SetupKeepsOtherPins(f4, 11, 1, h); }
  }

  /** The pin number of a C `int` argument in range. */
  function PinOf(gpio: int): bv8
    requires 0 <= gpio < 64
  {
    gpio as bv8
  }

  /** The pins the module init configures, as 8-bit values. */
  lemma PinOfLiterals()
    ensures PinOf(4) == 4 && PinOf(7) == 7 && PinOf(8) == 8 && PinOf(9) == 9 && PinOf(11) == 11
  {
  }

  /** The field value of a valid C `int` mode. */
  function ModeBits(mode: int): bv32
    requires mode == InputMode || mode == OutputMode
  {
    if mode == InputMode then 0 else 1
  }

  /** The registers of `struct reg_gpio`, in the order they are laid out. */
  datatype Register = GpFsel | GpSet | GpClr | GpLev | GpEds | GpRen | GpFen

  const Layout: seq<Register> := [GpFsel, GpSet, GpClr, GpLev, GpEds, GpRen, GpFen]

  /** Number of 32-bit words of each register group. */
  function Words(r: Register): nat {
    if r == GpFsel then 6 else 2
  }

  /** Byte offset of the k-th register group: each group is followed by one reserved word. */
  function ByteOffsetAt(k: nat): nat
    requires k <= |Layout|
  {
    if k == 0 then 0 else ByteOffsetAt(k - 1) + 4 * (Words(Layout[k - 1]) + 1)
  }

  /** The struct places every register at the address the BCM2835 manual gives it, and is 0x64 bytes long. */
  lemma LayoutMatchesManual()
    ensures ByteOffsetAt(1) == 0x1C && ByteOffsetAt(2) == 0x28 && ByteOffsetAt(3) == 0x34
    ensures ByteOffsetAt(4) == 0x40 && ByteOffsetAt(5) == 0x4C && ByteOffsetAt(6) == 0x58
    ensures ByteOffsetAt(7) == 0x64
  {
  }

  /** The read-modify-write of `lol_setup_gpio`: read word `i`, clear the field at `offs`, or in `mode`, write it back. */
  method ReadModifyWrite(a: array<bv32>, i: int, offs: bv8, mode: bv32)
    requires 0 <= i < a.Length && offs <= 29 && mode <= 7
    modifies a
    ensures a[..] == old(a[..])[i := WithField(old(a[i]), offs, mode)]
  {
    var tmp := a[i];
    ghost var word := tmp;
    tmp := tmp & !FieldMask(offs);
    ghost var cleared := tmp;
    tmp := tmp | Placed(mode, offs);
    ClearThenSetIsWithField(word, offs, mode, cleared, tmp);
    a[i] := tmp;
  }

  /** `struct reg_gpio`: the memory-mapped register block as plain words. */
  class RegGpio {
    const gpfsel: array<bv32>
    var reserved1: bv32
    const gpset: array<bv32>
    var reserved2: bv32
    const gpclr: array<bv32>
    var reserved3: bv32
    const gplev: array<bv32>
    var reserved4: bv32
    const gpeds: array<bv32>
    var reserved5: bv32
    const gpren: array<bv32>
    var reserved6: bv32
    const gpfen: array<bv32>
    var reserved7: bv32

    ghost predicate Valid() {
      gpfsel.Length == Words(GpFsel) && gpset.Length == Words(GpSet) && gpclr.Length == Words(GpClr)
      && gplev.Length == Words(GpLev) && gpeds.Length == Words(GpEds) && gpren.Length == Words(GpRen)
      && gpfen.Length == Words(GpFen)
      && gpfsel != gpset && gpfsel != gpclr && gpfsel != gplev && gpfsel != gpeds && gpfsel != gpren && gpfsel != gpfen
      && gpset != gpclr && gpset != gplev && gpset != gpeds && gpset != gpren && gpset != gpfen
      && gpclr != gplev && gpclr != gpeds && gpclr != gpren && gpclr != gpfen
      && gplev != gpeds && gplev != gpren && gplev != gpfen
      && gpeds != gpren && gpeds != gpfen
      && gpren != gpfen
    }

    constructor ()
      ensures Valid()
      ensures fresh(gpfsel) && fresh(gpset) && fresh(gpclr) && fresh(gplev)
      ensures fresh(gpeds) && fresh(gpren) && fresh(gpfen)
    {
      gpfsel := new bv32[6];
      gpset := new bv32[2];
      gpclr := new bv32[2];
      gplev := new bv32[2];
      gpeds := new bv32[2];
      gpren := new bv32[2];
      gpfen := new bv32[2];
    }
  }

  /** A write to a write-only output register: GPSET or GPCLR word `word` receives `mask`. */
  datatype PinWrite = SetWrite(word: bv8, mask: bv32) | ClearWrite(word: bv8, mask: bv32)

  /** The driver's global state: the pointer `mgpio`, null until the block is mapped. */
  class LolGpioDriver {
    var mgpio: RegGpio?
    /** Every write to GPSET and GPCLR so far, oldest first: a plain word keeps only the last mask. */
    ghost var writes: seq<PinWrite>

    ghost predicate Valid()
      reads this
    {
      mgpio != null ==> mgpio.Valid()
    }

    constructor ()
      ensures mgpio == null && writes == []
    {
      mgpio := null;
      writes := [];
    }

    /** `lol_setup_gpio`: read-modify-write of the pin's 3-bit field in its GPFSEL word. */
    method SetupGpio(gpio: int, mode: int) returns (ret: int)
      requires Valid()
      requires mgpio != null && (mode == InputMode || mode == OutputMode) ==> 0 <= gpio < 60
      modifies if mgpio != null then {mgpio.gpfsel} else {}
      ensures ret == if mgpio == null then -1 else if mode != InputMode && mode != OutputMode then -2 else 0
      ensures mgpio != null && ret == 0 ==> mgpio.gpfsel[..] == SetupWords(old(mgpio.gpfsel[..]), PinOf(gpio), ModeBits(mode))
      ensures mgpio != null && ret != 0 ==> mgpio.gpfsel[..] == old(mgpio.gpfsel[..])
    {
      ret := 0;
      if mgpio == null {
        ret := -1;
      } else if mode != InputMode && mode != OutputMode {
        ret := -2;
      } else {
        var g := PinOf(gpio);
        ReadModifyWrite(mgpio.gpfsel, GpfIdx(g) as int, GpfOffs(g), ModeBits(mode));
      }
    }

    /** `lol_set_gpio`: value 1 writes the pin's mask to GPSET, value 0 to GPCLR. */
    method SetGpio(gpio: int, value: int) returns (ret: int)
      requires Valid()
      requires mgpio != null && (value == 0 || value == 1) ==> 0 <= gpio < 64
      modifies this`writes, if mgpio != null then {mgpio.gpset, mgpio.gpclr} else {}
      ensures ret == if mgpio == null then -1 else if value == 1 || value == 0 then 0 else -2
      ensures ret == 0 && value == 1 ==>
        mgpio.gpset[..] == old(mgpio.gpset[..])[GpsclIdx(PinOf(gpio)) := PinMask(PinOf(gpio))]
        && mgpio.gpclr[..] == old(mgpio.gpclr[..])
        && writes == old(writes) + [SetWrite(GpsclIdx(PinOf(gpio)), PinMask(PinOf(gpio)))]
      ensures ret == 0 && value == 0 ==>
        mgpio.gpclr[..] == old(mgpio.gpclr[..])[GpsclIdx(PinOf(gpio)) := PinMask(PinOf(gpio))]
        && mgpio.gpset[..] == old(mgpio.gpset[..])
        && writes == old(writes) + [ClearWrite(GpsclIdx(PinOf(gpio)), PinMask(PinOf(gpio)))]
      ensures ret != 0 ==> writes == old(writes)
      ensures ret != 0 && mgpio != null ==>
        mgpio.gpset[..] == old(mgpio.gpset[..]) && mgpio.gpclr[..] == old(mgpio.gpclr[..])
    {
      ret := 0;
      if mgpio == null {
        ret := -1;
      } else if value == 1 {
        mgpio.gpset[GpsclIdx(PinOf(gpio))] := 1 << GpsclOffs(PinOf(gpio));
        writes := writes + [SetWrite(GpsclIdx(PinOf(gpio)), PinMask(PinOf(gpio)))];
      } else if value == 0 {
        mgpio.gpclr[GpsclIdx(PinOf(gpio))] := 1 << GpsclOffs(PinOf(gpio));
        writes := writes + [ClearWrite(GpsclIdx(PinOf(gpio)), PinMask(PinOf(gpio)))];
      } else {
        ret := -2;
      }
    }

    /** `lol_get_gpio`: the level of a pin from GPLEV, or -1 while unmapped. */
    function GetGpio(gpio: int): (r: int)
      requires Valid()
      requires mgpio != null ==> 0 <= gpio < 64
      reads this, if mgpio != null then {mgpio.gplev} else {}
      ensures -1 <= r <= 1
      ensures r == -1 <==> mgpio == null
      ensures mgpio != null ==> (r == 1 <==> Bit(mgpio.gplev[GpsclIdx(PinOf(gpio))], GpsclOffs(PinOf(gpio))))
    {
      if mgpio == null then -1
      else if mgpio.gplev[GpsclIdx(PinOf(gpio))] & (1 << GpsclOffs(PinOf(gpio))) != 0 then 1
      else 0
    }

    /** The five `lol_setup_gpio` calls of the module init: pin 4 input, pins 7, 8, 9 and 11 output. */
    method ConfigurePins()
      requires Valid() && mgpio != null
      modifies mgpio.gpfsel
      ensures mgpio.gpfsel[..] == Configured(old(mgpio.gpfsel[..]))
    {
      PinOfLiterals();
      ghost var f0 := mgpio.gpfsel[..];
      var r := SetupGpio(4, InputMode);
      ghost var f1 := mgpio.gpfsel[..];
      assert f1 == SetupWords(f0, 4, 0);
      r := SetupGpio(7, OutputMode);
      ghost var f2 := mgpio.gpfsel[..];
      assert f2 == SetupWords(f1, 7, 1);
      r := SetupGpio(8, OutputMode);
      ghost var f3 := mgpio.gpfsel[..];
      assert f3 == SetupWords(f2, 8, 1);
      r := SetupGpio(9, OutputMode);
      ghost var f4 := mgpio.gpfsel[..];
      assert f4 == SetupWords(f3, 9, 1);
      r := SetupGpio(11, OutputMode);
      assert mgpio.gpfsel[..] == SetupWords(f4, 11, 1);
    }

    /**
     * `lol_gpio_init`: `regionReserved` is what `request_mem_region`
     * reported and `mapping` what `ioremap` returned. On success the pins
     * are configured and the two output pins 7 and 9 are set.
     */
    method Init(regionReserved: bool, mapping: RegGpio?) returns (ret: int)
      requires Valid()
      requires mapping != null ==> mapping.Valid()
      modifies this, if mapping != null then {mapping.gpfsel, mapping.gpset, mapping.gpclr} else {}
      ensures ret == if regionReserved && mapping != null then 0 else -1
      ensures Valid()
      ensures !regionReserved ==> mgpio == old(mgpio)
      ensures regionReserved ==> mgpio == mapping
      ensures ret != 0 ==> writes == old(writes)
      ensures ret != 0 && mapping != null ==>
        (mapping.gpfsel[..] == old(mapping.gpfsel[..])
         && mapping.gpset[..] == old(mapping.gpset[..]) && mapping.gpclr[..] == old(mapping.gpclr[..]))
      ensures ret == 0 ==>
        (mapping.gpfsel[..] == Configured(old(mapping.gpfsel[..]))
         && mapping.gpset[..] == old(mapping.gpset[..])[0 := PinMask(9)]
         && mapping.gpclr[..] == old(mapping.gpclr[..])
         && writes == old(writes) + [SetWrite(0, PinMask(7)), SetWrite(0, PinMask(9))])
    {
      if !regionReserved {
        return -1;
      }
      mgpio := mapping;
      if mgpio == null {
        return -1;
      }
      ConfigurePins();
      PinOfLiterals();
      ghost var s0 := mgpio.gpset[..];
      var r := SetGpio(7, 1);
      assert mgpio.gpset[..] == s0[0 := PinMask(7)];
      r := SetGpio(9, 1);
      assert mgpio.gpset[..] == s0[0 := PinMask(7)][0 := PinMask(9)];
      SameSlotTwice(s0, 0, PinMask(7), PinMask(9));
      ret := 0;
    }

    /**
     * The register writes of `lol_gpio_exit`: pins 7 and 9 are cleared
     * through `lol_set_gpio(..., 0)`. The unmapping and the release of the
     * region that follow are kernel calls; `mgpio` is not reset by the C.
     */
    method Exit()
      requires Valid()
      modifies this`writes, if mgpio != null then {mgpio.gpset, mgpio.gpclr} else {}
      ensures mgpio == null ==> writes == old(writes)
      ensures mgpio != null ==>
        (mgpio.gpclr[..] == old(mgpio.gpclr[..])[0 := PinMask(9)]
         && mgpio.gpset[..] == old(mgpio.gpset[..])
         && writes == old(writes) + [ClearWrite(0, PinMask(7)), ClearWrite(0, PinMask(9))])
    {
      PinOfLiterals();
      ghost var c0 := if mgpio != null then mgpio.gpclr[..] else [];
      var r := SetGpio(7, 0);
      r := SetGpio(9, 0);
      if mgpio != null {
        assert mgpio.gpclr[..] == c0[0 := PinMask(7)][0 := PinMask(9)];
        SameSlotTwice(c0, 0, PinMask(7), PinMask(9));
      }
    }
  }
}
