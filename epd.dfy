/**
 * The pixel packing and GPIO byte writes of the e-paper driver (firmware/EPDClass.h):
 * `transfer` turns each group of four 1-pixel-per-byte inputs into one byte of four 2-bit
 * fields through a 16-entry palette and a mask, and writes it to eight consecutive GPIO pins
 * with `digitalWriteByte`; `pinModeByte` configures those eight pins. Pin numbers are the
 * source's 32-bit `int`s, modelled as `bv32`.
 */
module EpdPixels {
  import opened Wrappers

  /** `WIDTH` (line 149): pixels per row. */
  const Width: nat := 1024

  /** `WIDTH / 4`: bytes sent per row, one per group of four pixels. */
  const Groups: nat := 256

  /**
   * Line 113: `(data[0] << 3) | (data[1] << 2) | (data[2] << 1) | data[3]`, computed on `int` and
   * stored in a `uint8_t`, so only the low 8 bits are kept.
   */
  function GroupIndex(d0: bv8, d1: bv8, d2: bv8, d3: bv8): bv8 {
    ((((d0 as bv32) << 3) | ((d1 as bv32) << 2) | ((d2 as bv32) << 1) | (d3 as bv32)) & 0xFF) as bv8
  }

  /** With 0/1 pixels the index is the 4-bit number `8*d0 + 4*d1 + 2*d2 + d3`. */
  lemma GroupIndexOfPixels(d0: bv8, d1: bv8, d2: bv8, d3: bv8)
    requires d0 <= 1 && d1 <= 1 && d2 <= 1 && d3 <= 1
    ensures GroupIndex(d0, d1, d2, d3) == 8 * d0 + 4 * d1 + 2 * d2 + d3
    ensures GroupIndex(d0, d1, d2, d3) < 16
  {
  }

  /** A larger pixel byte can push the index past the palette: `(2 << 3) | 0 | 0 | 0` is 16. */
  lemma GroupIndexPastPalette()
    ensures GroupIndex(2, 0, 0, 0) == 16
  {
  }

  /** Lines 115-132. */
  const Palette: seq<bv8> := [
    0xAA, 0xA9, 0xA6, 0xA5, 0x9A, 0x99, 0x96, 0x95,
    0x6A, 0x69, 0x66, 0x65, 0x5A, 0x59, 0x56, 0x55
  ]

  /** The 2-bit field of pixel `k` (0..3) in a native byte: bits `7-2k..6-2k`. */
  function Field(b: bv8, k: bv8): bv8
    requires k < 4
  {
    (b >> (6 - 2 * k)) & 3
  }

  /** Bit `j` of a palette index, counted from the least significant. */
  predicate IndexBit(i: bv8, j: bv8)
    requires j < 8
  {
    (i >> j) & 1 == 1
  }

  /** The palette's closed form: pixel `k`'s field is `01` when bit `3 - k` of the index is set, `10` otherwise. */
  lemma PaletteClosedForm(i: bv8, k: bv8)
    requires i < 16 && k < 4
    ensures Field(Palette[i as int], k) == if IndexBit(i, 3 - k) then 1 else 2
  {
    assert i == 0 || i == 1 || i == 2 || i == 3 || i == 4 || i == 5 || i == 6 || i == 7 ||
           i == 8 || i == 9 || i == 10 || i == 11 || i == 12 || i == 13 || i == 14 || i == 15;
  }

  /** Line 133: the palette entry masked with `0xFF` when erasing and `0x55` otherwise. */
  function OutByte(index: bv8, erase: bool): bv8
    requires index < 16
  {
    Palette[index as int] & (if erase then 0xFF else 0x55)
  }

  /** Pixel `k` of a group of four. */
  function Pixel(d0: bv8, d1: bv8, d2: bv8, d3: bv8, k: bv8): bv8
    requires k < 4
  {
    if k == 0 then d0 else if k == 1 then d1 else if k == 2 then d2 else d3
  }

  /** Masking with `0x55` keeps the low bit of every field and clears the high one; `0xFF` keeps both. */
  lemma MaskField(b: bv8, erase: bool, k: bv8)
    requires k < 4
    ensures Field(b & (if erase then 0xFF else 0x55), k) == if erase then Field(b, k) else Field(b, k) & 1
  {
  }

  /**
   * For four 0/1 pixels, field `k` of the byte sent is `01` for a set pixel; for a clear pixel it is
   * `10` when erasing and `00` otherwise.
   */
  lemma OutBytePixels(d0: bv8, d1: bv8, d2: bv8, d3: bv8, erase: bool, k: bv8)
    requires d0 <= 1 && d1 <= 1 && d2 <= 1 && d3 <= 1 && k < 4
    ensures GroupIndex(d0, d1, d2, d3) < 16
    ensures Field(OutByte(GroupIndex(d0, d1, d2, d3), erase), k) ==
      if Pixel(d0, d1, d2, d3, k) == 1 then 1 else if erase then 2 else 0
  {
    GroupIndexOfPixels(d0, d1, d2, d3);
    var i := GroupIndex(d0, d1, d2, d3);
    PaletteClosedForm(i, k);
    assert IndexBit(i, 3 - k) <==> Pixel(d0, d1, d2, d3, k) == 1;
    MaskField(Palette[i as int], erase, k);
  }

  /** Bit `c` of a 32-bit register. */
  predicate Bit(x: bv32, c: bv32)
    requires c < 32
  {
    x & (1 << c) != 0
  }

  /** `0xff << pin0`: the eight pins from `pin0`, as a 32-bit register mask. */
  function ByteMask(pin0: bv32): bv32
    requires pin0 < 32
  {
    0xFF << pin0
  }

  /** With `pin0 + 8 <= 32`, the mask covers exactly the pins `pin0..pin0+7`. */
  lemma ByteMaskPins(pin0: bv32, c: bv32)
    requires pin0 <= 24 && c < 32
    ensures Bit(ByteMask(pin0), c) <==> pin0 <= c < pin0 + 8
  {
  }

  /** Line 167: the new value of `GPIO_OUT_REG`, the byte-wide field at `pin0` replaced by `value`. */
  function DigitalWriteByte(reg: bv32, pin0: bv32, value: bv8): bv32
    requires pin0 < 32
  {
    (reg & !ByteMask(pin0)) | ((value as bv32) << pin0)
  }

  /** Bit `k` of `value` lands on pin `pin0 + k`. */
  lemma DigitalWriteByteField(reg: bv32, pin0: bv32, value: bv8, k: bv32)
    requires pin0 <= 24 && k < 8
    ensures Bit(DigitalWriteByte(reg, pin0, value), pin0 + k) == Bit(value as bv32, k)
  {
    var v, one := value as bv32, 1 as bv32;
    ByteMaskPins(pin0, pin0 + k);
    assert (reg & !ByteMask(pin0)) & (one << (pin0 + k)) == 0;
    assert one << (pin0 + k) == (one << k) << pin0;
    assert (v << pin0) & ((one << k) << pin0) == (v & (one << k)) << pin0;
    assert v & (one << k) < 256;
  }

  /** Every pin outside `pin0..pin0+7` keeps the old register's bit. */
  lemma DigitalWriteByteKeeps(reg: bv32, pin0: bv32, value: bv8, c: bv32)
    requires pin0 <= 24 && c < 32 && !(pin0 <= c < pin0 + 8)
    ensures Bit(DigitalWriteByte(reg, pin0, value), c) == Bit(reg, c)
  {
    var v, one := value as bv32, 1 as bv32;
    ByteMaskPins(pin0, c);
    assert !ByteMask(pin0) & (one << c) == one << c;
    assert v << pin0 == (v << pin0) & ByteMask(pin0);
    assert (v << pin0) & (one << c) == 0;
  }

  /** A second write to the same pins replaces the first entirely. */
  lemma DigitalWriteByteTwice(reg: bv32, pin0: bv32, a: bv8, b: bv8)
    requires pin0 < 32
    ensures DigitalWriteByte(DigitalWriteByte(reg, pin0, a), pin0, b) == DigitalWriteByte(reg, pin0, b)
  {
    assert ((a as bv32) << pin0) & !ByteMask(pin0) == 0;
  }

  /** The group indices of a row stay within the palette (what line 115 relies on). */
  ghost predicate IndexedRow(data: seq<bv8>)
    requires |data| >= Width
  {
    forall i :: 0 <= i < Groups ==> GroupIndex(data[4 * i], data[4 * i + 1], data[4 * i + 2], data[4 * i + 3]) < 16
  }

  /** The 256 bytes the row loop sends, group `i` read from `data[4i..4i+3]`. */
  ghost function RowBytes(data: seq<bv8>, erase: bool): seq<bv8>
    requires |data| >= Width && IndexedRow(data)
  {
    seq(Groups, i requires 0 <= i < Groups =>
      OutByte(GroupIndex(data[4 * i], data[4 * i + 1], data[4 * i + 2], data[4 * i + 3]), erase))
  }

  /**
   * A row of 0/1 pixels stays within the palette, and field `k` of byte `i` encodes pixel `4i + k`:
   * `01` when it is set, `10` (erasing) or `00` (not erasing) when it is clear.
   */
  lemma RowBytePixels(data: seq<bv8>, erase: bool, i: nat, k: bv8)
    requires |data| >= Width && (forall j :: 0 <= j < Width ==> data[j] <= 1)
    requires i < Groups && k < 4
    ensures IndexedRow(data)
    ensures Field(RowBytes(data, erase)[i], k) == if data[4 * i + k as int] == 1 then 1 else if erase then 2 else 0
  {
    forall g | 0 <= g < Groups
      ensures GroupIndex(data[4 * g], data[4 * g + 1], data[4 * g + 2], data[4 * g + 3]) < 16
    {
      GroupIndexOfPixels(data[4 * g], data[4 * g + 1], data[4 * g + 2], data[4 * g + 3]);
    }
    OutBytePixels(data[4 * i], data[4 * i + 1], data[4 * i + 2], data[4 * i + 3], erase, k);
    assert Pixel(data[4 * i], data[4 * i + 1], data[4 * i + 2], data[4 * i + 3], k) == data[4 * i + k as int];
  }

  /**
   * Lines 111-136: the row loop. `regIn[i]` is the value `REG_READ(GPIO_OUT_REG)` returns in
   * iteration `i` (the clock strobes between iterations are outside this model); the result is
   * the sequence of values written back, one per group, in order.
   */
  method Transfer(data: seq<bv8>, erase: bool, pin0: bv32, regIn: seq<bv32>) returns (writes: seq<bv32>)
    requires |data| >= Width && IndexedRow(data) && pin0 < 32 && |regIn| == Groups
    ensures |writes| == Groups
    ensures forall i :: 0 <= i < Groups ==> writes[i] == DigitalWriteByte(regIn[i], pin0, RowBytes(data, erase)[i])
  {
    writes := [];
    var p := 0;
    var i := 0;
    while i < Width / 4
      invariant 0 <= i <= Groups && p == 4 * i
      invariant |writes| == i
      invariant forall j :: 0 <= j < i ==> writes[j] == DigitalWriteByte(regIn[j], pin0, RowBytes(data, erase)[j])
    {
      var index := GroupIndex(data[p], data[p + 1], data[p + 2], data[p + 3]);
      p := p + 4;
      var out := OutByte(index, erase);
      writes := writes + [DigitalWriteByte(regIn[i], pin0, out)];
      i := i + 1;
    }
  }

  /** The pin modes `pinModeByte` distinguishes. */
  datatype Mode = Input | Output | OtherMode

  /** The two GPIO enable registers: write-1-to-clear and write-1-to-set. */
  datatype EnableRegister = EnableClear | EnableSet

  /**
   * Lines 153-160: `pinMode` on each of the eight pins in turn, then one write of the byte mask to
   * the enable register that matches the mode (none for other modes).
   */
  method PinModeByte(pin0: bv32, mode: Mode) returns (calls: seq<(bv32, Mode)>, write: Option<(EnableRegister, bv32)>)
    requires pin0 < 32
    ensures |calls| == 8 && forall i :: 0 <= i < 8 ==> calls[i] == (PinsFrom(pin0)[i], mode)
    ensures write == match mode {
      case Input => Some((EnableClear, ByteMask(pin0)))
      case Output => Some((EnableSet, ByteMask(pin0)))
      case OtherMode => None
    }
  {
    calls := [];
    var i: bv32 := 0;
    while i < 8
      invariant i <= 8 && |calls| == i as int
      invariant forall j :: 0 <= j < |calls| ==> calls[j] == (PinsFrom(pin0)[j], mode)
    {
      PinStep(pin0, i);
      calls := calls + [(pin0 + i, mode)];
      i := i + 1;
    }
    if mode == Input {
      write := Some((EnableClear, 0xFF << pin0));
    } else if mode == Output {
      write := Some((EnableSet, 0xFF << pin0));
    } else {
      write := None;
    }
  }

  /** The eight pin numbers from `pin0`. */
  function PinsFrom(pin0: bv32): seq<bv32>
    requires pin0 < 32
  {
    [pin0, pin0 + 1, pin0 + 2, pin0 + 3, pin0 + 4, pin0 + 5, pin0 + 6, pin0 + 7]
  }

  /** Pin `i` of the eight is `pin0 + i`, the number the source's loop passes to `pinMode`. */
  lemma PinStep(pin0: bv32, i: bv32)
    requires pin0 < 32 && i < 8
    ensures PinsFrom(pin0)[i] == pin0 + i
  {
  }

  /** The pins `pinModeByte` configures are exactly the pins its enable mask selects. */
  lemma PinModeBytePins(pin0: bv32, c: bv32)
    requires pin0 <= 24 && c < 32
    ensures Bit(ByteMask(pin0), c) <==> c in PinsFrom(pin0)
  {
    ByteMaskPins(pin0, c);
  }
}
