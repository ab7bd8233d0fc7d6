/** One conversion of the ADS1119 analog-to-digital converter, as
    `read_voltage` performs it: reset, write the configuration register,
    start, poll the status register until its ready bit is set, then read the
    16-bit data word and turn it from the device's MSB-first order into a
    signed value. */
module Ads1119 {
  import opened SmBus
  import opened PyInt

  // Command bytes of the ADS1119.
  const CommandReset: Byte := 0x06
  const CommandStart: Byte := 0x08
  const CommandReadData: Byte := 0x10
  /** Declared by the driver next to the others; `read_voltage` never sends it. */
  const CommandReadConfigReg: Byte := 0x20
  const CommandReadStatusReg: Byte := 0x24
  const CommandWriteConfig: Byte := 0x40

  /** Bit 7 of the status register: a conversion result is ready. */
  const StatusRegisterReady: Byte := 0x80

  /** Configuration register value: inputs AIN0-AIN1, gain 1, single shot, 20 samples/s. */
  const ConfigRegisterValue: Byte := 0x00

  const InternalReferenceVoltage: real := 2.048
  const RawValueRange: int := 0x8000

  /** What `read_voltage` returns. */
  datatype Reading = Reading(voltage: real, rawValue: int)

  // ---------------------------------------------------------------------
  // Sample decoding (lines 50-54)
  // ---------------------------------------------------------------------

  /** Line 51 on a `numpy.int16`: the low byte shifted up, or-ed with the
      high byte brought down by an arithmetic shift and masked. This follows
      NumPy 2's typing, where an int16 combined with a Python int stays
      int16, so every step wraps to 16 bits and `<< 8` can turn the sign on.
      NumPy 1.x promotes those steps to int64 and wraps only in the outer
      `numpy.int16`; `SwapBytesNumPy1Agrees` shows the value is the same. */
  function SwapBytes(raw: Int16): Int16
  {
    Or16(ShiftLeft16(And16(raw, 0x00FF), 8), And16(ShiftRight16(raw, 8), 0x00FF))
  }

  /** Lines 50-52: `raw_value` for the word `read_word_data` returned. */
  function RawValue(word: Word): Int16
  {
    SwapBytes(ToInt16(word))
  }

  /** Line 54, over exact reals. */
  function Voltage(rawValue: int): real
  {
    InternalReferenceVoltage * (rawValue as real) / (RawValueRange as real)
  }

  /** The word an SMBus word read assembles from the two bytes on the wire:
      the first byte received becomes the low byte. */
  function SmbusWord(first: Byte, second: Byte): Word
  {
    second * 0x100 + first
  }

  /** The signed 16-bit code the ADS1119 sends, most significant byte first,
      read as a two's-complement number. */
  function DeviceCode(msb: Byte, lsb: Byte): int
  {
    var unsigned := msb * 0x100 + lsb;
    if unsigned < 0x8000 then unsigned else unsigned - 0x1_0000
  }

  /** A byte read as a signed 8-bit number. */
  function SignedByte(b: int): int
  {
    if b < 0x80 then b else b - 0x100
  }

  /** The value line 51 computes, in plain arithmetic: the signed low byte
      becomes the high byte, the unsigned high byte the low byte. */
  lemma SwapBytesValue(raw: Int16)
    ensures SwapBytes(raw) == SignedByte(raw % 0x100) * 0x100 + (raw / 0x100) % 0x100
  {
    var low, high := raw % 0x100, (raw / 0x100) % 0x100;
    LowByteMasked(raw);
    LowByteShiftedUp(low);
    HighByteMasked(raw);
    BytesOred(low, high);
  }

  /** `raw & 0x00FF` on an int16 is the low byte. */
  lemma LowByteMasked(raw: Int16)
    ensures And16(raw, 0x00FF) == raw % 0x100
  {
    Pow2Values();
    BitAndLowMask(raw, 8);
    ToInt16Mod(raw % 0x100);
  }

  /** `<< 8` on an int16 holding a byte: the byte moves up and its top bit
      becomes the sign. */
  lemma LowByteShiftedUp(low: int)
    requires 0 <= low < 0x100
    ensures ShiftLeft16(low, 8) == SignedByte(low) * 0x100
  {
    Pow2Values();
    if low < 0x80 {
      ModUnique(low * 0x100 + 0x8000, 0x1_0000, 0, low * 0x100 + 0x8000);
    } else {
      ModUnique(low * 0x100 + 0x8000, 0x1_0000, 1, low * 0x100 - 0x8000);
    }
  }

  /** `>> 8` of an int16 is in range, so `numpy.int16` leaves it alone. */
  lemma ShiftedDownInRange(raw: Int16)
    ensures ShiftRight16(raw, 8) == raw / 0x100
  {
    Pow2Values();
    PatternBytes(raw);
    ToInt16Mod(raw / 0x100);
  }

  /** The high byte shifted down and masked, as a number. */
  lemma HighByteMasked(raw: Int16)
    ensures And16(ShiftRight16(raw, 8), 0x00FF) == (raw / 0x100) % 0x100
  {
    Pow2Values();
    ShiftedDownInRange(raw);
    BitAndLowMask(raw / 0x100, 8);
    ToInt16Mod((raw / 0x100) % 0x100);
  }

  /** `|` of a byte moved up and a byte below it is their sum. */
  lemma BytesOred(low: int, high: int)
    requires 0 <= low < 0x100 && 0 <= high < 0x100
    ensures Or16(SignedByte(low) * 0x100, high) == SignedByte(low) * 0x100 + high
  {
    var up := SignedByte(low);
    Pow2Values();
    BitOrDisjoint(up, high, 8);
    assert BitOr(up * 0x100, high) == up * 0x100 + high;
    WordInRange(up, high);
  }

  lemma WordInRange(up: int, high: int)
    requires -0x80 <= up < 0x80 && 0 <= high < 0x100
    ensures ToInt16(up * 0x100 + high) == up * 0x100 + high
  {
    ToInt16Mod(up * 0x100 + high);
  }

  /** The unsigned 16-bit pattern of an int16, byte by byte. */
  lemma PatternBytes(x: int)
    requires -0x8000 <= x < 0x8000
    ensures -0x80 <= x / 0x100 < 0x80
    ensures x % 0x1_0000 == 0x100 * ((x / 0x100) % 0x100) + x % 0x100
  {
    var h, l := x / 0x100, x % 0x100;
    if h >= 0 {
      ModUnique(h, 0x100, 0, h);
      ModUnique(x, 0x1_0000, 0, 0x100 * h + l);
    } else {
      ModUnique(h, 0x100, -1, h + 0x100);
      ModUnique(x, 0x1_0000, -1, 0x100 * (h + 0x100) + l);
    }
  }

  /** A number given by its two bytes. */
  lemma ByteSplit(hi: int, lo: int)
    requires 0 <= hi < 0x100 && 0 <= lo < 0x100
    ensures (0x100 * hi + lo) / 0x100 == hi && (0x100 * hi + lo) % 0x100 == lo
  {
    ModUnique(0x100 * hi + lo, 0x100, hi, lo);
  }

  /** A signed byte taken modulo 256 gives back the unsigned byte. */
  lemma SignedByteMod(b: int)
    requires 0 <= b < 0x100
    ensures SignedByte(b) % 0x100 == b
  {
    if b < 0x80 {
      ModUnique(b, 0x100, 0, b);
    } else {
      ModUnique(b - 0x100, 0x100, -1, b);
    }
  }

  /** Arithmetic behind `SwapBytesSwaps`: the unsigned pattern of the
      result has the two bytes of the input's pattern the other way round. */
  lemma SwapArithmetic(raw: int)
    requires -0x8000 <= raw < 0x8000
    ensures var r := SignedByte(raw % 0x100) * 0x100 + (raw / 0x100) % 0x100;
      && (r % 0x1_0000) / 0x100 == (raw % 0x1_0000) % 0x100
      && (r % 0x1_0000) % 0x100 == (raw % 0x1_0000) / 0x100
  {
    var l := raw % 0x100;
    PatternBytes(raw);
    var hu := (raw / 0x100) % 0x100;
    var s := SignedByte(l);
    var r := s * 0x100 + hu;
    ModUnique(r, 0x100, s, hu);
    PatternBytes(r);
    SignedByteMod(l);
    ByteSplit(l, hu);
    ByteSplit(hu, l);
  }

  /** Line 51 exchanges the bytes: the high byte of the result is the low
      byte of the input and the other way round (both read as the unsigned
      16-bit pattern, as `& 0xFFFF` gives it). */
  lemma SwapBytesSwaps(raw: Int16)
    ensures Mask16(SwapBytes(raw)) / 0x100 == Mask16(raw) % 0x100
    ensures Mask16(SwapBytes(raw)) % 0x100 == Mask16(raw) / 0x100
  {
    SwapBytesValue(raw);
    SwapArithmetic(raw);
    Mask16IsMod(raw);
    Mask16IsMod(SwapBytes(raw));
  }

  /** Line 51 as NumPy 1.x evaluates it: `raw_value & 0x00FF` and
      `raw_value >> 8` mix an int16 scalar with a Python int, which promotes
      to int64, so the intermediates do not wrap (none of them leaves the
      int64 range); only the outer `numpy.int16` does. */
  function SwapBytesPromoted(raw: Int16): Int16
  {
    ToInt16(BitOr(ShiftLeft(BitAnd(raw, 0x00FF), 8), BitAnd(ShiftRight(raw, 8), 0x00FF)))
  }

  /** NumPy 1.x and NumPy 2 compute the same value on line 51. */
  lemma SwapBytesNumPy1Agrees(raw: Int16)
    ensures SwapBytesPromoted(raw) == SwapBytes(raw)
  {
    SwapBytesPromotedValue(raw);
    SwapBytesValue(raw);
  }

  /** The value NumPy 1.x computes on line 51, in plain arithmetic. */
  lemma SwapBytesPromotedValue(raw: Int16)
    ensures SwapBytesPromoted(raw) == SignedByte(raw % 0x100) * 0x100 + (raw / 0x100) % 0x100
  {
    var low, high := raw % 0x100, (raw / 0x100) % 0x100;
    LowBytePromoted(raw);
    HighBytePromoted(raw);
    BytesOredPromoted(low, high);
    PromotedWraps(low, high);
  }

  /** `raw_value & 0x00FF` without wrapping is the low byte. */
  lemma LowBytePromoted(raw: int)
    ensures BitAnd(raw, 0x00FF) == raw % 0x100
  {
    Pow2Values();
    BitAndLowMask(raw, 8);
  }

  /** `(raw_value >> 8) & 0x00FF` without wrapping is the high byte. */
  lemma HighBytePromoted(raw: int)
    ensures BitAnd(ShiftRight(raw, 8), 0x00FF) == (raw / 0x100) % 0x100
  {
    Pow2Values();
    BitAndLowMask(raw / 0x100, 8);
  }

  /** The low byte shifted up without wrapping, or-ed with the high byte. */
  lemma BytesOredPromoted(low: int, high: int)
    requires 0 <= low < 0x100 && 0 <= high < 0x100
    ensures BitOr(ShiftLeft(low, 8), high) == low * 0x100 + high
  {
    Pow2Values();
    BitOrDisjoint(low, high, 8);
  }

  /** The outer `numpy.int16` on the promoted result: bit 7 of the byte
      moved up becomes the sign. */
  lemma PromotedWraps(low: int, high: int)
    requires 0 <= low < 0x100 && 0 <= high < 0x100
    ensures ToInt16(low * 0x100 + high) == SignedByte(low) * 0x100 + high
  {
    var x := low * 0x100 + high;
    if low < 0x80 {
      ModUnique(x + 0x8000, 0x1_0000, 0, x + 0x8000);
    } else {
      ModUnique(x + 0x8000, 0x1_0000, 1, x - 0x8000);
    }
  }

  /** The arithmetic shift of a negative int16 stays negative: without the
      mask, sign bits would reach the result. */
  lemma ShiftRightKeepsSign(raw: Int16)
    ensures ShiftRight16(raw, 8) < 0 <==> raw < 0
  {
    Pow2Values();
    ShiftedDownInRange(raw);
  }

  /** With the 0x00FF mask, the shifted-down byte is exactly the high byte
      of the input's unsigned pattern: no sign bit leaks into it. */
  lemma MaskedShiftIsHighByte(raw: Int16)
    ensures And16(ShiftRight16(raw, 8), 0x00FF) == Mask16(raw) / 0x100
  {
    HighByteMasked(raw);
    Mask16IsMod(raw);
    PatternBytes(raw);
    ByteSplit((raw / 0x100) % 0x100, raw % 0x100);
  }

  /** Applying the line-51 swap twice gives back the original value. */
  lemma SwapBytesInvolution(raw: Int16)
    ensures SwapBytes(SwapBytes(raw)) == raw
  {
    SwapBytesSwaps(raw);
    SwapBytesSwaps(SwapBytes(raw));
    var m, m2 := Mask16(raw), Mask16(SwapBytes(SwapBytes(raw)));
    Mask16IsMod(raw);
    Mask16IsMod(SwapBytes(SwapBytes(raw)));
    BytesDetermineWord(m, m2);
    Int16Injective(SwapBytes(SwapBytes(raw)), raw);
  }

  lemma BytesDetermineWord(a: int, b: int)
    requires 0 <= a < 0x1_0000 && 0 <= b < 0x1_0000
    requires a / 0x100 == b / 0x100 && a % 0x100 == b % 0x100
    ensures a == b
  {
  }

  /** `numpy.int16(word)` keeps the word's 16 bits. */
  lemma WordPattern(word: Word)
    ensures Mask16(ToInt16(word)) == word
  {
    ToInt16Props(word);
    Mask16IsMod(word);
  }

  /** `raw_value` has the wire word's low byte as its high byte and the
      other way round; masking it with 0xFFFF gives back the byte-swapped
      word as an unsigned number. */
  lemma RawValueMaskRoundTrip(word: Word)
    ensures Mask16(RawValue(word)) / 0x100 == word % 0x100
    ensures Mask16(RawValue(word)) % 0x100 == word / 0x100
    ensures Mask16(RawValue(word)) == (word % 0x100) * 0x100 + word / 0x100
  {
    WordPattern(word);
    SwapBytesSwaps(ToInt16(word));
    Mask16IsMod(RawValue(word));
    WordFromBytes(Mask16(RawValue(word)));
  }

  lemma WordFromBytes(a: int)
    requires 0 <= a < 0x1_0000
    ensures a == (a / 0x100) * 0x100 + a % 0x100
  {
  }

  /** `raw_value` is negative exactly when bit 7 of the wire word's low
      byte is set (`word & 0x80 != 0`). */
  lemma RawValueSign(word: Word)
    ensures -0x8000 <= RawValue(word) < 0x8000
    ensures RawValue(word) < 0 <==> BitAnd(word, 0x80) != 0
  {
    Pow2Values();
    SwapBytesValue(ToInt16(word));
    ToInt16Props(word);
    BitAndSingleBit(word, 7);
    SignOfSwapped(word);
  }

  lemma SignOfSwapped(word: Word)
    ensures var raw := ToInt16(word);
      (SignedByte(raw % 0x100) * 0x100 + (raw / 0x100) % 0x100 < 0) <==> (word / 0x80) % 2 == 1
  {
    var raw := ToInt16(word);
    var q, l := word / 0x100, word % 0x100;
    if word < 0x8000 {
      ModUnique(word + 0x8000, 0x1_0000, 0, word + 0x8000);
    } else {
      ModUnique(word + 0x8000, 0x1_0000, 1, word - 0x8000);
      ModUnique(raw, 0x100, q - 0x100, l);
    }
    PatternBytes(raw);
    if l < 0x80 {
      ModUnique(word, 0x80, 2 * q, l);
      ModUnique(2 * q, 2, q, 0);
    } else {
      ModUnique(word, 0x80, 2 * q + 1, l - 0x80);
      ModUnique(2 * q + 1, 2, q, 1);
    }
  }

  /** The byte-order correction is right: whatever two bytes the device puts
      on the wire, `raw_value` is the signed code they encode MSB first. */
  lemma RawValueDecodesWire(first: Byte, second: Byte)
    ensures RawValue(SmbusWord(first, second)) == DeviceCode(first, second)
  {
    var word := SmbusWord(first, second);
    SwapBytesValue(ToInt16(word));
    ToInt16Mod(word);
    DecodeArithmetic(first, second);
  }

  lemma DecodeArithmetic(first: Byte, second: Byte)
    ensures var raw := ToInt16(second * 0x100 + first);
      SignedByte(raw % 0x100) * 0x100 + (raw / 0x100) % 0x100 == DeviceCode(first, second)
  {
    var word := second * 0x100 + first;
    if word < 0x8000 {
      ModUnique(word + 0x8000, 0x1_0000, 0, word + 0x8000);
      ByteSplit(second, first);
      ModUnique(second, 0x100, 0, second);
    } else {
      ModUnique(word + 0x8000, 0x1_0000, 1, word - 0x8000);
      ModUnique(word - 0x1_0000, 0x100, second - 0x100, first);
      ModUnique(second - 0x100, 0x100, -1, second);
    }
  }

  /** A wire word 0x1234 (the device sent 0x34 then 0x12) decodes to the
      code 0x3412, and the voltage is that code scaled by 2.048 / 32768. */
  lemma RawValueExample()
    ensures RawValue(0x1234) == 0x3412
    ensures Voltage(RawValue(0x1234)) == 2.048 * (0x3412 as real) / 32768.0
  {
    RawValueDecodesWire(0x34, 0x12);
  }

  /** Line 50 as NumPy 2 evaluates it: `numpy.int16` of a Python int
      outside the int16 range raises `OverflowError` instead of wrapping. */
  datatype Conversion = Converted(value: Int16) | OverflowError

  function CheckedInt16(x: int): Conversion
  {
    if -0x8000 <= x < 0x8000 then Converted(x) else OverflowError
  }

  /** Lines 50-52 under NumPy 2. */
  function RawValueNumPy2(word: Word): Conversion
  {
    match CheckedInt16(word)
    case Converted(raw) => Converted(SwapBytes(raw))
    case OverflowError => OverflowError
  }

  /** Under NumPy 2 the conversion fails exactly when the second byte on the
      wire, the device's least significant byte, has bit 7 set; where it
      succeeds it agrees with the wrapping conversion. So the small positive
      code 0x0080 (sent as 0x00, 0x80) makes `read_voltage` raise. */
  lemma NumPy2RejectsHalfTheCodes(first: Byte, second: Byte)
    ensures RawValueNumPy2(SmbusWord(first, second)).OverflowError? <==> second >= 0x80
    ensures RawValueNumPy2(SmbusWord(first, second)).Converted? ==>
      RawValueNumPy2(SmbusWord(first, second)).value == DeviceCode(first, second)
    ensures RawValueNumPy2(SmbusWord(0x00, 0x80)) == OverflowError && DeviceCode(0x00, 0x80) == 0x80
  {
    RawValueDecodesWire(first, second);
    ToInt16Mod(SmbusWord(first, second));
  }

  /** A raw value in the int16 range gives a voltage in [-2.048, 2.048),
      with the sign of the raw value. */
  lemma VoltageBounds(rawValue: int)
    requires -0x8000 <= rawValue < 0x8000
    ensures -2.048 <= Voltage(rawValue) < 2.048
    ensures Voltage(rawValue) < 0.0 <==> rawValue < 0
    ensures Voltage(rawValue) == 0.0 <==> rawValue == 0
  {
  }

  /** The test of line 42, `status & STATUS_REGISTER_READY != 0`, holds
      exactly when bit 7 of the status byte is set. */
  lemma ReadyTest(status: Byte)
    ensures BitAnd(status, StatusRegisterReady) != 0 <==> IsReady(status)
  {
    Pow2Values();
    BitAndSingleBit(status, 7);
  }

  // ---------------------------------------------------------------------
  // The conversion handshake (lines 35-50), as the trace it leaves on the bus
  // ---------------------------------------------------------------------

  /** Bit 7 of the status byte, the conversion-ready flag, is set: for a
      byte, that is a value of at least 0x80. `ReadyTest` shows the mask
      test of line 42 computes it. */
  predicate IsReady(status: Byte)
  {
    status >= 0x80
  }

  predicate AnyReady(replies: seq<Byte>)
  {
    exists i | 0 <= i < |replies| :: IsReady(replies[i])
  }

  /** The position of the first status reply with the ready bit set. */
  function FirstReady(replies: seq<Byte>): (k: nat)
    requires AnyReady(replies)
    ensures k < |replies| && IsReady(replies[k])
    ensures forall j | 0 <= j < k :: !IsReady(replies[j])
  {
    if IsReady(replies[0]) then 0
    else
      var i :| 0 <= i < |replies| && IsReady(replies[i]);
      assert IsReady(replies[1..][i - 1]);
      1 + FirstReady(replies[1..])
  }

  /** Lines 35-37: reset, write the configuration register, start. */
  function Prologue(addr: int): seq<BusOp>
  {
    [ BusOp.WriteByte(addr, CommandReset),
      BusOp.WriteByteData(addr, CommandWriteConfig, ConfigRegisterValue),
      BusOp.WriteByte(addr, CommandStart) ]
  }

  /** Lines 39-44: the status reads the loop issues while the device answers
      with `replies`, up to and including the first ready one. Without a
      ready reply, these are the reads made while the replies last. */
  function StatusPolls(addr: int, replies: seq<Byte>): seq<BusOp>
  {
    if replies == [] then []
    else
      [BusOp.ReadByteData(addr, CommandReadStatusReg, replies[0])]
      + (if IsReady(replies[0]) then [] else StatusPolls(addr, replies[1..]))
  }

  /** Every transfer of one `read_voltage` call, when the device answers the
      status reads with `replies` and the data read with `word`. Without a
      ready reply the call never returns; this is then the trace so far. */
  function ConversionTrace(addr: int, replies: seq<Byte>, word: Word): seq<BusOp>
  {
    Prologue(addr) + StatusPolls(addr, replies)
    + (if AnyReady(replies) then [BusOp.ReadWordData(addr, CommandReadData, word)] else [])
  }

  /** Every data read in `trace` comes right after a status read that
      reported the ready bit. */
  predicate DataOnlyAfterReady(trace: seq<BusOp>)
  {
    forall j | 0 <= j < |trace| && trace[j].ReadWordData? ::
      0 < j && trace[j - 1].ReadByteData? && trace[j - 1].cmd == CommandReadStatusReg
      && IsReady(trace[j - 1].reply)
  }

  lemma ConversionBeginsWithResetConfigStart(addr: int, replies: seq<Byte>, word: Word)
    ensures var t := ConversionTrace(addr, replies, word);
      && |t| >= 3
      && t[0] == BusOp.WriteByte(addr, 0x06)
      && t[1] == BusOp.WriteByteData(addr, 0x40, 0x00)
      && t[2] == BusOp.WriteByte(addr, 0x08)
  {
  }

  /** With a ready reply among `replies`, the loop reads the replies in
      order up to and including the first ready one, and no further. */
  lemma {:induction false} PollsUntilFirstReady(addr: int, replies: seq<Byte>)
    requires AnyReady(replies)
    ensures |StatusPolls(addr, replies)| == FirstReady(replies) + 1
    ensures forall i | 0 <= i < |StatusPolls(addr, replies)| ::
      StatusPolls(addr, replies)[i] == BusOp.ReadByteData(addr, 0x24, replies[i])
  {
    if !IsReady(replies[0]) {
      var i :| 0 <= i < |replies| && IsReady(replies[i]);
      assert IsReady(replies[1..][i - 1]);
      PollsUntilFirstReady(addr, replies[1..]);
    }
  }

  /** With no ready reply, the loop keeps reading status, one read per reply. */
  lemma {:induction false} PollsWithoutReady(addr: int, replies: seq<Byte>)
    requires !AnyReady(replies)
    ensures |StatusPolls(addr, replies)| == |replies|
    ensures forall i | 0 <= i < |replies| ::
      StatusPolls(addr, replies)[i] == BusOp.ReadByteData(addr, 0x24, replies[i])
  {
    if replies != [] {
      assert !IsReady(replies[0]);
      assert forall i | 0 <= i < |replies| - 1 :: replies[1..][i] == replies[i + 1];
      PollsWithoutReady(addr, replies[1..]);
    }
  }

  /** Every transfer of a conversion is addressed to the device it was asked for. */
  lemma ConversionTargetsOneAddress(addr: int, replies: seq<Byte>, word: Word)
    ensures forall j | 0 <= j < |ConversionTrace(addr, replies, word)| ::
      ConversionTrace(addr, replies, word)[j].addr == addr
  {
    if AnyReady(replies) {
      PollsUntilFirstReady(addr, replies);
    } else {
      PollsWithoutReady(addr, replies);
    }
  }

  /** When some status reply is ready: the status register is read exactly
      FirstReady + 1 times, every read but the last one saw the ready bit
      clear, the data word is read exactly once, last, right after the read
      that saw the ready bit. */
  lemma ConversionReadsDataOnceAfterReady(addr: int, replies: seq<Byte>, word: Word)
    requires AnyReady(replies)
    ensures var t := ConversionTrace(addr, replies, word);
      var k := FirstReady(replies);
      && |t| == k + 5
      && (forall j | 0 <= j < |t| :: t[j].ReadByteData? <==> 3 <= j <= k + 3)
      && (forall j | 3 <= j < k + 3 :: t[j].ReadByteData? && !IsReady(t[j].reply))
      && t[k + 3] == BusOp.ReadByteData(addr, 0x24, replies[k]) && IsReady(t[k + 3].reply)
      && (forall j | 0 <= j < |t| :: t[j].ReadWordData? <==> j == k + 4)
      && t[k + 4] == BusOp.ReadWordData(addr, 0x10, word)
  {
    PollsUntilFirstReady(addr, replies);
    var t := ConversionTrace(addr, replies, word);
    var polls := StatusPolls(addr, replies);
    assert forall j | 3 <= j < |polls| + 3 :: t[j] == polls[j - 3];
  }

  /** When no status reply is ready, no data read happens: after the three
      commands there is one status read per reply and nothing else. */
  lemma ConversionWithoutReadyReadsNoData(addr: int, replies: seq<Byte>, word: Word)
    requires !AnyReady(replies)
    ensures var t := ConversionTrace(addr, replies, word);
      && |t| == |replies| + 3
      && (forall j | 0 <= j < |t| :: !t[j].ReadWordData?)
      && (forall j | 3 <= j < |t| :: t[j] == BusOp.ReadByteData(addr, 0x24, replies[j - 3]))
  {
    PollsWithoutReady(addr, replies);
    var t := ConversionTrace(addr, replies, word);
    assert forall j | 3 <= j < |t| :: t[j] == StatusPolls(addr, replies)[j - 3];
  }

  /** Whatever the device answers, no data word is read before a status
      read has reported the ready bit. */
  lemma ConversionDataOnlyAfterReady(addr: int, replies: seq<Byte>, word: Word)
    ensures DataOnlyAfterReady(ConversionTrace(addr, replies, word))
  {
    if AnyReady(replies) {
      ConversionReadsDataOnceAfterReady(addr, replies, word);
    } else {
      ConversionWithoutReadyReadsNoData(addr, replies, word);
    }
  }

  /** The status reads of line 41 answered by `replies`, one per reply.
      The same reads as `StatusPolls` (see `PollsAreReads`), but written
      without recursion so that the loop invariant of `PollUntilReady`
      stays cheap to check. */
  function Reads(addr: int, replies: seq<Byte>): (r: seq<BusOp>)
    ensures |r| == |replies|
  {
    seq(|replies|, i requires 0 <= i < |replies| => BusOp.ReadByteData(addr, CommandReadStatusReg, replies[i]))
  }

  /** One more status read extends the reads by one transfer. */
  lemma ReadsExtend(addr: int, replies: seq<Byte>, n: nat)
    requires n < |replies|
    ensures Reads(addr, replies[..n + 1])
      == Reads(addr, replies[..n]) + [BusOp.ReadByteData(addr, CommandReadStatusReg, replies[n])]
  {
  }

  /** The poll reads the replies up to and including the first ready one. */
  lemma PollsAreReads(addr: int, replies: seq<Byte>)
    requires AnyReady(replies)
    ensures StatusPolls(addr, replies) == Reads(addr, replies[..FirstReady(replies) + 1])
  {
    PollsUntilFirstReady(addr, replies);
  }

  /** The conversion trace when a ready status comes: prologue, polls, data read. */
  lemma ConversionTraceParts(addr: int, replies: seq<Byte>, word: Word)
    requires AnyReady(replies)
    ensures ConversionTrace(addr, replies, word)
      == Prologue(addr) + StatusPolls(addr, replies) + [BusOp.ReadWordData(addr, CommandReadData, word)]
  {
  }

  /** Lines 39-44: read the status register until its ready bit is set.
      The loop ends only when a status read reports the ready bit, so the
      device must give one. */
  method PollUntilReady(bus: Bus, address: int)
    requires AnyReady(bus.statusReplies)
    modifies bus`trace, bus`statusReplies
    ensures bus.trace == old(bus.trace) + StatusPolls(address, old(bus.statusReplies))
    ensures bus.statusReplies == old(bus.statusReplies)[FirstReady(old(bus.statusReplies)) + 1..]
  {
    ghost var replies := bus.statusReplies;
    ghost var started := bus.trace;
    ghost var polled := 0;
    while true
      invariant polled <= FirstReady(replies)
      invariant bus.statusReplies == replies[polled..]
      invariant bus.trace == started + Reads(address, replies[..polled])
      decreases FirstReady(replies) - polled
    {
      ReadsExtend(address, replies, polled);
      var status := bus.ReadByteData(address, CommandReadStatusReg);
      ReadyTest(status);
      if BitAnd(status, StatusRegisterReady) != 0 {
        break;
      }
      polled := polled + 1;
    }
    PollsAreReads(address, replies);
  }

  /** One conversion on the device at `address`: the whole of
      `read_voltage`. */
  method ReadVoltage(bus: Bus, address: int) returns (result: Reading)
    requires AnyReady(bus.statusReplies)
    modifies bus`trace, bus`statusReplies
    ensures bus.trace
      == old(bus.trace) + ConversionTrace(address, old(bus.statusReplies), bus.dataWord)
    ensures bus.statusReplies == old(bus.statusReplies)[FirstReady(old(bus.statusReplies)) + 1..]
    ensures result.rawValue == RawValue(bus.dataWord)
    ensures result.voltage == Voltage(result.rawValue)
  {
    bus.WriteByte(address, CommandReset);
    bus.WriteByteData(address, CommandWriteConfig, ConfigRegisterValue);
    bus.WriteByte(address, CommandStart);
    PollUntilReady(bus, address);
    var word := bus.ReadWordData(address, CommandReadData);
    ConversionTraceParts(address, old(bus.statusReplies), word);
    var rawValue := RawValue(word);
    result := Reading(Voltage(rawValue), rawValue);
  }
}
