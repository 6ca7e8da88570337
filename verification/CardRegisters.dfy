/** The fields of the card registers that the driver decodes (SdMmcHw.h), from the four words of a
    136-bit response. The host drops the checksum byte: register bit 8 is bit 0 of the first word. */
module CardRegisters {
  import opened Wrappers
  import opened Bytes
  import opened SdCommands

  type Response = r: seq<Word32> | |r| == 4 witness [0, 0, 0, 0]

  /** Register bits 127:126. */
  function CsdStructure(r: Response): nat {
    r[3] / 0x40_0000 % 4
  }

  /** Register bits 125:122 of an MMC card. */
  function SpecVers(r: Response): nat {
    r[3] / 0x4_0000 % 16
  }

  /** Register bits 103:96. */
  function TranSpeed(r: Response): Byte {
    r[2] / 0x100_0000
  }

  /** Register bits 83:80. */
  function ReadBlLen(r: Response): (n: nat)
    ensures n < 16
  {
    r[2] / 0x100 % 16
  }

  /** Register bits 73:62, in two fields. */
  function DeviceSize(r: Response): (n: nat)
    ensures n < 0x1000
  {
    (r[1] / 0x100_0000 + r[2] % 4 * 0x100) * 4 + r[1] / 0x40_0000 % 4
  }

  /** Register bits 49:47. */
  function DeviceSizeMult(r: Response): (n: nat)
    ensures n < 8
  {
    r[1] / 0x80 % 8
  }

  /** Register bits 69:48 of a version 2 CSD. */
  function DeviceSize2(r: Response): (n: nat)
    ensures n < 0x40_0000
  {
    r[1] / 0x100 % 0x40_0000
  }

  /** `n` shifted left by `k` bits. */
  function ShiftLeft(n: nat, k: nat): nat {
    if k == 0 then n else 2 * ShiftLeft(n, k - 1)
  }

  /** The capacity that a version 1 CSD states. */
  function StatedCapacity(r: Response): nat {
    ShiftLeft(ShiftLeft(DeviceSize(r) + 1, DeviceSizeMult(r) + 2), ReadBlLen(r))
  }

  /** The driver computes it as a UINT32 product. */
  function ComputedCapacity(r: Response): nat {
    StatedCapacity(r) % TWO32
  }

  function HighCapacity(r: Response): nat {
    (DeviceSize2(r) + 1) * 512 * 1024
  }

  /** The fields of a CSD, wherever the rest of the register's bits stand: structure and version, speed and block
      length, and the device size of a version 1 CSD, which is split over two words, with its multiplier. */
  lemma CsdStructureRead(r: Response, above: nat, structure: nat, specVers: nat, rest: nat)
    requires structure < 4 && specVers < 16 && rest < 0x4_0000
    requires r[3] == above * 0x100_0000 + structure * 0x40_0000 + specVers * 0x4_0000 + rest
    ensures CsdStructure(r) == structure && SpecVers(r) == specVers
  {
    FieldRead(r[3], above, 4, structure, 0x40_0000, specVers * 0x4_0000 + rest);
    FieldRead(r[3], above * 4 + structure, 16, specVers, 0x4_0000, rest);
  }

  lemma CsdSpeedRead(r: Response, tranSpeed: Byte, classes: nat, blLen: nat, rest: nat)
    requires classes < 0x1000 && blLen < 16 && rest < 0x100
    requires r[2] == tranSpeed * 0x100_0000 + classes * 0x1000 + blLen * 0x100 + rest
    ensures TranSpeed(r) == tranSpeed && ReadBlLen(r) == blLen
  {
    FieldRead(r[2], 0, 0x100, tranSpeed, 0x100_0000, classes * 0x1000 + blLen * 0x100 + rest);
    FieldRead(r[2], tranSpeed * 0x1000 + classes, 16, blLen, 0x100, rest);
  }

  lemma CsdSizeRead(r: Response, size: nat, mult: nat, above: nat, currents: nat, low: nat)
    requires size < 0x1000 && mult < 8 && currents < 0x1000 && low < 0x80
    requires r[2] == above * 4 + size / 0x400
    requires r[1] == size % 0x400 * 0x40_0000 + currents * 0x400 + mult * 0x80 + low
    ensures DeviceSize(r) == size && DeviceSizeMult(r) == mult
  {
    var part, lower := size % 0x400, currents * 0x400 + mult * 0x80 + low;
    FieldRead(r[1], 0, 0x400, part, 0x40_0000, lower);
    FieldRead(r[1], 0, 0x100, part / 4, 0x100_0000, part % 4 * 0x40_0000 + lower);
    FieldRead(r[1], part * 0x1000 + currents, 8, mult, 0x80, low);
    FieldRead(r[2], above, 4, size / 0x400, 1, 0);
  }

  /** The device size of a version 2 CSD, likewise. */
  lemma LargeSizeRead(r: Response, size: nat, above: nat, below: nat)
    requires size < 0x40_0000 && above < 4 && below < 0x100
    requires r[1] == above * 0x4000_0000 + size * 0x100 + below
    ensures DeviceSize2(r) == size && HighCapacity(r) == (size + 1) * 0x8_0000
  {
    FieldRead(r[1], above, 0x40_0000, size, 0x100, below);
  }

  lemma {:induction false} ShiftLeftIs(n: nat, k: nat)
    ensures ShiftLeft(n, k) == n * Power(k)
  {
    if k > 0 {
      ShiftLeftIs(n, k - 1);
      assert n * (2 * Power(k - 1)) == 2 * (n * Power(k - 1));
    }
  }

  /** A version 1 CSD states (C_SIZE + 1) * 2^(C_SIZE_MULT + 2) blocks of 2^READ_BL_LEN bytes. */
  lemma StatedCapacityIs(r: Response)
    ensures StatedCapacity(r) == (DeviceSize(r) + 1) * Power(DeviceSizeMult(r) + 2) * Power(ReadBlLen(r))
  {
    ShiftLeftIs(DeviceSize(r) + 1, DeviceSizeMult(r) + 2);
    ShiftLeftIs(ShiftLeft(DeviceSize(r) + 1, DeviceSizeMult(r) + 2), ReadBlLen(r));
  }

  /** The capacity is right exactly for cards of less than 4 GiB. */
  lemma CapacityRightExactly(r: Response)
    ensures ComputedCapacity(r) == StatedCapacity(r) <==> StatedCapacity(r) < TWO32
  {
  }

  lemma ShiftByFour(n: nat, k: nat)
    ensures ShiftLeft(n, k + 4) == 0x10 * ShiftLeft(n, k)
  {
    assert ShiftLeft(n, k + 4) == 2 * ShiftLeft(n, k + 3);
    assert ShiftLeft(n, k + 2) == 2 * ShiftLeft(n, k + 1);
  }

  /** A card of 2^21 blocks of 2 KiB has no capacity at all. */
  lemma LargeCardHasNoCapacity()
    ensures var r := [0, 0xFFC0_0380, 0xB03, 0]; StatedCapacity(r) == TWO32 && ComputedCapacity(r) == 0
  {
    var r := [0, 0xFFC0_0380, 0xB03, 0];
    assert DeviceSize(r) == 0xFFF && DeviceSizeMult(r) == 7 && ReadBlLen(r) == 11;
    ShiftByFour(0x1000, 5);
    ShiftByFour(0x1000, 1);
    ShiftByFour(0x20_0000, 7);
    ShiftByFour(0x20_0000, 3);
    assert ShiftLeft(0x20_0000, 3) == 0x100_0000;
  }

  /** Either way the number of 512-byte blocks fits 32 bits. */
  lemma BlocksFit(r: Response)
    ensures ComputedCapacity(r) / BLOCK_BYTES <= TWO32 && HighCapacity(r) / BLOCK_BYTES <= TWO32
  {
  }

  // Rate units of TRAN_SPEED in bits per second, and ten times its time values; code 0 is reserved.
  const RATE_UNITS: seq<nat> := [100_000, 1_000_000, 10_000_000, 100_000_000]
  const SD_TIME_VALUES: seq<nat> := [0, 10, 12, 13, 15, 20, 25, 30, 35, 40, 45, 50, 55, 60, 70, 80]
  const MMC_TIME_VALUES: seq<nat> := [0, 10, 12, 13, 15, 20, 26, 30, 35, 40, 45, 52, 55, 60, 70, 80]

  /** Bits 2:0 of TRAN_SPEED; 0 if they are reserved. */
  function RateUnit(tranSpeed: Byte): nat {
    if tranSpeed % 8 < 4 then RATE_UNITS[tranSpeed % 8] else 0
  }

  /** Bits 6:3 of TRAN_SPEED; 0 if they are reserved. */
  function TimeValue(function_: CardFunction, tranSpeed: Byte): nat {
    (if function_ == FunctionSd then SD_TIME_VALUES else MMC_TIME_VALUES)[tranSpeed / 8 % 16]
  }

  /** The card's maximum clock, of which the driver computes ten times as a UINT32 product. */
  function MaxFrequency(function_: CardFunction, tranSpeed: Byte): Option<nat> {
    if RateUnit(tranSpeed) == 0 || TimeValue(function_, tranSpeed) == 0 then None
    else Some(RateUnit(tranSpeed) * TimeValue(function_, tranSpeed) % TWO32 / 10)
  }

  /** There is one for every code but those that are reserved. */
  lemma ClockKnownExactly(function_: CardFunction, tranSpeed: Byte)
    ensures MaxFrequency(function_, tranSpeed).None? <==> tranSpeed % 8 >= 4 || tranSpeed / 8 % 16 == 0
  {
  }

  /** It is right but for 45 times the highest rate unit and more. */
  lemma FrequencyRightExactly(function_: CardFunction, tranSpeed: Byte)
    requires MaxFrequency(function_, tranSpeed).Some?
    ensures MaxFrequency(function_, tranSpeed) == Some(RateUnit(tranSpeed) * TimeValue(function_, tranSpeed) / 10) <==>
            !(tranSpeed % 8 == 3 && tranSpeed / 8 % 16 >= 10)
  {
    assert TimeValue(function_, tranSpeed) <= 80;
    assert TimeValue(function_, tranSpeed) >= 45 <==> tranSpeed / 8 % 16 >= 10;
  }

  /** Cards of the two standard speeds. */
  lemma StandardClocks()
    ensures MaxFrequency(FunctionSd, 0x32) == Some(25_000_000) && MaxFrequency(FunctionSd, 0x5A) == Some(50_000_000)
    ensures MaxFrequency(FunctionMmc, 0x32) == Some(26_000_000) && MaxFrequency(FunctionMmc, 0x5A) == Some(52_000_000)
  {
    FieldRead(0x32, 0, 16, 6, 8, 2);
    FieldRead(0x5A, 0, 16, 11, 8, 2);
  }

  /** PSN of an SD card, register bits 55:24, and of an MMC card, bits 47:16. */
  function SerialNumber(function_: CardFunction, cid: Response): Word32 {
    if function_ == FunctionSd then cid[0] / 0x1_0000 + cid[1] % 0x1_0000 * 0x1_0000
    else cid[0] / 0x100 + cid[1] % 0x100 * 0x100_0000
  }

  /** The serial number is read where each kind of card keeps it. */
  lemma SdSerialRead(cid: Response, high: nat, low: nat, above: nat, below: nat)
    requires high < 0x1_0000 && low < 0x1_0000 && below < 0x1_0000
    requires cid[0] == low * 0x1_0000 + below && cid[1] == above * 0x1_0000 + high
    ensures SerialNumber(FunctionSd, cid) == high * 0x1_0000 + low
  {
    FieldRead(cid[0], 0, 0x1_0000, low, 0x1_0000, below);
    FieldRead(cid[1], above, 0x1_0000, high, 1, 0);
  }

  lemma MmcSerialRead(cid: Response, high: nat, low: nat, above: nat, below: nat)
    requires high < 0x100 && low < 0x100_0000 && below < 0x100
    requires cid[0] == low * 0x100 + below && cid[1] == above * 0x100 + high
    ensures SerialNumber(FunctionMmc, cid) == high * 0x100_0000 + low
  {
    FieldRead(cid[0], 0, 0x100_0000, low, 0x100, below);
    FieldRead(cid[1], above, 0x100, high, 1, 0);
  }

  /** The card is powered up. */
  predicate PoweredUp(ocr: Word32) {
    ocr >= 0x8000_0000
  }

  /** OCR bits 30:29 of an MMC card. */
  predicate SectorMode(ocr: Word32) {
    ocr / 0x2000_0000 % 4 == 2
  }

  /** CCS, OCR bit 30 of an SD card. */
  predicate CapacityStatus(ocr: Word32) {
    ocr / 0x4000_0000 % 2 == 1
  }

  /** The OCR shows the whole high voltage window. */
  predicate HighVoltage(ocr: Word32) {
    ocr / 0x8000 % 0x200 == 0x1FF
  }

  /** The OCR from its fields. */
  lemma OcrRead(ocr: Word32, busy: nat, mode: nat, rest: nat, window: nat, low: nat)
    requires busy < 2 && mode < 4 && rest < 0x20 && window < 0x200 && low < 0x8000
    requires ocr == busy * 0x8000_0000 + mode * 0x2000_0000 + rest * 0x100_0000 + window * 0x8000 + low
    ensures PoweredUp(ocr) <==> busy == 1
    ensures SectorMode(ocr) <==> mode == 2
    ensures CapacityStatus(ocr) <==> mode >= 2
    ensures HighVoltage(ocr) <==> window == 0x1FF
  {
    var lower := rest * 0x100_0000 + window * 0x8000 + low;
    FieldRead(ocr, busy, 4, mode, 0x2000_0000, lower);
    FieldRead(ocr, busy, 2, mode / 2, 0x4000_0000, mode % 2 * 0x2000_0000 + lower);
    FieldRead(ocr, busy * 0x80 + mode * 0x20 + rest, 0x200, window, 0x8000, low);
  }

  /** The card returned check pattern and voltage. */
  predicate EchoesVoltage(answer: Word32) {
    answer % 0x100 == 0xAA && answer / 0x100 % 0x10 == 1
  }

  /** The answer to CMD8 from its fields, against those that were sent. */
  lemma EchoRead(answer: Word32, rest: nat, voltage: nat, pattern: nat)
    requires rest < 0x10_0000 && voltage < 0x10 && pattern < 0x100
    requires answer == rest * 0x1000 + voltage * 0x100 + pattern
    ensures EchoesVoltage(answer) <==> voltage * 0x100 + pattern == IF_COND_ARG
  {
    FieldRead(answer, rest * 0x10 + voltage, 0x100, pattern, 1, 0);
    FieldRead(answer, rest, 0x10, voltage, 0x100, pattern);
  }
}
