/** The SD/MMC command table, card-status decoding and thresholds
    (Protocol.c command definitions, SdMmc.h, SdMmcHw.h, Sdhc.h). */
module SdCommands {
  import opened Bytes

  datatype CommandType = TypeUndefined | TypeSuspend | TypeResume | TypeAbort
  datatype CommandClass = ClassStandard | ClassApp
  datatype ResponseType = NoResponse | R1 | R1B | R2 | R3 | R4 | R6
  datatype TransferType = TransferNone | SingleBlock | MultiBlock
  datatype Direction = DirectionUndefined | Read | Write

  /** SD_COMMAND. Structural equality of this datatype is `CmdsAreEqual`. */
  datatype Command = Command(
    index: nat, kind: CommandType, class_: CommandClass,
    response: ResponseType, transfer: TransferType, direction: Direction)

  datatype CardFunction = FunctionUnknown | FunctionSd | FunctionSdio | FunctionCombo | FunctionMmc

  datatype SpeedMode = SpeedUndefined | NormalSpeed | HighSpeed

  const GO_IDLE_STATE := Command(0, TypeUndefined, ClassStandard, NoResponse, TransferNone, DirectionUndefined)
  const SEND_OP_COND_MMC := Command(1, TypeUndefined, ClassStandard, R3, TransferNone, DirectionUndefined)
  const SEND_CID_ALL := Command(2, TypeUndefined, ClassStandard, R2, TransferNone, DirectionUndefined)
  const SEND_RELATIVE_ADDR := Command(3, TypeUndefined, ClassStandard, R6, TransferNone, DirectionUndefined)
  const SEND_OP_COND_SDIO := Command(5, TypeUndefined, ClassStandard, R4, TransferNone, DirectionUndefined)
  const SWITCH_SD := Command(6, TypeUndefined, ClassStandard, R1, SingleBlock, Read)
  const SWITCH_MMC := Command(6, TypeUndefined, ClassStandard, R1B, TransferNone, DirectionUndefined)
  const APP_SET_BUS_WIDTH_SD := Command(6, TypeUndefined, ClassApp, R1, TransferNone, DirectionUndefined)
  const SELECT := Command(7, TypeUndefined, ClassStandard, R1B, TransferNone, DirectionUndefined)
  const SEND_IF_COND_SD := Command(8, TypeUndefined, ClassStandard, R6, TransferNone, DirectionUndefined)
  const SEND_EXT_CSD_MMC := Command(8, TypeUndefined, ClassStandard, R1, SingleBlock, Read)
  const SEND_CSD := Command(9, TypeUndefined, ClassStandard, R2, TransferNone, DirectionUndefined)
  const SEND_CID := Command(10, TypeUndefined, ClassStandard, R2, TransferNone, DirectionUndefined)
  const STOP_TRANSMISSION := Command(12, TypeAbort, ClassStandard, R1B, TransferNone, DirectionUndefined)
  const SEND_STATUS := Command(13, TypeUndefined, ClassStandard, R1, TransferNone, DirectionUndefined)
  const SET_BLOCK_LENGTH := Command(16, TypeUndefined, ClassStandard, R1, TransferNone, DirectionUndefined)
  const READ_SINGLE_BLOCK := Command(17, TypeUndefined, ClassStandard, R1, SingleBlock, Read)
  const READ_MULTI_BLOCK := Command(18, TypeUndefined, ClassStandard, R1, MultiBlock, Read)
  const SET_BLOCK_COUNT := Command(23, TypeUndefined, ClassStandard, R1, TransferNone, DirectionUndefined)
  const WRITE_SINGLE_BLOCK := Command(24, TypeUndefined, ClassStandard, R1, SingleBlock, Write)
  const WRITE_MULTI_BLOCK := Command(25, TypeUndefined, ClassStandard, R1, MultiBlock, Write)
  const APP_SEND_OP_COND_SD := Command(41, TypeUndefined, ClassApp, R3, TransferNone, DirectionUndefined)
  const APP_CMD := Command(55, TypeUndefined, ClassApp, R1, TransferNone, DirectionUndefined)

  const BLOCK_BYTES: nat := 512
  const POLL_WAIT_COUNT: nat := 200
  const RECOVERY_THRESHOLD: nat := 3
  const MMC_MIN_SPEC_VERS: nat := 4

  // Byte offsets of the EXT_CSD fields the driver reads.
  const EXT_RPMB_SIZE_MULT: nat := 168
  const EXT_PARTITION_CONFIG: Byte := 179
  const EXT_BUS_WIDTH: Byte := 183
  const EXT_HIGH_SPEED_TIMING: Byte := 185
  const EXT_POWER_CLASS: Byte := 187
  const EXT_POWER_CLASS_52_360: nat := 202
  const EXT_POWER_CLASS_26_360: nat := 203
  const EXT_SECTOR_COUNT: nat := 212
  const EXT_RELIABLE_WRITE: nat := 222

  // MmcSwitchCmdAccessTypeWriteByte and MmcExtCsdBusWidth8Bit.
  const WRITE_BYTE: Byte := 3
  const BUS_WIDTH_8: Byte := 2

  const IDENT_CLOCK_HZ: nat := 400_000
  const MMC_HIGH_SPEED_CLOCK_HZ: nat := 52_000_000

  // Command arguments: check pattern and voltage of CMD8, the voltage window and sector mode of CMD1, the
  // high-capacity bit of ACMD41, and the 4-bit bus of ACMD6.
  const IF_COND_ARG: Word32 := 0x1AA
  const OP_COND_MMC_ARG: Word32 := 0x40FF_8000
  const HOST_CAPACITY_SUPPORT: Word32 := 0x4000_0000
  const BUS_WIDTH_4_SD: Word32 := 2

  // The address that an MMC card is given.
  const MMC_RCA: Word32 := 0xCCCC

  // MMC_EXT_CSD_PARTITION_ACCESS values used by name.
  const USER_AREA: Byte := 0
  const RPMB_AREA: Byte := 3

  predicate IsMultiBlock(cmd: Command) {
    cmd == WRITE_MULTI_BLOCK || cmd == READ_MULTI_BLOCK
  }

  predicate IsSwitch(cmd: Command) {
    cmd == SWITCH_MMC || cmd == SWITCH_SD
  }

  /** The four block-transfer commands of BlockIo and RpmbIo. */
  predicate IsBlockRead(cmd: Command) {
    cmd == READ_SINGLE_BLOCK || cmd == READ_MULTI_BLOCK
  }

  predicate IsBlockWrite(cmd: Command) {
    cmd == WRITE_SINGLE_BLOCK || cmd == WRITE_MULTI_BLOCK
  }

  /** The command table. */
  const COMMANDS: seq<Command> :=
    [GO_IDLE_STATE, SEND_OP_COND_MMC, SEND_CID_ALL, SEND_RELATIVE_ADDR, SEND_OP_COND_SDIO, SWITCH_SD, SWITCH_MMC,
     APP_SET_BUS_WIDTH_SD, SELECT, SEND_IF_COND_SD, SEND_EXT_CSD_MMC, SEND_CSD, SEND_CID, STOP_TRANSMISSION,
     SEND_STATUS, SET_BLOCK_LENGTH, READ_SINGLE_BLOCK, READ_MULTI_BLOCK, SET_BLOCK_COUNT, WRITE_SINGLE_BLOCK,
     WRITE_MULTI_BLOCK, APP_SEND_OP_COND_SD, APP_CMD]

  /** The tests on commands, by transfer type, direction and index. */
  lemma CommandKinds(cmd: Command)
    requires cmd in COMMANDS
    ensures IsMultiBlock(cmd) <==> cmd.transfer == MultiBlock
    ensures IsSwitch(cmd) <==> cmd.index == 6 && cmd.class_ == ClassStandard
    ensures IsBlockWrite(cmd) <==> cmd.direction == Write
    ensures IsBlockRead(cmd) <==> cmd.direction == Read && (cmd.index == 17 || cmd.index == 18)
  {
  }

  /** Bit `i` of a word. */
  predicate Bit(word: nat, i: nat) {
    if i == 0 then word % 2 == 1 else Bit(word / 2, i - 1)
  }

  /** The bits of SD_CARD_STATUS_ERROR_MASK and MMC_CARD_STATUS_ERROR_MASK. */
  function ErrorBits(function_: CardFunction): set<nat> {
    match function_
    case FunctionSd => {3, 13, 15, 16, 19, 20, 21, 22, 23, 24, 26, 27, 28, 29, 30, 31}
    case FunctionMmc => {7, 13, 15, 16, 17, 18, 19, 20, 21, 22, 23, 24, 26, 27, 28, 29, 30, 31}
    case _ => {}
  }

  /** The masked card status is returned as a one-byte BOOLEAN (section 2.3.1 of the UEFI
      Specification): only bits of its low byte can be seen. */
  predicate IsCardStatusError(function_: CardFunction, cardStatus: Word32) {
    exists i :: i in ErrorBits(function_) && i < 8 && Bit(cardStatus, i)
  }

  /** The card reports one of the errors that the driver's mask names. */
  predicate ReportsError(function_: CardFunction, cardStatus: Word32) {
    exists i :: i in ErrorBits(function_) && Bit(cardStatus, i)
  }

  /** The driver notices AKE_SEQ_ERROR alone of an SD card's errors, SWITCH_ERROR alone of an MMC card's. */
  lemma CardStatusErrorExactly(function_: CardFunction, cardStatus: Word32)
    ensures IsCardStatusError(function_, cardStatus) <==>
            (function_ == FunctionSd && Bit(cardStatus, 3)) || (function_ == FunctionMmc && Bit(cardStatus, 7))
  {
    assert 3 in ErrorBits(FunctionSd) && 7 in ErrorBits(FunctionMmc);
  }

  /** The test agrees with the mask unless the card reports errors above the low byte alone. */
  lemma ErrorMissedExactly(function_: CardFunction, cardStatus: Word32)
    ensures IsCardStatusError(function_, cardStatus) ==> ReportsError(function_, cardStatus)
    ensures ReportsError(function_, cardStatus) && !IsCardStatusError(function_, cardStatus) <==>
            (exists i :: i in ErrorBits(function_) && i >= 8 && Bit(cardStatus, i)) &&
            !(function_ == FunctionSd && Bit(cardStatus, 3)) && !(function_ == FunctionMmc && Bit(cardStatus, 7))
  {
    CardStatusErrorExactly(function_, cardStatus);
  }

  function Power(k: nat): nat {
    if k == 0 then 1 else 2 * Power(k - 1)
  }

  lemma {:induction false} PowerSum(i: nat, j: nat)
    ensures Power(i + j) == Power(i) * Power(j)
  {
    if j > 0 {
      PowerSum(i, j - 1);
    }
  }

  lemma {:induction false} BitOfPower(k: nat, i: nat)
    ensures Bit(Power(k), i) <==> i == k
  {
    if k > 0 && i > 0 {
      BitOfPower(k - 1, i - 1);
    } else if i > 0 {
      NoBitOfZero(i - 1);
    }
  }

  lemma {:induction false} NoBitOfZero(i: nat)
    ensures !Bit(0, i)
  {
    if i > 0 {
      NoBitOfZero(i - 1);
    }
  }

  /** ILLEGAL_COMMAND, bit 22, goes unnoticed. */
  lemma IllegalCommandMissed(function_: CardFunction)
    requires function_ == FunctionSd || function_ == FunctionMmc
    ensures ReportsError(function_, 0x0040_0000) && !IsCardStatusError(function_, 0x0040_0000)
  {
    CardStatusErrorExactly(function_, 0x0040_0000);
    assert Power(8) == 0x100;
    assert Power(16) == 0x1_0000 by {
      PowerSum(8, 8);
    }
    assert Power(6) == 0x40;
    PowerSum(16, 6);
    BitOfPower(22, 22);
    BitOfPower(22, 3);
    BitOfPower(22, 7);
    assert 22 in ErrorBits(function_);
  }

  /** A response that the host received counts as a success unless it is an R1/R1B card status in
      which the driver notices an error. */
  predicate ResponseAccepted(cmd: Command, function_: CardFunction, word0: Word32) {
    (cmd.response == R1 || cmd.response == R1B) ==> !IsCardStatusError(function_, word0)
  }

  /** Answers that are no card status are accepted whatever they are; a card status is, unless an SD card reports
      bit 3 or an MMC card bit 7. */
  lemma AcceptedAnswers(cmd: Command, function_: CardFunction, word0: Word32)
    ensures cmd.response in {NoResponse, R2, R3, R4, R6} ==> ResponseAccepted(cmd, function_, word0)
    ensures cmd.response in {R1, R1B} ==>
              (ResponseAccepted(cmd, function_, word0) <==>
                !(function_ == FunctionSd && Bit(word0, 3)) && !(function_ == FunctionMmc && Bit(word0, 7)))
  {
    CardStatusErrorExactly(function_, word0);
  }

  /** READY_FOR_DATA, bit 8. */
  predicate ReadyForData(cardStatus: Word32) {
    (cardStatus / 0x100) % 2 == 1
  }

  /** CURRENT_STATE, bits 12:9, is CardStateTran. */
  predicate InTranState(cardStatus: Word32) {
    (cardStatus / 0x200) % 16 == 4
  }

  /** The card status from its fields. */
  lemma CardStatusRead(cardStatus: Word32, above: nat, state: nat, ready: nat, below: nat)
    requires above < 0x8_0000 && state < 16 && ready < 2 && below < 0x100
    requires cardStatus == above * 0x2000 + state * 0x200 + ready * 0x100 + below
    ensures InTranState(cardStatus) <==> state == 4
    ensures ReadyForData(cardStatus) <==> ready == 1
  {
    FieldRead(cardStatus, above, 16, state, 0x200, ready * 0x100 + below);
    FieldRead(cardStatus, above * 16 + state, 2, ready, 0x100, below);
  }

  /** MMC_SWITCH_CMD_ARG with Access = WriteByte: Index in bits 23:16, Value in bits 15:8. */
  function SwitchArg(index: Byte, value: Byte): (arg: Word32)
    ensures SwitchAccess(arg) == WRITE_BYTE && SwitchIndex(arg) == index && SwitchValue(arg) == value
    ensures arg < 0x400_0000 && arg % 0x100 == 0
  {
    0x0300_0000 + (index as int) * 0x1_0000 + (value as int) * 0x100
  }

  function SwitchAccess(arg: Word32): Byte {
    ((arg as int) / 0x100_0000) % 4
  }

  function SwitchIndex(arg: Word32): Byte {
    ((arg as int) / 0x1_0000) % 256
  }

  function SwitchValue(arg: Word32): Byte {
    ((arg as int) / 0x100) % 256
  }

  /** A SWITCH whose Index field names EXT_CSD[PARTITION_CONFIG]. */
  predicate SwitchesPartition(cmd: Command, arg: Word32) {
    cmd == SWITCH_MMC && SwitchIndex(arg) == EXT_PARTITION_CONFIG
  }

  /** Of the arguments that the driver makes, those for this index switch the partition. */
  lemma PartitionSwitchOnly(cmd: Command, index: Byte, value: Byte)
    ensures SwitchesPartition(cmd, SwitchArg(index, value)) <==> cmd == SWITCH_MMC && index == EXT_PARTITION_CONFIG
  {
  }

  /** PARTITION_CONFIG bits 2:0. */
  function PartitionAccess(config: Byte): Byte {
    config % 8
  }

  /** PARTITION_CONFIG bits 7:3: reserved, BOOT_ACK and BOOT_PARTITION_ENABLE. */
  function BootBits(config: Byte): Byte {
    config / 8
  }

  function WithPartitionAccess(config: Byte, partition: Byte): (r: Byte)
    ensures PartitionAccess(r) == partition % 8 && BootBits(r) == BootBits(config)
  {
    (BootBits(config) as int) * 8 + partition % 8
  }

  /** Switching to a partition and back restores the register, boot bits included. */
  lemma PartitionRestored(config: Byte, partition: Byte)
    ensures WithPartitionAccess(WithPartitionAccess(config, partition), PartitionAccess(config)) == config
    ensures WithPartitionAccess(config, PartitionAccess(config)) == config
  {
  }
}
