/** One SD/MMC slot: command engine, error recovery, card initialisation and soft reset
    (Protocol.c and SdMmc.c). Failing commands recover, recovery may soft-reset and re-initialise the
    card, and each command of that may fail and recover again. */
module SdhcSlot {
  import opened Wrappers
  import opened Bytes
  import opened EfiStatus
  import opened SdCommands
  import opened SdHost
  import opened CardRegisters

  /** `now` is `before` followed by one or more polls. */
  ghost predicate Polled(before: seq<Event>, now: seq<Event>, poll: Event) {
    |before| < |now| && now[..|before|] == before && forall i | |before| <= i < |now| :: now[i] == poll
  }

  predicate IsPoll(e: Event) {
    e.Sent? && e.command == SEND_STATUS
  }

  predicate IsStop(e: Event) {
    e.Sent? && e.command == STOP_TRANSMISSION
  }

  /** The events that are no status polls. */
  function Unpolled(events: seq<Event>): seq<Event> {
    if events == [] then []
    else
      var front, last := events[..|events| - 1], events[|events| - 1];
      if IsPoll(last) then Unpolled(front) else Unpolled(front) + [last]
  }

  /** Between `before` and `now` the host was given `events`, and status polls in any number. */
  ghost predicate Said(before: seq<Event>, now: seq<Event>, events: seq<Event>) {
    before <= now && Unpolled(now[|before|..]) == events
  }

  lemma {:induction false} UnpolledAppend(a: seq<Event>, b: seq<Event>)
    ensures Unpolled(a + b) == Unpolled(a) + Unpolled(b)
  {
    if b == [] {
      assert a + b == a;
    } else {
      assert (a + b)[..|a + b| - 1] == a + b[..|b| - 1];
      UnpolledAppend(a, b[..|b| - 1]);
    }
  }

  lemma {:induction false} OnlyPolls(events: seq<Event>)
    requires forall i | 0 <= i < |events| :: IsPoll(events[i])
    ensures Unpolled(events) == []
  {
    if events != [] {
      OnlyPolls(events[..|events| - 1]);
    }
  }

  lemma {:induction false} NoPolls(events: seq<Event>)
    requires forall i | 0 <= i < |events| :: !IsPoll(events[i])
    ensures Unpolled(events) == events
  {
    if events != [] {
      NoPolls(events[..|events| - 1]);
    }
  }

  lemma {:induction false} UnpolledHolds(events: seq<Event>, e: Event)
    requires !IsPoll(e)
    ensures e in Unpolled(events) <==> e in events
  {
    if events != [] {
      UnpolledHolds(events[..|events| - 1], e);
      assert events == events[..|events| - 1] + [events[|events| - 1]];
    }
  }

  lemma PolledSays(before: seq<Event>, events: seq<Event>, now: seq<Event>, poll: Event)
    requires Polled(before + events, now, poll) && IsPoll(poll)
    requires forall i | 0 <= i < |events| :: !IsPoll(events[i])
    ensures Said(before, now, events)
  {
    var n, k := |before|, |before + events|;
    assert now[..n] == now[..k][..n] == before;
    assert now[n..] == now[..k][n..] + now[k..];
    NoPolls(events);
    OnlyPolls(now[k..]);
    UnpolledAppend(events, now[k..]);
  }

  lemma SaidThen(a: seq<Event>, b: seq<Event>, c: seq<Event>, x: seq<Event>, y: seq<Event>)
    requires Said(a, b, x) && Said(b, c, y)
    ensures Said(a, c, x + y)
  {
    assert c[|a|..] == b[|a|..] + c[|b|..];
    UnpolledAppend(b[|a|..], c[|b|..]);
  }

  /** Somewhere between `before` and `now` the host was given `e`. */
  ghost predicate Asked(before: seq<Event>, now: seq<Event>, e: Event) {
    exists i :: |before| <= i < |now| && now[i] == e
  }

  lemma AskedWithin(a: seq<Event>, b: seq<Event>, c: seq<Event>, d: seq<Event>, e: Event)
    requires a <= b && Asked(b, c, e) && c <= d
    ensures Asked(a, d, e)
  {
    var i :| |b| <= i < |c| && c[i] == e;
    assert d[i] == e;
  }

  /** What `SdhcSendCommandHelper` hands to the host for one accepted command; `app` is the argument of
      CMD55. */
  function Lead(cmd: Command, arg: Word32, app: Word32): seq<Event> {
    if cmd.class_ == ClassApp then [Sent(APP_CMD, app), Sent(cmd, arg)] else [Sent(cmd, arg)]
  }

  /** The data phase behind a command. */
  function DataPhase(cmd: Command, data: seq<Byte>): Event {
    if cmd.direction == Read then DataIn(|data|) else DataOut(data)
  }

  function StopIf(due: bool, rca: Word32): seq<Event> {
    if due then [Sent(STOP_TRANSMISSION, rca)] else []
  }

  /** The source's rule for ending a multi-block transfer explicitly. */
  ghost predicate StopDue(cmd: Command, lastSuccess: Option<Command>) {
    IsMultiBlock(cmd) && lastSuccess != Some(SET_BLOCK_COUNT)
  }

  /** A successful multi-block transfer was handed to the host with its data, and what followed it holds a
      STOP_TRANSMISSION, then right behind the data, exactly when the success before it was no
      SET_BLOCK_COUNT. */
  lemma StopDiscipline(before: seq<Event>, cmd: Command, arg: Word32, data: Event, lastSuccess: Option<Command>,
                       now: seq<Event>, rca: Word32)
    requires IsMultiBlock(cmd) && !data.Sent?
    requires Polled(before + Lead(cmd, arg, rca) + [data] + StopIf(StopDue(cmd, lastSuccess), rca), now,
                    Sent(SEND_STATUS, rca))
    ensures now[..|before|] == before && |before| + 2 < |now|
    ensures now[|before|] == Sent(cmd, arg) && now[|before| + 1] == data
    ensures (exists i :: |before| <= i < |now| && IsStop(now[i])) <==> lastSuccess != Some(SET_BLOCK_COUNT)
    ensures IsStop(now[|before| + 2]) <==> lastSuccess != Some(SET_BLOCK_COUNT)
  {
    var n := |before|;
    var lead := before + Lead(cmd, arg, rca) + [data] + StopIf(StopDue(cmd, lastSuccess), rca);
    assert now[..n] == now[..|lead|][..n] == lead[..n] == before;
    assert now[n] == now[..|lead|][n] == lead[n] == Sent(cmd, arg);
    assert now[n + 1] == now[..|lead|][n + 1] == lead[n + 1] == data;
    if StopDue(cmd, lastSuccess) {
      assert now[n + 2] == now[..|lead|][n + 2] == lead[n + 2];
    }
  }

  /** From `n` on, the record shows what a recovery from `cmd` resets: the CMD line, and behind a data
      command the DAT line. */
  ghost predicate LinesReset(controls: seq<Control>, n: nat, cmd: Command) {
    n < |controls| && controls[n].op == ResetCmd &&
    (cmd.transfer != TransferNone ==> n + 1 < |controls| && controls[n + 1].op == ResetData)
  }

  /** The last of these line resets worked. */
  ghost predicate LinesWork(controls: seq<Control>, n: nat, cmd: Command)
    requires LinesReset(controls, n, cmd)
  {
    if cmd.transfer == TransferNone then controls[n].ok else controls[n + 1].ok
  }

  /** The last element of a history, if any. */
  ghost function Latest(history: seq<Command>): Option<Command> {
    if history == [] then None else Some(history[|history| - 1])
  }

  /** The one before the last. */
  ghost function Previous(history: seq<Command>): Option<Command> {
    if |history| < 2 then None else Some(history[|history| - 2])
  }

  /** EFI_BLOCK_IO_MEDIA. */
  datatype Media = Media(
    id: Word32, removable: bool, present: bool, readOnly: bool, blockSize: nat, lastBlock: nat)

  const NO_MEDIA := Media(0, false, false, false, 0, 0)

  /** The card data published through EFI_RPMB_IO_PROTOCOL. */
  datatype RpmbInfo = RpmbInfo(reliableSectorCount: Byte, sizeMult: Byte)

  /** CARD_INFO. Of the registers, `cid` and `extCsd` are kept whole, of the CSD the two fields that
      the driver tests. */
  datatype CardInfo = CardInfo(
    rca: Word32, function_: CardFunction, hasExtendedOcr: bool, highCapacity: bool, byteCapacity: nat,
    speed: SpeedMode, cid: seq<Word32>, specVers: nat, tranSpeed: Byte, extCsd: seq<Byte>)

  /** How the soft reset of a recovery ended, and what had been issued by then. */
  datatype Recovery = Recovery(status: Status, issued: seq<Event>)

  /** Which of the protocols that come and go with a card are recorded as installed, and how many requests to the
      handle database have failed. */
  datatype Installed = Installed(devicePath: bool, rpmbIo: bool, failures: nat)

  /** A switch made from the cleared copy of EXT_CSD asks for boot bits 0. */
  lemma ClearedCopyClearsBootBits(partition: Byte)
    ensures BootBits(WithPartitionAccess(ZERO_CARD.extCsd[EXT_PARTITION_CONFIG], partition)) == 0
  {
  }

  /** Which probes of the card type were answered. */
  datatype Answers = Answers(sd: bool, sdio: bool, mmc: bool)
  {
    function Type(): CardFunction {
      if sd && sdio then FunctionCombo else if sdio then FunctionSdio else if sd then FunctionSd
      else if mmc then FunctionMmc else FunctionUnknown
    }
  }

  /** What the answered probes say of the card. */
  lemma TypeExactly(a: Answers)
    ensures a.Type() == FunctionCombo <==> a.sd && a.sdio
    ensures a.Type() == FunctionSdio <==> !a.sd && a.sdio
    ensures a.Type() == FunctionSd <==> a.sd && !a.sdio
    ensures a.Type() == FunctionMmc <==> !a.sd && !a.sdio && a.mmc
  {
  }

  /** The commands by which every card is identified: an MMC card is assigned the address by which it is
      asked on, any other card states its own. */
  function Identification(mmc: bool, rca: Word32): seq<Event> {
    [Sent(SEND_CID_ALL, 0), Sent(SEND_RELATIVE_ADDR, if mmc then rca else 0), Sent(SEND_CID, rca), Sent(SEND_CSD, rca)]
  }

  function ExtCsdRead(rca: Word32): seq<Event> {
    [Sent(SEND_EXT_CSD_MMC, rca), DataIn(BLOCK_BYTES)]
  }

  /** A SWITCH of one byte of EXT_CSD, which is then read back. */
  function Switched(index: Byte, value: Byte, rca: Word32): seq<Event> {
    [Sent(SWITCH_MMC, SwitchArg(index, value))] + ExtCsdRead(rca)
  }

  /** The switch of a card whose register reads `config` to `partition`. */
  function PartitionSwitch(config: Byte, partition: Byte, rca: Word32): seq<Event> {
    Switched(EXT_PARTITION_CONFIG, WithPartitionAccess(config, partition), rca)
  }

  function PowerTranscript(raised: bool, need: Byte, rca: Word32): seq<Event> {
    if raised then ExtCsdRead(rca) + Switched(EXT_POWER_CLASS, need, rca) else ExtCsdRead(rca)
  }

  function BusWidthTranscript(raised: bool, need: Byte, rca: Word32): seq<Event> {
    PowerTranscript(raised, need, rca) + [Sent(SWITCH_MMC, SwitchArg(EXT_BUS_WIDTH, BUS_WIDTH_8))]
  }

  /** EXT_CSD, the switch to high speed, and the switch of the bus width. */
  function ConfigureTranscript(raised: bool, need: Byte, rca: Word32): seq<Event> {
    ExtCsdRead(rca) + Switched(EXT_HIGH_SPEED_TIMING, 1, rca) + BusWidthTranscript(raised, need, rca)
  }

  /** The power class that the 8-bit bus needs at the card's speed. */
  function PowerClassNeeded(card: CardInfo): Byte
    requires |card.extCsd| == BLOCK_BYTES
  {
    card.extCsd[if card.speed == HighSpeed then EXT_POWER_CLASS_52_360 else EXT_POWER_CLASS_26_360] / 16
  }

  /** It is the upper half of its byte. */
  lemma PowerClassRead(card: CardInfo, need: nat, narrow: nat)
    requires |card.extCsd| == BLOCK_BYTES && need < 16 && narrow < 16
    ensures card.speed == HighSpeed && card.extCsd[EXT_POWER_CLASS_52_360] == need * 16 + narrow ==>
              PowerClassNeeded(card) == need
    ensures card.speed != HighSpeed && card.extCsd[EXT_POWER_CLASS_26_360] == need * 16 + narrow ==>
              PowerClassNeeded(card) == need
  {
  }

  /** The bytes of EXT_CSD that the configuration of an MMC card asks to be written, and their values. */
  lemma ConfigurationWrites(raised: bool, need: Byte, rca: Word32)
    ensures var said := ConfigureTranscript(raised, need, rca);
            Writes(said[2], EXT_HIGH_SPEED_TIMING, 1) && Writes(said[|said| - 1], EXT_BUS_WIDTH, BUS_WIDTH_8) &&
            (if raised then |said| == 11 && Writes(said[7], EXT_POWER_CLASS, need) else |said| == 8)
  {
  }

  predicate Writes(e: Event, index: Byte, value: Byte) {
    e.Sent? && e.command == SWITCH_MMC &&
    SwitchAccess(e.arg) == WRITE_BYTE && SwitchIndex(e.arg) == index && SwitchValue(e.arg) == value
  }

  lemma ExtCsdPhases(before: seq<Event>, rca: Word32, data: seq<Byte>, lastSuccess: Option<Command>)
    requires |data| == BLOCK_BYTES
    ensures before + Lead(SEND_EXT_CSD_MMC, rca, rca) + [DataPhase(SEND_EXT_CSD_MMC, data)]
            + StopIf(StopDue(SEND_EXT_CSD_MMC, lastSuccess), rca)
         == before + ExtCsdRead(rca)
  {
  }

  lemma SwitchedSays(before: seq<Event>, between: seq<Event>, now: seq<Event>, index: Byte, value: Byte, rca: Word32)
    requires Polled(before + [Sent(SWITCH_MMC, SwitchArg(index, value))], between, Sent(SEND_STATUS, rca))
    requires Polled(between + ExtCsdRead(rca), now, Sent(SEND_STATUS, rca))
    ensures Said(before, now, Switched(index, value, rca))
  {
    var first := [Sent(SWITCH_MMC, SwitchArg(index, value))];
    PolledSays(before, first, between, Sent(SEND_STATUS, rca));
    PolledSays(between, ExtCsdRead(rca), now, Sent(SEND_STATUS, rca));
    SaidThen(before, between, now, first, ExtCsdRead(rca));
  }

  lemma IdentifiedSays(before: seq<Event>, now: seq<Event>, mmc: bool, rca: Word32)
    requires now == before + Identification(mmc, rca) + [Sent(SELECT, rca)]
    ensures Said(before, now, Identification(mmc, rca) + [Sent(SELECT, rca)])
  {
    assert now[|before|..] == Identification(mmc, rca) + [Sent(SELECT, rca)];
    NoPolls(Identification(mmc, rca) + [Sent(SELECT, rca)]);
  }

  /** The events, `n` times over. */
  function Repeat(events: seq<Event>, n: nat): seq<Event> {
    if n == 0 then [] else Repeat(events, n - 1) + events
  }

  lemma RepeatMore(before: seq<Event>, events: seq<Event>, n: nat)
    ensures before + Repeat(events, n) + events == before + Repeat(events, n + 1)
    ensures before + Repeat(events, 0) == before
    ensures before + events <= before + Repeat(events, n + 1)
  {
    RepeatStarts(events, n);
  }

  lemma {:induction false} RepeatStarts(events: seq<Event>, n: nat)
    ensures events <= Repeat(events, n + 1)
  {
    if n > 0 {
      RepeatStarts(events, n - 1);
    }
  }

  /** CMD41 with argument 0 reads the voltage window, which is then offered until the card is powered up. */
  function PowerUpSd(rca: Word32, window: nat, polls: nat): seq<Event>
    requires window < 0x100_0000
  {
    Lead(APP_SEND_OP_COND_SD, 0, rca) + Repeat(Lead(APP_SEND_OP_COND_SD, HOST_CAPACITY_SUPPORT + window, rca), polls)
  }

  /** The voltage window is read with argument 0 and offered with the high-capacity bit. */
  lemma OfferIs(rca: Word32, window: nat)
    requires window < 0x100_0000
    ensures PowerUpSd(rca, window, 1)
         == [Sent(APP_CMD, rca), Sent(APP_SEND_OP_COND_SD, 0), Sent(APP_CMD, rca),
             Sent(APP_SEND_OP_COND_SD, 0x4000_0000 + window)]
  {
    assert Repeat(Lead(APP_SEND_OP_COND_SD, HOST_CAPACITY_SUPPORT + window, rca), 0) == [];
  }

  /** `card` with the capacity, version and speed of a CSD. A high-capacity MMC card states its
      capacity in EXT_CSD only. */
  function WithCsd(card: CardInfo, csd: Response): CardInfo {
    match card.function_
    case FunctionSd =>
      card.(byteCapacity := if CsdStructure(csd) == 0 then ComputedCapacity(csd) else HighCapacity(csd),
            specVers := SpecVers(csd), tranSpeed := TranSpeed(csd))
    case FunctionMmc =>
      card.(byteCapacity := if card.highCapacity then 0 else ComputedCapacity(csd),
            specVers := SpecVers(csd), tranSpeed := TranSpeed(csd))
    case _ => card.(byteCapacity := 0)
  }

  /** A CSD changes three fields, and states no more than 2^32 blocks. */
  lemma CsdFields(card: CardInfo, csd: Response)
    ensures var now := WithCsd(card, csd);
            now == card.(byteCapacity := now.byteCapacity, specVers := now.specVers, tranSpeed := now.tranSpeed) &&
            now.byteCapacity / BLOCK_BYTES <= TWO32
  {
    hide ComputedCapacity, HighCapacity, CsdStructure, SpecVers, TranSpeed;
    BlocksFit(csd);
  }

  /** Which capacity a card is given: an SD card of version 2 has C_SIZE + 1 times 512 KiB, any other what its
      CSD states, if that is below 4 GiB; a high-capacity MMC card has none yet. */
  lemma CapacityGiven(card: CardInfo, csd: Response)
    ensures var given := WithCsd(card, csd).byteCapacity;
            (card.function_ == FunctionSd && CsdStructure(csd) != 0 ==>
               given == (DeviceSize2(csd) + 1) * 0x8_0000 &&
               LastBlockOf(given / BLOCK_BYTES) == 1024 * (DeviceSize2(csd) + 1) - 1) &&
            (card.function_ == FunctionMmc && card.highCapacity ==> given == 0) &&
            (card.function_ != FunctionSd && card.function_ != FunctionMmc ==> given == 0) &&
            (given == 0 ==> LastBlockOf(given / BLOCK_BYTES) == 0) &&
            ((card.function_ == FunctionSd && CsdStructure(csd) == 0) ||
             (card.function_ == FunctionMmc && !card.highCapacity) ==>
               (given == StatedCapacity(csd) <==> StatedCapacity(csd) < TWO32))
  {
    hide StatedCapacity;
  }

  function LastBlockOf(blocks: nat): nat {
    if blocks > 0 then blocks - 1 else 0
  }

  const ZERO_CARD := CardInfo(0, FunctionUnknown, false, false, 0, SpeedUndefined, [0, 0, 0, 0], 0, 0,
                              seq(BLOCK_BYTES, _ => 0))

  class SdhcInstance {
    const handle: nat
    const host: Host
    const db: HandleDatabase
    const maxBlockCount: nat
    const blockBuffer: array<Byte>

    var slotInitialized: bool

    var media: Media
    var rpmbInfo: RpmbInfo

    var blockIoInstalled: bool
    var devicePathInstalled: bool
    var rpmbIoInstalled: bool
    var currentPartition: Byte

    var card: CardInfo
    var response: seq<Word32>
    var preLastSuccess: Option<Command>
    var lastSuccess: Option<Command>
    var attempts: nat

    // The highest value `attempts` ever had, and the number of soft resets begun.
    ghost var peak: nat
    ghost var softResets: nat

    // How often the driver gave up for a reason of its own: a poll that ran out, or an answer of the card
    // that it cannot use.
    ghost var setbacks: nat

    /** The three installed flags say exactly what the handle database holds for this slot. */
    ghost predicate FlagsAgree()
      reads this`blockIoInstalled, this`devicePathInstalled, this`rpmbIoInstalled, db
    {
      (blockIoInstalled <==> Entry(handle, BlockIoProtocol) in db.installed) &&
      (devicePathInstalled <==> Entry(handle, DevicePathProtocol) in db.installed) &&
      (rpmbIoInstalled <==> Entry(handle, RpmbIoProtocol) in db.installed)
    }

    ghost predicate Valid()
      reads this, host, db
    {
      lastSuccess == Latest(host.succeeded) &&
      preLastSuccess == Previous(host.succeeded) &&
      FlagsAgree() && db.RpmbUnique() &&
      blockBuffer.Length == BLOCK_BYTES && |card.extCsd| == BLOCK_BYTES &&
      |response| == 4 && |card.cid| == 4 &&
      (media.blockSize == 0 || media.blockSize == BLOCK_BYTES) && media.lastBlock < TWO32 &&
      (blockIoInstalled && media.present ==> lastSuccess.Some?) &&
      (rpmbIoInstalled && host.honest ==> BootBitsCached()) &&
      currentPartition <= 7 && attempts <= peak <= RECOVERY_THRESHOLD + 1
    }

    /** The EXT_CSD last read has the boot bits of the card's PARTITION_CONFIG. */
    ghost predicate BootBitsCached()
      reads this`card, host`config
    {
      |card.extCsd| == BLOCK_BYTES && BootBits(host.config) == BootBits(card.extCsd[EXT_PARTITION_CONFIG])
    }

    /** BOOT_ACK and BOOT_PARTITION_ENABLE of the card's register are as before. */
    twostate predicate KeepsBootBits()
      reads host
    {
      BootBits(host.config) == BootBits(old(host.config))
    }

    /** What no operation of the slot disturbs. */
    twostate predicate Kept()
      reads this, host, db
    {
      attempts == old(attempts) &&
      |old(host.succeeded)| <= |host.succeeded| && old(host.issued) <= host.issued &&
      old(host.controls) <= host.controls && old(host.answers) <= host.answers &&
      |old(host.userArea)| == |host.userArea| &&
      old(softResets) <= softResets && NoneForgotten() &&
      (softResets == old(softResets) && old(media.blockSize) == BLOCK_BYTES ==> media.blockSize == BLOCK_BYTES) &&
      (softResets == old(softResets) ==> rpmbIoInstalled == old(rpmbIoInstalled)) &&
      Others(db.installed, handle) == Others(old(db.installed), handle)
    }

    /** Faults, setbacks and failures of the handle database are only ever added. */
    twostate predicate NoneForgotten()
      reads this, host, db
    {
      old(host.faults) <= host.faults && old(setbacks) <= setbacks && old(db.failures) <= db.failures
    }

    /** There was a reason to fail: no operation fails of its own accord. */
    twostate predicate Excused()
      reads this, host, db
    {
      old(host.faults) < host.faults || old(setbacks) < setbacks || old(db.failures) < db.failures
    }

    /** The last success does not become a SET_BLOCK_COUNT. */
    twostate predicate CountForgotten()
      reads this
    {
      old(lastSuccess) != Some(SET_BLOCK_COUNT) ==> lastSuccess != Some(SET_BLOCK_COUNT)
    }

    /** The user area is selected, by the card, by its EXT_CSD last read and by the driver's record. */
    ghost predicate UserSelected()
      reads this, host
    {
      PartitionAccess(host.config) == USER_AREA && currentPartition == USER_AREA &&
      |card.extCsd| == BLOCK_BYTES && PartitionAccess(card.extCsd[EXT_PARTITION_CONFIG]) == USER_AREA
    }

    /** The user area of an honest card stays selected, soft resets included. */
    twostate predicate KeepsSelection()
      reads this, host
    {
      host.honest && old(UserSelected()) ==> UserSelected()
    }

    /** Also leaves the card's user area, its selection and the boot bits alone. */
    twostate predicate Harmless()
      reads this, host, db
    {
      Kept() && CountForgotten() && host.userArea == old(host.userArea) && KeepsSelection() && KeepsBootBits() &&
      (PartitionAccess(old(host.config)) == USER_AREA ==> PartitionAccess(host.config) == USER_AREA)
    }

    /** No recovery interfered: what the driver knows about the card is as before. */
    twostate predicate Calm()
      reads this, host, blockBuffer
    {
      softResets == old(softResets) && host.controls == old(host.controls) && host.faults == old(host.faults) &&
      card == old(card) && media == old(media) && rpmbInfo == old(rpmbInfo) &&
      currentPartition == old(currentPartition) && blockBuffer[..] == old(blockBuffer[..])
    }

    /** Only a soft reset changes what is known about card and media. */
    twostate predicate Undisturbed()
      reads this
    {
      softResets == old(softResets) ==> card == old(card) && media == old(media)
    }

    /** An initialisation step that succeeded was not interfered with: the card is of the type it was. */
    twostate predicate Steady()
      reads this
    {
      softResets == old(softResets) && card.function_ == old(card.function_)
    }

    /** A multi-block transfer is over on the card: it was stopped, or is seen in its transfer state. */
    predicate TransferOver()
      reads this
    {
      lastSuccess == Some(STOP_TRANSMISSION) ||
      (lastSuccess == Some(SEND_STATUS) && |response| == 4 && InTranState(response[0]))
    }

    /** CreateSdhcInstance, for a host that supports 512-byte blocks. */
    constructor (handle: nat, host: Host, db: HandleDatabase, maxBlockCount: nat)
      requires host.issued == [] && host.succeeded == []
      requires db.RpmbUnique() && forall p :: Entry(handle, p) !in db.installed
      ensures Valid() && attempts == 0 && fresh(blockBuffer)
      ensures this.handle == handle && this.host == host && this.db == db && this.maxBlockCount == maxBlockCount
      ensures !media.present && !slotInitialized
    {
      this.handle, this.host, this.db, this.maxBlockCount := handle, host, db, maxBlockCount;
      blockBuffer := new Byte[BLOCK_BYTES](_ => 0);
      slotInitialized := false;
      media, rpmbInfo, card := NO_MEDIA, RpmbInfo(0, 0), ZERO_CARD;
      blockIoInstalled, devicePathInstalled, rpmbIoInstalled, currentPartition := false, false, false, USER_AREA;
      response := [0, 0, 0, 0];
      preLastSuccess, lastSuccess, attempts, peak, softResets, setbacks := None, None, 0, 0, 0, 0;
    }

    function RcaArg(): Word32
      reads this
    {
      ((card.rca as int) * 0x1_0000) % TWO32
    }

    function Poll(): Event
      reads this
    {
      Sent(SEND_STATUS, RcaArg())
    }

    // ------------------------------------------------------------------ commands and recovery

    /** The command handed to the host, after CMD55 for an application command. */
    method Issue(cmd: Command, arg: Word32) returns (status: Status)
      modifies host`issued, host`pending, host`pendingArg, host`config, host`faults
      ensures Opened(cmd, arg)
      ensures host.faults == old(host.faults) + if status.Failed() then 1 else 0
      ensures !status.Failed() ==>
                host.issued == old(host.issued) + Lead(cmd, arg, RcaArg()) &&
                host.pending == cmd && host.pendingArg == arg
      ensures ConfigKept(cmd, arg)
      ensures host.honest && SwitchesPartition(cmd, arg) ==>
                host.config == old(host.config) || host.config == SwitchValue(arg)
    {
      hide SwitchIndex, SwitchValue;
      if cmd.class_ == ClassApp {
        status := host.SendCommand(APP_CMD, RcaArg());
        if status.Failed() {
          return;
        }
      }
      status := host.SendCommand(cmd, arg);
    }

    /** The card's partition register moves by a SWITCH of it, or back to the user area by going idle. */
    twostate predicate ConfigKept(cmd: Command, arg: Word32)
      reads this, host
    {
      (cmd != GO_IDLE_STATE && !SwitchesPartition(cmd, arg) ==> host.config == old(host.config)) &&
      (!SwitchesPartition(cmd, arg) ==> KeepsBootBits()) &&
      (!SwitchesPartition(cmd, arg) && PartitionAccess(old(host.config)) == USER_AREA
       ==> PartitionAccess(host.config) == USER_AREA)
    }

    /** A SWITCH of the partition on a slot that publishes RPMB I/O carries the boot bits last read. */
    ghost predicate CarriesBootBits(cmd: Command, arg: Word32)
      reads this`card, this`rpmbIoInstalled, host
    {
      SwitchesPartition(cmd, arg) && rpmbIoInstalled && host.honest ==>
        |card.extCsd| == BLOCK_BYTES && BootBits(SwitchValue(arg)) == BootBits(card.extCsd[EXT_PARTITION_CONFIG])
    }

    method SendCommandHelper(cmd: Command, arg: Word32) returns (status: Status)
      requires Valid() && CarriesBootBits(cmd, arg)
      modifies this`response, this`lastSuccess, this`preLastSuccess
      modifies host`issued, host`pending, host`pendingArg, host`config, host`succeeded, host`faults
      ensures Valid() && ConfigKept(cmd, arg)
      ensures Opened(cmd, arg) && old(host.faults) <= host.faults
      ensures status.Failed() <==> host.faults > old(host.faults)
      ensures status.Failed() ==> host.succeeded == old(host.succeeded)
      ensures !status.Failed() ==>
                host.issued == old(host.issued) + Lead(cmd, arg, RcaArg()) &&
                host.succeeded == old(host.succeeded) + [cmd] &&
                host.pending == cmd && host.pendingArg == arg
      ensures host.honest && SwitchesPartition(cmd, arg) ==>
                host.config == old(host.config) || host.config == SwitchValue(arg)
    {
      hide IsCardStatusError, SwitchIndex, SwitchValue, PartitionAccess;
      hide SdhcInstance.FlagsAgree, HandleDatabase.RpmbUnique;
      status := Issue(cmd, arg);
      if status.Failed() {
        return;
      }
      status, response := host.ReceiveResponse(cmd, card.function_);
      if status.Failed() {
        return;
      }
      if cmd.response == R1 || cmd.response == R1B {
        if IsCardStatusError(card.function_, response[0]) {
          return DeviceError;
        }
      }
      preLastSuccess := lastSuccess;
      lastSuccess := Some(cmd);
    }

    /** Below the threshold, the lines are reset, whatever comes of it; a last line reset that fails leads to
        a soft reset, and one that works leaves nothing more to do but for a multi-block command, after which
        the card is asked for its state. */
    method RecoverFromErrors(cmd: Command) returns (status: Status, ghost reset: Recovery)
      requires Valid() && attempts <= RECOVERY_THRESHOLD
      modifies this, host, db, blockBuffer
      ensures Undisturbed()
      ensures Valid() && Harmless()
      ensures old(attempts) == RECOVERY_THRESHOLD ==>
                status == ProtocolError && host.issued == old(host.issued) && softResets == old(softResets)
      ensures old(attempts) < RECOVERY_THRESHOLD ==> Recovered(cmd, reset, status)
      ensures !status.Failed() && IsMultiBlock(cmd) ==> TransferOver()
      decreases RECOVERY_THRESHOLD - attempts, 0, 0
    {
      hide SdhcInstance.FlagsAgree, HandleDatabase.RpmbUnique, SdhcInstance.BootBitsCached, Latest, Previous;
      hide BootBits, PartitionAccess, LinesReset, LinesWork, IsPoll, InTranState;
      reset := Recovery(Success, host.issued);
      attempts := attempts + 1;
      peak := if attempts > peak then attempts else peak;
      if attempts > RECOVERY_THRESHOLD {
        status := ProtocolError;
      } else {
        status, reset := RecoverySequence(cmd);
      }
      attempts := attempts - 1;
    }

    /** What a recovery from `cmd` that ended with `status` did. `reset` is how its soft reset ended and what had
        been issued by then. A soft reset is made exactly if the last line reset failed; after one that failed
        nothing more is done. */
    twostate predicate Recovered(cmd: Command, reset: Recovery, status: Status)
      reads this`softResets, host
    {
      var n := |old(host.controls)|;
      LinesReset(host.controls, n, cmd) && reset.issued <= host.issued &&
      (if LinesWork(host.controls, n, cmd) then
         reset == Recovery(Success, old(host.issued)) && (!IsMultiBlock(cmd) ==> softResets == old(softResets))
       else softResets > old(softResets) && host.faults > old(host.faults)) &&
      if reset.status.Failed() then status == reset.status && host.issued == reset.issued
      else if IsMultiBlock(cmd) then
        |reset.issued| < |host.issued| && IsPoll(host.issued[|reset.issued|]) &&
        (status.Failed() ==> host.faults > old(host.faults))
      else !status.Failed() && host.issued == reset.issued
    }

    /** The body of the recovery, run with the attempt already counted. */
    method RecoverySequence(cmd: Command) returns (status: Status, ghost reset: Recovery)
      requires Valid() && attempts <= RECOVERY_THRESHOLD
      modifies this, host, db, blockBuffer
      ensures Undisturbed()
      ensures Valid() && Harmless()
      ensures Recovered(cmd, reset, status)
      ensures !status.Failed() && IsMultiBlock(cmd) ==> TransferOver()
      decreases RECOVERY_THRESHOLD - attempts, 11, 0
    {
      hide BootBits, PartitionAccess, Latest, Previous;
      hide SdhcInstance.FlagsAgree, HandleDatabase.RpmbUnique, SdhcInstance.BootBitsCached;
      hide SdhcInstance.BroughtUp, SdhcInstance.LastUninstallWorked, InTranState;
      reset := Recovery(Success, host.issued);
      status := ResetLines(cmd);
      if status.Failed() {
        ghost var cause, atExit;
        status, cause, atExit := SoftReset();
        reset := Recovery(status, host.issued);
        if status.Failed() {
          return;
        }
      }
      if IsMultiBlock(cmd) {
        ghost var polled;
        status, polled := StopIfBusy();
      }
    }

    method ResetLines(cmd: Command) returns (status: Status)
      modifies host`controls, host`faults
      ensures old(host.controls) <= host.controls && old(host.faults) <= host.faults
      ensures LinesReset(host.controls, |old(host.controls)|, cmd)
      ensures status.Failed() <==> !LinesWork(host.controls, |old(host.controls)|, cmd)
      ensures status.Failed() ==> host.faults > old(host.faults)
    {
      status := host.Operate(ResetCmd);
      if cmd.transfer != TransferNone {
        status := host.Operate(ResetData); // its status replaces the first one
      }
    }

    /** Ends a multi-block transfer unless the card is back in its transfer state. */
    method StopIfBusy() returns (status: Status, ghost polled: Word32)
      requires Valid() && attempts <= RECOVERY_THRESHOLD
      modifies this, host, db, blockBuffer
      ensures Undisturbed()
      ensures Valid() && Harmless()
      ensures old(host.issued) + [Sent(SEND_STATUS, old(RcaArg()))] <= host.issued
      ensures status.Failed() ==> host.faults > old(host.faults)
      ensures !status.Failed() ==>
                Calm() && TransferOver() &&
                host.issued == old(host.issued) + [Poll()] + StopIf(!InTranState(polled), RcaArg())
      decreases RECOVERY_THRESHOLD - attempts, 4, 0
    {
      var cardStatus;
      status, cardStatus := SendStatus();
      polled := cardStatus;
      if status.Failed() {
        return;
      }
      if !InTranState(cardStatus) {
        status := StopTransmission();
      }
    }

    /** What a command without data leaves alone, whatever comes of it. */
    twostate predicate CommandKept(cmd: Command, arg: Word32)
      reads this, host, db
    {
      Undisturbed() && Kept() && host.userArea == old(host.userArea) && Opened(cmd, arg) &&
      (!SwitchesPartition(cmd, arg) && cmd != SET_BLOCK_COUNT ==> Harmless()) &&
      (!SwitchesPartition(cmd, arg) ==> KeepsBootBits()) &&
      (host.honest && SwitchesPartition(cmd, arg) ==>
         KeepsBootBits() || BootBits(host.config) == BootBits(SwitchValue(arg)))
    }

    /** Success moves the card's partition register by a SWITCH of it alone, or by going idle. */
    twostate predicate CommandConfig(cmd: Command, arg: Word32)
      reads host
    {
      (cmd != GO_IDLE_STATE && !SwitchesPartition(cmd, arg) ==> host.config == old(host.config)) &&
      (host.honest && SwitchesPartition(cmd, arg) ==>
         host.config == old(host.config) || host.config == SwitchValue(arg))
    }

    /** A command without data fails exactly when the host or the card's answer does, and is recovered from
        then; only the polls behind a SWITCH can also run out. */
    method SendCommand(cmd: Command, arg: Word32) returns (status: Status)
      requires Valid() && attempts <= RECOVERY_THRESHOLD && CarriesBootBits(cmd, arg)
      modifies this, host, db, blockBuffer
      ensures Valid() && CommandKept(cmd, arg)
      ensures status.Failed() ==> Excused()
      ensures !IsSwitch(cmd) ==> (status.Failed() <==> host.faults > old(host.faults))
      ensures status.Failed() && attempts < RECOVERY_THRESHOLD ==>
                LinesReset(host.controls, |old(host.controls)|, cmd) ||
                (IsSwitch(cmd) && (setbacks > old(setbacks) ||
                                   LinesReset(host.controls, |old(host.controls)|, SEND_STATUS)))
      ensures !status.Failed() ==>
                Calm() && CommandConfig(cmd, arg) &&
                (if IsSwitch(cmd) then Polled(old(host.issued) + Lead(cmd, arg, RcaArg()), host.issued, Poll())
                 else host.issued == old(host.issued) + Lead(cmd, arg, RcaArg())) &&
                lastSuccess == Some(if IsSwitch(cmd) then SEND_STATUS else cmd)
      decreases RECOVERY_THRESHOLD - attempts, if IsSwitch(cmd) then 5 else 2, 0
    {
      hide BootBits, PartitionAccess, Latest, Previous, SdhcInstance.FlagsAgree, HandleDatabase.RpmbUnique;
      hide Polled, LinesReset, LinesWork, SwitchIndex, SwitchValue, ReadyForData, InTranState, Lead;
      status := SendOrRecover(cmd, arg);
      if !status.Failed() && IsSwitch(cmd) {
        ghost var polled;
        status, polled := WaitForTranStateAndReadyForData();
      }
    }

    method SendOrRecover(cmd: Command, arg: Word32) returns (status: Status)
      requires Valid() && attempts <= RECOVERY_THRESHOLD && CarriesBootBits(cmd, arg)
      modifies this, host, db, blockBuffer
      ensures Valid() && CommandKept(cmd, arg)
      ensures status.Failed() <==> host.faults > old(host.faults)
      ensures status.Failed() && attempts < RECOVERY_THRESHOLD ==>
                LinesReset(host.controls, |old(host.controls)|, cmd)
      ensures !status.Failed() ==>
                Calm() && CommandConfig(cmd, arg) && lastSuccess == Some(cmd) &&
                host.issued == old(host.issued) + Lead(cmd, arg, RcaArg())
      decreases RECOVERY_THRESHOLD - attempts, 1, 0
    {
      hide SdhcInstance.FlagsAgree, HandleDatabase.RpmbUnique, LinesReset, LinesWork;
      hide BootBits, PartitionAccess, SwitchIndex, SwitchValue, Lead;
      status := SendCommandHelper(cmd, arg);
      if status.Failed() {
        var _, _ := RecoverFromErrors(cmd);
      }
    }

    /** The host was first given the command, or its CMD55. */
    twostate predicate Opened(cmd: Command, arg: Word32)
      reads this`card, host
    {
      old(host.issued) + Lead(cmd, arg, old(RcaArg()))[..1] <= host.issued
    }

    /** A transfer of `size` bytes at block `arg` lies in the selected user area, and is one block if `cmd`
        is for one. */
    predicate InUserArea(cmd: Command, arg: Word32, size: nat)
      reads this, host
    {
      PartitionAccess(host.config) == USER_AREA && (arg as int) * BLOCK_BYTES + size <= |host.userArea| &&
      (cmd.transfer == SingleBlock ==> size == BLOCK_BYTES)
    }

    /** What a data command may do to a caller's buffer. */
    twostate predicate BufferOutcome(cmd: Command, arg: Word32, size: nat, buffer: array<Byte>, at: nat, ok: bool)
      requires at + size <= buffer.Length
      reads this, host, buffer
    {
      SameOutside(old(buffer[..]), buffer[..], at, at + size) &&
      (cmd.direction != Read ==> buffer[..] == old(buffer[..])) &&
      (ok && IsBlockRead(cmd) && old(InUserArea(cmd, arg, size))
       ==> buffer[at..at + size] == old(host.userArea)[arg as int * BLOCK_BYTES..][..size])
    }

    /** What a data command may do to the card's user area. */
    twostate predicate CardOutcome(cmd: Command, arg: Word32, size: nat, data: seq<Byte>, ok: bool)
      reads this, host
    {
      |host.userArea| == |old(host.userArea)| &&
      (!(IsBlockWrite(cmd) && PartitionAccess(old(host.config)) == USER_AREA) ==>
         host.userArea == old(host.userArea)) &&
      (IsBlockWrite(cmd) && old(InUserArea(cmd, arg, size)) ==>
         var lo := arg as int * BLOCK_BYTES;
         SameOutside(old(host.userArea), host.userArea, lo, lo + size) &&
         (ok ==> host.userArea[lo..lo + size] == data))
    }

    method SendDataCommand(cmd: Command, arg: Word32, size: nat, buffer: array<Byte>, at: nat)
      returns (status: Status)
      requires Valid() && attempts <= RECOVERY_THRESHOLD
      requires cmd.transfer != TransferNone && at + size <= buffer.Length
      requires IsMultiBlock(cmd) ==> lastSuccess.Some?
      modifies this, host, db, blockBuffer, buffer
      ensures Undisturbed()
      ensures Valid() && Kept() && (cmd != SET_BLOCK_COUNT ==> CountForgotten())
      ensures KeepsSelection() && KeepsBootBits()
      ensures PartitionAccess(old(host.config)) == USER_AREA ==> PartitionAccess(host.config) == USER_AREA
      ensures !status.Failed() ==>
                softResets == old(softResets) && card == old(card) && currentPartition == old(currentPartition) &&
                host.config == old(host.config) && lastSuccess == Some(SEND_STATUS) && InTranState(response[0]) &&
                host.controls == old(host.controls) && host.faults == old(host.faults) &&
                Polled(old(host.issued) + Lead(cmd, arg, RcaArg()) + [DataPhase(cmd, old(buffer[at..at + size]))]
                       + StopIf(StopDue(cmd, old(lastSuccess)), RcaArg()), host.issued, Poll())
      ensures Opened(cmd, arg)
      ensures status.Failed() ==> Excused() && (attempts < RECOVERY_THRESHOLD ==> RecoveredFrom(cmd))
      ensures buffer != blockBuffer ==> BufferOutcome(cmd, arg, size, buffer, at, !status.Failed())
      ensures CardOutcome(cmd, arg, size, old(buffer[at..at + size]), !status.Failed())
      ensures !status.Failed() && host.honest && cmd == SEND_EXT_CSD_MMC && size == BLOCK_BYTES
              ==> buffer[at + EXT_PARTITION_CONFIG] == host.config
      decreases RECOVERY_THRESHOLD - attempts, 5, 0
    {
      hide Latest, Previous, SdhcInstance.FlagsAgree, HandleDatabase.RpmbUnique, Polled, LinesReset, BootBits;
      status := TransferData(cmd, arg, size, buffer, at);
      status := EndOrRecover(cmd, status);
    }

    /** The lines were reset for `cmd`, at some time. */
    twostate predicate RecoveredFrom(cmd: Command)
      reads host
    {
      exists n :: |old(host.controls)| <= n && LinesReset(host.controls, n, cmd)
    }

    /** What follows the data phase, which ended with `transferred`. */
    method EndOrRecover(cmd: Command, transferred: Status) returns (status: Status)
      requires Valid() && attempts <= RECOVERY_THRESHOLD
      requires !transferred.Failed() ==> lastSuccess == Some(cmd) && (IsMultiBlock(cmd) ==> preLastSuccess.Some?)
      modifies this, host, db, blockBuffer
      ensures Undisturbed()
      ensures Valid() && Harmless()
      ensures !status.Failed() ==>
                !transferred.Failed() && Calm() && host.config == old(host.config) &&
                lastSuccess == Some(SEND_STATUS) && InTranState(response[0]) &&
                Polled(old(host.issued) + StopIf(StopDue(cmd, old(preLastSuccess)), RcaArg()), host.issued, Poll())
      ensures status.Failed() ==>
                (transferred.Failed() || Excused()) && (attempts < RECOVERY_THRESHOLD ==> RecoveredFrom(cmd))
      decreases RECOVERY_THRESHOLD - attempts, 4, 2
    {
      hide LinesWork;
      status := transferred;
      if !status.Failed() {
        status := EndTransfer(cmd);
      }
      if status.Failed() {
        var _, _ := RecoverFromErrors(cmd);
      }
    }

    /** The command and data phases of SdhcSendDataCommand. */
    method TransferData(cmd: Command, arg: Word32, size: nat, buffer: array<Byte>, at: nat)
      returns (status: Status)
      requires Valid() && cmd.transfer != TransferNone && at + size <= buffer.Length
      modifies this`response, this`lastSuccess, this`preLastSuccess, buffer
      modifies host`issued, host`pending, host`pendingArg, host`config, host`succeeded, host`faults, host`userArea
      ensures Valid() && host.config == old(host.config)
      ensures Opened(cmd, arg)
      ensures old(host.faults) <= host.faults && (status.Failed() <==> host.faults > old(host.faults))
      ensures |old(host.succeeded)| <= |host.succeeded| && old(host.issued) <= host.issued
      ensures cmd != SET_BLOCK_COUNT ==> CountForgotten()
      ensures !status.Failed() ==>
                host.issued == old(host.issued) + Lead(cmd, arg, RcaArg())
                               + [DataPhase(cmd, old(buffer[at..at + size]))] &&
                lastSuccess == Some(cmd) && preLastSuccess == old(lastSuccess)
      ensures BufferOutcome(cmd, arg, size, buffer, at, !status.Failed())
      ensures CardOutcome(cmd, arg, size, old(buffer[at..at + size]), !status.Failed())
      ensures !status.Failed() && host.honest && cmd == SEND_EXT_CSD_MMC && size == BLOCK_BYTES
              ==> buffer[at + EXT_PARTITION_CONFIG] == host.config
    {
      hide BootBits, SdhcInstance.FlagsAgree, HandleDatabase.RpmbUnique;
      status := SendCommandHelper(cmd, arg);
      if status.Failed() {
        return;
      }
      if cmd.direction == Read {
        status := host.ReadBlockData(size, buffer, at);
      } else {
        status := host.WriteBlockData(size, buffer, at);
      }
    }

    /** The STOP_TRANSMISSION and polling phases of SdhcSendDataCommand. */
    method EndTransfer(cmd: Command) returns (status: Status)
      requires Valid() && attempts <= RECOVERY_THRESHOLD
      requires lastSuccess == Some(cmd) && (IsMultiBlock(cmd) ==> preLastSuccess.Some?)
      modifies this, host, db, blockBuffer
      ensures Undisturbed()
      ensures Valid() && Harmless()
      ensures !status.Failed() ==>
                Calm() && host.config == old(host.config) &&
                lastSuccess == Some(SEND_STATUS) && InTranState(response[0]) &&
                Polled(old(host.issued) + StopIf(StopDue(cmd, old(preLastSuccess)), RcaArg()), host.issued, Poll())
      ensures status.Failed() ==> Excused()
      decreases RECOVERY_THRESHOLD - attempts, 4, 1
    {
      if IsMultiBlock(cmd) && (lastSuccess.None? || preLastSuccess.value != SET_BLOCK_COUNT) {
        status := StopTransmission();
        if status.Failed() {
          return;
        }
      }
      ghost var polled;
      status, polled := WaitForTranStateAndReadyForData();
    }

    /** All polls were made, and no answer would do. */
    twostate predicate TimedOut(status: Status)
      reads this, host
    {
      status == Timeout && setbacks > old(setbacks) && host.faults == old(host.faults) &&
      Polled(old(host.issued), host.issued, Poll()) && |host.issued| == |old(host.issued)| + POLL_WAIT_COUNT + 1
    }

    /** Polls until the card is ready and in its transfer state. Success takes at most POLL_WAIT_COUNT polls. The
        last of one poll more counts as a time-out, whatever it says. `polled` are the answers. */
    method WaitForTranStateAndReadyForData() returns (status: Status, ghost polled: seq<Word32>)
      requires Valid() && attempts <= RECOVERY_THRESHOLD
      modifies this, host, db, blockBuffer
      ensures Undisturbed()
      ensures Valid() && Harmless()
      ensures !status.Failed() ==>
                Calm() && Polled(old(host.issued), host.issued, Poll()) &&
                |polled| <= POLL_WAIT_COUNT && |host.issued| == |old(host.issued)| + |polled| &&
                lastSuccess == Some(SEND_STATUS) && host.config == old(host.config) &&
                ReadyForData(response[0]) && InTranState(response[0])
      ensures status.Failed() ==>
                if host.faults > old(host.faults) then
                  attempts < RECOVERY_THRESHOLD ==> LinesReset(host.controls, |old(host.controls)|, SEND_STATUS)
                else TimedOut(status) && |polled| == POLL_WAIT_COUNT + 1
      ensures forall i | 0 <= i < |polled| - 1 :: !(ReadyForData(polled[i]) && InTranState(polled[i]))
      decreases RECOVERY_THRESHOLD - attempts, 4, 0
    {
      hide BootBits, PartitionAccess, Latest, Previous;
      hide SdhcInstance.FlagsAgree, HandleDatabase.RpmbUnique, SdhcInstance.BootBitsCached;
      hide InTranState, ReadyForData, LinesReset;
      var cardStatus;
      polled := [];
      status, cardStatus := SendStatus();
      if status.Failed() {
        return;
      }
      polled := [cardStatus];
      var retry := POLL_WAIT_COUNT;
      while ((!ReadyForData(cardStatus) && retry != 0) || !InTranState(cardStatus)) && retry != 0
        invariant Valid() && Harmless() && Calm() && Undisturbed()
        invariant Polled(old(host.issued), host.issued, Poll())
        invariant |host.issued| == |old(host.issued)| + |polled| && |polled| + retry == POLL_WAIT_COUNT + 1
        invariant polled[|polled| - 1] == cardStatus
        invariant forall i | 0 <= i < |polled| - 1 :: !(ReadyForData(polled[i]) && InTranState(polled[i]))
        invariant lastSuccess == Some(SEND_STATUS) && host.config == old(host.config) && cardStatus == response[0]
        decreases retry
      {
        retry := retry - 1;
        status, cardStatus := SendStatus();
        if status.Failed() {
          return;
        }
        polled := polled + [cardStatus];
      }
      if retry == 0 {
        setbacks := setbacks + 1;
        return Timeout, polled;
      }
      return Success, polled;
    }

    method SendStatus() returns (status: Status, cardStatus: Word32)
      requires Valid() && attempts <= RECOVERY_THRESHOLD
      modifies this, host, db, blockBuffer
      ensures Undisturbed()
      ensures Valid() && Harmless()
      ensures !status.Failed() ==>
                Calm() && host.issued == old(host.issued) + [Poll()] && cardStatus == response[0] &&
                lastSuccess == Some(SEND_STATUS) && host.config == old(host.config)
      ensures old(host.issued) + [Sent(SEND_STATUS, old(RcaArg()))] <= host.issued
      ensures status.Failed() <==> host.faults > old(host.faults)
      ensures status.Failed() && attempts < RECOVERY_THRESHOLD ==>
                LinesReset(host.controls, |old(host.controls)|, SEND_STATUS)
      decreases RECOVERY_THRESHOLD - attempts, 3, 0
    {
      cardStatus := 0;
      status := SendCommand(SEND_STATUS, RcaArg());
      if !status.Failed() {
        cardStatus := response[0];
      }
    }

    method StopTransmission() returns (status: Status)
      requires Valid() && attempts <= RECOVERY_THRESHOLD
      modifies this, host, db, blockBuffer
      ensures Undisturbed()
      ensures Valid() && Harmless()
      ensures !status.Failed() ==>
                Calm() && host.issued == old(host.issued) + [Sent(STOP_TRANSMISSION, RcaArg())] &&
                host.config == old(host.config) && lastSuccess == Some(STOP_TRANSMISSION)
      ensures status.Failed() <==> host.faults > old(host.faults)
      ensures status.Failed() && attempts < RECOVERY_THRESHOLD ==>
                LinesReset(host.controls, |old(host.controls)|, STOP_TRANSMISSION)
      decreases RECOVERY_THRESHOLD - attempts, 3, 0
    {
      status := SendCommand(STOP_TRANSMISSION, RcaArg());
    }

    // ------------------------------------------------------------------ card initialisation

    /** Success: the card echoed check pattern and voltage. Otherwise the card data is as it was, unless a
        recovery reset the card. */
    method SendIfCondSd() returns (status: Status)
      requires Valid() && attempts <= RECOVERY_THRESHOLD
      modifies this, host, db, blockBuffer
      ensures Valid() && Harmless()
      ensures !status.Failed() ==>
                softResets == old(softResets) && media == old(media) &&
                card == old(card).(hasExtendedOcr := true) &&
                host.issued == old(host.issued) + [Sent(SEND_IF_COND_SD, IF_COND_ARG)] && EchoesVoltage(response[0])
      ensures old(host.issued) + [Sent(SEND_IF_COND_SD, IF_COND_ARG)] <= host.issued
      ensures status.Failed() ==>
                Undisturbed() &&
                (host.faults > old(host.faults) || (setbacks > old(setbacks) && !EchoesVoltage(response[0])))
      decreases RECOVERY_THRESHOLD - attempts, 3, 0
    {
      status := SendCommand(SEND_IF_COND_SD, IF_COND_ARG);
      if status.Failed() {
        return;
      }
      if !EchoesVoltage(response[0]) {
        setbacks := setbacks + 1;
        return Unsupported;
      }
      card := card.(hasExtendedOcr := true);
    }

    method NoteOcrMmc() returns (status: Status)
      requires Valid()
      modifies this`card, this`setbacks
      ensures Valid() && card == old(card).(highCapacity := SectorMode(response[0]))
      ensures status.Failed() <==> !HighVoltage(response[0])
      ensures setbacks == old(setbacks) + if HighVoltage(response[0]) then 0 else 1
    {
      hide HighVoltage, SectorMode, SdhcInstance.FlagsAgree;
      card := card.(highCapacity := SectorMode(response[0]));
      if !HighVoltage(response[0]) {
        setbacks := setbacks + 1;
        return Unsupported;
      }
      return Success;
    }

    /** One round of asking, after `n` others. */
    method AskOpCondMmc(ghost before: seq<Event>, ghost n: nat) returns (status: Status)
      requires Valid() && attempts <= RECOVERY_THRESHOLD
      requires host.issued == before + Repeat([Sent(SEND_OP_COND_MMC, OP_COND_MMC_ARG)], n)
      modifies this, host, db, blockBuffer
      ensures Valid() && Harmless() && Undisturbed()
      ensures before + [Sent(SEND_OP_COND_MMC, OP_COND_MMC_ARG)] <= host.issued
      ensures status.Failed() <==> host.faults > old(host.faults)
      ensures !status.Failed() ==>
                softResets == old(softResets) &&
                host.issued == before + Repeat([Sent(SEND_OP_COND_MMC, OP_COND_MMC_ARG)], n + 1)
      decreases RECOVERY_THRESHOLD - attempts, 3, 0
    {
      hide BootBits, PartitionAccess, Latest, Previous, SdhcInstance.FlagsAgree, HandleDatabase.RpmbUnique;
      hide Repeat;
      RepeatMore(before, [Sent(SEND_OP_COND_MMC, OP_COND_MMC_ARG)], n);
      status := SendCommand(SEND_OP_COND_MMC, OP_COND_MMC_ARG);
    }

    /** Repeats CMD1 until the card reports power-up, at most POLL_WAIT_COUNT times. Success: it did, its
        capacity class is recorded and it supports the high voltage window. */
    method SendOpCondMmc() returns (status: Status, ghost polls: nat)
      requires Valid() && attempts <= RECOVERY_THRESHOLD
      modifies this, host, db, blockBuffer
      ensures Valid() && Harmless()
      ensures !status.Failed() ==>
                softResets == old(softResets) && media == old(media) && 1 <= polls <= POLL_WAIT_COUNT &&
                host.issued == old(host.issued) + Repeat([Sent(SEND_OP_COND_MMC, OP_COND_MMC_ARG)], polls) &&
                PoweredUp(response[0]) && HighVoltage(response[0]) &&
                card == old(card).(highCapacity := SectorMode(response[0]))
      ensures old(host.issued) + [Sent(SEND_OP_COND_MMC, OP_COND_MMC_ARG)] <= host.issued
      ensures status.Failed() ==>
                host.faults > old(host.faults) ||
                (setbacks > old(setbacks) &&
                 if PoweredUp(response[0]) then !HighVoltage(response[0]) else polls == POLL_WAIT_COUNT)
      ensures softResets == old(softResets) ==> media == old(media) && card.function_ == old(card.function_)
      decreases RECOVERY_THRESHOLD - attempts, 4, 0
    {
      hide BootBits, PartitionAccess, Latest, Previous, SdhcInstance.FlagsAgree, HandleDatabase.RpmbUnique;
      hide U32At, PoweredUp, HighVoltage, Repeat;
      var retry := POLL_WAIT_COUNT;
      polls := 0;
      ghost var asked := [Sent(SEND_OP_COND_MMC, OP_COND_MMC_ARG)];
      RepeatMore(host.issued, asked, 0);
      while retry != 0
        invariant Valid() && Harmless()
        invariant softResets == old(softResets) && card == old(card) && media == old(media)
        invariant polls + retry == POLL_WAIT_COUNT
        invariant polls > 0 ==> !PoweredUp(response[0])
        invariant host.issued == old(host.issued) + Repeat(asked, polls)
        invariant polls > 0 ==> old(host.issued) + asked <= host.issued
        decreases retry
      {
        status := AskOpCondMmc(old(host.issued), polls);
        if status.Failed() {
          return;
        }
        polls := polls + 1;
        if PoweredUp(response[0]) {
          status := NoteOcrMmc();
          return;
        }
        retry := retry - 1;
      }
      setbacks := setbacks + 1;
      return Timeout, polls;
    }

    /** CMD8: a failed probe is not an error, although recovering from it may have reset the card. */
    method ProbeSd() returns (ghost answered: bool)
      requires Valid() && attempts <= RECOVERY_THRESHOLD
      modifies this, host, db, blockBuffer
      ensures Valid() && Harmless()
      ensures Asked(old(host.issued), host.issued, Sent(SEND_IF_COND_SD, IF_COND_ARG))
      ensures !answered ==> Excused()
      ensures softResets == old(softResets) ==> card.function_ == if answered then FunctionSd else FunctionUnknown
      decreases RECOVERY_THRESHOLD - attempts, 5, 0
    {
      hide BootBits, PartitionAccess, Latest, Previous, SdhcInstance.FlagsAgree, HandleDatabase.RpmbUnique;
      hide SwitchIndex, SwitchValue, EchoesVoltage;
      card := card.(function_ := FunctionUnknown);
      var status := SendIfCondSd();
      answered := !status.Failed();
      assert host.issued[|old(host.issued)|] == Sent(SEND_IF_COND_SD, IF_COND_ARG);
      if !status.Failed() {
        card := card.(function_ := FunctionSd);
      }
    }

    /** CMD5, likewise. */
    method ProbeSdio() returns (ghost answered: bool)
      requires Valid() && attempts <= RECOVERY_THRESHOLD
      modifies this, host, db, blockBuffer
      ensures Valid() && Harmless()
      ensures Asked(old(host.issued), host.issued, Sent(SEND_OP_COND_SDIO, 0))
      ensures !answered ==> Excused()
      ensures softResets == old(softResets) ==>
                card.function_ == if !answered then old(card.function_)
                                  else if old(card.function_) == FunctionSd then FunctionCombo else FunctionSdio
      decreases RECOVERY_THRESHOLD - attempts, 5, 0
    {
      hide BootBits, PartitionAccess;
      hide SwitchIndex, SwitchValue;
      var status := SendCommand(SEND_OP_COND_SDIO, 0);
      answered := !status.Failed();
      assert host.issued[|old(host.issued)|] == Sent(SEND_OP_COND_SDIO, 0);
      if !status.Failed() {
        card := card.(function_ := if card.function_ == FunctionSd then FunctionCombo else FunctionSdio);
      }
    }

    method ProbeSdAndSdio() returns (ghost sd: bool, ghost sdio: bool)
      requires Valid() && attempts <= RECOVERY_THRESHOLD
      modifies this, host, db, blockBuffer
      ensures Valid() && Harmless()
      ensures Asked(old(host.issued), host.issued, Sent(SEND_IF_COND_SD, IF_COND_ARG))
      ensures Asked(old(host.issued), host.issued, Sent(SEND_OP_COND_SDIO, 0))
      ensures softResets == old(softResets) ==> card.function_ == Answers(sd, sdio, false).Type()
      decreases RECOVERY_THRESHOLD - attempts, 6, 0
    {
      hide BootBits, PartitionAccess, Latest, Previous, SdhcInstance.FlagsAgree, HandleDatabase.RpmbUnique;
      hide Asked;
      sd := ProbeSd();
      ghost var first := host.issued;
      sdio := ProbeSdio();
      AskedWithin(old(host.issued), old(host.issued), first, host.issued, Sent(SEND_IF_COND_SD, IF_COND_ARG));
      AskedWithin(old(host.issued), first, host.issued, host.issued, Sent(SEND_OP_COND_SDIO, 0));
    }

    /** Back to idle and CMD1. Only the idle command's failure counts. */
    method ProbeMmc() returns (status: Status, ghost answered: bool)
      requires Valid() && attempts <= RECOVERY_THRESHOLD
      modifies this, host, db, blockBuffer
      ensures Valid() && Harmless()
      ensures status.Failed() || !answered ==> Excused()
      ensures answered ==> card.function_ == FunctionMmc
      ensures !status.Failed() ==>
                old(host.issued) + [Sent(GO_IDLE_STATE, 0)] + [Sent(SEND_OP_COND_MMC, OP_COND_MMC_ARG)] <= host.issued
      ensures softResets == old(softResets) ==> card.function_ == if answered then FunctionMmc else old(card.function_)
      ensures status.Failed() ==> !answered
      decreases RECOVERY_THRESHOLD - attempts, 5, 0
    {
      hide BootBits, PartitionAccess;
      hide SwitchIndex, SwitchValue;
      answered := false;
      status := SendCommand(GO_IDLE_STATE, 0);
      if status.Failed() {
        return;
      }
      ghost var polls;
      var probe;
      probe, polls := SendOpCondMmc();
      answered := !probe.Failed();
      if !probe.Failed() {
        card := card.(function_ := FunctionMmc);
      }
    }

    /** The probes that settle the card's type were made. */
    ghost predicate ProbesMade(before: seq<Event>, answers: Answers)
      reads host
    {
      before + [Sent(GO_IDLE_STATE, 0)] <= host.issued &&
      Asked(before, host.issued, Sent(SEND_IF_COND_SD, IF_COND_ARG)) &&
      Asked(before, host.issued, Sent(SEND_OP_COND_SDIO, 0)) &&
      (answers.mmc ==> Asked(before, host.issued, Sent(SEND_OP_COND_MMC, OP_COND_MMC_ARG)))
    }

    /** Success: the card went idle, some probe was answered, and unless a recovery reset the card underneath,
        its type is that of the answers. MMC cards are asked only if neither SD nor SDIO answered. */
    method QueryCardType() returns (status: Status, ghost answers: Answers, ghost wentIdle: bool)
      requires Valid() && attempts <= RECOVERY_THRESHOLD
      modifies this, host, db, blockBuffer
      ensures Valid() && Harmless()
      ensures !status.Failed() ==>
                wentIdle && card.function_ != FunctionUnknown && ProbesMade(old(host.issued), answers)
      ensures status.Failed() ==> Excused()
      ensures !status.Failed() && softResets == old(softResets) ==> card.function_ == answers.Type()
      decreases RECOVERY_THRESHOLD - attempts, 6, 1
    {
      hide BootBits, PartitionAccess, Latest, Previous, SdhcInstance.FlagsAgree, HandleDatabase.RpmbUnique;
      hide EchoesVoltage;
      ghost var sd, sdio, mmc := false, false, false;
      answers := Answers(sd, sdio, mmc);
      status := SendCommand(GO_IDLE_STATE, 0);
      wentIdle := !status.Failed();
      if status.Failed() {
        return;
      }
      ghost var idle := host.issued;
      sd, sdio := ProbeSdAndSdio();
      ghost var sdioAsked := host.issued;
      if card.function_ != FunctionSd && card.function_ != FunctionSdio && card.function_ != FunctionCombo {
        status, mmc := ProbeMmc();
        if status.Failed() {
          return;
        }
        assert host.issued[|sdioAsked| + 1] == Sent(SEND_OP_COND_MMC, OP_COND_MMC_ARG);
      }
      AskedWithin(old(host.issued), idle, sdioAsked, host.issued, Sent(SEND_IF_COND_SD, IF_COND_ARG));
      AskedWithin(old(host.issued), idle, sdioAsked, host.issued, Sent(SEND_OP_COND_SDIO, 0));
      answers := Answers(sd, sdio, mmc);
      return if card.function_ == FunctionUnknown then NoMedia else Success, answers, wentIdle;
    }

    /** One offer of the voltage window, after `n` others. */
    method OfferWindow(ghost before: seq<Event>, window: nat, ghost n: nat) returns (status: Status)
      requires Valid() && attempts <= RECOVERY_THRESHOLD
      requires window < 0x100_0000 && host.issued == before + PowerUpSd(RcaArg(), window, n)
      modifies this, host, db, blockBuffer
      ensures Valid() && Harmless() && Undisturbed()
      ensures status.Failed() <==> host.faults > old(host.faults)
      ensures !status.Failed() ==>
                softResets == old(softResets) && host.controls == old(host.controls) &&
                host.issued == before + PowerUpSd(RcaArg(), window, n + 1)
      decreases RECOVERY_THRESHOLD - attempts, 3, 0
    {
      hide BootBits, PartitionAccess, Latest, Previous, SdhcInstance.FlagsAgree, HandleDatabase.RpmbUnique;
      hide Repeat;
      ghost var first := Lead(APP_SEND_OP_COND_SD, 0, RcaArg());
      ghost var offer := Lead(APP_SEND_OP_COND_SD, HOST_CAPACITY_SUPPORT + window, RcaArg());
      RepeatMore(before + first, offer, n);
      assert forall k: nat :: before + (first + Repeat(offer, k)) == before + first + Repeat(offer, k);
      status := SendCommand(APP_SEND_OP_COND_SD, HOST_CAPACITY_SUPPORT + window);
    }

    /** Reads the voltage window of the OCR, then repeats ACMD41 with it until the card reports power-up, at most
        POLL_WAIT_COUNT times. Success: it did, and a card with an extended OCR has its capacity class
        recorded. */
    method SendOpCondSd() returns (status: Status, ghost polls: nat, window: nat, ghost ocr: Word32)
      requires Valid() && attempts <= RECOVERY_THRESHOLD
      modifies this, host, db, blockBuffer
      ensures Valid() && Harmless()
      ensures !status.Failed() ==>
                softResets == old(softResets) && media == old(media) && 1 <= polls <= POLL_WAIT_COUNT &&
                window < 0x100_0000 && window == ocr % 0x100_0000 &&
                host.issued == old(host.issued) + PowerUpSd(RcaArg(), window, polls) &&
                PoweredUp(response[0]) && host.controls == old(host.controls) &&
                card == if old(card).hasExtendedOcr
                        then old(card).(highCapacity := CapacityStatus(response[0])) else old(card)
      ensures status.Failed() ==>
                host.faults > old(host.faults) ||
                (setbacks > old(setbacks) && polls == POLL_WAIT_COUNT && !PoweredUp(response[0]))
      ensures old(host.issued) < host.issued
      decreases RECOVERY_THRESHOLD - attempts, 4, 0
    {
      hide BootBits, PartitionAccess, Latest, Previous, SdhcInstance.FlagsAgree, HandleDatabase.RpmbUnique;
      hide U32At, PoweredUp, Repeat;
      polls, window, ocr := 0, 0, 0;
      status := SendCommand(APP_SEND_OP_COND_SD, 0);
      if status.Failed() {
        return;
      }
      ocr := response[0];
      window := response[0] % 0x100_0000;
      RepeatMore(host.issued, Lead(APP_SEND_OP_COND_SD, HOST_CAPACITY_SUPPORT + window, RcaArg()), 0);
      var retry := POLL_WAIT_COUNT;
      while retry != 0
        invariant Valid() && Harmless()
        invariant softResets == old(softResets) && card == old(card) && media == old(media)
        invariant polls + retry == POLL_WAIT_COUNT
        invariant polls > 0 ==> !PoweredUp(response[0])
        invariant host.controls == old(host.controls)
        invariant window < 0x100_0000 && window == ocr % 0x100_0000
        invariant host.issued == old(host.issued) + PowerUpSd(RcaArg(), window, polls)
        decreases retry
      {
        status := OfferWindow(old(host.issued), window, polls);
        if status.Failed() {
          return;
        }
        polls := polls + 1;
        if PoweredUp(response[0]) {
          if card.hasExtendedOcr {
            card := card.(highCapacity := CapacityStatus(response[0]));
          }
          return Success, polls, window, ocr;
        }
        retry := retry - 1;
      }
      setbacks := setbacks + 1;
      return Timeout, polls, window, ocr;
    }

    /** An MMC card is given the address 0xCCCC; any other card's answer holds its own. */
    method SendRelativeAddr() returns (status: Status)
      requires Valid() && attempts <= RECOVERY_THRESHOLD
      modifies this, host, db, blockBuffer
      ensures Valid() && Harmless()
      ensures !status.Failed() ==>
                softResets == old(softResets) && media == old(media) &&
                host.controls == old(host.controls) &&
                host.issued == old(host.issued) +
                  [Sent(SEND_RELATIVE_ADDR, if card.function_ == FunctionMmc then RcaArg() else 0)] &&
                card
                == old(card).(rca := if old(card).function_ == FunctionMmc then MMC_RCA else response[0] / 0x1_0000) &&
                RcaArg() == if card.function_ == FunctionMmc then 0xCCCC_0000
                            else response[0] - response[0] % 0x1_0000
      ensures status.Failed() <==> host.faults > old(host.faults)
      ensures status.Failed() && softResets == old(softResets) ==>
                media == old(media) &&
                card == if old(card).function_ == FunctionMmc then old(card).(rca := MMC_RCA) else old(card)
      decreases RECOVERY_THRESHOLD - attempts, 3, 0
    {
      hide SdhcInstance.FlagsAgree, HandleDatabase.RpmbUnique, U32At;
      var arg: Word32 := 0;
      if card.function_ == FunctionMmc {
        card := card.(rca := MMC_RCA);
        arg := RcaArg();
      }
      status := SendCommand(SEND_RELATIVE_ADDR, arg);
      if status.Failed() {
        return;
      }
      if card.function_ != FunctionMmc {
        card := card.(rca := response[0] / 0x1_0000);
      }
    }

    method SendCid() returns (status: Status)
      requires Valid() && attempts <= RECOVERY_THRESHOLD
      modifies this, host, db, blockBuffer
      ensures Valid() && Harmless()
      ensures !status.Failed() ==>
                softResets == old(softResets) && media == old(media) &&
                host.controls == old(host.controls) && host.issued == old(host.issued) + [Sent(SEND_CID, RcaArg())] &&
                card == if old(card).function_ == FunctionSd || old(card).function_ == FunctionMmc
                        then old(card).(cid := response) else old(card)
      ensures status.Failed() <==> host.faults > old(host.faults)
      ensures status.Failed() ==> Undisturbed()
      decreases RECOVERY_THRESHOLD - attempts, 3, 0
    {
      hide SdhcInstance.FlagsAgree, HandleDatabase.RpmbUnique, U32At;
      status := SendCommand(SEND_CID, RcaArg());
      if status.Failed() {
        return;
      }
      if card.function_ == FunctionSd || card.function_ == FunctionMmc {
        card := card.(cid := response);
      }
    }

    /** The capacity, and for SD and MMC cards the version and speed fields, of the register received. */
    method SendCsd() returns (status: Status)
      requires Valid() && attempts <= RECOVERY_THRESHOLD
      modifies this, host, db, blockBuffer
      ensures Valid() && Harmless()
      ensures !status.Failed() ==>
                softResets == old(softResets) && host.controls == old(host.controls) &&
                host.issued == old(host.issued) + [Sent(SEND_CSD, RcaArg())] &&
                card == WithCsd(old(card), response) &&
                media == old(media).(
                  blockSize := BLOCK_BYTES, lastBlock := LastBlockOf(card.byteCapacity / BLOCK_BYTES))
      ensures !status.Failed() && card.function_ == FunctionSd && CsdStructure(response) != 0 ==>
                media.lastBlock == 1024 * (DeviceSize2(response) + 1) - 1
      ensures status.Failed() <==> host.faults > old(host.faults)
      ensures status.Failed() ==> Undisturbed()
      decreases RECOVERY_THRESHOLD - attempts, 3, 0
    {
      hide WithCsd, HighCapacity, ComputedCapacity, CsdStructure, DeviceSize2;
      status := SendCommand(SEND_CSD, RcaArg());
      if status.Failed() {
        return;
      }
      CsdFields(card, response);
      CapacityGiven(card, response);
      StoreCsd();
      SizeMedia(card.byteCapacity / BLOCK_BYTES);
    }

    method StoreCsd()
      requires Valid()
      modifies this`card
      ensures Valid() && card == WithCsd(old(card), response)
    {
      hide ComputedCapacity, HighCapacity, CsdStructure, SpecVers, TranSpeed, SdhcInstance.FlagsAgree;
      var capacity := 0;
      if card.function_ == FunctionSd {
        capacity := if CsdStructure(response) == 0 then ComputedCapacity(response) else HighCapacity(response);
      } else if card.function_ == FunctionMmc {
        if !card.highCapacity {
          capacity := ComputedCapacity(response);
        }
      }
      card := card.(byteCapacity := capacity);
      if card.function_ == FunctionSd || card.function_ == FunctionMmc {
        card := card.(specVers := SpecVers(response), tranSpeed := TranSpeed(response));
      }
    }

    method SizeMedia(blocks: nat)
      requires Valid() && blocks <= TWO32
      modifies this`media
      ensures Valid() && media == old(media).(blockSize := BLOCK_BYTES, lastBlock := LastBlockOf(blocks))
    {
      media := media.(blockSize := BLOCK_BYTES);
      if blocks > 0 {
        media := media.(lastBlock := blocks - 1);
      } else {
        media := media.(lastBlock := 0);
      }
    }

    method SwitchBusWidthSd() returns (status: Status)
      requires Valid() && attempts <= RECOVERY_THRESHOLD
      modifies this, host, db, blockBuffer
      ensures Valid() && Harmless()
      ensures !status.Failed() ==>
                softResets == old(softResets) && card == old(card) && media == old(media) &&
                host.controls == old(host.controls) + [Control(SetBusWidth(4), true)] &&
                host.issued == old(host.issued) + Lead(APP_SET_BUS_WIDTH_SD, BUS_WIDTH_4_SD, RcaArg())
      ensures status.Failed() <==> host.faults > old(host.faults)
      decreases RECOVERY_THRESHOLD - attempts, 3, 0
    {
      status := SendCommand(APP_SET_BUS_WIDTH_SD, BUS_WIDTH_4_SD);
      if status.Failed() {
        return;
      }
      status := host.Operate(SetBusWidth(4));
    }

    /** The clock that suits the card, if its TRAN_SPEED is not reserved. */
    function WantedClock(): Option<nat>
      reads this`card
    {
      if card.function_ == FunctionSd || card.speed == NormalSpeed then MaxFrequency(card.function_, card.tranSpeed)
      else if card.speed == HighSpeed then Some(MMC_HIGH_SPEED_CLOCK_HZ)
      else Some(0)
    }

    method SetMaxClockFrequency() returns (status: Status)
      modifies this`setbacks, host`controls, host`faults
      ensures match WantedClock()
              case None => status == InvalidParameter && host.controls == old(host.controls)
              case Some(hz) => host.controls == old(host.controls) + [Control(SetClock(hz), !status.Failed())]
      ensures old(host.faults) <= host.faults && old(setbacks) <= setbacks
      ensures status.Failed() <==> host.faults > old(host.faults) || setbacks > old(setbacks)
    {
      var hz := 0;
      if card.function_ == FunctionSd || card.speed == NormalSpeed {
        match MaxFrequency(card.function_, card.tranSpeed) {
          case None =>
            setbacks := setbacks + 1;
            return InvalidParameter;
          case Some(f) => hz := f;
        }
      } else if card.speed == HighSpeed {
        hz := MMC_HIGH_SPEED_CLOCK_HZ;
      }
      status := host.Operate(SetClock(hz));
    }

    /** Re-reads EXT_CSD and what follows from it: capacity, last block and RPMB sizes. */
    method SendExtCsd() returns (status: Status)
      requires Valid() && attempts <= RECOVERY_THRESHOLD
      modifies this, host, db, blockBuffer
      ensures Valid() && Harmless()
      ensures !status.Failed() ==>
                softResets == old(softResets) && currentPartition == old(currentPartition) &&
                host.config == old(host.config) && lastSuccess == Some(SEND_STATUS) &&
                host.controls == old(host.controls) && HoldsExtCsd(old(card), old(media)) && SizesAgree() &&
                Polled(old(host.issued) + ExtCsdRead(RcaArg()), host.issued, Poll()) &&
                (host.honest ==> card.extCsd[EXT_PARTITION_CONFIG] == host.config)
      ensures status.Failed() ==> Excused()
      decreases RECOVERY_THRESHOLD - attempts, 6, 0
    {
      hide SdhcInstance.BufferOutcome, U32At;
      status := SendDataCommand(SEND_EXT_CSD_MMC, RcaArg(), BLOCK_BYTES, blockBuffer, 0);
      if !status.Failed() {
        StoreExtCsd();
        ExtCsdPhases(old(host.issued), RcaArg(), old(blockBuffer[0..BLOCK_BYTES]), old(lastSuccess));
      }
    }

    /** Card, media and RPMB data are `before` with what the stored EXT_CSD says. */
    predicate HoldsExtCsd(before: CardInfo, beforeMedia: Media)
      reads this
    {
      |card.extCsd| == BLOCK_BYTES &&
      var sectors := U32At(card.extCsd, EXT_SECTOR_COUNT);
      card == before.(extCsd := card.extCsd, byteCapacity := sectors * BLOCK_BYTES) &&
      media == beforeMedia.(lastBlock := (sectors - 1) % TWO32) &&
      rpmbInfo == RpmbInfo(card.extCsd[EXT_RELIABLE_WRITE], card.extCsd[EXT_RPMB_SIZE_MULT])
    }

    /** Sector count, last block and capacity are those of one card. */
    predicate SizesAgree()
      reads this
    {
      |card.extCsd| == BLOCK_BYTES &&
      (media.lastBlock + 1 == U32At(card.extCsd, EXT_SECTOR_COUNT) || U32At(card.extCsd, EXT_SECTOR_COUNT) == 0) &&
      card.byteCapacity == U32At(card.extCsd, EXT_SECTOR_COUNT) * BLOCK_BYTES
    }

    method StoreExtCsd()
      requires Valid()
      requires host.honest ==> blockBuffer[EXT_PARTITION_CONFIG] == host.config
      modifies this`card, this`media, this`rpmbInfo
      ensures Valid() && card.extCsd == blockBuffer[..] && HoldsExtCsd(old(card), old(media)) && SizesAgree()
    {
      hide SdhcInstance.FlagsAgree;
      var ext := blockBuffer[..];
      var sectors := U32At(ext, EXT_SECTOR_COUNT);
      card := card.(extCsd := ext, byteCapacity := sectors * BLOCK_BYTES);
      media := media.(lastBlock := if sectors == 0 then TWO32 - 1 else sectors - 1);
      rpmbInfo := RpmbInfo(ext[EXT_RELIABLE_WRITE], ext[EXT_RPMB_SIZE_MULT]);
    }

    /** Success: the EXT_CSD read back confirms high speed. */
    method SwitchSpeedModeMmc() returns (status: Status)
      requires Valid() && attempts <= RECOVERY_THRESHOLD
      modifies this, host, db, blockBuffer
      ensures Valid() && Harmless()
      ensures !status.Failed() ==>
                softResets == old(softResets) && host.controls == old(host.controls) &&
                HoldsExtCsd(old(card).(speed := HighSpeed), old(media)) &&
                card.extCsd[EXT_HIGH_SPEED_TIMING] != 0 &&
                (host.honest ==> host.config == card.extCsd[EXT_PARTITION_CONFIG]) &&
                Said(old(host.issued), host.issued, Switched(EXT_HIGH_SPEED_TIMING, 1, RcaArg()))
      ensures status.Failed() ==> Excused()
      decreases RECOVERY_THRESHOLD - attempts, 7, 0
    {
      hide Polled, Said, Switched, ExtCsdRead, U32At, Latest, Previous;
      hide SdhcInstance.FlagsAgree, HandleDatabase.RpmbUnique;
      status := SendCommand(SWITCH_MMC, SwitchArg(EXT_HIGH_SPEED_TIMING, 1));
      if status.Failed() {
        return;
      }
      ghost var between := host.issued;
      card := card.(speed := HighSpeed);
      status := SendExtCsd();
      if status.Failed() {
        return;
      }
      if card.extCsd[EXT_HIGH_SPEED_TIMING] == 0 {
        setbacks := setbacks + 1;
        return ProtocolError;
      }
      SwitchedSays(old(host.issued), between, host.issued, EXT_HIGH_SPEED_TIMING, 1, RcaArg());
    }

    /** Raises the power class to `need` exactly if the 8-bit bus draws more than the card's class allows, and
        verifies that; then always selects the 8-bit bus. */
    method SwitchBusWidthMmc()
      returns (status: Status, ghost need: Byte, ghost raised: bool, ghost first: CardInfo)
      requires Valid() && attempts <= RECOVERY_THRESHOLD
      modifies this, host, db, blockBuffer
      ensures Valid() && Harmless()
      ensures status.Failed() ==> Excused()
      ensures !status.Failed() ==>
                softResets == old(softResets) && HoldsExtCsd(old(card), old(media)) &&
                host.controls == old(host.controls) + [Control(SetBusWidth(8), true)] &&
                (host.honest ==> host.config == card.extCsd[EXT_PARTITION_CONFIG]) &&
                |first.extCsd| == BLOCK_BYTES && need == PowerClassNeeded(first) &&
                (raised <==> need > first.extCsd[EXT_POWER_CLASS]) &&
                (if raised then card.extCsd[EXT_POWER_CLASS] == need else card == first) &&
                Said(old(host.issued), host.issued, BusWidthTranscript(raised, need, RcaArg()))
      decreases RECOVERY_THRESHOLD - attempts, 7, 2
    {
      hide BootBits, PartitionAccess, Latest, Previous, PowerClassNeeded, Said, Polled, U32At;
      hide SdhcInstance.FlagsAgree, HandleDatabase.RpmbUnique, SdhcInstance.BootBitsCached;
      status, need, raised, first := AdjustPowerClass();
      if status.Failed() {
        return;
      }
      ghost var before := host.issued;
      status := SelectWideBus();
      if status.Failed() {
        return;
      }
      SaidThen(old(host.issued), before, host.issued, PowerTranscript(raised, need, RcaArg()),
               [Sent(SWITCH_MMC, SwitchArg(EXT_BUS_WIDTH, BUS_WIDTH_8))]);
    }

    method AdjustPowerClass()
      returns (status: Status, ghost need: Byte, ghost raised: bool, ghost first: CardInfo)
      requires Valid() && attempts <= RECOVERY_THRESHOLD
      modifies this, host, db, blockBuffer
      ensures Valid() && Harmless()
      ensures status.Failed() ==> Excused()
      ensures !status.Failed() ==>
                softResets == old(softResets) && HoldsExtCsd(old(card), old(media)) &&
                host.controls == old(host.controls) &&
                (host.honest ==> host.config == card.extCsd[EXT_PARTITION_CONFIG]) &&
                |first.extCsd| == BLOCK_BYTES && need == PowerClassNeeded(first) &&
                (raised <==> need > first.extCsd[EXT_POWER_CLASS]) &&
                (if raised then card.extCsd[EXT_POWER_CLASS] == need else card == first) &&
                Said(old(host.issued), host.issued, PowerTranscript(raised, need, RcaArg()))
      decreases RECOVERY_THRESHOLD - attempts, 7, 1
    {
      hide BootBits, PartitionAccess, Latest, Previous, PowerClassNeeded, Said, Polled, U32At;
      hide SdhcInstance.FlagsAgree, HandleDatabase.RpmbUnique, SdhcInstance.BootBitsCached;
      need, raised, first := 0, false, card;
      status := SendExtCsd();
      if status.Failed() {
        return;
      }
      ghost var read := host.issued;
      PolledSays(old(host.issued), ExtCsdRead(RcaArg()), read, Poll());
      var powerClass := PowerClassNeeded(card);
      need, first := powerClass, card;
      if powerClass > card.extCsd[EXT_POWER_CLASS] {
        raised := true;
        status := RaisePowerClass(powerClass);
        if status.Failed() {
          return;
        }
        SaidThen(old(host.issued), read, host.issued, ExtCsdRead(RcaArg()),
                 Switched(EXT_POWER_CLASS, need, RcaArg()));
      }
    }

    method SelectWideBus() returns (status: Status)
      requires Valid() && attempts <= RECOVERY_THRESHOLD
      modifies this, host, db, blockBuffer
      ensures Valid() && Harmless()
      ensures status.Failed() ==> Excused()
      ensures !status.Failed() ==>
                softResets == old(softResets) &&
                card == old(card) && media == old(media) && rpmbInfo == old(rpmbInfo) &&
                host.config == old(host.config) &&
                host.controls == old(host.controls) + [Control(SetBusWidth(8), true)] &&
                Said(old(host.issued), host.issued, [Sent(SWITCH_MMC, SwitchArg(EXT_BUS_WIDTH, BUS_WIDTH_8))])
      decreases RECOVERY_THRESHOLD - attempts, 7, 0
    {
      status := SendCommand(SWITCH_MMC, SwitchArg(EXT_BUS_WIDTH, BUS_WIDTH_8));
      if status.Failed() {
        return;
      }
      PolledSays(old(host.issued), [Sent(SWITCH_MMC, SwitchArg(EXT_BUS_WIDTH, BUS_WIDTH_8))], host.issued, Poll());
      status := host.Operate(SetBusWidth(8));
    }

    method RaisePowerClass(powerClass: Byte) returns (status: Status)
      requires Valid() && attempts <= RECOVERY_THRESHOLD
      modifies this, host, db, blockBuffer
      ensures Valid() && Harmless()
      ensures status.Failed() ==> Excused()
      ensures !status.Failed() ==>
                softResets == old(softResets) && HoldsExtCsd(old(card), old(media)) &&
                host.controls == old(host.controls) && card.extCsd[EXT_POWER_CLASS] == powerClass &&
                (host.honest ==> host.config == card.extCsd[EXT_PARTITION_CONFIG]) &&
                Said(old(host.issued), host.issued, Switched(EXT_POWER_CLASS, powerClass, RcaArg()))
      decreases RECOVERY_THRESHOLD - attempts, 7, 0
    {
      hide BootBits, PartitionAccess, Latest, Previous;
      hide SdhcInstance.FlagsAgree, HandleDatabase.RpmbUnique, SdhcInstance.BootBitsCached;
      hide U32At, Polled, Said, Switched, SwitchIndex, SwitchValue;
      status := SendCommand(SWITCH_MMC, SwitchArg(EXT_POWER_CLASS, powerClass));
      if status.Failed() {
        return;
      }
      ghost var between := host.issued;
      status := SendExtCsd();
      if status.Failed() {
        return;
      }
      if card.extCsd[EXT_POWER_CLASS] != powerClass {
        setbacks := setbacks + 1;
        return ProtocolError;
      }
      SwitchedSays(old(host.issued), between, host.issued, EXT_POWER_CLASS, powerClass, RcaArg());
    }

    /** The identification steps that SD and MMC cards share. */
    method IdentifyCard() returns (status: Status)
      requires Valid() && attempts <= RECOVERY_THRESHOLD
      modifies this, host, db, blockBuffer
      ensures Valid() && Harmless()
      ensures !status.Failed() ==>
                softResets == old(softResets) && media.blockSize == BLOCK_BYTES && Identified(old(card)) &&
                host.controls == old(host.controls) &&
                host.issued == old(host.issued) + Identification(card.function_ == FunctionMmc, RcaArg())
      ensures status.Failed() <==> host.faults > old(host.faults)
      ensures old(host.issued) < host.issued
      decreases RECOVERY_THRESHOLD - attempts, 7, 0
    {
      hide Latest, Previous;
      hide BootBits, PartitionAccess;
      hide SdhcInstance.FlagsAgree, HandleDatabase.RpmbUnique, U32At, WithCsd;
      status := AddressCard();
      if status.Failed() {
        return;
      }
      status := SendCid();
      if status.Failed() {
        return;
      }
      ghost var before := card;
      status := SendCsd();
      CsdFields(before, response);
    }

    method AddressCard() returns (status: Status)
      requires Valid() && attempts <= RECOVERY_THRESHOLD
      modifies this, host, db, blockBuffer
      ensures Valid() && Harmless()
      ensures !status.Failed() ==>
                softResets == old(softResets) && card == old(card).(rca := card.rca) &&
                host.controls == old(host.controls) &&
                host.issued == old(host.issued) + Identification(card.function_ == FunctionMmc, RcaArg())[..2]
      ensures status.Failed() <==> host.faults > old(host.faults)
      ensures old(host.issued) < host.issued
      decreases RECOVERY_THRESHOLD - attempts, 6, 0
    {
      hide SdhcInstance.FlagsAgree, HandleDatabase.RpmbUnique, U32At;
      status := SendCommand(SEND_CID_ALL, 0);
      if status.Failed() {
        return;
      }
      status := SendRelativeAddr();
    }

    /** Nothing but address, CID and the fields of the CSD differs from `before`. */
    predicate Identified(before: CardInfo)
      reads this
    {
      card == before.(rca := card.rca, cid := card.cid, byteCapacity := card.byteCapacity,
                      specVers := card.specVers, tranSpeed := card.tranSpeed)
    }

    /** EXT_CSD, speed mode and bus width of an MMC card. */
    method ConfigureMmc() returns (status: Status, ghost raised: bool, ghost need: Byte)
      requires Valid() && attempts <= RECOVERY_THRESHOLD
      modifies this, host, db, blockBuffer
      ensures Valid() && Harmless()
      ensures !status.Failed() ==>
                softResets == old(softResets) && HoldsExtCsd(old(card).(speed := HighSpeed), old(media)) &&
                host.controls == old(host.controls) + [Control(SetBusWidth(8), true)] &&
                (host.honest ==> host.config == card.extCsd[EXT_PARTITION_CONFIG]) &&
                Said(old(host.issued), host.issued, ConfigureTranscript(raised, need, RcaArg()))
      ensures status.Failed() ==> Excused()
      decreases RECOVERY_THRESHOLD - attempts, 8, 1
    {
      hide Said, Polled, SdhcInstance.FlagsAgree, HandleDatabase.RpmbUnique, U32At, BootBits, PartitionAccess;
      raised, need := false, 0;
      status := ReadAndSpeedUp();
      if status.Failed() {
        return;
      }
      ghost var before := host.issued;
      ghost var first;
      status, need, raised, first := SwitchBusWidthMmc();
      if status.Failed() {
        return;
      }
      SaidThen(old(host.issued), before, host.issued,
               ExtCsdRead(RcaArg()) + Switched(EXT_HIGH_SPEED_TIMING, 1, RcaArg()),
               BusWidthTranscript(raised, need, RcaArg()));
    }

    method ReadAndSpeedUp() returns (status: Status)
      requires Valid() && attempts <= RECOVERY_THRESHOLD
      modifies this, host, db, blockBuffer
      ensures Valid() && Harmless()
      ensures !status.Failed() ==>
                softResets == old(softResets) && HoldsExtCsd(old(card).(speed := HighSpeed), old(media)) &&
                host.controls == old(host.controls) && card.extCsd[EXT_HIGH_SPEED_TIMING] != 0 &&
                Said(old(host.issued), host.issued,
                     ExtCsdRead(RcaArg()) + Switched(EXT_HIGH_SPEED_TIMING, 1, RcaArg()))
      ensures status.Failed() ==> Excused()
      decreases RECOVERY_THRESHOLD - attempts, 8, 0
    {
      hide Said, Polled, SdhcInstance.FlagsAgree, HandleDatabase.RpmbUnique, U32At, BootBits, PartitionAccess;
      status := SendExtCsd();
      if status.Failed() {
        return;
      }
      ghost var first := host.issued;
      PolledSays(old(host.issued), ExtCsdRead(RcaArg()), first, Poll());
      status := SwitchSpeedModeMmc();
      if status.Failed() {
        return;
      }
      SaidThen(old(host.issued), first, host.issued, ExtCsdRead(RcaArg()),
               Switched(EXT_HIGH_SPEED_TIMING, 1, RcaArg()));
    }

    method InitializeSdDevice() returns (status: Status, ghost polls: nat, window: nat)
      requires Valid() && attempts <= RECOVERY_THRESHOLD
      modifies this, host, db, blockBuffer
      ensures Valid() && Harmless()
      ensures !status.Failed() ==>
                Steady() && media.blockSize == BLOCK_BYTES && 1 <= polls <= POLL_WAIT_COUNT && window < 0x100_0000 &&
                (card.function_ == FunctionSd ==>
                   MaxFrequency(FunctionSd, card.tranSpeed).Some? &&
                   host.controls == old(host.controls) +
                     [Control(SetBusWidth(4), true),
                      Control(SetClock(MaxFrequency(FunctionSd, card.tranSpeed).value), true)]) &&
                host.issued == old(host.issued) + PowerUpSd(old(RcaArg()), window, polls) +
                               (Identification(card.function_ == FunctionMmc, RcaArg()) + [Sent(SELECT, RcaArg())] +
                                Lead(APP_SET_BUS_WIDTH_SD, BUS_WIDTH_4_SD, RcaArg()))
      ensures status.Failed() ==> Excused()
      ensures old(host.issued) < host.issued
      decreases RECOVERY_THRESHOLD - attempts, 9, 0
    {
      hide BootBits, PartitionAccess, Latest, Previous;
      hide SdhcInstance.FlagsAgree, HandleDatabase.RpmbUnique, SdhcInstance.BootBitsCached;
      hide Repeat, PowerUpSd, MaxFrequency, U32At, Identification;
      ghost var ocr;
      status, polls, window, ocr := SendOpCondSd();
      if status.Failed() {
        return;
      }
      status := SelectSd();
      if status.Failed() {
        return;
      }
      status := WidenSd();
    }

    /** The 4-bit bus and the clock of a selected SD card. */
    method WidenSd() returns (status: Status)
      requires Valid() && attempts <= RECOVERY_THRESHOLD
      modifies this, host, db, blockBuffer
      ensures Valid() && Harmless()
      ensures !status.Failed() ==>
                softResets == old(softResets) && card == old(card) && media == old(media) && WantedClock().Some? &&
                host.controls
                == old(host.controls) + [Control(SetBusWidth(4), true), Control(SetClock(WantedClock().value), true)] &&
                host.issued == old(host.issued) + Lead(APP_SET_BUS_WIDTH_SD, BUS_WIDTH_4_SD, RcaArg())
      ensures status.Failed() ==> Excused()
      decreases RECOVERY_THRESHOLD - attempts, 4, 0
    {
      hide BootBits, PartitionAccess, Latest, Previous, SdhcInstance.FlagsAgree, HandleDatabase.RpmbUnique;
      hide MaxFrequency, Lead;
      status := SwitchBusWidthSd();
      if status.Failed() {
        return;
      }
      status := SetMaxClockFrequency();
    }

    method SelectSd() returns (status: Status)
      requires Valid() && attempts <= RECOVERY_THRESHOLD
      modifies this, host, db, blockBuffer
      ensures Valid() && Harmless()
      ensures !status.Failed() ==>
                softResets == old(softResets) && media.blockSize == BLOCK_BYTES && Identified(old(card)) &&
                host.controls == old(host.controls) &&
                host.issued == old(host.issued) +
                  (Identification(card.function_ == FunctionMmc, RcaArg()) + [Sent(SELECT, RcaArg())])
      ensures status.Failed() ==> Excused()
      decreases RECOVERY_THRESHOLD - attempts, 8, 0
    {
      hide BootBits, PartitionAccess, Latest, Previous, SdhcInstance.FlagsAgree, HandleDatabase.RpmbUnique;
      hide Identification;
      status := IdentifyCard();
      if status.Failed() {
        return;
      }
      status := SendCommand(SELECT, RcaArg());
    }

    method InitializeMmcDevice() returns (status: Status, ghost raised: bool, ghost need: Byte)
      requires Valid() && attempts <= RECOVERY_THRESHOLD
      modifies this, host, db, blockBuffer
      ensures Valid() && Harmless()
      ensures !status.Failed() ==>
                Steady() && media.blockSize == BLOCK_BYTES && card.specVers >= MMC_MIN_SPEC_VERS &&
                card.speed == HighSpeed && |card.extCsd| == BLOCK_BYTES &&
                (host.honest ==> host.config == card.extCsd[EXT_PARTITION_CONFIG]) &&
                (card.function_ == FunctionMmc ==>
                   host.controls == old(host.controls) +
                     [Control(SetBusWidth(8), true), Control(SetClock(MMC_HIGH_SPEED_CLOCK_HZ), true)]) &&
                Said(old(host.issued), host.issued,
                     Identification(card.function_ == FunctionMmc, RcaArg()) + [Sent(SELECT, RcaArg())]
                     + ConfigureTranscript(raised, need, RcaArg()))
      ensures status.Failed() ==> Excused()
      ensures old(host.issued) < host.issued
      decreases RECOVERY_THRESHOLD - attempts, 9, 0
    {
      hide BootBits, PartitionAccess, Latest, Previous;
      hide SdhcInstance.FlagsAgree, HandleDatabase.RpmbUnique, SdhcInstance.BootBitsCached;
      hide Said, U32At, ConfigureTranscript, Identification;
      raised, need := false, 0;
      status := SelectMmc();
      if status.Failed() {
        return;
      }
      ghost var selected := host.issued;
      status, raised, need := ConfigureAndClock();
      if status.Failed() {
        return;
      }
      SaidThen(old(host.issued), selected, host.issued,
               Identification(card.function_ == FunctionMmc, RcaArg()) + [Sent(SELECT, RcaArg())],
               ConfigureTranscript(raised, need, RcaArg()));
    }

    method ConfigureAndClock() returns (status: Status, ghost raised: bool, ghost need: Byte)
      requires Valid() && attempts <= RECOVERY_THRESHOLD
      modifies this, host, db, blockBuffer
      ensures Valid() && Harmless()
      ensures !status.Failed() ==>
                softResets == old(softResets) && RcaArg() == old(RcaArg()) && card.function_ == old(card.function_) &&
                card.specVers == old(card.specVers) && card.speed == HighSpeed && |card.extCsd| == BLOCK_BYTES &&
                media.blockSize == old(media.blockSize) &&
                (card.function_ == FunctionMmc ==>
                   host.controls == old(host.controls) +
                     [Control(SetBusWidth(8), true), Control(SetClock(MMC_HIGH_SPEED_CLOCK_HZ), true)]) &&
                (host.honest ==> host.config == card.extCsd[EXT_PARTITION_CONFIG]) &&
                Said(old(host.issued), host.issued, ConfigureTranscript(raised, need, RcaArg()))
      ensures status.Failed() ==> Excused()
      decreases RECOVERY_THRESHOLD - attempts, 8, 2
    {
      hide BootBits, PartitionAccess, Latest, Previous, SdhcInstance.FlagsAgree, HandleDatabase.RpmbUnique;
      hide Said, ConfigureTranscript, U32At, MaxFrequency;
      status, raised, need := ConfigureMmc();
      if !status.Failed() {
        status := SetMaxClockFrequency();
      }
    }

    /** Identification, the test of the version, and selection. */
    method SelectMmc() returns (status: Status)
      requires Valid() && attempts <= RECOVERY_THRESHOLD
      modifies this, host, db, blockBuffer
      ensures Valid() && Harmless()
      ensures !status.Failed() ==>
                softResets == old(softResets) && media.blockSize == BLOCK_BYTES && Identified(old(card)) &&
                card.specVers >= MMC_MIN_SPEC_VERS && host.controls == old(host.controls) &&
                Said(old(host.issued), host.issued,
                     Identification(card.function_ == FunctionMmc, RcaArg()) + [Sent(SELECT, RcaArg())])
      ensures status.Failed() ==>
                host.faults > old(host.faults) || (setbacks > old(setbacks) && card.specVers < MMC_MIN_SPEC_VERS)
      ensures old(host.issued) < host.issued
      decreases RECOVERY_THRESHOLD - attempts, 8, 0
    {
      hide BootBits, PartitionAccess, Latest, Previous, SdhcInstance.FlagsAgree, HandleDatabase.RpmbUnique;
      hide Identification, Said;
      status := IdentifyCard();
      if status.Failed() {
        return;
      }
      if card.specVers < MMC_MIN_SPEC_VERS {
        setbacks := setbacks + 1;
        return Unsupported;
      }
      status := SendCommand(SELECT, RcaArg());
      if !status.Failed() {
        IdentifiedSays(old(host.issued), host.issued, card.function_ == FunctionMmc, RcaArg());
      }
    }

    /** ZeroMem of CARD_INFO, host reset and identification clock. */
    method PrepareHost() returns (status: Status)
      requires Valid() && !rpmbIoInstalled
      modifies this`card, host`controls, host`faults
      ensures Valid()
      ensures KeepsSelection()
      ensures card == ZERO_CARD.(speed := NormalSpeed)
      ensures old(host.controls) <= host.controls && old(host.faults) <= host.faults
      ensures status.Failed() <==> host.faults > old(host.faults)
      ensures !status.Failed() ==>
                host.controls == old(host.controls) + [Control(ResetAll, true), Control(SetClock(IDENT_CLOCK_HZ), true)]
    {
      card := ZERO_CARD.(speed := NormalSpeed);
      status := host.Operate(ResetAll);
      if !status.Failed() {
        status := host.Operate(SetClock(IDENT_CLOCK_HZ));
      }
    }

    /** The media data known once the card is initialised: removability and serial number. */
    method IdentifyMedia()
      requires Valid() && (card.function_ == FunctionSd || card.function_ == FunctionMmc)
      modifies this`media, this`slotInitialized
      ensures Valid() && slotInitialized
      ensures media == old(media).(
                removable := card.function_ == FunctionSd, id := SerialNumber(card.function_, card.cid))
    {
      if card.function_ == FunctionSd {
        media := media.(removable := true);
      } else {
        media := media.(removable := false);
      }
      media := media.(id := SerialNumber(card.function_, card.cid));
      slotInitialized := true;
    }

    method InitializeCard() returns (status: Status)
      requires Valid() && attempts <= RECOVERY_THRESHOLD
      modifies this, host, db, blockBuffer
      ensures Valid() && Harmless()
      ensures !status.Failed() ==>
                (card.function_ == FunctionSd || card.function_ == FunctionMmc) && media.blockSize == BLOCK_BYTES &&
                (card.function_ == FunctionMmc && host.honest ==> BootBitsCached())
      ensures status.Failed() ==> Excused()
      ensures old(card.function_) == FunctionSd || old(card.function_) == FunctionMmc ==> old(host.issued) < host.issued
      decreases RECOVERY_THRESHOLD - attempts, 9, 1
    {
      hide Said, Identification, ConfigureTranscript, PowerUpSd, MaxFrequency, U32At, Latest, Previous;
      hide SdhcInstance.FlagsAgree, HandleDatabase.RpmbUnique;
      match card.function_ {
        case FunctionSd =>
          ghost var polls;
          var window;
          status, polls, window := InitializeSdDevice();
        case FunctionMmc =>
          ghost var raised, need;
          status, raised, need := InitializeMmcDevice();
        case _ =>
          setbacks := setbacks + 1;
          status := Unsupported;
      }
    }

    method InitializeDevice() returns (status: Status)
      requires Valid() && !rpmbIoInstalled && attempts <= RECOVERY_THRESHOLD
      modifies this, host, db, blockBuffer
      ensures Valid() && Harmless()
      ensures !status.Failed() ==>
                slotInitialized && lastSuccess.Some? &&
                (card.function_ == FunctionSd || card.function_ == FunctionMmc) &&
                (media.removable <==> card.function_ == FunctionSd) && media.blockSize == BLOCK_BYTES &&
                media.id == SerialNumber(card.function_, card.cid) &&
                (card.function_ == FunctionMmc && host.honest ==> BootBitsCached())
      ensures status.Failed() ==> Excused()
      ensures !status.Failed() ==>
                Asked(old(host.issued), host.issued, Sent(SET_BLOCK_LENGTH, BLOCK_BYTES)) &&
                InitializedFrom(old(host.controls))
      decreases RECOVERY_THRESHOLD - attempts, 9, 3
    {
      ghost var typed;
      status, typed := DetectAndInitialize();
      if status.Failed() {
        return;
      }
      ghost var before := host.issued;
      status := SendCommand(SET_BLOCK_LENGTH, BLOCK_BYTES);
      assert host.issued[|before|] == Sent(SET_BLOCK_LENGTH, BLOCK_BYTES);
      if status.Failed() {
        return;
      }
      IdentifyMedia();
    }

    /** The host was reset as a whole and its clock lowered before the card was asked anything. */
    ghost predicate InitializedFrom(controls: seq<Control>)
      reads host
    {
      controls + [Control(ResetAll, true), Control(SetClock(IDENT_CLOCK_HZ), true)] <= host.controls
    }

    /** The initialisation up to the block length. `typed`: the card's type was found. */
    method DetectAndInitialize() returns (status: Status, ghost typed: bool)
      requires Valid() && !rpmbIoInstalled && attempts <= RECOVERY_THRESHOLD
      modifies this, host, db, blockBuffer
      ensures Valid() && Harmless()
      ensures !status.Failed() ==>
                typed &&
                (card.function_ == FunctionSd || card.function_ == FunctionMmc) && media.blockSize == BLOCK_BYTES &&
                (card.function_ == FunctionMmc && host.honest ==> BootBitsCached()) &&
                InitializedFrom(old(host.controls))
      ensures status.Failed() ==> Excused()
      decreases RECOVERY_THRESHOLD - attempts, 9, 2
    {
      typed := false;
      status := PrepareHost();
      if status.Failed() {
        return;
      }
      ghost var answers;
      ghost var wentIdle;
      status, answers, wentIdle := QueryCardType();
      typed := !status.Failed();
      if status.Failed() {
        return;
      }
      status := InitializeCard();
    }

    // ------------------------------------------------------------------ protocols and soft reset

    /** The instance's record of one protocol. */
    function Flag(protocol: ProtocolId): bool
      reads this
    {
      match protocol
      case BlockIoProtocol => blockIoInstalled
      case DevicePathProtocol => devicePathInstalled
      case RpmbIoProtocol => rpmbIoInstalled
    }

    /** Only the record of `protocol` changed, to `installed`. */
    twostate predicate FlagSet(protocol: ProtocolId, installed: bool)
      reads this
    {
      blockIoInstalled == (if protocol == BlockIoProtocol then installed else old(blockIoInstalled)) &&
      devicePathInstalled == (if protocol == DevicePathProtocol then installed else old(devicePathInstalled)) &&
      rpmbIoInstalled == (if protocol == RpmbIoProtocol then installed else old(rpmbIoInstalled))
    }

    method SetFlag(protocol: ProtocolId, installed: bool)
      modifies this`blockIoInstalled, this`devicePathInstalled, this`rpmbIoInstalled
      ensures FlagSet(protocol, installed)
    {
      match protocol {
        case BlockIoProtocol => blockIoInstalled := installed;
        case DevicePathProtocol => devicePathInstalled := installed;
        case RpmbIoProtocol => rpmbIoInstalled := installed;
      }
    }

    /** Install one protocol and record it. */
    method Publish(protocol: ProtocolId) returns (status: Status)
      requires Valid() && (protocol == RpmbIoProtocol ==> !RpmbPublished())
      requires protocol == RpmbIoProtocol && host.honest ==> BootBitsCached()
      requires protocol == BlockIoProtocol && media.present ==> lastSuccess.Some?
      modifies this`blockIoInstalled, this`devicePathInstalled, this`rpmbIoInstalled, db
      ensures Valid() && Others(db.installed, handle) == Others(old(db.installed), handle)
      ensures FlagSet(protocol, !status.Failed() || old(Flag(protocol)))
      ensures db.failures == old(db.failures) + if status.Failed() then 1 else 0
      ensures protocol == RpmbIoProtocol && !status.Failed() ==> RpmbPublished()
    {
      status := db.Install(Entry(handle, protocol));
      if !status.Failed() {
        assert Entry(handle, protocol) in db.installed;
        assert protocol == RpmbIoProtocol ==> Entry(handle, protocol) in RpmbPublishers(db.installed);
        SetFlag(protocol, true);
      }
    }

    /** Uninstall one protocol if it is recorded as installed. */
    method Withdraw(protocol: ProtocolId) returns (status: Status)
      requires Valid()
      modifies this`blockIoInstalled, this`devicePathInstalled, this`rpmbIoInstalled, db
      ensures Valid() && Others(db.installed, handle) == Others(old(db.installed), handle)
      ensures FlagSet(protocol, status.Failed() && old(Flag(protocol)))
      ensures !old(Flag(protocol)) ==> status == Success
      ensures db.failures == old(db.failures) + if status.Failed() then 1 else 0
    {
      status := Success;
      if Flag(protocol) {
        status := db.Uninstall(Entry(handle, protocol));
        if !status.Failed() {
          SetFlag(protocol, false);
        }
      }
    }

    method UninstallAllProtocols() returns (status: Status)
      requires Valid()
      modifies this`blockIoInstalled, this`devicePathInstalled, this`rpmbIoInstalled, db
      ensures Valid() && Others(db.installed, handle) == Others(old(db.installed), handle)
      ensures old(db.failures) <= db.failures && (status.Failed() <==> db.failures > old(db.failures))
      ensures !status.Failed() ==> !blockIoInstalled && !devicePathInstalled && !rpmbIoInstalled
      ensures blockIoInstalled ==> rpmbIoInstalled == old(rpmbIoInstalled)
      ensures blockIoInstalled || rpmbIoInstalled ==> devicePathInstalled == old(devicePathInstalled)
    {
      status := Withdraw(BlockIoProtocol);
      if status.Failed() {
        return;
      }
      status := Withdraw(RpmbIoProtocol);
      if status.Failed() {
        return;
      }
      status := Withdraw(DevicePathProtocol);
    }

    /** Some handle of the system publishes RPMB I/O. */
    ghost predicate RpmbPublished()
      reads this, db
    {
      RpmbPublishers(db.installed) != {}
    }

    /** The two ways a soft reset can end well: an initialised card with its protocols published,
        or an empty slot that publishes block I/O alone. */
    ghost predicate BroughtUp()
      reads this, db
    {
      blockIoInstalled &&
      if slotInitialized then
        devicePathInstalled && media.blockSize == BLOCK_BYTES &&
        (card.function_ == FunctionSd || (card.function_ == FunctionMmc && RpmbPublished()))
      else !media.present && !devicePathInstalled && !rpmbIoInstalled
    }

    /** The media and slot data that a soft reset clears. */
    method ClearMedia()
      requires Valid() && !blockIoInstalled
      modifies this`slotInitialized, this`rpmbInfo, this`media, host`answers
      ensures Valid() && !slotInitialized && rpmbInfo == RpmbInfo(0, 0)
      ensures media == NO_MEDIA.(present := media.present, readOnly := media.readOnly)
      ensures host.answers == old(host.answers) + if media.present then [true, media.readOnly] else [false]
      ensures !media.present ==> !media.readOnly
    {
      slotInitialized := false;
      rpmbInfo := RpmbInfo(0, 0);
      var present := host.Query();
      media := NO_MEDIA.(present := present);
      if present {
        var readOnly := host.Query();
        media := media.(readOnly := readOnly);
      }
    }

    /** The part of a soft reset that follows a successful initialisation. */
    method PublishProtocols() returns (status: Status)
      requires Valid() && slotInitialized && media.blockSize == BLOCK_BYTES && lastSuccess.Some?
      requires card.function_ == FunctionSd || card.function_ == FunctionMmc
      requires card.function_ == FunctionMmc && host.honest ==> BootBitsCached()
      modifies this`blockIoInstalled, this`devicePathInstalled, this`rpmbIoInstalled, this`currentPartition, db
      ensures Valid() && Others(db.installed, handle) == Others(old(db.installed), handle)
      ensures KeepsSelection() && old(db.failures) <= db.failures
      ensures status.Failed() <==> db.failures > old(db.failures)
      ensures !status.Failed() && rpmbIoInstalled && !old(rpmbIoInstalled) ==>
                currentPartition == PartitionAccess(card.extCsd[EXT_PARTITION_CONFIG])
      ensures !status.Failed() ==> BroughtUp()
    {
      hide Latest, Previous;
      status := db.AllocateText();
      if status.Failed() {
        return;
      }
      status := Publish(BlockIoProtocol);
      if status.Failed() {
        return;
      }
      status := Publish(DevicePathProtocol);
      if status.Failed() {
        return;
      }
      if card.function_ == FunctionMmc {
        var published := db.Locate(RpmbIoProtocol);
        if !published {
          status := Publish(RpmbIoProtocol);
          if status.Failed() {
            return;
          }
          currentPartition := PartitionAccess(card.extCsd[EXT_PARTITION_CONFIG]);
        }
      }
    }

    /** Withdraws the slot's protocols and clears what is known of its media. */
    method TakeDown() returns (status: Status)
      requires Valid()
      modifies this`softResets, this`slotInitialized, this`rpmbInfo, this`media, host`answers, db
      modifies this`blockIoInstalled, this`devicePathInstalled, this`rpmbIoInstalled
      ensures Valid() && softResets == old(softResets) + 1
      ensures Others(db.installed, handle) == Others(old(db.installed), handle)
      ensures old(db.failures) <= db.failures && (status.Failed() <==> db.failures > old(db.failures))
      ensures old(host.answers) <= host.answers
      ensures !status.Failed() ==>
                !blockIoInstalled && !devicePathInstalled && !rpmbIoInstalled && !slotInitialized &&
                media == NO_MEDIA.(present := media.present, readOnly := media.readOnly) &&
                host.answers == old(host.answers) + if media.present then [true, media.readOnly] else [false]
    {
      softResets := softResets + 1;
      status := UninstallAllProtocols();
      if !status.Failed() {
        ClearMedia();
      }
    }

    /** SoftReset up to its Exit label. `down`: the protocols of before were withdrawn. */
    method BringUp() returns (status: Status, ghost down: bool)
      requires Valid() && attempts <= RECOVERY_THRESHOLD
      modifies this, host, db, blockBuffer
      ensures Valid() && Harmless() && softResets > old(softResets)
      ensures !status.Failed() ==> down && BroughtUp()
      ensures status.Failed() ==> Excused()
      decreases RECOVERY_THRESHOLD - attempts, 10, 0
    {
      hide BootBits, PartitionAccess, Latest, Previous, SdhcInstance.FlagsAgree, HandleDatabase.RpmbUnique;
      hide SdhcInstance.InitializedFrom, Asked;
      status := TakeDown();
      down := !status.Failed();
      if status.Failed() {
        return;
      }
      if !media.present {
        status := Publish(BlockIoProtocol);
        return;
      }
      status := InitializeDevice();
      if status.Failed() {
        return;
      }
      status := PublishProtocols();
    }

    /** The status that the cleanup returns is that of the last uninstall it made: whether that went well. */
    predicate LastUninstallWorked(before: Installed)
      reads this
    {
      if before.devicePath then !devicePathInstalled else before.rpmbIo && !rpmbIoInstalled
    }

    /** The protocols recorded since were taken away, as far as the handle database let them. */
    ghost predicate CleanedSince(before: Installed)
      reads this, db
    {
      (devicePathInstalled ==> before.devicePath) && (rpmbIoInstalled ==> before.rpmbIo) &&
      before.failures <= db.failures && (devicePathInstalled || rpmbIoInstalled ==> before.failures < db.failures)
    }

    /** `cause` is the status and `atExit` the protocols at the Exit label. The cleanup overwrites the
        status: after a failure, success is returned exactly when the last uninstall worked. */
    method SoftReset() returns (status: Status, ghost cause: Status, ghost atExit: Installed)
      requires Valid() && attempts <= RECOVERY_THRESHOLD
      modifies this, host, db, blockBuffer
      ensures Valid() && Harmless() && softResets > old(softResets)
      ensures !cause.Failed() ==> !status.Failed() && BroughtUp()
      ensures cause.Failed() ==> Excused()
      ensures cause.Failed() ==> (!status.Failed() <==> LastUninstallWorked(atExit))
      ensures cause.Failed() && !atExit.devicePath && !atExit.rpmbIo ==> status == cause
      ensures cause.Failed() ==> CleanedSince(atExit)
      decreases RECOVERY_THRESHOLD - attempts, 10, 1
    {
      ghost var down;
      status, down := BringUp();
      cause, atExit := status, Installed(devicePathInstalled, rpmbIoInstalled, db.failures);
      if status.Failed() {
        status := Cleanup(status);
      }
    }

    /** On error, all protocols but block I/O go; the last uninstall decides the status. */
    method Cleanup(cause: Status) returns (status: Status)
      requires Valid() && cause.Failed()
      modifies this`devicePathInstalled, this`rpmbIoInstalled, this`blockIoInstalled, db
      ensures Valid() && Others(db.installed, handle) == Others(old(db.installed), handle)
      ensures blockIoInstalled == old(blockIoInstalled) && old(db.failures) <= db.failures
      ensures !old(devicePathInstalled) && !old(rpmbIoInstalled) ==> status == cause
      ensures var before := old(Installed(devicePathInstalled, rpmbIoInstalled, db.failures));
              CleanedSince(before) && (!status.Failed() <==> LastUninstallWorked(before))
    {
      status := cause;
      if rpmbIoInstalled {
        status := Withdraw(RpmbIoProtocol);
      }
      if devicePathInstalled {
        status := Withdraw(DevicePathProtocol);
      }
    }

    // ------------------------------------------------------------------ partitions

    /** Success verifies the switch in the EXT_CSD read back. Whatever the outcome, an honest card keeps its
        boot bits if those last read were right. */
    method SwitchPartitionMmc(partition: Byte) returns (status: Status)
      requires Valid() && attempts <= RECOVERY_THRESHOLD && partition <= 7
      modifies this, host, db, blockBuffer
      ensures Valid() && Kept() && host.userArea == old(host.userArea)
      ensures !status.Failed() ==>
                currentPartition == partition && PartitionAccess(card.extCsd[EXT_PARTITION_CONFIG]) == partition &&
                softResets == old(softResets) && RcaArg() == old(RcaArg()) &&
                Said(old(host.issued), host.issued,
                     PartitionSwitch(old(card.extCsd[EXT_PARTITION_CONFIG]), partition, RcaArg())) &&
                (host.honest ==> host.config == card.extCsd[EXT_PARTITION_CONFIG]) &&
                (host.honest && (old(host.config == card.extCsd[EXT_PARTITION_CONFIG]) ||
                                 PartitionAccess(old(host.config)) != partition) ==>
                  host.config == WithPartitionAccess(old(card.extCsd[EXT_PARTITION_CONFIG]), partition))
      ensures host.honest && old(BootBitsCached()) ==> KeepsBootBits()
      ensures status.Failed() ==> Excused()
      decreases RECOVERY_THRESHOLD - attempts, 7, 0
    {
      hide Polled, Said, ExtCsdRead, U32At, Latest, Previous, SdhcInstance.FlagsAgree, HandleDatabase.RpmbUnique;
      ghost var i0 := host.issued;
      var config := WithPartitionAccess(card.extCsd[EXT_PARTITION_CONFIG], partition);
      status := SendCommand(SWITCH_MMC, SwitchArg(EXT_PARTITION_CONFIG, config));
      ghost var i1 := host.issued;
      if status.Failed() {
        return;
      }
      status := SendExtCsd();
      if status.Failed() {
        return;
      }
      if PartitionAccess(card.extCsd[EXT_PARTITION_CONFIG]) != partition {
        setbacks := setbacks + 1;
        return DeviceError;
      }
      SwitchedSays(i0, i1, host.issued, EXT_PARTITION_CONFIG, config, RcaArg());
      PartitionRestored(old(card.extCsd[EXT_PARTITION_CONFIG]), partition);
      currentPartition := partition;
    }
  }
}
