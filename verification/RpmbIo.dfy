/** Replay-protected memory block requests (RpmbIo.c): switch to the RPMB partition, exchange
    512-byte packets under a pre-defined block count, switch back. */
module RpmbIo {
  import opened Bytes
  import opened EfiStatus
  import opened SdCommands
  import opened SdHost
  import opened SdhcSlot

  const PACKET_TYPE_AT: nat := 510

  const REQUEST_PROGRAM_KEY: nat := 1
  const REQUEST_COUNTER_VALUE: nat := 2
  const REQUEST_AUTH_WRITE: nat := 3
  const REQUEST_AUTH_READ: nat := 4
  const REQUEST_RESULT: nat := 5

  /** RpmbBytesToUint16 of the first packet's type field: most significant byte first. */
  function RequestType(packets: seq<Byte>): nat
    requires |packets| >= BLOCK_BYTES
  {
    (packets[PACKET_TYPE_AT] as int) * 0x100 + packets[PACKET_TYPE_AT + 1]
  }

  /** Whatever the type, the packet that states it is read as stating it. */
  lemma RequestTypeRead(packets: seq<Byte>, kind: nat)
    requires |packets| >= BLOCK_BYTES && kind < 0x1_0000
    requires packets[PACKET_TYPE_AT] == kind / 0x100 && packets[PACKET_TYPE_AT + 1] == kind % 0x100
    ensures RequestType(packets) == kind
  {
  }

  /** Bit 31 asks for a reliable write. */
  function BlockCountArg(count: nat, reliable: bool): Word32 {
    if reliable then count % 0x8000_0000 + 0x8000_0000 else count % TWO32
  }

  /** The size of `count` packets, a UINT32. */
  function SizeOf(count: nat): nat {
    count * BLOCK_BYTES % TWO32
  }

  /** SET_BLOCK_COUNT and the multi-block transfer of `data` behind it. The RPMB takes addresses from the
      packets. */
  function Counted(count: nat, reliable: bool, cmd: Command, data: Event): seq<Event> {
    [Sent(SET_BLOCK_COUNT, BlockCountArg(count, reliable)), Sent(cmd, 0), data]
  }

  function CountedWrite(packets: seq<Byte>, count: nat, reliable: bool): seq<Event>
    requires SizeOf(count) <= |packets|
  {
    Counted(count, reliable, WRITE_MULTI_BLOCK, DataOut(packets[..SizeOf(count)]))
  }

  function CountedRead(count: nat): seq<Event> {
    Counted(count, false, READ_MULTI_BLOCK, DataIn(SizeOf(count)))
  }

  /** A packet out for its response in. */
  function Exchange(request: seq<Byte>, count: nat): seq<Event>
    requires |request| >= BLOCK_BYTES
  {
    CountedWrite(request, 1, false) + CountedRead(count)
  }

  /** ResultRequest. */
  function ResultPacket(): (packet: seq<Byte>)
    ensures |packet| == BLOCK_BYTES
  {
    seq(BLOCK_BYTES, i => if i == PACKET_TYPE_AT + 1 then REQUEST_RESULT else 0)
  }

  /** A reliable write, whose result is fetched. */
  function WriteAndQuery(request: seq<Byte>, count: nat): seq<Event>
    requires SizeOf(count) <= |request|
  {
    CountedWrite(request, count, true) + Exchange(ResultPacket(), 1)
  }

  /** What the card is given for a request, status polls aside. */
  function Conversation(request: seq<Byte>, responseCount: nat): seq<Event>
    requires |request| >= BLOCK_BYTES
  {
    var kind := RequestType(request);
    if kind == REQUEST_PROGRAM_KEY then WriteAndQuery(request, 1)
    else if kind == REQUEST_COUNTER_VALUE then Exchange(request, 1)
    else if kind == REQUEST_AUTH_READ then Exchange(request, responseCount)
    else if kind == REQUEST_AUTH_WRITE && SizeOf(|request| / BLOCK_BYTES) <= |request|
    then WriteAndQuery(request, |request| / BLOCK_BYTES)
    else []
  }

  /** The result of a write is asked for by a packet of type 5. */
  lemma ResultPacketAsks()
    ensures RequestType(ResultPacket()) == REQUEST_RESULT
  {
    assert ResultPacket()[PACKET_TYPE_AT + 1] == REQUEST_RESULT;
  }

  /** An authenticated write sends its packets whole and reliably under their number, then asks for the
      result and reads one packet, as long as its size fits 32 bits. */
  lemma AuthenticatedWriteSends(request: seq<Byte>, count: nat, responseCount: nat)
    requires |request| == count * BLOCK_BYTES && 0 < count < 0x80_0000
    requires request[PACKET_TYPE_AT] == 0 && request[PACKET_TYPE_AT + 1] == 3
    ensures Conversation(request, responseCount)
         == [Sent(SET_BLOCK_COUNT, 0x8000_0000 + count), Sent(WRITE_MULTI_BLOCK, 0), DataOut(request),
             Sent(SET_BLOCK_COUNT, 1), Sent(WRITE_MULTI_BLOCK, 0), DataOut(ResultPacket()),
             Sent(SET_BLOCK_COUNT, 1), Sent(READ_MULTI_BLOCK, 0), DataIn(BLOCK_BYTES)]
  {
    assert |request| / BLOCK_BYTES == count;
    assert request[..SizeOf(count)] == request && ResultPacket()[..SizeOf(1)] == ResultPacket();
  }

  /** A key is programmed by its one packet alone, whatever is behind it. */
  lemma KeyProgrammingSends(request: seq<Byte>, responseCount: nat)
    requires |request| >= BLOCK_BYTES && request[PACKET_TYPE_AT] == 0 && request[PACKET_TYPE_AT + 1] == 1
    ensures Conversation(request, responseCount)
         == [Sent(SET_BLOCK_COUNT, 0x8000_0001), Sent(WRITE_MULTI_BLOCK, 0), DataOut(request[..BLOCK_BYTES]),
             Sent(SET_BLOCK_COUNT, 1), Sent(WRITE_MULTI_BLOCK, 0), DataOut(ResultPacket()),
             Sent(SET_BLOCK_COUNT, 1), Sent(READ_MULTI_BLOCK, 0), DataIn(BLOCK_BYTES)]
  {
    assert ResultPacket()[..SizeOf(1)] == ResultPacket();
  }

  /** Reads send one packet; the counter is read as one packet, data as many as asked for. */
  lemma ReadsSend(request: seq<Byte>, responseCount: nat)
    requires |request| >= BLOCK_BYTES && responseCount < 0x80_0000 && request[PACKET_TYPE_AT] == 0
    requires request[PACKET_TYPE_AT + 1] == 2 || request[PACKET_TYPE_AT + 1] == 4
    ensures var count := if request[PACKET_TYPE_AT + 1] == 2 then 1 else responseCount;
            Conversation(request, responseCount) ==
              [Sent(SET_BLOCK_COUNT, 1), Sent(WRITE_MULTI_BLOCK, 0), DataOut(request[..BLOCK_BYTES]),
               Sent(SET_BLOCK_COUNT, count), Sent(READ_MULTI_BLOCK, 0), DataIn(count * BLOCK_BYTES)]
  {
  }

  /** A request of any other type sends nothing. */
  lemma OthersSendNothing(request: seq<Byte>, responseCount: nat)
    requires |request| >= BLOCK_BYTES
    requires request[PACKET_TYPE_AT] != 0 || request[PACKET_TYPE_AT + 1] == 0 || request[PACKET_TYPE_AT + 1] > 4
    ensures Conversation(request, responseCount) == []
  {
  }

  /** The announced count and the size of the data agree exactly below 2^23 packets. */
  lemma CountMatchesSizeExactly(count: nat)
    requires count < TWO32
    ensures BlockCountArg(count, false) * BLOCK_BYTES == SizeOf(count) <==> count < 0x80_0000
  {
  }

  /** The switch to the RPMB partition, the conversation, and the switch back from the register then read. */
  function RequestTranscript(config: Byte, request: seq<Byte>, responseCount: nat, between: Byte, entry: Byte,
                             rca: Word32): seq<Event>
    requires |request| >= BLOCK_BYTES
  {
    PartitionSwitch(config, RPMB_AREA, rca) + Conversation(request, responseCount)
    + PartitionSwitch(between, entry, rca)
  }

  ghost predicate NoStop(events: seq<Event>) {
    forall e | e in events :: !IsStop(e)
  }

  lemma ConversationHasNoStop(request: seq<Byte>, responseCount: nat)
    requires |request| >= BLOCK_BYTES
    ensures NoStop(Conversation(request, responseCount))
  {
  }

  lemma SwitchHasNoStop(config: Byte, partition: Byte, rca: Word32)
    ensures NoStop(PartitionSwitch(config, partition, rca))
  {
  }

  lemma TranscriptHasNoStop(before: seq<Event>, now: seq<Event>, config: Byte, request: seq<Byte>,
                            responseCount: nat, between: Byte, entry: Byte, rca: Word32)
    requires |request| >= BLOCK_BYTES
    requires Said(before, now, RequestTranscript(config, request, responseCount, between, entry, rca))
    ensures forall i | |before| <= i < |now| :: !IsStop(now[i])
  {
    hide Conversation, PartitionSwitch;
    ConversationHasNoStop(request, responseCount);
    SwitchHasNoStop(config, RPMB_AREA, rca);
    SwitchHasNoStop(between, entry, rca);
    forall i | |before| <= i < |now| ensures !IsStop(now[i]) {
      var e := now[i];
      if IsStop(e) {
        assert now[|before|..][i - |before|] == e;
        UnpolledHolds(now[|before|..], e);
        assert false;
      }
    }
  }

  /** Everything since then went well: `events` were issued, no soft reset, and the driver's and the
      card's idea of the partition are untouched. */
  twostate predicate Clean(inst: SdhcInstance, events: seq<Event>)
    reads inst, inst.host
  {
    Said(old(inst.host.issued), inst.host.issued, events) &&
    inst.softResets == old(inst.softResets) && inst.card == old(inst.card) &&
    inst.currentPartition == old(inst.currentPartition) && inst.host.config == old(inst.host.config)
  }

  /** The user area survives when another partition was selected to begin with. */
  twostate predicate UserAreaSafe(inst: SdhcInstance)
    reads inst, inst.host
  {
    PartitionAccess(old(inst.host.config)) != USER_AREA ==> inst.host.userArea == old(inst.host.userArea)
  }

  lemma CountedSays(i0: seq<Event>, i1: seq<Event>, i2: seq<Event>, count: nat, reliable: bool, cmd: Command,
                    data: Event, rca: Word32)
    requires IsMultiBlock(cmd) && i1 == i0 + Lead(SET_BLOCK_COUNT, BlockCountArg(count, reliable), rca)
    requires !data.Sent? && Polled(i1 + Lead(cmd, 0, rca) + [data] + [], i2, Sent(SEND_STATUS, rca))
    ensures Said(i0, i2, Counted(count, reliable, cmd, data))
  {
    assert i1 + Lead(cmd, 0, rca) + [data] + [] == i0 + Counted(count, reliable, cmd, data);
    PolledSays(i0, Counted(count, reliable, cmd, data), i2, Sent(SEND_STATUS, rca));
  }

  /** SET_BLOCK_COUNT followed by a multi-block transfer of as many packets. */
  method CountedTransfer(inst: SdhcInstance, count: nat, reliable: bool, cmd: Command, packets: array<Byte>)
    returns (status: Status)
    requires inst.Valid() && inst.attempts <= RECOVERY_THRESHOLD
    requires IsMultiBlock(cmd) && packets != inst.blockBuffer && count * BLOCK_BYTES <= packets.Length
    modifies inst, inst.host, inst.db, inst.blockBuffer, packets
    ensures inst.Valid() && inst.Kept() && UserAreaSafe(inst) && inst.KeepsBootBits()
    ensures cmd.direction != Read ==> packets[..] == old(packets[..])
    ensures SizeOf(count) <= packets.Length
    ensures !status.Failed() ==>
              Clean(inst, Counted(count, reliable, cmd, DataPhase(cmd, old(packets[..SizeOf(count)]))))
    ensures status.Failed() ==> inst.Excused()
  {
    hide Said, Unpolled, Polled, BlockCountArg;
    ghost var i0 := inst.host.issued;
    status := inst.SendCommand(SET_BLOCK_COUNT, BlockCountArg(count, reliable));
    if status.Failed() {
      return;
    }
    ghost var i1 := inst.host.issued;
    ghost var data := packets[..SizeOf(count)];
    assert packets[0..SizeOf(count)] == data;
    status := inst.SendDataCommand(cmd, 0, SizeOf(count), packets, 0);
    if !status.Failed() {
      CountedSays(i0, i1, inst.host.issued, count, reliable, cmd, DataPhase(cmd, data), inst.RcaArg());
    }
  }

  method RpmbRead(inst: SdhcInstance, request: array<Byte>, response: array<Byte>, count: nat)
    returns (status: Status)
    requires inst.Valid() && inst.attempts <= RECOVERY_THRESHOLD
    requires request != inst.blockBuffer && response != inst.blockBuffer
    requires request.Length >= BLOCK_BYTES && response.Length >= count * BLOCK_BYTES
    modifies inst, inst.host, inst.db, inst.blockBuffer, request, response
    ensures inst.Valid() && inst.Kept() && UserAreaSafe(inst) && inst.KeepsBootBits()
    ensures request != response ==> request[..] == old(request[..])
    ensures !status.Failed() ==> Clean(inst, Exchange(old(request[..]), count))
    ensures status.Failed() ==> inst.Excused()
  {
    hide Said, Counted;
    assert request[..][..BLOCK_BYTES] == request[..BLOCK_BYTES];
    ghost var first := CountedWrite(request[..], 1, false);
    status := CountedTransfer(inst, 1, false, WRITE_MULTI_BLOCK, request);
    if status.Failed() {
      return;
    }
    ghost var i0, i1 := old(inst.host.issued), inst.host.issued;
    status := CountedTransfer(inst, count, false, READ_MULTI_BLOCK, response);
    if !status.Failed() {
      SaidThen(i0, i1, inst.host.issued, first, CountedRead(count));
    }
  }

  method RpmbWrite(inst: SdhcInstance, request: array<Byte>, count: nat) returns (status: Status)
    requires inst.Valid() && inst.attempts <= RECOVERY_THRESHOLD
    requires request != inst.blockBuffer && request.Length >= count * BLOCK_BYTES
    modifies inst, inst.host, inst.db, inst.blockBuffer, request
    ensures inst.Valid() && inst.Kept() && UserAreaSafe(inst) && inst.KeepsBootBits()
    ensures request[..] == old(request[..]) && SizeOf(count) <= request.Length
    ensures !status.Failed() ==> Clean(inst, CountedWrite(old(request[..]), count, true))
    ensures status.Failed() ==> inst.Excused()
  {
    assert SizeOf(count) <= request.Length;
    assert request[..][..SizeOf(count)] == request[..SizeOf(count)];
    status := CountedTransfer(inst, count, true, WRITE_MULTI_BLOCK, request);
  }

  method RpmbQueryResult(inst: SdhcInstance, response: array<Byte>) returns (status: Status)
    requires inst.Valid() && inst.attempts <= RECOVERY_THRESHOLD
    requires response != inst.blockBuffer && response.Length >= BLOCK_BYTES
    modifies inst, inst.host, inst.db, inst.blockBuffer, response
    ensures inst.Valid() && inst.Kept() && UserAreaSafe(inst) && inst.KeepsBootBits()
    ensures !status.Failed() ==> Clean(inst, Exchange(ResultPacket(), 1))
    ensures status.Failed() ==> inst.Excused()
  {
    hide Said, Exchange;
    var resultRequest := new Byte[BLOCK_BYTES](i => if i == PACKET_TYPE_AT + 1 then REQUEST_RESULT else 0);
    assert resultRequest[..] == ResultPacket();
    status := RpmbRead(inst, resultRequest, response, 1);
  }

  /** RpmbProgramKeyRequest and RpmbAuthenticatedWriteRequest. */
  method WriteThenQuery(inst: SdhcInstance, request: array<Byte>, count: nat, response: array<Byte>)
    returns (status: Status)
    requires inst.Valid() && inst.attempts <= RECOVERY_THRESHOLD
    requires request != inst.blockBuffer && response != inst.blockBuffer
    requires request.Length >= count * BLOCK_BYTES && response.Length >= BLOCK_BYTES
    modifies inst, inst.host, inst.db, inst.blockBuffer, request, response
    ensures inst.Valid() && inst.Kept() && UserAreaSafe(inst) && inst.KeepsBootBits()
    ensures request != response ==> request[..] == old(request[..])
    ensures SizeOf(count) <= request.Length
    ensures !status.Failed() ==> Clean(inst, WriteAndQuery(old(request[..]), count))
    ensures status.Failed() ==> inst.Excused()
  {
    hide Said, CountedWrite, Exchange, SizeOf;
    status := RpmbWrite(inst, request, count);
    if status.Failed() {
      return;
    }
    ghost var i0, i1 := old(inst.host.issued), inst.host.issued;
    status := RpmbQueryResult(inst, response);
    if !status.Failed() {
      SaidThen(i0, i1, inst.host.issued, CountedWrite(old(request[..]), count, true), Exchange(ResultPacket(), 1));
    }
  }

  /** The switch on the request type. An unknown type succeeds without a transfer. */
  method Dispatch(inst: SdhcInstance, request: array<Byte>, requestCount: nat,
                  response: array<Byte>, responseCount: nat)
    returns (status: Status)
    requires inst.Valid() && inst.attempts <= RECOVERY_THRESHOLD
    requires request != inst.blockBuffer && response != inst.blockBuffer
    requires requestCount > 0 && request.Length == requestCount * BLOCK_BYTES
    requires responseCount > 0 && response.Length == responseCount * BLOCK_BYTES
    modifies inst, inst.host, inst.db, inst.blockBuffer, request, response
    ensures inst.Valid() && inst.Kept() && UserAreaSafe(inst) && inst.KeepsBootBits()
    ensures request != response ==> request[..] == old(request[..])
    ensures !status.Failed() ==> Clean(inst, Conversation(old(request[..]), responseCount))
    ensures status.Failed() ==> inst.Excused()
  {
    hide WriteAndQuery, Exchange;
    var kind := RequestType(request[..]);
    assert request.Length / BLOCK_BYTES == requestCount;
    if kind == REQUEST_PROGRAM_KEY {
      status := WriteThenQuery(inst, request, 1, response);
    } else if kind == REQUEST_COUNTER_VALUE {
      status := RpmbRead(inst, request, response, 1);
    } else if kind == REQUEST_AUTH_READ {
      status := RpmbRead(inst, request, response, responseCount);
    } else if kind == REQUEST_AUTH_WRITE {
      status := WriteThenQuery(inst, request, requestCount, response);
    } else {
      status := Success;
    }
  }

  /** Success means that the driver and the re-read EXT_CSD are back at the partition of entry, that
      no STOP_TRANSMISSION was issued and that no recovery reset the card. Whatever the outcome, an honest
      card's user area is intact, and its boot bits are kept unless a recovery reset the card and left its
      EXT_CSD unread: then the switch back is made from a cleared copy. `restored`: the switch back was
      made and succeeded. It is not made when the switch to the RPMB partition fails, even if the card
      performed it. `cached`: the boot bits last read were right when it was made; `between`: the register
      as read then. */
  method RpmbRequest(inst: SdhcInstance, request: array<Byte>, requestCount: nat,
                     response: array<Byte>, responseCount: nat)
    returns (status: Status, ghost restored: bool, ghost cached: bool, ghost between: Byte)
    requires inst.Valid() && inst.attempts <= RECOVERY_THRESHOLD
    requires request != inst.blockBuffer && response != inst.blockBuffer
    requires requestCount > 0 && request.Length == requestCount * BLOCK_BYTES
    requires responseCount > 0 && response.Length == responseCount * BLOCK_BYTES
    modifies inst, inst.host, inst.db, inst.blockBuffer, request, response
    ensures inst.Valid() && inst.Kept()
    ensures !status.Failed() ==> restored
    ensures restored ==>
              inst.currentPartition == old(inst.currentPartition) &&
              PartitionAccess(inst.card.extCsd[EXT_PARTITION_CONFIG]) == old(inst.currentPartition) &&
              (inst.host.honest ==> inst.host.config == inst.card.extCsd[EXT_PARTITION_CONFIG])
    ensures restored ==> inst.KeepsSelection()
    ensures inst.host.honest && old(inst.BootBitsCached()) && cached ==> inst.KeepsBootBits()
    ensures inst.host.honest && old(inst.rpmbIoInstalled) && inst.softResets == old(inst.softResets) ==>
              cached && inst.KeepsBootBits()
    ensures request != response ==> request[..] == old(request[..])
    ensures inst.host.honest ==> inst.host.userArea == old(inst.host.userArea)
    ensures !status.Failed() ==>
              inst.softResets == old(inst.softResets) &&
              Said(old(inst.host.issued), inst.host.issued,
                   RequestTranscript(old(inst.card.extCsd[EXT_PARTITION_CONFIG]), old(request[..]), responseCount,
                                     between, old(inst.currentPartition), inst.RcaArg())) &&
              PartitionAccess(between) == RPMB_AREA &&
              forall i | |old(inst.host.issued)| <= i < |inst.host.issued| :: !IsStop(inst.host.issued[i])
    ensures status.Failed() ==> inst.Excused()
    ensures !status.Failed() && inst.host.honest && old(inst.host.config == inst.card.extCsd[EXT_PARTITION_CONFIG]) ==>
              inst.host.config
              == WithPartitionAccess(old(inst.card.extCsd[EXT_PARTITION_CONFIG]), old(inst.currentPartition))
  {
    hide Said, Conversation;
    restored, cached, between := false, true, 0;
    var entryPartition := inst.currentPartition;
    ghost var i0 := inst.host.issued;
    ghost var config := inst.card.extCsd[EXT_PARTITION_CONFIG];
    status := inst.SwitchPartitionMmc(RPMB_AREA);
    if status.Failed() {
      return;
    }
    ghost var i1 := inst.host.issued;
    between := inst.card.extCsd[EXT_PARTITION_CONFIG];
    status := Dispatch(inst, request, requestCount, response, responseCount);
    ghost var i2 := inst.host.issued;
    cached := inst.BootBitsCached();
    var switchStatus := inst.SwitchPartitionMmc(entryPartition);
    restored := !switchStatus.Failed();
    if status.Failed() {
      return;
    }
    status := switchStatus;
    if !status.Failed() {
      RequestSays(i0, i1, i2, inst.host.issued, config, old(request[..]), responseCount, between, entryPartition,
                  inst.RcaArg());
    }
  }

  lemma RequestSays(i0: seq<Event>, i1: seq<Event>, i2: seq<Event>, i3: seq<Event>, config: Byte, request: seq<Byte>,
                    responseCount: nat, between: Byte, entry: Byte, rca: Word32)
    requires |request| >= BLOCK_BYTES && Said(i0, i1, PartitionSwitch(config, RPMB_AREA, rca))
    requires Said(i1, i2, Conversation(request, responseCount)) && Said(i2, i3, PartitionSwitch(between, entry, rca))
    ensures Said(i0, i3, RequestTranscript(config, request, responseCount, between, entry, rca))
    ensures forall i | |i0| <= i < |i3| :: !IsStop(i3[i])
  {
    SaidThen(i0, i1, i2, PartitionSwitch(config, RPMB_AREA, rca), Conversation(request, responseCount));
    SaidThen(i0, i2, i3, PartitionSwitch(config, RPMB_AREA, rca) + Conversation(request, responseCount),
             PartitionSwitch(between, entry, rca));
    TranscriptHasNoStop(i0, i3, config, request, responseCount, between, entry, rca);
  }
}
