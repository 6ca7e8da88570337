/** The environment of the SD/MMC driver: the host controller with its card, and the EFI handle
    database. Every outcome is nondeterministic within the contracts below. */
module SdHost {
  import opened Bytes
  import opened EfiStatus
  import opened SdCommands

  datatype ProtocolId = BlockIoProtocol | DevicePathProtocol | RpmbIoProtocol

  /** One interface installed on one handle. */
  datatype Entry = Entry(handle: nat, protocol: ProtocolId)

  /** What `s` holds for handles other than `handle`. */
  ghost function Others(s: set<Entry>, handle: nat): set<Entry> {
    set e | e in s && e.handle != handle
  }

  ghost function RpmbPublishers(s: set<Entry>): set<Entry> {
    set e | e in s && e.protocol == RpmbIoProtocol
  }

  /** The part of the EFI handle database that holds the three driver protocols, and the memory for the text of a
      device path. */
  class HandleDatabase {
    var installed: set<Entry>

    // How many requests failed.
    ghost var failures: nat

    /** At most one handle of the system publishes RPMB I/O. */
    ghost predicate RpmbUnique()
      reads this
    {
      |RpmbPublishers(installed)| <= 1
    }

    constructor ()
      ensures installed == {} && failures == 0
    {
      installed := {};
      failures := 0;
    }

    /** Installing fails for an interface that is present already, and may fail for other reasons. */
    method Install(e: Entry) returns (status: Status)
      modifies this
      ensures e in old(installed) ==> status.Failed()
      ensures installed == if status.Failed() then old(installed) else old(installed) + {e}
      ensures failures == old(failures) + if status.Failed() then 1 else 0
      ensures Others(installed, e.handle) == Others(old(installed), e.handle)
      ensures e.protocol != RpmbIoProtocol ==> RpmbPublishers(installed) == RpmbPublishers(old(installed))
      ensures RpmbPublishers(old(installed)) == {} || (old(RpmbUnique()) && e.protocol != RpmbIoProtocol) ==>
                RpmbUnique()
    {
      status := *;
      if e in installed {
        status := InvalidParameter;
      }
      if status.Failed() {
        failures := failures + 1;
      } else {
        installed := installed + {e};
        assert RpmbPublishers(installed)
            == RpmbPublishers(old(installed)) + if e.protocol == RpmbIoProtocol then {e} else {};
      }
    }

    /** Uninstalling fails for an absent interface, and may fail for other reasons. */
    method Uninstall(e: Entry) returns (status: Status)
      modifies this
      ensures e !in old(installed) ==> status.Failed()
      ensures installed == if status.Failed() then old(installed) else old(installed) - {e}
      ensures failures == old(failures) + if status.Failed() then 1 else 0
      ensures Others(installed, e.handle) == Others(old(installed), e.handle)
      ensures old(RpmbUnique()) ==> RpmbUnique()
    {
      status := *;
      if e !in installed {
        status := NotFound;
      }
      if status.Failed() {
        failures := failures + 1;
      } else {
        installed := installed - {e};
        assert RpmbPublishers(installed) == RpmbPublishers(old(installed)) - {e};
      }
    }

    /** ConvertDevicePathToText. */
    method AllocateText() returns (status: Status)
      modifies this`failures
      ensures failures == old(failures) + if status.Failed() then 1 else 0
      ensures status.Failed() ==> status == OutOfResources
    {
      var granted: bool := *;
      status := if granted then Success else OutOfResources;
      failures := failures + if granted then 0 else 1;
    }

    method Locate(protocol: ProtocolId) returns (found: bool)
      ensures found <==> exists e :: e in installed && e.protocol == protocol
      ensures protocol == RpmbIoProtocol ==> (found <==> RpmbPublishers(installed) != {})
    {
      found := exists e :: e in installed && e.protocol == protocol;
      if found && protocol == RpmbIoProtocol {
        ghost var e :| e in installed && e.protocol == protocol;
        assert e in RpmbPublishers(installed);
      }
    }
  }

  /** What the host is told about the card: a command, or the data phase of the last one. */
  datatype Event =
    | Sent(command: Command, arg: Word32)
    | DataIn(size: nat)
    | DataOut(data: seq<Byte>)

  /** SoftwareReset, SetClock and SetBusWidth. */
  datatype ControlOp = ResetAll | ResetCmd | ResetData | SetClock(hz: nat) | SetBusWidth(bits: nat)

  /** A host-side operation, and whether it worked. */
  datatype Control = Control(op: ControlOp, ok: bool)

  /** EFI_SDHC_PROTOCOL and the card behind it. `userArea` is what the card stores in its user
      area, `config` its PARTITION_CONFIG register. An honest card reports `config` truthfully and, when
      it performs a SWITCH of it, writes the value asked for. It need not perform the SWITCH, whatever
      it answers, and may perform it without answering; any other card may do anything.
      `issued` records, in order, the commands and data phases handed to the host, `succeeded` the
      commands answered without an error that the driver notices, `controls` the host-side operations and
      `answers` what was asked of the slot; `faults` counts operations that failed and commands answered
      by such an error. */
  class Host {
    const honest: bool
    var userArea: seq<Byte>
    var config: Byte
    var pending: Command
    var pendingArg: Word32
    ghost var issued: seq<Event>
    ghost var succeeded: seq<Command>
    ghost var controls: seq<Control>
    ghost var answers: seq<bool>
    ghost var faults: nat

    constructor (honest: bool, userArea: seq<Byte>)
      ensures this.honest == honest && this.userArea == userArea
      ensures issued == [] && succeeded == [] && controls == [] && answers == [] && faults == 0
    {
      this.honest := honest;
      this.userArea := userArea;
      config := 0;
      pending, pendingArg := GO_IDLE_STATE, 0;
      issued, succeeded, controls, answers, faults := [], [], [], [], 0;
    }

    ghost method Count(status: Status)
      modifies this`faults
      ensures faults == old(faults) + if status.Failed() then 1 else 0
    {
      faults := faults + if status.Failed() then 1 else 0;
    }

    /** A host-side operation may fail. */
    method Operate(op: ControlOp) returns (status: Status)
      modifies this`controls, this`faults
      ensures controls == old(controls) + [Control(op, !status.Failed())]
      ensures faults == old(faults) + if status.Failed() then 1 else 0
    {
      status := *;
      controls := controls + [Control(op, !status.Failed())];
      Count(status);
    }

    /** IsCardPresent and IsReadOnly. */
    method Query() returns (answer: bool)
      modifies this`answers
      ensures answers == old(answers) + [answer]
    {
      answer := *;
      answers := answers + [answer];
    }

    /** A SWITCH of the partition register may take effect as soon as it is sent; GO_IDLE_STATE may
        bring the card back to its user area. */
    method SendCommand(cmd: Command, arg: Word32) returns (status: Status)
      modifies this`issued, this`pending, this`pendingArg, this`config, this`faults
      ensures issued == old(issued) + [Sent(cmd, arg)]
      ensures faults == old(faults) + if status.Failed() then 1 else 0
      ensures pending == cmd && pendingArg == arg
      ensures config == old(config) || SwitchesPartition(cmd, arg)
              || (cmd == GO_IDLE_STATE && config == WithPartitionAccess(old(config), USER_AREA))
      ensures honest && SwitchesPartition(cmd, arg) ==> config == old(config) || config == SwitchValue(arg)
    {
      issued := issued + [Sent(cmd, arg)];
      pending, pendingArg := cmd, arg;
      var effect: bool := *;
      if effect && SwitchesPartition(cmd, arg) {
        var written: int := *;
        config := if honest then SwitchValue(arg) else written % 256;
      } else if effect && cmd == GO_IDLE_STATE {
        config := WithPartitionAccess(config, USER_AREA);
      }
      status := *;
      Count(status);
    }

    method ReceiveResponse(cmd: Command, ghost function_: CardFunction)
      returns (status: Status, response: seq<Word32>)
      requires cmd == pending
      modifies this`config, this`succeeded, this`faults
      ensures |response| == 4
      ensures faults == old(faults) + if !status.Failed() && ResponseAccepted(cmd, function_, response[0]) then 0 else 1
      ensures succeeded == if !status.Failed() && ResponseAccepted(cmd, function_, response[0])
                           then old(succeeded) + [cmd] else old(succeeded)
      ensures config == old(config) ||
              (SwitchesPartition(cmd, pendingArg) && honest && config == SwitchValue(pendingArg))
    {
      status := *;
      response := [0, 0, 0, 0];
      response := *;
      if |response| != 4 {
        response := [0, 0, 0, 0];
      }
      var effect: bool := *;
      if effect && honest && SwitchesPartition(cmd, pendingArg) {
        config := SwitchValue(pendingArg);
      }
      if !status.Failed() && ResponseAccepted(cmd, function_, response[0]) {
        succeeded := succeeded + [cmd];
      } else {
        faults := faults + 1;
      }
    }

    /** The block transfer just commanded lies in the user area, which is selected, and is of one block if
        the command is. */
    predicate TransfersUserArea(size: nat)
      reads this
    {
      PartitionAccess(config) == USER_AREA && (pendingArg as int) * BLOCK_BYTES + size <= |userArea| &&
      (pending.transfer == SingleBlock ==> size == BLOCK_BYTES)
    }

    /** Success of a commanded block read delivers the card's bytes; of an EXT_CSD read by an honest
        card, the partition register. Otherwise the buffer holds anything. */
    method ReadBlockData(size: nat, buffer: array<Byte>, at: nat) returns (status: Status)
      requires at + size <= buffer.Length
      modifies buffer, this`issued, this`faults
      ensures issued == old(issued) + [DataIn(size)]
      ensures faults == old(faults) + if status.Failed() then 1 else 0
      ensures SameOutside(old(buffer[..]), buffer[..], at, at + size)
      ensures !status.Failed() && IsBlockRead(pending) && TransfersUserArea(size)
              ==> buffer[at..at + size] == userArea[pendingArg as int * BLOCK_BYTES..][..size]
      ensures !status.Failed() && honest && pending == SEND_EXT_CSD_MMC && size == BLOCK_BYTES
              ==> buffer[at + EXT_PARTITION_CONFIG] == config
    {
      status := *;
      issued := issued + [DataIn(size)];
      Count(status);
      var data: seq<Byte> := *;
      if !status.Failed() && IsBlockRead(pending) && TransfersUserArea(size) {
        data := userArea[pendingArg as int * BLOCK_BYTES..][..size];
      } else if |data| != size {
        data := buffer[at..at + size];
      }
      if !status.Failed() && honest && pending == SEND_EXT_CSD_MMC && size == BLOCK_BYTES {
        data := data[EXT_PARTITION_CONFIG := config];
      }
      forall i | 0 <= i < size {
        buffer[at + i] := data[i];
      }
      assert buffer[at..at + size] == data;
    }

    /** Success of a commanded block write stores the buffer in the card; failure may leave any bytes
        in the addressed range. Nothing outside it changes. */
    method WriteBlockData(size: nat, buffer: array<Byte>, at: nat) returns (status: Status)
      requires at + size <= buffer.Length
      modifies this`userArea, this`issued, this`faults
      ensures issued == old(issued) + [DataOut(buffer[at..at + size])]
      ensures faults == old(faults) + if status.Failed() then 1 else 0
      ensures IsBlockWrite(pending) && old(TransfersUserArea(size)) ==>
              var lo := pendingArg as int * BLOCK_BYTES;
              SameOutside(old(userArea), userArea, lo, lo + size) &&
              (!status.Failed() ==> userArea[lo..lo + size] == buffer[at..at + size])
      ensures !(IsBlockWrite(pending) && PartitionAccess(config) == USER_AREA) ==> userArea == old(userArea)
      ensures |userArea| == |old(userArea)|
    {
      status := *;
      issued := issued + [DataOut(buffer[at..at + size])];
      Count(status);
      var stored: seq<Byte> := *;
      if IsBlockWrite(pending) && PartitionAccess(config) == USER_AREA {
        if TransfersUserArea(size) {
          var lo := pendingArg as int * BLOCK_BYTES;
          if !status.Failed() {
            userArea := userArea[..lo] + buffer[at..at + size] + userArea[lo + size..];
          } else if SameOutside(userArea, stored, lo, lo + size) {
            userArea := stored;
          }
        } else if |stored| == |userArea| {
          userArea := stored;
        }
      }
    }
  }
}
