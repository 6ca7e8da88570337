/** Runs of the block service: what every sequence of calls and events keeps. */
module FvRuns {
  import opened Bytes
  import opened EfiStatus
  import opened FvBlockMap
  import opened FvAttributes
  import opened FvHeader
  import opened FvErase
  import opened FvVolume

  /** `m` after an accepted attribute request. */
  function WithAttributes(m: seq<Byte>, word: bv32): seq<Byte>
    requires |m| >= BLOCK_MAP_AT
  {
    Put(m, ATTRIBUTES_AT, WordBytes(word))
  }

  lemma SameWordSameVolume(m: seq<Byte>, word: bv32)
    requires |m| >= BLOCK_MAP_AT
    ensures AttributesIn(WithAttributes(m, word)) == word
    ensures WithAttributes(m, word) == m <==> word == AttributesIn(m)
  {
    WriteThenRead(WithAttributes(m, word), word);
    ReadThenWrite(m);
  }

  /** Attribute requests write to memory without setting the dirty flag. They never change the volume
      exactly when its attribute word is fixed. */
  lemma AttributeWritesHarmlessExactly(m: seq<Byte>)
    requires |m| >= BLOCK_MAP_AT
    ensures Fixed(AttributesIn(m)) <==>
            forall request :: Verdict(AttributesIn(m), request) == Success
                              ==> WithAttributes(m, Updated(AttributesIn(m), request)) == m
  {
    var word := AttributesIn(m);
    if Fixed(word) {
      forall request | Verdict(word, request) == Success ensures WithAttributes(m, Updated(word, request)) == m {
        FixedAcceptsIdentityOnly(word, request);
        SameWordSameVolume(m, word);
      }
    } else {
      UnfixedAcceptsToggle(word);
      SameWordSameVolume(m, Updated(word, Toggle(word)));
    }
  }

  /** Status bits lie in the low byte of the word. */
  lemma UpdateChangesLowByte(word: bv32, request: bv32)
    ensures var now := Updated(word, request);
            Part1(now) == Part1(word) && Part2(now) == Part2(word) && Part3(now) == Part3(word) &&
            (Part0(now) == Part0(word) <==> now == word)
  {
  }

  /** The checksum is not recomputed: an accepted request keeps a valid header valid exactly when it
      changes nothing. */
  lemma AttributeChangeBreaksChecksum(m: seq<Byte>, request: bv32)
    requires |m| >= 0x1_0000 && ValidateFvHeader(m) == Success && HeaderLength(m) > ATTRIBUTES_AT
    requires Verdict(AttributesIn(m), request) == Success
    ensures ValidateFvHeader(WithAttributes(m, Updated(AttributesIn(m), request))) == Success
            <==> Updated(AttributesIn(m), request) == AttributesIn(m)
  {
    var word := AttributesIn(m);
    var now := Updated(word, request);
    var m' := WithAttributes(m, now);
    if now == word {
      SameWordSameVolume(m, word);
    } else {
      UpdateChangesLowByte(word, request);
      LowByteOnly(m, now);
      LowByteMovesSum(m, Part0(now) as int);
    }
  }

  /** Writing a word that differs in its low byte only is writing one 16-bit word. */
  lemma LowByteOnly(m: seq<Byte>, now: bv32)
    requires |m| >= BLOCK_MAP_AT
    requires var word := AttributesIn(m);
             Part1(now) == Part1(word) && Part2(now) == Part2(word) && Part3(now) == Part3(word) &&
             Part0(now) != Part0(word)
    ensures m[ATTRIBUTES_AT] != Part0(now) as int
    ensures WithAttributes(m, now) == WithLowByte(m, Part0(now) as int)
  {
    var bytes := WordBytes(AttributesIn(m));
    ReadThenWrite(m);
    forall i {:trigger bytes[i]} | 0 <= i < 4 ensures m[ATTRIBUTES_AT + i] == bytes[i] {
      assert m[ATTRIBUTES_AT..ATTRIBUTES_AT + 4][i] == bytes[i];
    }
    assert m[ATTRIBUTES_AT] == bytes[0] && m[ATTRIBUTES_AT + 1] == bytes[1];
    assert m[ATTRIBUTES_AT + 2] == bytes[2] && m[ATTRIBUTES_AT + 3] == bytes[3];
  }

  function WithLowByte(m: seq<Byte>, low: Byte): seq<Byte>
    requires |m| >= BLOCK_MAP_AT
  {
    Put(m, ATTRIBUTES_AT, [low, m[ATTRIBUTES_AT + 1]])
  }

  /** Replacing the low byte of the attribute word alone breaks a valid checksum. */
  lemma LowByteMovesSum(m: seq<Byte>, low: Byte)
    requires |m| >= 0x1_0000 && ValidateFvHeader(m) == Success && HeaderLength(m) > ATTRIBUTES_AT
    requires low != m[ATTRIBUTES_AT]
    ensures ValidateFvHeader(WithLowByte(m, low)) != Success
  {
    var m' := WithLowByte(m, low);
    var high: int := m[ATTRIBUTES_AT + 1];
    var v := low + 0x100 * high;
    assert U16Bytes(v) == [low, m[ATTRIBUTES_AT + 1]];
    var n := HeaderLength(m) / 2;
    WordSumPut(m, ATTRIBUTES_AT / 2, v, n);
    var sum: int := WordSum(m, n);
    var moved: int := WordSum(m', n);
    assert moved - sum == low - m[ATTRIBUTES_AT];
    assert HeaderLength(m') == HeaderLength(m);
    NotBothMultiples(sum, moved);
  }

  lemma NotBothMultiples(a: int, b: int)
    requires a % 0x1_0000 == 0 && -0x100 < b - a < 0x100 && a != b
    ensures b % 0x1_0000 != 0
  {
  }

  /** A valid header stays valid under every accepted request exactly when the attribute word is fixed. */
  lemma HeaderStaysValidExactly(m: seq<Byte>)
    requires |m| >= 0x1_0000 && ValidateFvHeader(m) == Success && HeaderLength(m) > ATTRIBUTES_AT
    ensures Fixed(AttributesIn(m)) <==>
            forall request :: Verdict(AttributesIn(m), request) == Success
                              ==> ValidateFvHeader(WithAttributes(m, Updated(AttributesIn(m), request))) == Success
  {
    var word := AttributesIn(m);
    if Fixed(word) {
      forall request | Verdict(word, request) == Success
        ensures ValidateFvHeader(WithAttributes(m, Updated(word, request))) == Success
      {
        FixedAcceptsIdentityOnly(word, request);
        SameWordSameVolume(m, word);
      }
    } else {
      UnfixedAcceptsToggle(word);
      AttributeChangeBreaksChecksum(m, Toggle(word));
    }
  }

  // ------------------------------------------------------------------ runs

  datatype Op =
    | OpRead(lba: nat, offset: nat, count: nat)
    | OpWrite(lba: nat, offset: nat, data: seq<Byte>)
    | OpErase(ranges: seq<Range>)
    | OpSetAttributes(request: bv32)
    | OpDump
    | OpDisks(handles: seq<DiskHandle>)

  /** The operation writes and erases beyond the header only. */
  ghost predicate MissesHeader(m: seq<Byte>, op: Op)
    requires Usable(m)
  {
    match op
    case OpWrite(lba, offset, data) => lba < |Blocks(m)| ==> HeaderEnd(m) <= BlockStart(Blocks(m), lba) + offset
    case OpErase(ranges) => AvoidsHeader(m, ranges)
    case _ => true
  }

  /** What the operation makes of the volume `m`, of which `counted` blocks were counted. */
  ghost function Effect(m: seq<Byte>, op: Op, counted: nat): (r: seq<Byte>)
    requires Usable(m)
  {
    match op
    case OpWrite(lba, offset, data) => Written(m, lba, offset, data)
    case OpErase(ranges) =>
      Erased(m, Blocks(m), EraseRequest(ranges, counted, AttributesIn(m) & WRITE_STATUS != 0, |Blocks(m)|).lbas)
    case _ => m
  }

  ghost function Written(m: seq<Byte>, lba: nat, offset: nat, data: seq<Byte>): seq<Byte>
    requires Usable(m)
  {
    var plan := Plan(m, WRITE_STATUS, lba, offset, |data|, true);
    if plan.Move? then
      PlanInsideBlock(m, WRITE_STATUS, lba, offset, |data|);
      Put(m, plan.at, data[..plan.count])
    else m
  }

  /** The volumes that a run goes through, one operation at a time. */
  ghost predicate Steps(states: seq<seq<Byte>>, ops: seq<Op>, counted: nat) {
    |states| == |ops| + 1 && (forall i | 0 <= i < |states| :: Usable(states[i])) &&
    forall i | 0 <= i < |ops| :: states[i + 1] == Effect(states[i], ops[i], counted)
  }

  lemma OneMoreStep(states: seq<seq<Byte>>, ops: seq<Op>, k: nat, counted: nat, next: seq<Byte>)
    requires k < |ops| && Steps(states, ops[..k], counted) && Usable(next)
    requires next == Effect(states[k], ops[k], counted)
    ensures Steps(states + [next], ops[..k + 1], counted)
  {
    var more := states + [next];
    forall i | 0 <= i <= k ensures more[i + 1] == Effect(more[i], ops[..k + 1][i], counted) {
      if i < k {
        assert ops[..k][i] == ops[i];
      }
    }
  }

  /** The header is valid and its attribute word fixed; memory and disk agree unless dirty. */
  ghost predicate Sound(fv: FvInstance)
    reads fv, fv.memory, fv.device
  {
    fv.Ready() && fv.Coherent() && ValidateFvHeader(fv.memory[..]) == Success && Fixed(AttributesIn(fv.memory[..]))
  }

  ghost predicate DisksIn(op: Op, disks: set<Disk>) {
    op.OpDisks? ==> forall h | h in op.handles :: h.disk in disks
  }

  method Step(fv: FvInstance, op: Op, ghost disks: set<Disk>)
    requires Sound(fv) && MissesHeader(fv.memory[..], op) && DisksIn(op, disks)
    requires fv.device == null || fv.device in disks
    modifies fv, fv.memory, disks
    ensures Sound(fv) && SameHeader(old(fv.memory[..]), fv.memory[..])
    ensures fv.numOfBlocks == old(fv.numOfBlocks)
    ensures fv.memory[..] == Effect(old(fv.memory[..]), op, fv.numOfBlocks)
    ensures fv.device == null || fv.device in disks
    ensures op.OpDump? && old(fv.device) != null && old(fv.dirty) ==>
              fv.device == old(fv.device) && (fv.dirty <==> fv.device.failures > old(fv.device.failures))
    ensures op.OpDisks? && fv.device == null ==> fv.RefusedBefore(op.handles, |op.handles|)
  {
    hide Fixed, Updated, Verdict, ValidateFvHeader, EraseRequest, Usable, Plan, Written;
    ghost var m := fv.memory[..];
    match op {
      case OpRead(lba, offset, count) =>
        var buffer := new Byte[count](_ => 0);
        var _, _ := fv.Read(lba, offset, count, buffer);
      case OpWrite(lba, offset, data) =>
        WriteStep(fv, lba, offset, data);
      case OpErase(ranges) =>
        EraseStep(fv, ranges);
      case OpSetAttributes(request) =>
        AttributesStep(fv, request);
      case OpDump =>
        fv.DumpVars();
      case OpDisks(handles) =>
        fv.OnDiskIoInstall(handles);
    }
    assert fv.memory[..HeaderEnd(m)] == fv.memory[..][..HeaderEnd(m)];
    HeaderFrame(m, fv.memory[..]);
  }

  method EraseStep(fv: FvInstance, ranges: seq<Range>)
    requires Sound(fv) && AvoidsHeader(fv.memory[..], ranges)
    modifies fv.memory, fv`dirty
    ensures fv.Ready() && fv.Coherent() && SameHeader(old(fv.memory[..]), fv.memory[..])
    ensures fv.memory[..] == Effect(old(fv.memory[..]), OpErase(ranges), fv.numOfBlocks)
  {
    hide EraseRequest, Plan, Fixed, ValidateFvHeader, AvoidsHeader;
    ghost var m := fv.memory[..];
    EraseNothing(m, Blocks(m));
    var _ := fv.EraseBlocks(ranges);
    HeaderFrame(m, fv.memory[..]);
  }

  method AttributesStep(fv: FvInstance, request: bv32)
    requires Sound(fv)
    modifies fv.memory
    ensures Sound(fv) && fv.memory[..] == old(fv.memory[..])
  {
    hide Fixed, Updated, ValidateFvHeader;
    ghost var m := fv.memory[..];
    var status, now := fv.SetAttributes(request);
    if status == Success {
      FixedAcceptsIdentityOnly(AttributesIn(m), request);
      SameWordSameVolume(m, now);
    }
  }

  lemma MoveMissesHeader(m: seq<Byte>, lba: nat, offset: nat, data: seq<Byte>)
    requires Usable(m) && MissesHeader(m, OpWrite(lba, offset, data))
    requires Plan(m, WRITE_STATUS, lba, offset, |data|, true).Move?
    ensures HeaderEnd(m) <= Plan(m, WRITE_STATUS, lba, offset, |data|, true).at
  {
  }

  method BufferOf(data: seq<Byte>) returns (buffer: array<Byte>)
    ensures fresh(buffer) && buffer[..] == data
  {
    buffer := new Byte[|data|](i requires 0 <= i < |data| => data[i]);
  }

  method WriteStep(fv: FvInstance, lba: nat, offset: nat, data: seq<Byte>)
    requires Sound(fv) && MissesHeader(fv.memory[..], OpWrite(lba, offset, data))
    modifies fv.memory, fv`dirty
    ensures fv.Ready() && fv.Coherent() && SameHeader(old(fv.memory[..]), fv.memory[..])
    ensures fv.memory[..] == Written(old(fv.memory[..]), lba, offset, data)
  {
    hide Usable, Blocks, BlockStart, HeaderEnd, Plan, MissesHeader, ValidateFvHeader, AttributesIn, Fixed;
    ghost var m := fv.memory[..];
    var buffer := BufferOf(data);
    ghost var plan := Plan(m, WRITE_STATUS, lba, offset, |data|, true);
    var status, moved := fv.Write(lba, offset, |data|, buffer);
    if plan.Move? {
      MoveMissesHeader(m, lba, offset, data);
      PutKeepsHeader(m, m, plan.at, buffer[..plan.count]);
    }
    HeaderFrame(m, fv.memory[..]);
  }

  /** Every run from a sound state: whatever is read, written, erased, requested, dumped or plugged in,
      the header stays as it was and valid, and a clean volume with a known disk is on that disk. The memory
      goes through the volumes that writes and erases alone make of it. */
  method Serve(fv: FvInstance, ops: seq<Op>, ghost disks: set<Disk>) returns (ghost states: seq<seq<Byte>>)
    requires Sound(fv) && (fv.device == null || fv.device in disks)
    requires forall i | 0 <= i < |ops| :: MissesHeader(fv.memory[..], ops[i]) && DisksIn(ops[i], disks)
    modifies fv, fv.memory, disks
    ensures Sound(fv) && SameHeader(old(fv.memory[..]), fv.memory[..])
    ensures Steps(states, ops, old(fv.numOfBlocks)) && states[0] == old(fv.memory[..]) && states[|ops|] == fv.memory[..]
  {
    hide Steps, Effect, Usable, MissesHeader, HeaderEnd, ValidateFvHeader, Fixed, AttributesIn, FvInstance.Coherent;
    ghost var m := fv.memory[..];
    states := [m];
    NoSteps(m, fv.numOfBlocks);
    for k := 0 to |ops|
      invariant Sound(fv) && SameHeader(m, fv.memory[..]) && (fv.device == null || fv.device in disks)
      invariant fv.numOfBlocks == old(fv.numOfBlocks) && |states| == k + 1
      invariant Steps(states, ops[..k], fv.numOfBlocks) && states[0] == m && states[k] == fv.memory[..]
    {
      MissesStill(m, fv.memory[..], ops[k]);
      Step(fv, ops[k], disks);
      OneMoreStep(states, ops, k, fv.numOfBlocks, fv.memory[..]);
      states := states + [fv.memory[..]];
      SameHeaderStill(m, states[k], fv.memory[..]);
    }
    assert ops[..|ops|] == ops;
  }

  lemma MissesStill(m: seq<Byte>, m': seq<Byte>, op: Op)
    requires Usable(m) && SameHeader(m, m') && MissesHeader(m, op)
    ensures Usable(m') && MissesHeader(m', op)
  {
    HeaderFrame(m, m');
  }

  lemma SameHeaderStill(m: seq<Byte>, mid: seq<Byte>, now: seq<Byte>)
    requires Usable(m) && SameHeader(m, mid) && Usable(mid) && SameHeader(mid, now)
    ensures SameHeader(m, now)
  {
    HeaderFrame(m, mid);
  }

  lemma NoSteps(m: seq<Byte>, counted: nat)
    requires Usable(m)
    ensures Steps([m], [], counted)
  {
  }

  /** The volume is in service: its header is valid, and memory and disk agree unless dirty. */
  ghost predicate InService(fv: FvInstance)
    reads fv, fv.memory, fv.device
  {
    fv.Ready() && fv.Coherent() && ValidateFvHeader(fv.memory[..]) == Success
  }

  /** While the attribute word is not fixed, one accepted request ends the service of a volume that is
      clean on its disk: the disk is out of date unnoticed, and the header no longer validates. */
  method UnfixedVolumeBreaks(fv: FvInstance) returns (status: Status)
    requires InService(fv) && fv.device != null && !fv.dirty
    requires HeaderLength(fv.memory[..]) > ATTRIBUTES_AT && !Fixed(AttributesIn(fv.memory[..]))
    modifies fv.memory
    ensures status == Success && !fv.dirty && !fv.Coherent() && ValidateFvHeader(fv.memory[..]) != Success
  {
    hide Fixed, Updated, Verdict, Toggle, ValidateFvHeader;
    ghost var m := fv.memory[..];
    var word := AttributesIn(fv.memory[..]);
    UnfixedAcceptsToggle(word);
    AttributeChangeBreaksChecksum(m, Toggle(word));
    SameWordSameVolume(m, Updated(word, Toggle(word)));
    var now;
    status, now := fv.SetAttributes(Toggle(word));
  }

  ghost predicate Writable(fv: FvInstance)
    reads fv, fv.memory
  {
    fv.Ready() && AttributesIn(fv.memory[..]) & WRITE_STATUS != 0
  }

  /** On every writable volume with a second block behind the header, a request can fail although block 1
      is gone: its last range wraps round. */
  method WrapFailsHalfway(fv: FvInstance) returns (status: Status)
    requires Writable(fv) && |Blocks(fv.memory[..])| >= 2 && fv.numOfBlocks >= 2
    requires HeaderEnd(fv.memory[..]) <= BlockStart(Blocks(fv.memory[..]), 1)
    modifies fv.memory, fv`dirty
    ensures status == InvalidParameter
    ensures fv.memory[..] == Erased(old(fv.memory[..]), Blocks(old(fv.memory[..])), [1])
  {
    hide EraseRequest, AllLbas, Erased, Blocks, HeaderEnd;
    ghost var m := fv.memory[..];
    FewBlocks(m);
    WrappingRequest(fv.numOfBlocks, |Blocks(m)|);
    status := fv.EraseBlocks(WRAPPING);
  }

  /** So can one that wraps nowhere, when more blocks were counted than exist. */
  method MiscountFailsHalfway(fv: FvInstance) returns (status: Status)
    requires Writable(fv) && 0 < |Blocks(fv.memory[..])| < fv.numOfBlocks
    requires HeaderEnd(fv.memory[..]) <= BlockStart(Blocks(fv.memory[..]), |Blocks(fv.memory[..])| - 1)
    modifies fv.memory, fv`dirty
    ensures status == InvalidParameter
    ensures var m := old(fv.memory[..]); fv.memory[..] == Erased(m, Blocks(m), [|Blocks(m)| - 1])
  {
    hide EraseRequest, AllLbas, Erased, HeaderEnd, Blocks, Usable, Miscounted;
    ghost var m := fv.memory[..];
    FewBlocks(m);
    MiscountedRequest(fv.numOfBlocks, |Blocks(m)|);
    status := fv.EraseBlocks(Miscounted(|Blocks(fv.memory[..])|));
  }

  /** With the count right and no range that wraps, an erase request that stays clear of the header is all
      or nothing: failure leaves the volume as it was, success erases exactly the blocks asked for. */
  method EraseAllOrNothing(fv: FvInstance, ranges: seq<Range>) returns (status: Status)
    requires fv.Ready() && AvoidsHeader(fv.memory[..], ranges) && fv.numOfBlocks == |Blocks(fv.memory[..])|
    requires forall i | 0 <= i < |ranges| :: ranges[i].Representable() && !Wraps(ranges[i])
    modifies fv.memory, fv`dirty
    ensures status.Failed() ==> fv.memory[..] == old(fv.memory[..]) && fv.dirty == old(fv.dirty)
    ensures !status.Failed() ==>
              fv.memory[..] == Erased(old(fv.memory[..]), Blocks(old(fv.memory[..])), AllLbas(ranges))
  {
    hide Erased, Blocks, HeaderEnd, AvoidsHeader, EraseRequest, AllLbas;
    ghost var m := fv.memory[..];
    AllOrNothingExactly(m, ranges, fv.numOfBlocks);
    EraseNothing(m, Blocks(m));
    SuccessErasesAll(ranges, fv.numOfBlocks, AttributesIn(m) & WRITE_STATUS != 0, |Blocks(m)|);
    if Passes(ranges, fv.numOfBlocks) {
      forall i | 0 <= i < |ranges| ensures !Overruns(ranges[i], |Blocks(m)|) {
        CountedBlocksFailByWrapping(ranges, |Blocks(m)|, i);
      }
    }
    status := fv.EraseBlocks(ranges);
  }

  lemma FewBlocks(m: seq<Byte>)
    requires Usable(m)
    ensures |Blocks(m)| < TWO32
  {
    TableWithinSum(Entries(m, 0));
  }

  /** Start-up puts the volume in service exactly when a header that it keeps maps blocks inside the
      volume. Given the template's header, the attribute word is fixed, and the service lasts; a kept
      volume may have any word. */
  method Boot(fv: FvInstance, info: MediaInfo)
    requires info.Valid() && info.fvLength == fv.memory.Length && fv.memory.Length >= 0x1_0000
    requires fv.fvBase + fv.memory.Length <= TWO64 && fv.device == null
    requires Accepted(fv.memory[..], info.blockSize) ==> CountTerminated(fv.memory[..], 0)
    modifies fv`numOfBlocks, fv`dirty, fv.memory, info
    ensures InService(fv) <==> (old(Accepted(fv.memory[..], info.blockSize)) ==> old(Usable(fv.memory[..])))
    ensures InService(fv) && Fixed(AttributesIn(fv.memory[..])) ==> Sound(fv)
    ensures !old(Accepted(fv.memory[..], info.blockSize)) ==> Sound(fv) && Fresh(fv.memory[..], info.blockSize)
  {
    hide Accepted, Usable, Fresh, CountTerminated, ValidateFvHeader, Fixed, AttributesIn;
    ghost var rejected := !Accepted(fv.memory[..], info.blockSize);
    fv.Initialize(info);
    if rejected {
      FreshIsUsable(fv.memory[..], info.blockSize);
      FreshIsFixed(fv.memory[..], info.blockSize);
    }
  }

  lemma FreshIsFixed(m: seq<Byte>, blockSize: nat)
    requires Fresh(m, blockSize)
    ensures Usable(m) && Fixed(AttributesIn(m))
  {
    TemplateIsFixed();
  }
}
