/** What a firmware volume is to its readers and writers: the table of blocks, where a transfer goes,
    and what an erase request erases. Pure specifications over the volume's bytes. */
module FvErase {
  import opened Bytes
  import opened EfiStatus
  import opened FvBlockMap
  import opened FvAttributes
  import opened FvHeader

  /** The block map is closed, and its blocks lie inside the volume. */
  predicate Usable(m: seq<Byte>) {
    0x1_0000 <= |m| < TWO32 && Terminated(m, 0) && Sum(Table(Entries(m, 0))) <= |m|
  }

  function Blocks(m: seq<Byte>): seq<nat>
    requires Usable(m)
  {
    Table(Entries(m, 0))
  }

  /** The header and the block map lie below here. */
  function HeaderEnd(m: seq<Byte>): (end: nat)
    requires Usable(m)
    ensures BLOCK_MAP_AT < end <= |m|
  {
    if MapEnd(m, 0) < HeaderLength(m) then HeaderLength(m) else MapEnd(m, 0)
  }

  ghost predicate SameHeader(m: seq<Byte>, m': seq<Byte>)
    requires Usable(m)
  {
    |m'| == |m| && m'[..HeaderEnd(m)] == m[..HeaderEnd(m)]
  }

  /** Everything that is read from the header survives while the header bytes do. */
  lemma HeaderFrame(m: seq<Byte>, m': seq<Byte>)
    requires Usable(m) && SameHeader(m, m')
    ensures Usable(m') && Blocks(m') == Blocks(m) && HeaderEnd(m') == HeaderEnd(m)
    ensures AttributesIn(m') == AttributesIn(m) && ValidateFvHeader(m') == ValidateFvHeader(m)
  {
    var end := HeaderEnd(m);
    assert m'[..MapEnd(m, 0)] == m'[..end][..MapEnd(m, 0)] == m[..MapEnd(m, 0)];
    MapFrame(m, m', 0);
    assert m'[..BLOCK_MAP_AT] == m'[..end][..BLOCK_MAP_AT] == m[..BLOCK_MAP_AT];
    assert m'[..HeaderLength(m)] == m'[..end][..HeaderLength(m)] == m[..HeaderLength(m)];
    ValidateFrame(m, m');
    assert forall i | 0 <= i < BLOCK_MAP_AT :: m'[i] == m'[..BLOCK_MAP_AT][i];
  }

  lemma BlockInside(m: seq<Byte>, lba: nat)
    requires Usable(m) && lba < |Blocks(m)|
    ensures BlockStart(Blocks(m), lba) + Blocks(m)[lba] <= |m|
  {
    BlocksInOrder(Blocks(m), lba, |Blocks(m)|);
  }

  // ------------------------------------------------------------------ transfers

  datatype Transfer = Reject(status: Status) | Move(at: nat, count: nat, status: Status)

  /** Where a request of `count` bytes at `lba`:`offset` goes. `permission` is the status bit that it
      needs; `buffered` is false for a NULL buffer. */
  function Plan(m: seq<Byte>, permission: bv32, lba: nat, offset: nat, count: nat, buffered: bool): Transfer
    requires Usable(m)
  {
    if !buffered || count == 0 || lba >= |Blocks(m)| then Reject(InvalidParameter)
    else if AttributesIn(m) & permission == 0 then Reject(AccessDenied)
    else if offset > Blocks(m)[lba] then Reject(InvalidParameter)
    else
      var at := BlockStart(Blocks(m), lba) + offset;
      if offset + count <= Blocks(m)[lba] then Move(at, count, Success)
      else Move(at, Blocks(m)[lba] - offset, BadBufferSize)
  }

  /** A transfer stays inside its block; it is cut short exactly when the request crosses the end. */
  lemma PlanInsideBlock(m: seq<Byte>, permission: bv32, lba: nat, offset: nat, count: nat)
    requires Usable(m) && Plan(m, permission, lba, offset, count, true).Move?
    ensures var p := Plan(m, permission, lba, offset, count, true);
            lba < |Blocks(m)| && BlockStart(Blocks(m), lba) <= p.at && p.count <= count &&
            p.at + p.count <= BlockStart(Blocks(m), lba) + Blocks(m)[lba] <= |m| &&
            (p.status == Success <==> p.count == count) &&
            (p.status == BadBufferSize <==> p.at + count > BlockStart(Blocks(m), lba) + Blocks(m)[lba])
  {
    BlockInside(m, lba);
  }

  /** A transfer begins at its offset in its block. */
  lemma PlanBeginsAtOffset(m: seq<Byte>, permission: bv32, lba: nat, offset: nat, count: nat)
    requires Usable(m) && Plan(m, permission, lba, offset, count, true).Move?
    ensures Plan(m, permission, lba, offset, count, true).at == BlockStart(Blocks(m), lba) + offset
  {
  }

  /** When nothing is moved: without a buffer or a byte, without such a block, without the permission, or from
      behind the block's end; the missing permission is told before the bad offset. */
  lemma RejectedExactly(m: seq<Byte>, permission: bv32, lba: nat, offset: nat, count: nat, buffered: bool)
    requires Usable(m)
    ensures var p := Plan(m, permission, lba, offset, count, buffered);
            var addressed := buffered && count > 0 && lba < |Blocks(m)|;
            (p.Move? <==> addressed && AttributesIn(m) & permission != 0 && offset <= Blocks(m)[lba]) &&
            (p == Reject(AccessDenied) <==> addressed && AttributesIn(m) & permission == 0) &&
            (!p.Move? && p != Reject(AccessDenied) ==> p == Reject(InvalidParameter))
  {
  }

  /** A write into a slice, seen from the slice. */
  lemma PutInSlice(m: seq<Byte>, lo: nat, length: nat, offset: nat, at: nat, data: seq<Byte>)
    requires lo + length <= |m| && offset + |data| <= length && at == lo + offset
    ensures Put(m, at, data)[lo..lo + length] == Put(m[lo..lo + length], offset, data)
  {
  }

  /** A write that misses the header is read back at the same place: the same transfer, the same
      bytes, the same status, if the volume may be read. */
  lemma WriteThenReadBack(m: seq<Byte>, lba: nat, offset: nat, data: seq<Byte>)
    requires Usable(m) && AttributesIn(m) & READ_STATUS != 0
    requires var p := Plan(m, WRITE_STATUS, lba, offset, |data|, true); p.Move? && HeaderEnd(m) <= p.at
    ensures var p := Plan(m, WRITE_STATUS, lba, offset, |data|, true);
            p.count <= |data| && p.at + p.count <= |m| &&
            var m' := Put(m, p.at, data[..p.count]);
            SameHeader(m, m') && Usable(m') &&
            Plan(m', READ_STATUS, lba, offset, |data|, true) == p &&
            m'[p.at..p.at + p.count] == data[..p.count]
  {
    PlanInsideBlock(m, WRITE_STATUS, lba, offset, |data|);
    var p := Plan(m, WRITE_STATUS, lba, offset, |data|, true);
    var m' := Put(m, p.at, data[..p.count]);
    assert m'[..HeaderEnd(m)] == m[..HeaderEnd(m)];
    HeaderFrame(m, m');
  }

  lemma WholeBlockRead(m: seq<Byte>, lba: nat)
    requires Usable(m) && AttributesIn(m) & READ_STATUS != 0 && lba < |Blocks(m)| && Blocks(m)[lba] > 0
    ensures Plan(m, READ_STATUS, lba, 0, Blocks(m)[lba], true)
         == Move(BlockStart(Blocks(m), lba), Blocks(m)[lba], Success)
  {
  }

  /** The bytes of a write lie in its block, at their offset. */
  lemma WriteInBlock(m: seq<Byte>, lba: nat, offset: nat, data: seq<Byte>)
    requires Usable(m) && Plan(m, WRITE_STATUS, lba, offset, |data|, true).Move?
    ensures var w := Plan(m, WRITE_STATUS, lba, offset, |data|, true);
            w.count <= |data| && lba < |Blocks(m)| && offset + w.count <= Blocks(m)[lba] &&
            w.at == BlockStart(Blocks(m), lba) + offset && BlockStart(Blocks(m), lba) + Blocks(m)[lba] <= |m|
  {
    PlanInsideBlock(m, WRITE_STATUS, lba, offset, |data|);
    PlanBeginsAtOffset(m, WRITE_STATUS, lba, offset, |data|);
  }

  lemma WriteLeavesBlock(m: seq<Byte>, lba: nat, offset: nat, data: seq<Byte>)
    requires Usable(m) && AttributesIn(m) & READ_STATUS != 0
    requires var w := Plan(m, WRITE_STATUS, lba, offset, |data|, true); w.Move? && HeaderEnd(m) <= w.at
    ensures var w := Plan(m, WRITE_STATUS, lba, offset, |data|, true);
            w.count <= |data| && w.at + w.count <= |m| && lba < |Blocks(m)| &&
            var m' := Put(m, w.at, data[..w.count]);
            Usable(m') && Plan(m', READ_STATUS, lba, 0, Blocks(m)[lba], true)
                       == Move(BlockStart(Blocks(m), lba), Blocks(m)[lba], Success)
  {
    hide Plan, Blocks, BlockStart, AttributesIn, HeaderEnd, SameHeader;
    var w := Plan(m, WRITE_STATUS, lba, offset, |data|, true);
    WriteInBlock(m, lba, offset, data);
    WriteThenReadBack(m, lba, offset, data);
    BlockReadAfter(m, Put(m, w.at, data[..w.count]), lba);
  }

  lemma WriteChangesBlock(m: seq<Byte>, lba: nat, offset: nat, data: seq<Byte>)
    requires Usable(m) && Plan(m, WRITE_STATUS, lba, offset, |data|, true).Move?
    ensures var w := Plan(m, WRITE_STATUS, lba, offset, |data|, true);
            w.count <= |data| && w.at + w.count <= |m| && lba < |Blocks(m)| &&
            var start, length := BlockStart(Blocks(m), lba), Blocks(m)[lba];
            offset + w.count <= length && start + length <= |m| &&
            Put(m, w.at, data[..w.count])[start..start + length] ==
              Put(m[start..start + length], offset, data[..w.count])
  {
    hide Plan, Blocks, BlockStart, Usable, Put;
    var w := Plan(m, WRITE_STATUS, lba, offset, |data|, true);
    WriteInBlock(m, lba, offset, data);
    PutInSlice(m, BlockStart(Blocks(m), lba), Blocks(m)[lba], offset, w.at, data[..w.count]);
  }

  /** What a write leaves in its block, read back whole: the old block with the data at the offset, cut off at the
      block's end. */
  lemma WriteThenReadBlock(m: seq<Byte>, lba: nat, offset: nat, data: seq<Byte>)
    requires Usable(m) && AttributesIn(m) & READ_STATUS != 0
    requires var w := Plan(m, WRITE_STATUS, lba, offset, |data|, true); w.Move? && HeaderEnd(m) <= w.at
    ensures var w := Plan(m, WRITE_STATUS, lba, offset, |data|, true);
            var start, length := BlockStart(Blocks(m), lba), Blocks(m)[lba];
            w.count <= |data| && w.at + w.count <= |m| && offset + w.count <= length && start + length <= |m| &&
            var m' := Put(m, w.at, data[..w.count]);
            Usable(m') && Plan(m', READ_STATUS, lba, 0, length, true) == Move(start, length, Success) &&
            m'[start..start + length] == Put(m[start..start + length], offset, data[..w.count])
  {
    hide Plan, Blocks, BlockStart, AttributesIn, HeaderEnd, Usable, Put;
    WriteChangesBlock(m, lba, offset, data);
    WriteLeavesBlock(m, lba, offset, data);
  }

  lemma BlockReadAfter(m: seq<Byte>, m': seq<Byte>, lba: nat)
    requires Usable(m) && lba < |Blocks(m)| && SameHeader(m, m') && AttributesIn(m) & READ_STATUS != 0
    ensures Usable(m') && Plan(m', READ_STATUS, lba, 0, Blocks(m)[lba], true)
                       == Move(BlockStart(Blocks(m), lba), Blocks(m)[lba], Success)
  {
    HeaderFrame(m, m');
    BlockNotEmpty(Entries(m, 0), lba);
    WholeBlockRead(m', lba);
  }

  // ------------------------------------------------------------------ erasing

  /** One (StartingLba, NumOfLba) pair of the argument list. */
  datatype Range = Range(lba: nat, count: nat)
  {
    /** UINT64 and UINTN arguments; the all-ones LBA would end the list. */
    predicate Representable() {
      lba < TWO64 - 1 && count < TWO64
    }
  }

  /** StartingLba++ on a UINT64. */
  function Increment(lba: nat): nat {
    if lba == TWO64 - 1 then 0 else lba + 1
  }

  /** StartingLba after `i` increments. */
  function LbaAt(r: Range, i: nat): nat {
    if i == 0 then r.lba else Increment(LbaAt(r, i - 1))
  }

  lemma {:induction false} LbaAtIs(r: Range, i: nat)
    requires r.lba < TWO64
    ensures LbaAt(r, i) == (r.lba + i) % TWO64
  {
    if i > 0 {
      LbaAtIs(r, i - 1);
    }
  }

  /** The LBAs of one range. */
  function Lbas(r: Range): seq<nat> {
    seq(r.count, i requires 0 <= i => LbaAt(r, i))
  }

  function AllLbas(ranges: seq<Range>): seq<nat> {
    if ranges == [] then [] else AllLbas(ranges[..|ranges| - 1]) + Lbas(ranges[|ranges| - 1])
  }

  /** The first pass of FvbProtocolEraseBlocks; the sum is a UINT64 sum. */
  predicate RangeAccepted(r: Range, numOfBlocks: nat) {
    r.count != 0 && (r.lba + r.count) % TWO64 <= numOfBlocks
  }

  predicate Passes(ranges: seq<Range>, numOfBlocks: nat) {
    forall i | 0 <= i < |ranges| :: RangeAccepted(ranges[i], numOfBlocks)
  }

  /** How many of `lbas` precede the first that is no block. */
  function ValidPrefix(lbas: seq<nat>, blocks: nat): (k: nat)
    ensures k <= |lbas| && (forall i | 0 <= i < k :: lbas[i] < blocks) && (k < |lbas| ==> lbas[k] >= blocks)
  {
    if lbas == [] || lbas[0] >= blocks then 0 else 1 + ValidPrefix(lbas[1..], blocks)
  }

  lemma {:induction false} ValidPrefixIs(lbas: seq<nat>, blocks: nat, k: nat)
    requires k <= |lbas| && (forall i | 0 <= i < k :: lbas[i] < blocks) && (k < |lbas| ==> lbas[k] >= blocks)
    ensures ValidPrefix(lbas, blocks) == k
  {
    if k > 0 {
      ValidPrefixIs(lbas[1..], blocks, k - 1);
    }
  }

  predicate InBlock(table: seq<nat>, lba: nat, i: nat) {
    lba < |table| && BlockStart(table, lba) <= i < BlockStart(table, lba) + table[lba]
  }

  /** Byte `i` belongs to one of the blocks `lbas`. */
  ghost predicate Covered(table: seq<nat>, lbas: seq<nat>, i: nat) {
    exists k | 0 <= k < |lbas| :: InBlock(table, lbas[k], i)
  }

  lemma CoveredMore(table: seq<nat>, lbas: seq<nat>, lba: nat, i: nat)
    ensures Covered(table, lbas + [lba], i) <==> Covered(table, lbas, i) || InBlock(table, lba, i)
  {
    var more := lbas + [lba];
    if Covered(table, lbas, i) {
      var k :| 0 <= k < |lbas| && InBlock(table, lbas[k], i);
      assert InBlock(table, more[k], i);
    }
    assert more[|lbas|] == lba;
    if Covered(table, more, i) {
      var k :| 0 <= k < |more| && InBlock(table, more[k], i);
      if k < |lbas| {
        assert InBlock(table, lbas[k], i);
      }
    }
  }

  /** `m` with the blocks `lbas` erased and nothing else changed. */
  ghost function Erased(m: seq<Byte>, table: seq<nat>, lbas: seq<nat>): (r: seq<Byte>)
    ensures |r| == |m|
  {
    seq(|m|, i requires 0 <= i < |m| => if Covered(table, lbas, i) then 0xFF else m[i])
  }

  lemma EraseOneMore(m: seq<Byte>, table: seq<nat>, lbas: seq<nat>, lba: nat)
    requires lba < |table| && BlockStart(table, lba) + table[lba] <= |m|
    ensures Erased(m, table, lbas + [lba])
         == Put(Erased(m, table, lbas), BlockStart(table, lba), seq(table[lba], _ => 0xFF))
  {
    var put := Put(Erased(m, table, lbas), BlockStart(table, lba), seq(table[lba], _ => 0xFF));
    forall i | 0 <= i < |m| ensures Erased(m, table, lbas + [lba])[i] == put[i] {
      CoveredMore(table, lbas, lba, i);
    }
  }

  lemma PutKeepsHeader(m: seq<Byte>, now: seq<Byte>, at: nat, data: seq<Byte>)
    requires Usable(m) && SameHeader(m, now) && HeaderEnd(m) <= at && at + |data| <= |m|
    ensures SameHeader(m, Put(now, at, data))
  {
    assert Put(now, at, data)[..HeaderEnd(m)] == now[..HeaderEnd(m)];
  }

  lemma EraseNothing(m: seq<Byte>, table: seq<nat>)
    ensures Erased(m, table, []) == m
  {
  }

  /** What an erase request comes to: its status, and the blocks it erases, in order. */
  datatype Erasure = Erasure(status: Status, lbas: seq<nat>)

  function EraseRequest(ranges: seq<Range>, numOfBlocks: nat, writable: bool, blocks: nat): Erasure {
    var all := AllLbas(ranges);
    if !Passes(ranges, numOfBlocks) then Erasure(InvalidParameter, [])
    else if all == [] then Erasure(Success, [])
    else if !writable then Erasure(AccessDenied, [])
    else
      var k := ValidPrefix(all, blocks);
      Erasure(if k == |all| then Success else InvalidParameter, all[..k])
  }

  /** Bad ranges are refused first, whatever the volume; then a write-protected volume is, unless nothing is asked
      for. Either way nothing is erased. */
  lemma EraseRefused(ranges: seq<Range>, numOfBlocks: nat, writable: bool, blocks: nat)
    ensures var e := EraseRequest(ranges, numOfBlocks, writable, blocks);
            (!Passes(ranges, numOfBlocks) ==> e == Erasure(InvalidParameter, [])) &&
            (e.status == AccessDenied <==> Passes(ranges, numOfBlocks) && AllLbas(ranges) != [] && !writable) &&
            (e.status == AccessDenied ==> e.lbas == []) &&
            (e.status.Failed() ==> e.status == InvalidParameter || e.status == AccessDenied)
  {
  }

  ghost predicate ValidBlocks(lbas: seq<nat>, blocks: nat) {
    forall i | 0 <= i < |lbas| :: lbas[i] < blocks
  }

  /** Success means all blocks asked for. */
  lemma SuccessErasesAll(ranges: seq<Range>, numOfBlocks: nat, writable: bool, blocks: nat)
    ensures var e := EraseRequest(ranges, numOfBlocks, writable, blocks);
            !e.status.Failed() ==> e.lbas == AllLbas(ranges)
  {
  }

  /** The request got through all its blocks. */
  lemma ErasureComplete(ranges: seq<Range>, numOfBlocks: nat, writable: bool, blocks: nat)
    requires Passes(ranges, numOfBlocks) && ValidBlocks(AllLbas(ranges), blocks) && (AllLbas(ranges) != [] ==> writable)
    ensures EraseRequest(ranges, numOfBlocks, writable, blocks) == Erasure(Success, AllLbas(ranges))
  {
    var all := AllLbas(ranges);
    ValidPrefixIs(all, blocks, |all|);
    assert all[..|all|] == all;
  }

  /** The request stopped at the block after `done`. */
  ghost predicate StoppedAfter(status: Status, done: seq<nat>, all: seq<nat>, writable: bool, blocks: nat) {
    |done| < |all| && done == all[..|done|] && ValidBlocks(done, blocks) &&
    if writable then status == InvalidParameter && all[|done|] >= blocks else status == AccessDenied && done == []
  }

  lemma ErasureStopped(ranges: seq<Range>, numOfBlocks: nat, writable: bool, blocks: nat,
                       status: Status, done: seq<nat>)
    requires Passes(ranges, numOfBlocks) && StoppedAfter(status, done, AllLbas(ranges), writable, blocks)
    ensures EraseRequest(ranges, numOfBlocks, writable, blocks) == Erasure(status, done)
  {
    if writable {
      ValidPrefixIs(AllLbas(ranges), blocks, |done|);
    }
  }

  /** `done` extends by the block that comes next in `all`, the one of range `r` after `i` others. */
  lemma NextOf(done: seq<nat>, r: Range, all: seq<nat>, i: nat)
    requires done + Lbas(r) <= all && i < r.count
    ensures var after := done + Lbas(r)[..i];
            |after| < |all| && after == all[..|after|] && all[|after|] == LbaAt(r, i) && LbaAt(r, i) in all &&
            after + [LbaAt(r, i)] == done + Lbas(r)[..i + 1]
  {
    var after := done + Lbas(r)[..i];
    assert all[|after|] == (done + Lbas(r))[|after|] == Lbas(r)[i];
    assert Lbas(r)[..i + 1] == Lbas(r)[..i] + [Lbas(r)[i]];
  }

  lemma {:induction false} AllLbasSplit(ranges: seq<Range>, k: nat)
    requires k < |ranges|
    ensures AllLbas(ranges[..k + 1]) == AllLbas(ranges[..k]) + Lbas(ranges[k])
    ensures AllLbas(ranges[..k + 1]) <= AllLbas(ranges)
    decreases |ranges|
  {
    assert ranges[..k + 1][..k] == ranges[..k];
    if k + 1 < |ranges| {
      var front := ranges[..|ranges| - 1];
      AllLbasSplit(front, k);
      assert front[..k + 1] == ranges[..k + 1] && front[..k] == ranges[..k];
    } else {
      assert ranges[..k + 1] == ranges;
    }
  }

  /** No block of the volume that the ranges name reaches into the header. */
  ghost predicate AvoidsHeader(m: seq<Byte>, ranges: seq<Range>)
    requires Usable(m)
  {
    forall lba | lba in AllLbas(ranges) && lba < |Blocks(m)| :: HeaderEnd(m) <= BlockStart(Blocks(m), lba)
  }

  predicate Wraps(r: Range) {
    r.lba + r.count >= TWO64
  }

  /** A range that wraps round asks for a block that no volume has. */
  lemma WrappingRangeIsBad(r: Range, blocks: nat)
    requires r.Representable() && Wraps(r) && blocks < TWO64
    ensures exists i :: 0 <= i < |Lbas(r)| && Lbas(r)[i] >= blocks
  {
    var i := TWO64 - 1 - r.lba;
    LbaAtIs(r, i);
    assert Lbas(r)[i] == TWO64 - 1;
  }

  lemma {:induction false} AllLbasMember(ranges: seq<Range>, i: nat)
    requires i < |AllLbas(ranges)|
    ensures exists k :: 0 <= k < |ranges| && AllLbas(ranges)[i] in Lbas(ranges[k])
  {
    var front, last := ranges[..|ranges| - 1], ranges[|ranges| - 1];
    if i < |AllLbas(front)| {
      AllLbasMember(front, i);
      var k :| 0 <= k < |front| && AllLbas(front)[i] in Lbas(front[k]);
      assert ranges[k] == front[k];
    } else {
      assert AllLbas(ranges)[i] == Lbas(last)[i - |AllLbas(front)|];
    }
  }

  /** The range asks for a block that is not there: it wraps round, or ends beyond the last block. */
  predicate Overruns(r: Range, blocks: nat) {
    Wraps(r) || r.lba + r.count > blocks
  }

  /** An overrunning range asks for a block that does not exist, any other for existing blocks only. */
  lemma OverrunsExactly(r: Range, blocks: nat)
    requires r.Representable() && r.count > 0 && blocks < TWO64 - 1
    ensures Overruns(r, blocks) <==> exists i :: 0 <= i < |Lbas(r)| && Lbas(r)[i] >= blocks
  {
    if Wraps(r) {
      WrappingRangeIsBad(r, blocks);
    } else if r.lba + r.count > blocks {
      LbaAtIs(r, r.count - 1);
      assert Lbas(r)[r.count - 1] == r.lba + r.count - 1;
    } else if i :| 0 <= i < |Lbas(r)| && Lbas(r)[i] >= blocks {
      LbaAtIs(r, i);
      assert false;
    }
  }

  lemma BadOnlyByOverrun(ranges: seq<Range>, blocks: nat, i: nat)
    requires forall k | 0 <= k < |ranges| :: ranges[k].Representable() && ranges[k].count > 0
    requires blocks < TWO64 - 1 && i < |AllLbas(ranges)| && AllLbas(ranges)[i] >= blocks
    ensures exists k :: 0 <= k < |ranges| && Overruns(ranges[k], blocks)
  {
    AllLbasMember(ranges, i);
    var k :| 0 <= k < |ranges| && AllLbas(ranges)[i] in Lbas(ranges[k]);
    var j :| 0 <= j < |Lbas(ranges[k])| && Lbas(ranges[k])[j] == AllLbas(ranges)[i];
    OverrunsExactly(ranges[k], blocks);
  }

  lemma {:induction false} FirstLba(ranges: seq<Range>)
    requires ranges != [] && ranges[0].count > 0 && ranges[0].lba < TWO64
    ensures AllLbas(ranges) != [] && AllLbas(ranges)[0] == ranges[0].lba
  {
    AllLbasSplit(ranges, 0);
    assert ranges[..0] == [];
    assert AllLbas(ranges[..1]) == Lbas(ranges[0]);
    assert AllLbas(ranges)[0] == AllLbas(ranges[..1])[0];
  }

  /** The request passes the first check, and its first block is erased before one is missing. */
  predicate FailsHalfway(ranges: seq<Range>, numOfBlocks: nat, writable: bool, blocks: nat) {
    Passes(ranges, numOfBlocks) && writable && ranges != [] && ranges[0].lba < blocks &&
    exists i :: 0 <= i < |ranges| && Overruns(ranges[i], blocks)
  }

  lemma RequestAllOrNothing(ranges: seq<Range>, numOfBlocks: nat, writable: bool, blocks: nat)
    requires forall i | 0 <= i < |ranges| :: ranges[i].Representable()
    requires blocks < TWO64 - 1
    ensures var e := EraseRequest(ranges, numOfBlocks, writable, blocks);
            (e.status.Failed() ==> e.lbas == []) <==> !FailsHalfway(ranges, numOfBlocks, writable, blocks)
  {
    var all := AllLbas(ranges);
    if Passes(ranges, numOfBlocks) && writable && ranges != [] {
      assert RangeAccepted(ranges[0], numOfBlocks);
      FirstLba(ranges);
      var k := ValidPrefix(all, blocks);
      if i :| 0 <= i < |ranges| && Overruns(ranges[i], blocks) {
        OverrunFound(ranges, numOfBlocks, blocks, i);
      } else if k < |all| {
        assert forall i | 0 <= i < |ranges| :: RangeAccepted(ranges[i], numOfBlocks);
        BadOnlyByOverrun(ranges, blocks, k);
      }
    }
  }

  lemma OverrunFound(ranges: seq<Range>, numOfBlocks: nat, blocks: nat, i: nat)
    requires Passes(ranges, numOfBlocks) && blocks < TWO64 - 1
    requires i < |ranges| && ranges[i].Representable() && Overruns(ranges[i], blocks)
    ensures ValidPrefix(AllLbas(ranges), blocks) < |AllLbas(ranges)|
  {
    var all := AllLbas(ranges);
    assert RangeAccepted(ranges[i], numOfBlocks);
    OverrunsExactly(ranges[i], blocks);
    AllLbasSplit(ranges, i);
    var j :| 0 <= j < |Lbas(ranges[i])| && Lbas(ranges[i])[j] >= blocks;
    var at := |AllLbas(ranges[..i])| + j;
    assert all[at] == AllLbas(ranges[..i + 1])[at] == Lbas(ranges[i])[j];
  }

  /** While the count is right, only a range that wraps round can fail half-way. */
  lemma CountedBlocksFailByWrapping(ranges: seq<Range>, blocks: nat, i: nat)
    requires Passes(ranges, blocks) && i < |ranges| && ranges[i].Representable()
    ensures Overruns(ranges[i], blocks) <==> Wraps(ranges[i])
  {
    assert RangeAccepted(ranges[i], blocks);
    if !Wraps(ranges[i]) {
      assert (ranges[i].lba + ranges[i].count) % TWO64 == ranges[i].lba + ranges[i].count;
    }
  }

  lemma {:induction false} TableWithinSum(es: seq<MapEntry>)
    requires forall i | 0 <= i < |es| :: es[i].length > 0
    ensures |Table(es)| <= Sum(Table(es))
  {
    if es != [] {
      var e, rest := es[0], es[1..];
      TableWithinSum(rest);
      SumAppend(seq(e.numBlocks, _ => e.length), Table(rest));
      SumRun(e.numBlocks, e.length);
      assert e.numBlocks <= e.numBlocks * e.length;
    }
  }

  /** An erase request that stays clear of the header is all or nothing unless its ranges pass although
      one overruns the blocks that exist, the volume may be written, and the first block asked for
      exists; then a failed request has erased something. The count taken at start-up and the number of
      blocks need not be related. */
  lemma AllOrNothingExactly(m: seq<Byte>, ranges: seq<Range>, numOfBlocks: nat)
    requires Usable(m) && AvoidsHeader(m, ranges)
    requires forall i | 0 <= i < |ranges| :: ranges[i].Representable()
    ensures var writable := AttributesIn(m) & WRITE_STATUS != 0;
            var e := EraseRequest(ranges, numOfBlocks, writable, |Blocks(m)|);
            (e.status.Failed() ==> e.lbas == []) <==> !FailsHalfway(ranges, numOfBlocks, writable, |Blocks(m)|)
  {
    TableWithinSum(Entries(m, 0));
    RequestAllOrNothing(ranges, numOfBlocks, AttributesIn(m) & WRITE_STATUS != 0, |Blocks(m)|);
  }

  /** One cause: block 1, and then a range that wraps round to block 0. */
  const WRAPPING := [Range(1, 1), Range(TWO64 - 2, 2)]

  lemma WrappingRequest(numOfBlocks: nat, blocks: nat)
    requires 2 <= numOfBlocks && 2 <= blocks <= TWO64 - 2
    ensures AllLbas(WRAPPING) == [1, TWO64 - 2, TWO64 - 1]
    ensures EraseRequest(WRAPPING, numOfBlocks, true, blocks) == Erasure(InvalidParameter, [1])
    ensures FailsHalfway(WRAPPING, numOfBlocks, true, blocks)
  {
    TwoRanges(WRAPPING[0], WRAPPING[1]);
    LbaAtIs(WRAPPING[1], 1);
    assert Lbas(WRAPPING[0]) == [1];
    assert Lbas(WRAPPING[1]) == [TWO64 - 2, TWO64 - 1];
    assert Overruns(WRAPPING[1], blocks);
    ValidPrefixIs(AllLbas(WRAPPING), blocks, 1);
    assert AllLbas(WRAPPING)[..1] == [1];
  }

  /** The other cause: more blocks were counted at start-up than exist, and the request asks for the last
      that exists and the one behind it. */
  function Miscounted(blocks: nat): seq<Range>
    requires blocks > 0
  {
    [Range(blocks - 1, 2)]
  }

  lemma MiscountedRequest(numOfBlocks: nat, blocks: nat)
    requires 0 < blocks < numOfBlocks && blocks < TWO64 - 1
    ensures AllLbas(Miscounted(blocks)) == [blocks - 1, blocks]
    ensures EraseRequest(Miscounted(blocks), numOfBlocks, true, blocks) == Erasure(InvalidParameter, [blocks - 1])
    ensures FailsHalfway(Miscounted(blocks), numOfBlocks, true, blocks) && !Wraps(Miscounted(blocks)[0])
  {
    var ranges := Miscounted(blocks);
    assert ranges[..0] == [];
    assert AllLbas(ranges) == Lbas(ranges[0]);
    LbaAtIs(ranges[0], 1);
    assert Lbas(ranges[0]) == [blocks - 1, blocks];
    assert Overruns(ranges[0], blocks);
    assert (blocks + 1) % TWO64 == blocks + 1;
    ValidPrefixIs(AllLbas(ranges), blocks, 1);
    assert AllLbas(ranges)[..1] == [blocks - 1];
  }

  lemma TwoRanges(first: Range, last: Range)
    ensures AllLbas([first, last]) == Lbas(first) + Lbas(last)
  {
    assert [first, last][..1] == [first] && [first][..0] == [];
    assert AllLbas([first]) == Lbas(first);
  }

  // ------------------------------------------------------------------ the blocks counted at start-up

  /** An entry of zero blocks lies inside the volume, at or after entry `k`. */
  predicate CountTerminated(m: seq<Byte>, k: nat)
    decreases |m| - k
  {
    EntryInside(m, k) && (EntryAt(m, k).numBlocks == 0 || CountTerminated(m, k + 1))
  }

  /** What FvbInitialize counts: it stops at an entry of zero blocks and does not look at lengths. */
  function CountFrom(m: seq<Byte>, k: nat): nat
    requires CountTerminated(m, k)
    decreases |m| - k
  {
    if EntryAt(m, k).numBlocks == 0 then 0 else EntryAt(m, k).numBlocks + CountFrom(m, k + 1)
  }

  /** A counted entry of zero-length blocks, before the count ends. */
  predicate HasEmptyBlocks(m: seq<Byte>, k: nat)
    requires CountTerminated(m, k)
    decreases |m| - k
  {
    EntryAt(m, k).numBlocks != 0 && (EntryAt(m, k).length == 0 || HasEmptyBlocks(m, k + 1))
  }

  lemma {:induction false} CountClosesMap(m: seq<Byte>, k: nat)
    requires CountTerminated(m, k)
    ensures Terminated(m, k)
    decreases |m| - k
  {
    if !IsEnd(EntryAt(m, k)) {
      CountClosesMap(m, k + 1);
    }
  }

  /** The count is the number of blocks that can be found, unless blocks of zero length are counted;
      then it is larger. */
  lemma {:induction false} CountIsTableSize(m: seq<Byte>, k: nat)
    requires CountTerminated(m, k)
    ensures Terminated(m, k) && |Table(Entries(m, k))| <= CountFrom(m, k)
    ensures CountFrom(m, k) == |Table(Entries(m, k))| <==> !HasEmptyBlocks(m, k)
    decreases |m| - k
  {
    CountClosesMap(m, k);
    if !IsEnd(EntryAt(m, k)) {
      CountIsTableSize(m, k + 1);
      assert Entries(m, k)[1..] == Entries(m, k + 1);
    }
  }

  /** Such a map: two blocks of `b` bytes and one of none. Three are counted, two can be found. */
  lemma EmptyBlockMiscounted(m: seq<Byte>, b: nat)
    requires EntryInside(m, 2) && b > 0
    requires EntryAt(m, 0) == MapEntry(2, b) && EntryAt(m, 1) == MapEntry(1, 0) && EntryAt(m, 2).numBlocks == 0
    ensures CountTerminated(m, 0) && Terminated(m, 0)
    ensures CountFrom(m, 0) == 3 && Table(Entries(m, 0)) == [b, b]
  {
    assert CountTerminated(m, 2) && CountFrom(m, 2) == 0;
    assert CountTerminated(m, 1) && CountFrom(m, 1) == 1;
    assert Terminated(m, 1) && Entries(m, 1) == [];
    assert Entries(m, 0)[1..] == [];
  }
}
