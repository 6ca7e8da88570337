/** Block I/O requests (BlockIo.c, IoBlocks): validation, then a loop of chunks no larger than the
    host's maximum, each tried up to three times. */
module BlockIo {
  import opened Wrappers
  import opened Bytes
  import opened EfiStatus
  import opened SdCommands
  import opened SdHost
  import opened SdhcSlot

  const COMMAND_RETRIES: nat := 3
  const IO_ALIGN: nat := 4

  /** A request as the caller makes it. Address 0 is the NULL buffer. */
  datatype Request = Request(direction: Direction, mediaId: Word32, lba: nat, size: nat, address: nat)
  {
    predicate Representable() {
      lba < TWO64 && size < TWO64
    }
  }

  /** How the tests before the transfer loop end. `Undefined` is a division by a zero block size,
      which a failed soft reset leaves behind. */
  datatype Verdict = Accepted | Refused(status: Status) | Undefined

  /** The tests in the source's order. */
  function Check(media: Media, r: Request): Verdict {
    if media.id != r.mediaId then Refused(MediaChanged)
    else if r.address == 0 then Refused(InvalidParameter)
    else if !media.present then Refused(NoMedia)
    else if r.size == 0 then Refused(Success)
    else if r.direction == Write && media.readOnly then Refused(WriteProtected)
    else if media.blockSize == 0 then Undefined
    else if r.size % media.blockSize != 0 then Refused(BadBufferSize)
    else
      var blocks := (r.size / media.blockSize) % TWO32;
      if (r.lba + blocks - 1) % TWO64 > media.lastBlock then Refused(InvalidParameter)
      else if r.address % IO_ALIGN != 0 then Refused(InvalidParameter)
      else Accepted
  }

  /** Writing to protected media is refused, whatever is asked for, unless the caller or the slot is at fault
      already; reading does not mind the protection. */
  lemma ProtectedFromWrites(media: Media, r: Request)
    requires media.id == r.mediaId && r.address != 0 && media.present && r.size > 0
    ensures r.direction == Write && media.readOnly ==> Check(media, r) == Refused(WriteProtected)
    ensures r.direction == Read || !media.readOnly ==> Check(media, r) == Check(media.(readOnly := false), r)
    ensures Check(media, r) == Refused(WriteProtected) ==> r.direction == Write && media.readOnly
  {
  }

  /** What a caller must see to for a request to be let through, but for its place on the device. */
  lemma AcceptedExactly(media: Media, r: Request)
    requires r.Representable() && media.blockSize == BLOCK_BYTES
    ensures Check(media, r) == Accepted <==>
            r.mediaId == media.id && media.present && r.size > 0 && (r.direction == Write ==> !media.readOnly) &&
            r.address >= IO_ALIGN && r.address % IO_ALIGN == 0 &&
            exists blocks: nat :: blocks * BLOCK_BYTES == r.size && InRange(media, r.lba, blocks)
  {
    var blocks := r.size / BLOCK_BYTES;
    if r.size % BLOCK_BYTES == 0 && InRange(media, r.lba, blocks) {
      assert blocks * BLOCK_BYTES == r.size;
    }
  }

  /** The last block number, with all its wraps, is one of the device. */
  predicate InRange(media: Media, lba: nat, blocks: nat) {
    (lba + blocks % TWO32 - 1) % TWO64 <= media.lastBlock
  }

  /** Another card, no card, nothing to do: these are told first, in this order. */
  lemma EarlyRefusals(media: Media, r: Request)
    ensures Check(media, r) == Refused(MediaChanged) <==> r.mediaId != media.id
    ensures Check(media, r) == Refused(NoMedia) <==> r.mediaId == media.id && r.address != 0 && !media.present
    ensures Check(media, r) == Refused(Success) <==>
            r.mediaId == media.id && r.address != 0 && media.present && r.size == 0
    ensures r.mediaId == media.id && r.address == 0 ==> Check(media, r) == Refused(InvalidParameter)
  {
  }

  /** A request that is let through lies on the device, unless its block count or its last block number
      wraps round. Block numbers of SD and MMC media fit 32 bits. */
  lemma AcceptedLiesOnDevice(media: Media, r: Request)
    requires r.Representable() && media.blockSize == BLOCK_BYTES && media.lastBlock < TWO32
    requires Check(media, r) == Accepted
    ensures (r.lba + r.size / BLOCK_BYTES <= media.lastBlock + 1) <==>
            (r.size / BLOCK_BYTES < TWO32 && r.lba + r.size / BLOCK_BYTES <= TWO64)
  {
    var blocks := r.size / BLOCK_BYTES;
    if blocks < TWO32 && r.lba + blocks <= TWO64 {
      assert (r.lba + blocks - 1) % TWO64 == r.lba + blocks - 1;
    }
  }

  /** 2^32 blocks and one more are counted as one, which every device has. */
  lemma TruncatedCountAccepted(media: Media)
    requires media.present && media.blockSize == BLOCK_BYTES
    ensures Check(media, Request(Read, media.id, 0, (TWO32 + 1) * BLOCK_BYTES, IO_ALIGN)) == Accepted
  {
    assert (TWO32 + 1) * BLOCK_BYTES / BLOCK_BYTES == TWO32 + 1;
  }

  /** Two blocks at the very last block number are let through on any device. */
  lemma WrappingRequestAccepted(media: Media)
    requires media.present && media.blockSize == BLOCK_BYTES
    ensures Check(media, Request(Read, media.id, TWO64 - 1, 2 * BLOCK_BYTES, IO_ALIGN)) == Accepted
  {
    assert (TWO64 - 1 + 2 - 1) % TWO64 == 0;
  }

  /** BytesRemaining is a UINT32: this much of the request is moved. */
  function Truncated(r: Request): Request {
    r.(size := r.size % TWO32)
  }

  /** The bytes that are not moved are whole multiples of 2^32; the request is cut short exactly when
      there are any. */
  lemma CutShortExactly(r: Request)
    ensures Truncated(r) == r <==> r.size < TWO32
    ensures (r.size - Truncated(r).size) % TWO32 == 0
  {
  }

  /** 4 GiB are let through on every device of that size, and nothing of them is moved. */
  lemma WholeRequestDropped(media: Media)
    requires media.present && media.blockSize == BLOCK_BYTES && media.lastBlock >= TWO32 / BLOCK_BYTES - 1
    ensures var r := Request(Read, media.id, 0, TWO32, IO_ALIGN); Check(media, r) == Accepted && Truncated(r).size == 0
  {
    assert TWO32 / BLOCK_BYTES % TWO32 == 0x80_0000;
  }

  datatype Chunk = Chunk(lba: nat, offset: nat, size: nat)

  /** The UINT32 block number `lba` plus `blocks`. */
  function Advance(lba: Word32, blocks: nat): Word32 {
    (lba + blocks) % TWO32
  }

  /** CurrentBufferSize. */
  function ChunkSize(remaining: nat, max: nat): nat {
    if remaining < max then remaining else max
  }

  /** A round of the loop moves nothing, and the next finds the same bytes remaining, exactly when the
      maximum transfer size is 0. */
  lemma RoundStallsExactly(remaining: nat, max: nat)
    requires remaining > 0
    ensures remaining - ChunkSize(remaining, max) == remaining <==> max == 0
  {
  }

  /** The chunks in which `remaining` bytes are moved. */
  function Chunks(lba: Word32, offset: nat, remaining: nat, max: nat): seq<Chunk>
    requires max > 0
    decreases remaining
  {
    if remaining == 0 then []
    else
      var size := ChunkSize(remaining, max);
      [Chunk(lba, offset, size)] + Chunks(Advance(lba, size / BLOCK_BYTES), offset + size, remaining - size, max)
  }

  /** Nonempty whole-block pieces, no larger than `max`, back to back from `offset` to `end`, each at
      the block its offset calls for. */
  ghost predicate Tiles(chunks: seq<Chunk>, lba: nat, offset: nat, end: nat, max: nat) {
    (if chunks == [] then offset == end
     else
       var last := chunks[|chunks| - 1];
       chunks[0].offset == offset && last.offset + last.size == end) &&
    (forall i | 0 <= i < |chunks| ::
      0 < chunks[i].size <= max && chunks[i].size % BLOCK_BYTES == 0 && chunks[i].offset >= offset &&
      chunks[i].lba * BLOCK_BYTES == lba * BLOCK_BYTES + (chunks[i].offset - offset)) &&
    (forall i | 0 <= i < |chunks| - 1 :: chunks[i + 1].offset == chunks[i].offset + chunks[i].size)
  }

  lemma TileInFront(first: Chunk, rest: seq<Chunk>, next: nat, end: nat, max: nat)
    requires 0 < first.size <= max && first.size % BLOCK_BYTES == 0 && rest != []
    requires next * BLOCK_BYTES == first.lba * BLOCK_BYTES + first.size
    requires Tiles(rest, next, first.offset + first.size, end, max)
    ensures Tiles([first] + rest, first.lba, first.offset, end, max)
  {
    var all := [first] + rest;
    forall i | 0 <= i < |all|
      ensures 0 < all[i].size <= max && all[i].size % BLOCK_BYTES == 0 && all[i].offset >= first.offset
      ensures all[i].lba * BLOCK_BYTES == first.lba * BLOCK_BYTES + (all[i].offset - first.offset)
    {
      if i > 0 {
        assert all[i] == rest[i - 1];
      }
    }
  }

  /** The chunks tile the request, whenever its block numbers fit UINT32. */
  lemma {:induction false} ChunksTile(lba: Word32, offset: nat, remaining: nat, max: nat)
    requires max > 0 && max % BLOCK_BYTES == 0 && remaining % BLOCK_BYTES == 0
    requires lba + remaining / BLOCK_BYTES <= TWO32
    ensures Tiles(Chunks(lba, offset, remaining, max), lba, offset, offset + remaining, max)
    decreases remaining
  {
    hide Tiles;
    if remaining == 0 {
      NoTiles(lba, offset, max);
    } else if remaining <= max {
      assert Chunks(Advance(lba, remaining / BLOCK_BYTES), offset + remaining, 0, max) == [];
      assert Chunks(lba, offset, remaining, max) == [Chunk(lba, offset, remaining)];
      OneTile(Chunk(lba, offset, remaining), max);
    } else {
      SmallAdvance(lba, max / BLOCK_BYTES);
      WholeBlocksLeft(remaining, max);
      var next := Advance(lba, max / BLOCK_BYTES);
      ChunksTile(next, offset + max, remaining - max, max);
      var rest := Chunks(next, offset + max, remaining - max, max);
      TileInFront(Chunk(lba, offset, max), rest, next, offset + remaining, max);
    }
  }

  lemma NoTiles(lba: nat, offset: nat, max: nat)
    ensures Tiles([], lba, offset, offset, max)
  {
  }

  lemma NoChunks(lba: Word32, max: nat)
    requires max > 0
    ensures Chunks(lba, 0, 0, max) == []
  {
  }

  lemma OneTile(c: Chunk, max: nat)
    requires 0 < c.size <= max && c.size % BLOCK_BYTES == 0
    ensures Tiles([c], c.lba, c.offset, c.offset + c.size, max)
  {
  }

  /** READ/WRITE_SINGLE_BLOCK for one block, the multi-block form otherwise. */
  function CommandFor(direction: Direction, blocks: nat): Command {
    if direction == Read then if blocks == 1 then READ_SINGLE_BLOCK else READ_MULTI_BLOCK
    else if blocks == 1 then WRITE_SINGLE_BLOCK else WRITE_MULTI_BLOCK
  }

  /** One block goes by a command for one block, any other number by one for many. */
  lemma CommandForBlocks(direction: Direction, blocks: nat)
    requires direction != DirectionUndefined
    ensures var cmd := CommandFor(direction, blocks);
            cmd.direction == direction && (cmd.transfer == SingleBlock <==> blocks == 1) &&
            (IsMultiBlock(cmd) <==> blocks != 1) && Fits(cmd, direction)
  {
  }

  predicate Fits(cmd: Command, direction: Direction) {
    if direction == Read then IsBlockRead(cmd) else IsBlockWrite(cmd)
  }

  /** The host was given the command for the chunk at `start`. */
  ghost predicate TriedAt(issued: seq<Event>, start: nat, cmd: Command, lba: nat) {
    start < |issued| && issued[start].Sent? && issued[start].command == cmd && issued[start].arg == lba
  }

  /** Its data phase, of `size` bytes, followed. */
  ghost predicate MovedAt(issued: seq<Event>, start: nat, size: nat) {
    start + 1 < |issued| &&
    match issued[start + 1]
    case DataIn(n) => n == size
    case DataOut(data) => |data| == size
    case Sent(_, _) => false
  }

  /** A STOP_TRANSMISSION came right behind the data. */
  ghost predicate StoppedAt(issued: seq<Event>, start: nat) {
    start + 2 < |issued| && IsStop(issued[start + 2])
  }

  lemma SentAt(before: seq<Event>, cmd: Command, lba: Word32, data: Event, due: bool, rca: Word32, now: seq<Event>,
               poll: Event)
    requires cmd.class_ == ClassStandard
    requires Polled(before + Lead(cmd, lba, rca) + [data] + StopIf(due, rca), now, poll)
    ensures |before| + 2 < |now| && now[|before|] == Sent(cmd, lba) && now[|before| + 1] == data
    ensures due ==> IsStop(now[|before| + 2])
  {
    var n := |before|;
    var lead := before + Lead(cmd, lba, rca) + [data] + StopIf(due, rca);
    assert now[n] == now[..|lead|][n] == lead[n];
    assert now[n + 1] == now[..|lead|][n + 1] == lead[n + 1];
    if due {
      assert now[n + 2] == now[..|lead|][n + 2] == lead[n + 2];
    }
  }

  /** One attempt at a chunk. */
  method Attempt(inst: SdhcInstance, cmd: Command, lba: Word32, size: nat, buffer: array<Byte>, at: nat)
    returns (status: Status)
    requires inst.Valid() && inst.attempts <= RECOVERY_THRESHOLD
    requires IsBlockRead(cmd) || IsBlockWrite(cmd)
    requires buffer != inst.blockBuffer && at + size <= buffer.Length
    requires inst.lastSuccess.Some?
    modifies inst, inst.host, inst.db, inst.blockBuffer, buffer
    ensures inst.Valid() && inst.Kept() && inst.KeepsSelection() && inst.KeepsBootBits() && inst.CountForgotten()
    ensures TriedAt(inst.host.issued, |old(inst.host.issued)|, cmd, lba) && inst.lastSuccess.Some?
    ensures if status.Failed() then inst.Excused()
            else inst.lastSuccess == Some(SEND_STATUS) && MovedAt(inst.host.issued, |old(inst.host.issued)|, size) &&
                 (StopDue(cmd, old(inst.lastSuccess)) ==> StoppedAt(inst.host.issued, |old(inst.host.issued)|))
    ensures SameOutside(old(buffer[..]), buffer[..], at, at + size)
    ensures IsBlockWrite(cmd) ==> buffer[..] == old(buffer[..])
    ensures old(inst.InUserArea(cmd, lba, size)) ==>
              inst.InUserArea(cmd, lba, size) &&
              (var lo := lba as int * BLOCK_BYTES;
               (if IsBlockRead(cmd) then inst.host.userArea == old(inst.host.userArea)
                else SameOutside(old(inst.host.userArea), inst.host.userArea, lo, lo + size)) &&
               (!status.Failed() ==> inst.host.userArea[lo..lo + size] == buffer[at..at + size]))
  {
    hide Polled, BootBits, SdhcInstance.FlagsAgree;
    ghost var before := inst.host.issued;
    ghost var due := StopDue(cmd, inst.lastSuccess);
    ghost var data := DataPhase(cmd, buffer[at..at + size]);
    status := inst.SendDataCommand(cmd, lba, size, buffer, at);
    if !status.Failed() {
      SentAt(before, cmd, lba, data, due, inst.RcaArg(), inst.host.issued, inst.Poll());
      assert buffer[at..at + size] == buffer[..][at..at + size];
    }
  }

  /** Up to three attempts at one chunk. `starts` are the places in the host's record where they begin. */
  method TryChunk(inst: SdhcInstance, cmd: Command, lba: Word32, size: nat, buffer: array<Byte>, at: nat)
    returns (status: Status, ghost starts: seq<nat>)
    requires inst.Valid() && inst.attempts <= RECOVERY_THRESHOLD
    requires IsBlockRead(cmd) || IsBlockWrite(cmd)
    requires buffer != inst.blockBuffer && at + size <= buffer.Length
    requires inst.lastSuccess.Some?
    modifies inst, inst.host, inst.db, inst.blockBuffer, buffer
    ensures inst.Valid() && inst.Kept() && inst.KeepsSelection() && inst.KeepsBootBits() && inst.CountForgotten()
    ensures 1 <= |starts| <= COMMAND_RETRIES && (status.Failed() ==> |starts| == COMMAND_RETRIES && inst.Excused())
    ensures starts[0] == |old(inst.host.issued)| && forall i, j | 0 <= i < j < |starts| :: starts[i] < starts[j]
    ensures forall i | 0 <= i < |starts| :: TriedAt(inst.host.issued, starts[i], cmd, lba)
    ensures !status.Failed() ==>
              inst.lastSuccess == Some(SEND_STATUS) && MovedAt(inst.host.issued, starts[|starts| - 1], size)
    ensures !status.Failed() && IsMultiBlock(cmd) && old(inst.lastSuccess) != Some(SET_BLOCK_COUNT)
            ==> StoppedAt(inst.host.issued, starts[|starts| - 1])
    ensures SameOutside(old(buffer[..]), buffer[..], at, at + size)
    ensures IsBlockWrite(cmd) ==> buffer[..] == old(buffer[..])
    ensures old(inst.InUserArea(cmd, lba, size)) ==>
              inst.InUserArea(cmd, lba, size) &&
              (var lo := lba as int * BLOCK_BYTES;
               (if IsBlockRead(cmd) then inst.host.userArea == old(inst.host.userArea)
                else SameOutside(old(inst.host.userArea), inst.host.userArea, lo, lo + size)) &&
               (!status.Failed() ==> inst.host.userArea[lo..lo + size] == buffer[at..at + size]))
  {
    hide BootBits, PartitionAccess, Latest, Previous, SdhcInstance.FlagsAgree;
    var retry := 0;
    status, starts := Success, [];
    while retry < COMMAND_RETRIES
      invariant retry == |starts| <= COMMAND_RETRIES
      invariant retry > 0 ==> status.Failed() && inst.Excused() && starts[0] == |old(inst.host.issued)|
      invariant retry == 0 ==> inst.host.issued == old(inst.host.issued)
      invariant forall i, j | 0 <= i < j < |starts| :: starts[i] < starts[j]
      invariant forall i | 0 <= i < |starts| :: TriedAt(inst.host.issued, starts[i], cmd, lba)
      invariant inst.Valid() && inst.Kept() && inst.KeepsSelection() && inst.KeepsBootBits()
      invariant inst.CountForgotten() && inst.lastSuccess.Some?
      invariant SameOutside(old(buffer[..]), buffer[..], at, at + size)
      invariant IsBlockWrite(cmd) ==> buffer[..] == old(buffer[..])
      invariant old(inst.InUserArea(cmd, lba, size)) ==>
                  inst.InUserArea(cmd, lba, size) &&
                  var lo := lba as int * BLOCK_BYTES;
                  if IsBlockRead(cmd) then inst.host.userArea == old(inst.host.userArea)
                  else SameOutside(old(inst.host.userArea), inst.host.userArea, lo, lo + size)
    {
      starts := starts + [|inst.host.issued|];
      status := Attempt(inst, cmd, lba, size, buffer, at);
      if !status.Failed() {
        break;
      }
      retry := retry + 1;
    }
  }

  /** The bytes `data` fill the card's user area from block `lba`. */
  ghost predicate Holds(userArea: seq<Byte>, lba: nat, data: seq<Byte>) {
    lba * BLOCK_BYTES + |data| <= |userArea| &&
    userArea[lba * BLOCK_BYTES..lba * BLOCK_BYTES + |data|] == data
  }

  /** What a run knows of one chunk: whether an attempt succeeded, and where the last attempt begins in
      the host's record. */
  datatype Attempted = Attempted(chunk: Chunk, ok: bool, start: nat)

  ghost predicate AllMoved(trail: seq<Attempted>) {
    forall i | 0 <= i < |trail| :: trail[i].ok
  }

  /** The user area contains the whole request, and its block numbers fit UINT32. */
  ghost predicate RequestFits(r: Request, userArea: seq<Byte>) {
    r.lba * BLOCK_BYTES + r.size <= |userArea| && r.lba + r.size / BLOCK_BYTES <= TWO32
  }

  /** Card and buffer before the request and `moved` bytes into it. */
  ghost predicate Progress(r: Request, area0: seq<Byte>, buf0: seq<Byte>, area: seq<Byte>, buf: seq<Byte>,
                           moved: nat, allMoved: bool)
  {
    SameOutside(area0, area, r.lba * BLOCK_BYTES, r.lba * BLOCK_BYTES + moved) &&
    SameOutside(buf0, buf, 0, moved) &&
    (r.direction == Read ==> area == area0) &&
    (r.direction != Read ==> buf == buf0) &&
    (allMoved ==> moved <= |buf| && Holds(area, r.lba, buf[..moved]))
  }

  /** One more chunk of `size` bytes. */
  lemma ProgressStep(r: Request, area0: seq<Byte>, buf0: seq<Byte>, area: seq<Byte>, buf: seq<Byte>,
                     moved: nat, allMoved: bool, area': seq<Byte>, buf': seq<Byte>, size: nat, ok: bool)
    requires Progress(r, area0, buf0, area, buf, moved, allMoved)
    requires r.lba * BLOCK_BYTES + moved + size <= |area| && moved + size <= |buf|
    requires SameOutside(buf, buf', moved, moved + size)
    requires r.direction != Read ==> buf' == buf
    requires if r.direction == Read then area' == area
             else SameOutside(area, area', r.lba * BLOCK_BYTES + moved, r.lba * BLOCK_BYTES + moved + size)
    requires ok ==> var lo := r.lba * BLOCK_BYTES + moved; area'[lo..lo + size] == buf'[moved..moved + size]
    ensures Progress(r, area0, buf0, area', buf', moved + size, allMoved && ok)
  {
    if allMoved && ok {
      var lo := r.lba * BLOCK_BYTES;
      assert buf'[..moved] == buf[..moved];
      assert area'[lo..lo + moved] == area[lo..lo + moved];
      assert buf'[..moved + size] == buf'[..moved] + buf'[moved..moved + size];
      assert area'[lo..lo + moved + size] == area'[lo..lo + moved] + area'[lo + moved..lo + moved + size];
    }
  }

  /** The trail covers the first chunks of the request: each was tried, later than the one before it, those
      that succeeded had their data moved, and every multi-block success that follows another success was ended
      by STOP_TRANSMISSION. */
  ghost predicate Trail(trail: seq<Attempted>, done: seq<Chunk>, issued: seq<Event>, cmd: Command) {
    |trail| == |done| &&
    (forall i | 0 <= i < |trail| ::
       trail[i].chunk == done[i] && TriedAt(issued, trail[i].start, cmd, trail[i].chunk.lba) &&
       (trail[i].ok ==> MovedAt(issued, trail[i].start, trail[i].chunk.size))) &&
    (forall i, j | 0 <= i < j < |trail| ::
       trail[i].start < trail[j].start &&
       (trail[i].ok && trail[j].ok && IsMultiBlock(cmd) ==> StoppedAt(issued, trail[j].start)))
  }

  lemma TrailStep(trail: seq<Attempted>, done: seq<Chunk>, issued: seq<Event>, issued': seq<Event>,
                  cmd: Command, next: Attempted)
    requires Trail(trail, done, issued, cmd) && issued <= issued' && |issued| <= next.start
    requires TriedAt(issued', next.start, cmd, next.chunk.lba)
    requires next.ok ==> MovedAt(issued', next.start, next.chunk.size)
    requires !AllFailed(trail) && next.ok && IsMultiBlock(cmd) ==> StoppedAt(issued', next.start)
    ensures Trail(trail + [next], done + [next.chunk], issued', cmd)
  {
  }

  lemma AllMovedStep(trail: seq<Attempted>, next: Attempted)
    ensures AllMoved(trail + [next]) <==> AllMoved(trail) && next.ok
  {
    if AllMoved(trail + [next]) {
      forall i | 0 <= i < |trail| ensures trail[i].ok {
        assert (trail + [next])[i].ok;
      }
      assert (trail + [next])[|trail|].ok;
    }
  }

  ghost predicate AllFailed(trail: seq<Attempted>) {
    forall i | 0 <= i < |trail| :: !trail[i].ok
  }

  /** How an accepted request ends. The status is that of the last chunk alone; when every chunk
      tried succeeded in the user area, buffer and card agree up to the last of them, and nothing else
      changed. A fault (the division by a block size that a soft reset cleared) ends the run early;
      otherwise all chunks are tried. */
  ghost predicate Outcome(inst: SdhcInstance, r: Request, cmd: Command, max: nat, buffer: array<Byte>, start: Start,
                          status: Status, faulted: bool, trail: seq<Attempted>)
    reads inst, inst.host, buffer
  {
    max > 0 &&
    var chunks := Chunks(r.lba % TWO32, 0, r.size, max);
    0 < |trail| <= |chunks| &&
    Trail(trail, chunks[..|trail|], inst.host.issued, cmd) &&
    (faulted ==> inst.softResets > start.softResets) &&
    (!faulted ==>
       |trail| == |chunks| && EndOf(chunks) == r.size && (status.Failed() <==> !trail[|trail| - 1].ok)) &&
    (start.OnCard(r) ==>
       Progress(r, start.area, start.buffer, inst.host.userArea, buffer[..],
                EndOf(chunks[..|trail|]), AllMoved(trail)))
  }

  /** Where the last chunk ends. */
  function EndOf(chunks: seq<Chunk>): nat {
    if chunks == [] then 0 else chunks[|chunks| - 1].offset + chunks[|chunks| - 1].size
  }

  /** MaxTransferSize, a UINT32 product. */
  function MaxTransferSize(inst: SdhcInstance): Word32 {
    (inst.maxBlockCount * BLOCK_BYTES) % TWO32
  }

  lemma WholeBlocksTruncated(n: nat)
    requires n % BLOCK_BYTES == 0
    ensures n % TWO32 % BLOCK_BYTES == 0
  {
    var blocks, wraps := n / BLOCK_BYTES, n / TWO32;
    assert n % TWO32 == BLOCK_BYTES * (blocks - 0x80_0000 * wraps);
  }

  lemma AcceptedFacts(media: Media, r: Request)
    requires Check(media, r) == Accepted
    ensures media.present && media.blockSize != 0
    ensures media.blockSize == BLOCK_BYTES ==> Truncated(r).size % BLOCK_BYTES == 0
    ensures r.direction != DirectionUndefined && media.blockSize == BLOCK_BYTES ==>
              var cmd := CommandFor(r.direction, r.size / BLOCK_BYTES % TWO32);
              Fits(cmd, r.direction) && (cmd.transfer == SingleBlock ==> Truncated(r).size == BLOCK_BYTES)
  {
    if media.blockSize == BLOCK_BYTES {
      WholeBlocksTruncated(r.size);
      if r.direction != DirectionUndefined {
        CommandForBlocks(r.direction, r.size / BLOCK_BYTES % TWO32);
        OneBlockKept(r.size);
      }
    }
  }

  /** A block count of one that was truncated is the count of what is moved. */
  lemma OneBlockKept(n: nat)
    requires n % BLOCK_BYTES == 0
    ensures n / BLOCK_BYTES % TWO32 == 1 ==> n % TWO32 == BLOCK_BYTES
  {
    var blocks := n / BLOCK_BYTES;
    if blocks % TWO32 == 1 {
      var wraps := blocks / TWO32;
      assert n == TWO32 * (BLOCK_BYTES * wraps) + BLOCK_BYTES;
    }
  }

  /** That product is 0 exactly for block counts that are multiples of 2^23. */
  lemma MaxTransferWrapsExactly(inst: SdhcInstance)
    ensures MaxTransferSize(inst) == 0 <==> inst.maxBlockCount % 0x80_0000 == 0
  {
    var count := inst.maxBlockCount;
    assert count * BLOCK_BYTES % TWO32 == count % 0x80_0000 * BLOCK_BYTES by {
      var wraps := count / 0x80_0000;
      assert count * BLOCK_BYTES == wraps * TWO32 + count % 0x80_0000 * BLOCK_BYTES;
    }
  }

  /** No more blocks are moved than were counted. */
  lemma TruncatedBlocks(n: nat)
    requires n % BLOCK_BYTES == 0
    ensures n % TWO32 / BLOCK_BYTES <= n / BLOCK_BYTES % TWO32
  {
    var blocks := n / BLOCK_BYTES;
    var wraps := n / TWO32;
    assert n % TWO32 == BLOCK_BYTES * (blocks - 0x80_0000 * wraps);
    assert n % TWO32 / BLOCK_BYTES == blocks - 0x80_0000 * wraps;
    var counted := blocks / TWO32;
    assert 0x200 * counted <= wraps;
  }

  /** Every chunk of an accepted request whose last block number does not wrap round lies on the device,
      and the chunks tile what is moved of the request. */
  lemma AcceptedChunksLieOnDevice(media: Media, r: Request, max: nat)
    requires r.Representable() && media.blockSize == BLOCK_BYTES && media.lastBlock < TWO32
    requires Check(media, r) == Accepted && r.lba + r.size / BLOCK_BYTES % TWO32 <= TWO64
    requires max > 0 && max % BLOCK_BYTES == 0
    ensures var chunks := Chunks(r.lba % TWO32, 0, r.size % TWO32, max);
            Tiles(chunks, r.lba, 0, r.size % TWO32, max) &&
            forall c | c in chunks :: c.lba + c.size / BLOCK_BYTES <= media.lastBlock + 1
  {
    hide Tiles, Chunks;
    var counted, moved := r.size / BLOCK_BYTES % TWO32, r.size % TWO32;
    WholeBlocksTruncated(r.size);
    TruncatedBlocks(r.size);
    CountedBlocksOnDevice(media, r);
    var chunks := Chunks(r.lba % TWO32, 0, moved, max);
    if moved == 0 {
      NoChunks(r.lba % TWO32, max);
      NoTiles(r.lba, 0, max);
      return;
    }
    ChunksTile(r.lba % TWO32, 0, moved, max);
    forall c | c in chunks ensures c.lba + c.size / BLOCK_BYTES <= media.lastBlock + 1 {
      TileEnds(chunks, r.lba, moved, max, c);
    }
  }

  lemma CountedBlocksOnDevice(media: Media, r: Request)
    requires r.Representable() && media.blockSize == BLOCK_BYTES && media.lastBlock < TWO32
    requires Check(media, r) == Accepted && r.lba + r.size / BLOCK_BYTES % TWO32 <= TWO64
    ensures r.size % BLOCK_BYTES == 0 && r.lba + r.size / BLOCK_BYTES % TWO32 <= media.lastBlock + 1
    ensures r.size / BLOCK_BYTES % TWO32 > 0 ==> r.lba < TWO32
  {
    var counted := r.size / BLOCK_BYTES % TWO32;
    if r.lba + counted > 0 {
      assert (r.lba + counted - 1) % TWO64 == r.lba + counted - 1;
    }
  }

  /** A tile ends at a block no later than the tiled range does. */
  lemma TileEnds(chunks: seq<Chunk>, lba: nat, end: nat, max: nat, c: Chunk)
    requires Tiles(chunks, lba, 0, end, max) && end % BLOCK_BYTES == 0 && c in chunks
    ensures c.lba + c.size / BLOCK_BYTES <= lba + end / BLOCK_BYTES
  {
    var i :| 0 <= i < |chunks| && chunks[i] == c;
    TileWithin(chunks, lba, end, max, i);
    assert (c.lba * BLOCK_BYTES + c.size) / BLOCK_BYTES == c.lba + c.size / BLOCK_BYTES;
  }

  lemma {:induction false} TileWithin(chunks: seq<Chunk>, lba: nat, end: nat, max: nat, i: nat)
    requires Tiles(chunks, lba, 0, end, max) && i < |chunks|
    ensures chunks[i].offset + chunks[i].size <= end
    decreases |chunks| - i
  {
    if i < |chunks| - 1 {
      TileWithin(chunks, lba, end, max, i + 1);
    }
  }

  /** IoBlocks. */
  method IoBlocks(inst: SdhcInstance, r: Request, buffer: array<Byte>)
    returns (status: Status, faulted: bool, ghost trail: seq<Attempted>)
    requires inst.Valid() && inst.attempts <= RECOVERY_THRESHOLD
    requires r.Representable() && r.direction != DirectionUndefined
    requires buffer.Length == r.size && buffer != inst.blockBuffer
    requires inst.blockIoInstalled && MaxTransferSize(inst) > 0
    modifies inst, inst.host, inst.db, inst.blockBuffer, buffer
    ensures inst.Valid() && inst.Kept() && inst.KeepsSelection() && inst.KeepsBootBits()
    ensures match old(Check(inst.media, r))
            case Refused(refusal) =>
              status == refusal && !faulted && trail == [] &&
              buffer[..] == old(buffer[..]) && inst.host.userArea == old(inst.host.userArea) &&
              inst.host.issued == old(inst.host.issued)
            case Undefined => faulted && inst.host.issued == old(inst.host.issued)
            case Accepted =>
              if Truncated(r).size == 0 then
                trail == [] && !faulted && buffer[..] == old(buffer[..]) &&
                inst.host.userArea == old(inst.host.userArea) && inst.host.issued == old(inst.host.issued)
              else
                Outcome(inst, Truncated(r), CommandFor(r.direction, r.size / BLOCK_BYTES % TWO32),
                        MaxTransferSize(inst), buffer, old(StartOf(inst, buffer)), status, faulted, trail)
  {
    hide Check, Outcome, CommandFor, Fits;
    trail, faulted, status := [], false, Success;
    match Check(inst.media, r) {
      case Refused(refusal) => return refusal, false, [];
      case Undefined => return Success, true, [];
      case Accepted =>
    }
    AcceptedFacts(inst.media, r);
    var moved := Truncated(r);
    if moved.size == 0 {
      status := *; // never assigned on this path
      return;
    }
    var cmd := CommandFor(r.direction, r.size / BLOCK_BYTES % TWO32);
    status, faulted, trail := TransferLoop(inst, moved, cmd, MaxTransferSize(inst), buffer, StartOf(inst, buffer));
  }

  /** The state of the chunk loop, `at` bytes into the request that began with `area0` and `buf0`. */
  ghost predicate Underway(inst: SdhcInstance, r: Request, cmd: Command, buffer: array<Byte>, onCard: bool,
                           area0: seq<Byte>, buf0: seq<Byte>, trail: seq<Attempted>, done: seq<Chunk>, at: nat)
    reads inst, inst.host, buffer
  {
    inst.lastSuccess.Some? && (cmd.transfer == SingleBlock ==> r.size == BLOCK_BYTES) &&
    (!AllFailed(trail) ==> inst.lastSuccess != Some(SET_BLOCK_COUNT)) &&
    Trail(trail, done, inst.host.issued, cmd) &&
    (onCard ==>
      RequestFits(r, inst.host.userArea) && PartitionAccess(inst.host.config) == USER_AREA &&
      Progress(r, area0, buf0, inst.host.userArea, buffer[..], at, AllMoved(trail)))
  }

  /** Where the loop stands: whole blocks on both sides and, on a request whose block numbers fit,
      the block that the offset calls for. */
  ghost predicate Cursor(r: Request, lba: nat, at: nat, remaining: nat) {
    remaining + at == r.size && at % BLOCK_BYTES == 0 && remaining % BLOCK_BYTES == 0 &&
    (r.lba + r.size / BLOCK_BYTES <= TWO32 && remaining > 0 ==> lba * BLOCK_BYTES == r.lba * BLOCK_BYTES + at)
  }

  lemma SmallAdvance(lba: Word32, blocks: nat)
    requires lba + blocks < TWO32
    ensures Advance(lba, blocks) == lba + blocks
  {
  }

  lemma WholeBlocksLeft(a: nat, b: nat)
    requires a % BLOCK_BYTES == 0 && b % BLOCK_BYTES == 0
    ensures (a + b) % BLOCK_BYTES == 0 && (b <= a ==> (a - b) % BLOCK_BYTES == 0)
  {
    var x, y := a / BLOCK_BYTES, b / BLOCK_BYTES;
    assert a + b == BLOCK_BYTES * (x + y);
    assert a - b == BLOCK_BYTES * (x - y);
  }

  lemma NextBlock(lba: nat, first: nat, at: nat, size: nat, total: nat)
    requires lba * BLOCK_BYTES == first * BLOCK_BYTES + at && at + size < total
    requires size % BLOCK_BYTES == 0 && total % BLOCK_BYTES == 0 && first + total / BLOCK_BYTES <= TWO32
    ensures lba + size / BLOCK_BYTES < TWO32
    ensures (lba + size / BLOCK_BYTES) * BLOCK_BYTES == first * BLOCK_BYTES + (at + size)
  {
    var moved, blocks := size / BLOCK_BYTES, total / BLOCK_BYTES;
    assert size == moved * BLOCK_BYTES && total == blocks * BLOCK_BYTES;
  }

  lemma CursorStep(r: Request, lba: Word32, at: nat, remaining: nat, size: nat)
    requires Cursor(r, lba, at, remaining) && 0 < size <= remaining && size % BLOCK_BYTES == 0
    ensures Cursor(r, Advance(lba, size / BLOCK_BYTES), at + size, remaining - size)
  {
    hide Advance;
    WholeBlocksLeft(remaining, size);
    WholeBlocksLeft(at, size);
    WholeBlocksLeft(at, remaining);
    if r.lba + r.size / BLOCK_BYTES <= TWO32 && remaining > size {
      NextBlock(lba, r.lba, at, size, r.size);
      SmallAdvance(lba, size / BLOCK_BYTES);
    }
  }

  /** The chunks done and the chunks to come make up the request. */
  ghost predicate Partway(r: Request, max: nat, done: seq<Chunk>, lba: Word32, at: int, remaining: int)
    requires max > 0
  {
    at >= 0 && remaining >= 0 && Cursor(r, lba, at, remaining) && (at == 0 <==> done == []) && at == EndOf(done) &&
    Chunks(r.lba % TWO32, 0, r.size, max) == done + Chunks(lba, at, remaining, max)
  }

  lemma PartwayStep(r: Request, max: nat, done: seq<Chunk>, lba: Word32, at: nat, remaining: nat, size: nat)
    requires max > 0 && max % BLOCK_BYTES == 0 && Partway(r, max, done, lba, at, remaining)
    requires remaining > 0 && size == ChunkSize(remaining, max)
    ensures Partway(r, max, done + [Chunk(lba, at, size)],
                    Advance(lba, size / BLOCK_BYTES), at + size, remaining - size)
    ensures done + [Chunk(lba, at, size)] == Chunks(r.lba % TWO32, 0, r.size, max)[..|done| + 1]
  {
    var rest := Chunks(Advance(lba, size / BLOCK_BYTES), at + size, remaining - size, max);
    assert done + ([Chunk(lba, at, size)] + rest) == (done + [Chunk(lba, at, size)]) + rest;
    CursorStep(r, lba, at, remaining, size);
  }

  /** The invariant of the chunk loop. */
  ghost predicate LoopState(inst: SdhcInstance, r: Request, cmd: Command, max: nat, buffer: array<Byte>, start: Start,
                            trail: seq<Attempted>, done: seq<Chunk>, lba: Word32, at: int, remaining: int,
                            status: Status)
    reads inst, inst.host, buffer
  {
    max > 0 && Partway(r, max, done, lba, at, remaining) &&
    done <= Chunks(r.lba % TWO32, 0, r.size, max) &&
    (trail != [] ==> (status.Failed() <==> !trail[|trail| - 1].ok)) &&
    Underway(inst, r, cmd, buffer, start.OnCard(r), start.area, start.buffer, trail, done, at)
  }

  /** Card, buffer and soft-reset count when the request came in. */
  datatype Start = Start(inUserArea: bool, area: seq<Byte>, buffer: seq<Byte>, softResets: nat)
  {
    ghost predicate OnCard(r: Request) {
      inUserArea && RequestFits(r, area)
    }
  }

  ghost function StartOf(inst: SdhcInstance, buffer: array<Byte>): Start
    reads inst, inst.host, buffer
  {
    Start(PartitionAccess(inst.host.config) == USER_AREA, inst.host.userArea, buffer[..], inst.softResets)
  }

  lemma LoopStarts(inst: SdhcInstance, r: Request, cmd: Command, max: nat, buffer: array<Byte>, start: Start)
    requires max > 0 && r.size % BLOCK_BYTES == 0 && r.size > 0 && inst.lastSuccess.Some?
    requires cmd.transfer == SingleBlock ==> r.size == BLOCK_BYTES
    requires start.inUserArea ==> PartitionAccess(inst.host.config) == USER_AREA
    requires start.area == inst.host.userArea && start.buffer == buffer[..]
    ensures LoopState(inst, r, cmd, max, buffer, start, [], [], r.lba % TWO32, 0, r.size, Success)
  {
    assert start.OnCard(r) ==> Holds(start.area, r.lba, buffer[..][..0]);
  }

  /** The state after a chunk is the outcome, when the run faults there or nothing remains. */
  lemma LoopEnds(inst: SdhcInstance, r: Request, cmd: Command, max: nat, buffer: array<Byte>, start: Start,
                 trail: seq<Attempted>, done: seq<Chunk>, lba: Word32, at: nat, remaining: nat,
                 status: Status, faulted: bool)
    requires LoopState(inst, r, cmd, max, buffer, start, trail, done, lba, at, remaining, status) && at > 0
    requires if faulted then inst.softResets > start.softResets else remaining == 0
    ensures Outcome(inst, r, cmd, max, buffer, start, status, faulted, trail)
  {
    var all := Chunks(r.lba % TWO32, 0, r.size, max);
    assert done == all[..|done|] && |trail| == |done|;
    if remaining == 0 {
      assert Chunks(lba, at, 0, max) == [];
    }
  }

  /** One iteration of the chunk loop, up to the division by the block size. */
  method MoveChunk(inst: SdhcInstance, r: Request, cmd: Command, max: nat, buffer: array<Byte>,
                   lba: Word32, at: nat, remaining: nat,
                   ghost start: Start, ghost trail: seq<Attempted>, ghost done: seq<Chunk>, ghost before: Status)
    returns (status: Status, size: nat, ghost next: Attempted)
    requires inst.Valid() && inst.attempts <= RECOVERY_THRESHOLD
    requires Fits(cmd, r.direction) && r.size <= buffer.Length && buffer != inst.blockBuffer
    requires max % BLOCK_BYTES == 0 && remaining > 0
    requires LoopState(inst, r, cmd, max, buffer, start, trail, done, lba, at, remaining, before)
    modifies inst, inst.host, inst.db, inst.blockBuffer, buffer
    ensures inst.Valid() && inst.Kept() && inst.KeepsSelection() && inst.KeepsBootBits() && 0 < size <= remaining
    ensures LoopState(inst, r, cmd, max, buffer, start, trail + [next], done + [next.chunk],
                      Advance(lba, size / BLOCK_BYTES), at + size, remaining - size, status)
  {
    hide Chunks, Trail, Progress, Advance, Fits;
    size := ChunkSize(remaining, max);
    PartwayStep(r, max, done, lba, at, remaining, size);
    status, next := TryAndRecord(
      inst, r, cmd, buffer, lba, size, at, start.OnCard(r), start.area, start.buffer, trail, done);
  }

  method TryAndRecord(inst: SdhcInstance, r: Request, cmd: Command, buffer: array<Byte>,
                      lba: Word32, size: nat, at: nat,
                      ghost onCard: bool, ghost area0: seq<Byte>, ghost buf0: seq<Byte>,
                      ghost trail: seq<Attempted>, ghost done: seq<Chunk>)
    returns (status: Status, ghost next: Attempted)
    requires inst.Valid() && inst.attempts <= RECOVERY_THRESHOLD
    requires Fits(cmd, r.direction) && at + size <= r.size <= buffer.Length && buffer != inst.blockBuffer
    requires Underway(inst, r, cmd, buffer, onCard, area0, buf0, trail, done, at)
    requires onCard ==> lba as int * BLOCK_BYTES == r.lba * BLOCK_BYTES + at
    requires cmd.transfer == SingleBlock ==> size == BLOCK_BYTES
    modifies inst, inst.host, inst.db, inst.blockBuffer, buffer
    ensures inst.Valid() && inst.Kept() && inst.KeepsSelection() && inst.KeepsBootBits()
    ensures next.chunk == Chunk(lba, at, size) && next.ok == !status.Failed()
    ensures Underway(inst, r, cmd, buffer, onCard, area0, buf0, trail + [next], done + [next.chunk], at + size)
  {
    ghost var starts;
    ghost var area, buf, issued := inst.host.userArea, buffer[..], inst.host.issued;
    status, starts := TryChunk(inst, cmd, lba, size, buffer, at);
    next := Attempted(Chunk(lba, at, size), !status.Failed(), starts[|starts| - 1]);
    TrailStep(trail, done, issued, inst.host.issued, cmd, next);
    AllMovedStep(trail, next);
    if onCard {
      assert buffer[at..at + size] == buffer[..][at..at + size];
      ProgressStep(r, area0, buf0, area, buf, at, AllMoved(trail), inst.host.userArea, buffer[..], size, next.ok);
    }
  }

  /** The chunk loop of an accepted request. */
  method TransferLoop(inst: SdhcInstance, r: Request, cmd: Command, max: nat, buffer: array<Byte>, ghost start: Start)
    returns (status: Status, faulted: bool, ghost trail: seq<Attempted>)
    requires inst.Valid() && inst.attempts <= RECOVERY_THRESHOLD
    requires Fits(cmd, r.direction) && 0 < r.size < TWO32 && (cmd.transfer == SingleBlock ==> r.size == BLOCK_BYTES)
    requires r.size % BLOCK_BYTES == 0 && inst.media.blockSize == BLOCK_BYTES
    requires r.size <= buffer.Length && buffer != inst.blockBuffer
    requires inst.lastSuccess.Some? && max > 0 && max % BLOCK_BYTES == 0
    requires start == StartOf(inst, buffer)
    modifies inst, inst.host, inst.db, inst.blockBuffer, buffer
    ensures inst.Valid() && inst.Kept() && inst.KeepsSelection() && inst.KeepsBootBits()
    ensures Outcome(inst, r, cmd, max, buffer, start, status, faulted, trail)
  {
    hide LoopState, Outcome, Advance, Fits;
    trail, faulted, status := [], false, Success;
    var remaining, at, lba: Word32 := r.size, 0, r.lba % TWO32;
    ghost var done := [];
    LoopStarts(inst, r, cmd, max, buffer, start);
    while remaining > 0
      invariant 0 <= remaining && 0 <= at && (at == 0 ==> remaining > 0)
      invariant inst.Valid() && inst.Kept() && inst.KeepsSelection() && inst.KeepsBootBits()
      invariant LoopState(inst, r, cmd, max, buffer, start, trail, done, lba, at, remaining, status)
    {
      ghost var next;
      var size;
      status, size, next := MoveChunk(inst, r, cmd, max, buffer, lba, at, remaining, start, trail, done, status);
      trail, done := trail + [next], done + [next.chunk];
      if inst.media.blockSize == 0 {
        faulted := true;
        LoopEnds(inst, r, cmd, max, buffer, start, trail, done,
                 Advance(lba, size / BLOCK_BYTES), at + size, remaining - size, status, true);
        return;
      }
      remaining, at, lba := remaining - size, at + size, Advance(lba, size / inst.media.blockSize);
    }
    LoopEnds(inst, r, cmd, max, buffer, start, trail, done, lba, at, remaining, status, false);
  }
}
