/** The firmware-volume block service: a volume in memory, seen through its block map, and written
    back to disk (VarBlockService.c and VarBlockServiceDxe.c). */
module FvVolume {
  import opened Wrappers
  import opened Bytes
  import opened EfiStatus
  import opened FvBlockMap
  import opened FvAttributes
  import opened FvHeader
  import opened FvErase

  /** EFI_DISK_IO_PROTOCOL, and the device path by which it is found. A failed write may leave anything in the
      addressed range. */
  class Disk {
    var bytes: seq<Byte>

    // How often the disk was not found, or did not take a write.
    ghost var failures: nat

    constructor (bytes: seq<Byte>)
      ensures this.bytes == bytes && failures == 0
    {
      this.bytes, failures := bytes, 0;
    }

    /** LocateDevicePath and HandleProtocol. */
    method Find() returns (status: Status)
      modifies this`failures
      ensures failures == old(failures) + if status.Failed() then 1 else 0
    {
      status := *;
      failures := failures + if status.Failed() then 1 else 0;
    }

    method WriteDisk(at: nat, data: seq<Byte>) returns (status: Status)
      modifies this
      ensures failures == old(failures) + if status.Failed() then 1 else 0
      ensures SameOutside(old(bytes), bytes, at, at + |data|)
      ensures !status.Failed() ==> at + |data| <= |bytes| && bytes[at..at + |data|] == data
    {
      status := *;
      var garbled: seq<Byte> := *;
      if at + |data| > |bytes| {
        status := InvalidParameter;
      } else if !status.Failed() {
        bytes := Put(bytes, at, data);
      } else if SameOutside(bytes, garbled, at, at + |data|) {
        bytes := garbled;
      }
      failures := failures + if status.Failed() then 1 else 0;
    }
  }

  /** A handle that DiskIo was installed on, as OnDiskIoInstall sees it. */
  datatype DiskHandle = DiskHandle(
    disk: Disk, isBoot: bool, hasBlockIo: bool, present: bool, readOnly: bool, mediaId: Word32)

  /** EFI_FW_VOL_INSTANCE. `memory` is the volume at `fvBase`; its header lies in its first bytes. */
  class FvInstance {
    const fvBase: nat
    const memory: array<Byte>
    const diskOffset: nat
    var numOfBlocks: nat
    var device: Disk?
    var mediaId: Word32
    var dirty: bool

    ghost predicate Ready()
      reads memory
    {
      Usable(memory[..]) && fvBase + memory.Length <= TWO64
    }

    /** Once the disk is known and nothing is dirty, the disk holds the volume. */
    ghost predicate Coherent()
      reads this, memory, device
    {
      device != null && !dirty ==>
        diskOffset + memory.Length <= |device.bytes| &&
        device.bytes[diskOffset..diskOffset + memory.Length] == memory[..]
    }

    constructor (memory: array<Byte>, fvBase: nat, diskOffset: nat)
      ensures this.memory == memory && this.fvBase == fvBase && this.diskOffset == diskOffset
      ensures device == null && !dirty && numOfBlocks == 0
    {
      this.memory, this.fvBase, this.diskOffset := memory, fvBase, diskOffset;
      numOfBlocks, device, mediaId, dirty := 0, null, 0, false;
    }

    // ------------------------------------------------------------------ the walk

    /** FvbGetLbaAddress, over any closed map. UINTN sums are taken modulo 2^64. */
    method GetLbaAddress(lba: nat) returns (status: Status, address: nat, length: nat, left: nat)
      requires Terminated(memory[..], 0)
      ensures match Walk(Entries(memory[..], 0), lba)
              case None => status == InvalidParameter
              case Some(f) =>
                status == Success && address == (fvBase + f.offset) % TWO64 && length == f.length && left == f.left
    {
      hide U32At, U16At, Table, Sum;
      var k: nat, startLba: nat, offset: nat := 0, 0, 0;
      ghost var m := memory[..];
      ghost var found := Walk(Entries(m, 0), lba);
      while true
        invariant Terminated(m, k) && startLba <= lba
        invariant match Walk(Entries(m, k), lba - startLba)
                  case None => found == None
                  case Some(f) => found == Some(f.(offset := offset + f.offset))
        decreases |m| - k
      {
        var entry := EntryAt(memory[..], k);
        if entry.numBlocks == 0 || entry.length == 0 {
          return InvalidParameter, 0, 0, 0;
        }
        assert Entries(m, k)[1..] == Entries(m, k + 1);
        var nextLba := startLba + entry.numBlocks;
        if lba >= startLba && lba < nextLba {
          offset := offset + (lba - startLba) * entry.length;
          return Success, (fvBase + offset) % TWO64, entry.length, nextLba - lba;
        }
        startLba := nextLba;
        offset := offset + (entry.numBlocks * entry.length) % TWO32;
        k := k + 1;
      }
    }

    /** In a usable volume the walk finds exactly the table's blocks, each where it begins. */
    method LocateBlock(lba: nat) returns (status: Status, at: nat, length: nat)
      requires Ready()
      ensures if lba < |Blocks(memory[..])|
              then status == Success && at == BlockStart(Blocks(memory[..]), lba) && length == Blocks(memory[..])[lba]
              else status == InvalidParameter
    {
      hide Terminated, Entries, Table, Sum, Walk, MapEnd, BlockStart;
      var address, left;
      status, address, length, left := GetLbaAddress(lba);
      at := 0;
      WalkFindsBlock(Entries(memory[..], 0), lba);
      if status == Success {
        WalkExact(Entries(memory[..], 0), lba);
        BlockInside(memory[..], lba);
        BlockNotEmpty(Entries(memory[..], 0), lba);
        NoWrap(fvBase + BlockStart(Blocks(memory[..]), lba));
        at := address - fvBase;
      }
    }

    // ------------------------------------------------------------------ read, write, erase, attributes

    /** FvbProtocolRead. */
    method Read(lba: nat, offset: nat, numBytes: nat, buffer: array?<Byte>) returns (status: Status, moved: nat)
      requires Ready() && (buffer != null ==> numBytes <= buffer.Length && buffer != memory)
      modifies buffer
      ensures match Plan(old(memory[..]), READ_STATUS, lba, offset, numBytes, buffer != null)
              case Reject(why) =>
                status == why && moved == numBytes && (buffer != null ==> buffer[..] == old(buffer[..]))
              case Move(at, count, how) =>
                status == how && moved == count && count <= numBytes && at + count <= memory.Length &&
                buffer[..count] == old(memory[at..at + count]) && buffer[count..] == old(buffer[count..])
    {
      hide Terminated, Entries, Table, Sum, MapEnd, Walk;
      moved := numBytes;
      if buffer == null || numBytes == 0 {
        return InvalidParameter, moved;
      }
      var at, length;
      status, at, length := LocateBlock(lba);
      if status.Failed() {
        return;
      }
      if AttributesIn(memory[..]) & READ_STATUS == 0 {
        return AccessDenied, moved;
      }
      if offset > length {
        return InvalidParameter, moved;
      }
      BlockInside(memory[..], lba);
      if length < numBytes + offset {
        moved := length - offset;
        status := BadBufferSize;
      }
      var source := at + offset;
      forall i | 0 <= i < moved {
        buffer[i] := memory[source + i];
      }
      assert buffer[..moved] == memory[source..source + moved];
      assert forall i | moved <= i < buffer.Length :: buffer[i] == old(buffer[..])[i];
      assert buffer[moved..] == old(buffer[..])[moved..] == old(buffer[moved..]);
    }

    /** FvbProtocolWrite. */
    method Write(lba: nat, offset: nat, numBytes: nat, buffer: array?<Byte>) returns (status: Status, moved: nat)
      requires Ready() && (buffer != null ==> numBytes <= buffer.Length && buffer != memory)
      modifies memory, this`dirty
      ensures match Plan(old(memory[..]), WRITE_STATUS, lba, offset, numBytes, buffer != null)
              case Reject(why) =>
                status == why && moved == numBytes && memory[..] == old(memory[..]) && dirty == old(dirty)
              case Move(at, count, how) =>
                status == how && moved == count && count <= numBytes && at + count <= memory.Length &&
                memory[..] == Put(old(memory[..]), at, buffer[..count]) && dirty
    {
      hide Terminated, Entries, Table, Sum, MapEnd, Walk;
      moved := numBytes;
      if buffer == null || numBytes == 0 {
        return InvalidParameter, moved;
      }
      var at, length;
      status, at, length := LocateBlock(lba);
      if status.Failed() {
        return;
      }
      if AttributesIn(memory[..]) & WRITE_STATUS == 0 {
        return AccessDenied, moved;
      }
      if offset > length {
        return InvalidParameter, moved;
      }
      BlockInside(memory[..], lba);
      if length < numBytes + offset {
        moved := length - offset;
        status := BadBufferSize;
      }
      VarStoreWrite(at + offset, buffer[..moved]);
    }

    /** VarStoreWrite. */
    method VarStoreWrite(at: nat, data: seq<Byte>)
      requires at + |data| <= memory.Length
      modifies memory, this`dirty
      ensures memory[..] == Put(old(memory[..]), at, data) && dirty
    {
      forall i | 0 <= i < |data| {
        memory[at + i] := data[i];
      }
      dirty := true;
    }

    /** VarStoreErase. */
    method VarStoreErase(at: nat, length: nat)
      requires at + length <= memory.Length
      modifies memory, this`dirty
      ensures memory[..] == Put(old(memory[..]), at, seq(length, _ => 0xFF)) && dirty
    {
      forall i | at <= i < at + length {
        memory[i] := 0xFF;
      }
      dirty := true;
    }

    /** FvbEraseBlock. */
    method EraseBlock(lba: nat) returns (status: Status)
      requires Ready()
      modifies memory, this`dirty
      ensures status == (if AttributesIn(old(memory[..])) & WRITE_STATUS == 0 then AccessDenied
                         else if lba < |Blocks(old(memory[..]))| then Success else InvalidParameter)
      ensures if status == Success then
                var table := Blocks(old(memory[..]));
                BlockStart(table, lba) + table[lba] <= memory.Length && dirty &&
                memory[..] == Put(old(memory[..]), BlockStart(table, lba), seq(table[lba], _ => 0xFF))
              else memory[..] == old(memory[..]) && dirty == old(dirty)
    {
      if AttributesIn(memory[..]) & WRITE_STATUS == 0 {
        return AccessDenied;
      }
      var at, length;
      status, at, length := LocateBlock(lba);
      if status.Failed() {
        return;
      }
      BlockInside(memory[..], lba);
      VarStoreErase(at, length);
    }

    /** FvbSetVolumeAttributes. It leaves the dirty flag alone. */
    method SetAttributes(request: bv32) returns (status: Status, now: bv32)
      requires Ready()
      modifies memory
      ensures status == Verdict(AttributesIn(old(memory[..])), request)
      ensures if status == Success then
                now == Updated(AttributesIn(old(memory[..])), request) &&
                memory[..] == Put(old(memory[..]), ATTRIBUTES_AT, WordBytes(now))
              else memory[..] == old(memory[..])
    {
      hide Terminated, Entries, Table, Sum, MapEnd, Walk;
      var word := AttributesIn(memory[..]);
      status, now := Verdict(word, request), word;
      if status == Success {
        now := Updated(word, request);
        var bytes := WordBytes(now);
        forall i | 0 <= i < 4 {
          memory[ATTRIBUTES_AT + i] := bytes[i];
        }
      }
    }

    /** The first pass of FvbProtocolEraseBlocks. */
    method CheckRanges(ranges: seq<Range>) returns (ok: bool)
      ensures ok <==> Passes(ranges, numOfBlocks)
    {
      for k := 0 to |ranges|
        invariant Passes(ranges[..k], numOfBlocks)
      {
        if ranges[k].count == 0 || (ranges[k].lba + ranges[k].count) % TWO64 > numOfBlocks {
          assert !RangeAccepted(ranges[k], numOfBlocks);
          return false;
        }
        assert RangeAccepted(ranges[k], numOfBlocks);
      }
      return true;
    }

    /** FvbProtocolEraseBlocks, on ranges that stay clear of the header: exactly the blocks of the
        specified erasure become 0xFF, and nothing else changes. */
    method EraseBlocks(ranges: seq<Range>) returns (status: Status)
      requires Ready() && AvoidsHeader(memory[..], ranges)
      modifies memory, this`dirty
      ensures var m := old(memory[..]);
              var e := EraseRequest(ranges, numOfBlocks, AttributesIn(m) & WRITE_STATUS != 0, |Blocks(m)|);
              status == e.status && Erasing(m, old(dirty), e.lbas)
    {
      hide Terminated, Entries, Table, Sum, MapEnd, Walk, BlockStart, Lbas, Erased;
      ghost var m, wasDirty := memory[..], dirty;
      ghost var all, writable := AllLbas(ranges), AttributesIn(m) & WRITE_STATUS != 0;
      EraseNothing(m, Blocks(m));
      var ok := CheckRanges(ranges);
      if !ok {
        return InvalidParameter;
      }
      ghost var done: seq<nat> := [];
      for k := 0 to |ranges|
        invariant Erasing(m, wasDirty, done) && done == AllLbas(ranges[..k])
        invariant ValidBlocks(done, |Blocks(m)|) && (done != [] ==> writable)
      {
        AllLbasSplit(ranges, k);
        status, done := EraseRange(ranges[k], m, wasDirty, done, all, writable);
        if status.Failed() {
          ErasureStopped(ranges, numOfBlocks, writable, |Blocks(m)|, status, done);
          return;
        }
      }
      assert ranges[..|ranges|] == ranges;
      ErasureComplete(ranges, numOfBlocks, writable, |Blocks(m)|);
      return Success;
    }

    /** The volume was `m`, and since then the blocks `done` have been erased. */
    ghost predicate Erasing(m: seq<Byte>, wasDirty: bool, done: seq<nat>)
      reads this, memory
    {
      Usable(m) && fvBase + memory.Length <= TWO64 &&
      memory[..] == Erased(m, Blocks(m), done) && SameHeader(m, memory[..]) && dirty == (wasDirty || done != [])
    }

    /** One block of an erase request. */
    method EraseNext(lba: nat, ghost m: seq<Byte>, ghost wasDirty: bool, ghost done: seq<nat>) returns (status: Status)
      requires Erasing(m, wasDirty, done)
      requires lba < |Blocks(m)| ==> HeaderEnd(m) <= BlockStart(Blocks(m), lba)
      modifies memory, this`dirty
      ensures status == (if AttributesIn(m) & WRITE_STATUS == 0 then AccessDenied
                         else if lba < |Blocks(m)| then Success else InvalidParameter)
      ensures Erasing(m, wasDirty, if status == Success then done + [lba] else done)
    {
      HeaderFrame(m, memory[..]);
      status := EraseBlock(lba);
      if status == Success {
        BlockInside(m, lba);
        EraseOneMore(m, Blocks(m), done, lba);
        PutKeepsHeader(m, Erased(m, Blocks(m), done), BlockStart(Blocks(m), lba), seq(Blocks(m)[lba], _ => 0xFF));
      }
    }

    /** The second pass for one range. `all` is the whole list of blocks asked for. */
    method EraseRange(r: Range, ghost m: seq<Byte>, ghost wasDirty: bool, ghost done: seq<nat>, ghost all: seq<nat>,
                      ghost writable: bool)
      returns (status: Status, ghost after: seq<nat>)
      requires Usable(m) && Erasing(m, wasDirty, done) && done + Lbas(r) <= all
      requires writable == (AttributesIn(m) & WRITE_STATUS != 0)
      requires ValidBlocks(done, |Blocks(m)|) && (done != [] ==> writable)
      requires forall lba | lba in all && lba < |Blocks(m)| :: HeaderEnd(m) <= BlockStart(Blocks(m), lba)
      modifies memory, this`dirty
      ensures Erasing(m, wasDirty, after)
      ensures if status.Failed() then StoppedAfter(status, after, all, writable, |Blocks(m)|)
              else after == done + Lbas(r) && ValidBlocks(after, |Blocks(m)|) && (after != [] ==> writable)
    {
      hide FvInstance.Erasing, Blocks, BlockStart, HeaderEnd, AttributesIn, SameHeader, Usable;
      after := done;
      status := Success;
      var lba, count := r.lba, r.count;
      ghost var i := 0;
      assert Lbas(r)[..0] == [] && done + [] == done;
      while count > 0
        invariant i + count == r.count && lba == LbaAt(r, i)
        invariant Erasing(m, wasDirty, after) && after == done + Lbas(r)[..i]
        invariant ValidBlocks(after, |Blocks(m)|) && (after != [] ==> writable) && status == Success
      {
        NextOf(done, r, all, i);
        status := EraseNext(lba, m, wasDirty, after);
        if status.Failed() {
          return;
        }
        after := after + [lba];
        i := i + 1;
        count, lba := count - 1, Increment(lba);
      }
      assert Lbas(r)[..i] == Lbas(r);
    }

    // ------------------------------------------------------------------ start-up

    /** The block count of FvbInitialize. */
    method CountBlocks() returns (count: nat)
      requires CountTerminated(memory[..], 0)
      ensures count == CountFrom(memory[..], 0)
    {
      var k: nat := 0;
      count := 0;
      ghost var m := memory[..];
      while EntryAt(memory[..], k).numBlocks != 0
        invariant CountTerminated(m, k) && count + CountFrom(m, k) == CountFrom(m, 0)
        decreases |m| - k
      {
        count := count + EntryAt(memory[..], k).numBlocks;
        k := k + 1;
      }
    }

    /** The tests that FvbInitialize makes on the header it finds. */
    method CheckHeader(info: MediaInfo) returns (status: Status)
      requires memory.Length >= 0x1_0000
      ensures !status.Failed() <==> Accepted(memory[..], info.blockSize)
    {
      status := ValidateFvHeader(memory[..]);
      if status == Success {
        if U64At(memory[..], FV_LENGTH_AT) != memory.Length || EntryAt(memory[..], 0).length != info.blockSize {
          status := VolumeCorrupted;
        }
      }
    }

    /** FvbInitialize. A kept header must close its map with an entry of zero blocks; its blocks need not
        lie inside the volume, and the volume is ready for service exactly when they do. */
    method Initialize(info: MediaInfo)
      requires info.Valid() && info.fvLength == memory.Length && memory.Length >= 0x1_0000
      requires fvBase + memory.Length <= TWO64
      requires Accepted(memory[..], info.blockSize) ==> CountTerminated(memory[..], 0)
      modifies this`numOfBlocks, this`dirty, memory, info
      ensures Ready() <==> (old(Accepted(memory[..], info.blockSize)) ==> old(Usable(memory[..])))
      ensures ValidateFvHeader(memory[..]) == Success && U64At(memory[..], FV_LENGTH_AT) == memory.Length
      ensures CountTerminated(memory[..], 0) && numOfBlocks == CountFrom(memory[..], 0)
      ensures if old(Accepted(memory[..], info.blockSize)) then memory[..] == old(memory[..]) && dirty == old(dirty)
              else Fresh(memory[..], info.blockSize) && dirty && numOfBlocks == |Blocks(memory[..])|
    {
      hide Terminated, Entries, Table, Sum, MapEnd, WordSum, CountTerminated, CountFrom, HasEmptyBlocks;
      hide AttributesIn, ValidateFvHeader, Usable, Fresh;
      var status := CheckHeader(info);
      if status.Failed() {
        Reinitialise(info);
        FreshIsUsable(memory[..], info.blockSize);
      }
      numOfBlocks := CountBlocks();
      if status.Failed() {
        CountIsTableSize(memory[..], 0);
      }
    }

    /** Erase everything and write the template's header. */
    method Reinitialise(info: MediaInfo)
      requires info.Valid() && info.fvLength == memory.Length && memory.Length >= 0x1_0000
      modifies this`dirty, memory, info
      ensures Fresh(memory[..], info.blockSize) && dirty
      ensures ValidateFvHeader(memory[..]) == Success && U64At(memory[..], FV_LENGTH_AT) == memory.Length
      ensures CountTerminated(memory[..], 0) && !HasEmptyBlocks(memory[..], 0)
    {
      hide Checksummed, Template, ValidateFvHeader, CountTerminated, HasEmptyBlocks, Blocks;
      var status, header := info.GetFvbInfo(memory.Length);
      VarStoreErase(0, memory.Length);
      ghost var erased := memory[..];
      VarStoreWrite(0, header);
      ErasedThenWritten(erased, header);
      FreshVolume(memory[..], memory.Length, info.blockSize);
    }

    // ------------------------------------------------------------------ disk write-back

    /** DoDump: locating the disk may fail, and so may the write. */
    method DoDump(disk: Disk) returns (status: Status)
      modifies disk
      ensures old(disk.failures) <= disk.failures && (status.Failed() <==> disk.failures > old(disk.failures))
      ensures SameOutside(old(disk.bytes), disk.bytes, diskOffset, diskOffset + memory.Length)
      ensures !status.Failed() ==>
                diskOffset + memory.Length <= |disk.bytes| &&
                disk.bytes[diskOffset..diskOffset + memory.Length] == memory[..]
    {
      status := disk.Find();
      if !status.Failed() {
        status := disk.WriteDisk(diskOffset, memory[..]);
      }
    }

    /** DumpVars: on reset, at ready-to-boot and on every image load after it. */
    method DumpVars()
      requires Coherent()
      modifies this`dirty, device
      ensures Coherent() && device == old(device)
      ensures if device == null || !old(dirty) then dirty == old(dirty)
              else old(device.failures) <= device.failures && (dirty <==> device.failures > old(device.failures))
      ensures device != null ==>
                SameOutside(old(device.bytes), device.bytes, diskOffset, diskOffset + memory.Length) &&
                (!old(dirty) ==> device.bytes == old(device.bytes))
    {
      if device == null || !dirty {
        return;
      }
      var status := DoDump(device);
      if !status.Failed() {
        dirty := false;
      }
    }

    /** OnDiskIoInstall: adopt the first suitable disk that takes a dump. */
    method OnDiskIoInstall(handles: seq<DiskHandle>)
      requires Coherent()
      modifies this`device, this`mediaId, set h | h in handles :: h.disk
      ensures Coherent() && dirty == old(dirty)
      ensures old(device) != null ==>
                device == old(device) && device.bytes == old(device.bytes) && device.failures == old(device.failures)
      ensures old(device) == null ==>
                if device == null then RefusedBefore(handles, |handles|) else AdoptedFrom(handles)
    {
      if device != null {
        return;
      }
      for k := 0 to |handles|
        invariant device == null && dirty == old(dirty)
        invariant forall h | h in handles :: old(h.disk.failures) <= h.disk.failures
        invariant RefusedBefore(handles, k)
      {
        var h := handles[k];
        if h.isBoot && h.hasBlockIo && h.present && !h.readOnly {
          var status := DoDump(h.disk);
          if !status.Failed() {
            device, mediaId := h.disk, h.mediaId;
            assert Suitable(handles[k]) && RefusedBefore(handles, k);
            return;
          }
        }
      }
    }

    /** The suitable disks among the first `k` were not found or did not take a dump. */
    twostate predicate RefusedBefore(handles: seq<DiskHandle>, k: nat)
      reads set h | h in handles :: h.disk
    {
      k <= |handles| &&
      forall j | 0 <= j < k && Suitable(handles[j]) :: handles[j].disk.failures > old(handles[j].disk.failures)
    }

    /** The disk and its media are those of a suitable handle, and those before it refused. */
    twostate predicate AdoptedFrom(handles: seq<DiskHandle>)
      reads this, set h | h in handles :: h.disk
    {
      exists k | 0 <= k < |handles| ::
        Suitable(handles[k]) && device == handles[k].disk && mediaId == handles[k].mediaId && RefusedBefore(handles, k)
    }
  }

  /** A present, writable boot device with block I/O. */
  ghost predicate Suitable(h: DiskHandle) {
    h.isBoot && h.hasBlockIo && h.present && !h.readOnly
  }

  /** FvbInitialize keeps a header that validates, states the volume's length and starts its map with
      the platform's block size; any other volume is erased and given the template's header. */
  ghost predicate Accepted(m: seq<Byte>, blockSize: nat)
    requires |m| >= 0x1_0000
  {
    ValidateFvHeader(m) == Success && U64At(m, FV_LENGTH_AT) == |m| && EntryAt(m, 0).length == blockSize
  }

  /** A volume just initialised from the template: its one run of blocks tiles it as far as whole
      blocks go, and everything beyond the header is erased. */
  ghost predicate Fresh(m: seq<Byte>, blockSize: nat)
  {
    0 < blockSize <= |m| && Usable(m) && HeaderEnd(m) == TEMPLATE_BYTES &&
    AttributesIn(m) == TEMPLATE_ATTRIBUTES &&
    Blocks(m) == EqualBlocks(|m| / blockSize, blockSize) &&
    (|m| % blockSize == 0 ==> Sum(Blocks(m)) == |m|) &&
    forall i | TEMPLATE_BYTES <= i < |m| :: m[i] == 0xFF
  }

  function EqualBlocks(count: nat, length: nat): seq<nat> {
    seq(count, _ => length)
  }

  lemma FreshIsUsable(m: seq<Byte>, blockSize: nat)
    requires Fresh(m, blockSize)
    ensures Usable(m) && AttributesIn(m) == TEMPLATE_ATTRIBUTES
  {
  }

  lemma ErasedThenWritten(erased: seq<Byte>, header: seq<Byte>)
    requires |header| <= |erased| && (forall i | 0 <= i < |erased| :: erased[i] == 0xFF)
    ensures var m := Put(erased, 0, header); m[..|header|] == header && forall i | |header| <= i < |m| :: m[i] == 0xFF
  {
    assert Put(erased, 0, header)[..|header|] == Put(erased, 0, header)[0..0 + |header|];
  }

  lemma FreshVolume(m: seq<Byte>, total: nat, blockSize: nat)
    requires 0 < blockSize <= total < TWO32 && |m| == total >= 0x1_0000
    requires m[..TEMPLATE_BYTES] == Checksummed(Template(total, blockSize))
    requires forall i | TEMPLATE_BYTES <= i < |m| :: m[i] == 0xFF
    ensures Fresh(m, blockSize)
    ensures ValidateFvHeader(m) == Success && U64At(m, FV_LENGTH_AT) == total
    ensures CountTerminated(m, 0) && !HasEmptyBlocks(m, 0)
  {
    hide Terminated, Entries, MapEnd, Table, Sum, CountTerminated, HasEmptyBlocks, ValidateFvHeader, AttributesIn;
    hide Checksummed, OneRunHeader;
    PositiveCount(total, blockSize);
    OneRunVolume(m, total, total / blockSize, blockSize);
    FreshBlocks(m, total / blockSize, blockSize);
    FreshSize(total, blockSize);
    FreshCount(m, total / blockSize, blockSize);
  }

  lemma PositiveCount(total: nat, blockSize: nat)
    requires 0 < blockSize <= total < TWO32
    ensures 0 < total / blockSize < TWO32
  {
    var count, rest := total / blockSize, total % blockSize;
    assert total == count * blockSize + rest && rest < blockSize;
    AtLeastFactor(count, blockSize);
  }

  lemma AtLeastFactor(a: int, b: nat)
    requires b > 0
    ensures a >= 1 ==> a * b >= a
    ensures a <= 0 ==> a * b <= 0
  {
  }

  lemma NoWrap(address: nat)
    requires address < TWO64
    ensures address % TWO64 == address
  {
  }

  lemma FreshBlocks(m: seq<Byte>, count: nat, blockSize: nat)
    requires Terminated(m, 0) && Entries(m, 0) == [MapEntry(count, blockSize)]
    ensures Table(Entries(m, 0)) == EqualBlocks(count, blockSize) && Sum(Table(Entries(m, 0))) == count * blockSize
  {
    assert Entries(m, 0)[1..] == [];
    SumRun(count, blockSize);
  }

  lemma FreshSize(total: nat, blockSize: nat)
    requires blockSize > 0
    ensures total / blockSize * blockSize <= total
    ensures total % blockSize == 0 ==> total / blockSize * blockSize == total
  {
  }

  lemma FreshCount(m: seq<Byte>, count: nat, blockSize: nat)
    requires |m| >= TEMPLATE_BYTES && count > 0 && blockSize > 0
    requires Terminated(m, 0) && MapEnd(m, 0) == TEMPLATE_BYTES && Entries(m, 0) == [MapEntry(count, blockSize)]
    requires U32At(m, BLOCK_MAP_AT + ENTRY_BYTES) == 0
    ensures CountTerminated(m, 0) && !HasEmptyBlocks(m, 0)
  {
    assert EntryAt(m, 0) == Entries(m, 0)[0];
    assert EntryAt(m, 1).numBlocks == 0;
    assert CountTerminated(m, 1) && !HasEmptyBlocks(m, 1);
  }

  /** Over blocks that do not fit `size` bytes, the walk finds one that ends beyond. */
  lemma {:induction false} WalkLeaves(es: seq<MapEntry>, size: nat) returns (lba: nat)
    requires size < TWO32 && Sum(Table(es)) > size && forall i | 0 <= i < |es| :: es[i].numBlocks > 0
    ensures match Walk(es, lba)
            case None => false
            case Some(f) => f.offset + f.length > size
  {
    var e, rest := es[0], es[1..];
    SumAppend(seq(e.numBlocks, _ => e.length), Table(rest));
    SumRun(e.numBlocks, e.length);
    if e.numBlocks * e.length > size {
      lba := e.numBlocks - 1;
      LastOfRun(e.numBlocks, e.length);
      assert Walk(es, lba) == Walk([e], lba);
    } else {
      var behind := WalkLeaves(rest, size - e.numBlocks * e.length);
      lba := e.numBlocks + behind;
    }
  }

  /** The walk never leaves the volume exactly when the volume is usable: a closed map that start-up keeps
      is safe to write through if and only if its blocks fit. */
  lemma UsableExactly(m: seq<Byte>)
    requires 0x1_0000 <= |m| < TWO32 && Terminated(m, 0)
    ensures Usable(m) <==>
            forall lba: nat, f :: Walk(Entries(m, 0), lba) == Some(f) ==> f.offset + f.length <= |m|
  {
    hide Terminated, Entries, Table, Sum, Walk;
    var es := Entries(m, 0);
    UsableIfWithin(m, Sum(Table(es)));
    if Usable(m) {
      forall lba: nat, f | Walk(es, lba) == Some(f) ensures f.offset + f.length <= |m| {
        WalkStays(es, lba, |m|);
      }
    } else {
      var lba := WalkLeaves(es, |m|);
    }
  }

  lemma WalkStays(es: seq<MapEntry>, lba: nat, size: nat)
    requires Sum(Table(es)) <= size < TWO32 && Walk(es, lba).Some?
    ensures Walk(es, lba).value.offset + Walk(es, lba).value.length <= size
  {
    hide Walk, Sum, Table;
    WalkFindsBlock(es, lba);
    WalkExact(es, lba);
    BlocksInOrder(Table(es), lba, |Table(es)|);
  }

  /** A volume with a checksummed header of one run is kept whatever the run's length, and is usable
      exactly when the run fits. The walk finds the last block where the run says. */
  lemma OneRunKept(m: seq<Byte>, count: nat, blockSize: nat)
    requires 0x1_0000 <= |m| < TWO32 && 0 < blockSize <= |m| && 0 < count < TWO32
    requires m[..TEMPLATE_BYTES] == Checksummed(OneRunHeader(|m|, count, blockSize))
    ensures Accepted(m, blockSize) && CountTerminated(m, 0) && Terminated(m, 0)
    ensures Usable(m) <==> count * blockSize <= |m|
    ensures match Walk(Entries(m, 0), count - 1)
            case None => false
            case Some(f) => f.offset + f.length == count * blockSize && f.length == blockSize && f.left == 1
  {
    hide Checksummed, OneRunHeader, CountTerminated, HasEmptyBlocks, Terminated, Entries, Walk, Table, Sum, Usable;
    OneRunVolume(m, |m|, count, blockSize);
    FreshBlocks(m, count, blockSize);
    FreshCount(m, count, blockSize);
    FirstEntry(m);
    UsableIfWithin(m, count * blockSize);
    LastOfRun(count, blockSize);
  }

  lemma UsableIfWithin(m: seq<Byte>, size: nat)
    requires 0x1_0000 <= |m| < TWO32 && Terminated(m, 0) && Sum(Table(Entries(m, 0))) == size
    ensures Usable(m) <==> size <= |m|
  {
  }

  lemma LastOfRun(count: nat, blockSize: nat)
    requires count > 0
    ensures match Walk([MapEntry(count, blockSize)], count - 1)
            case None => false
            case Some(f) => f.offset + f.length == count * blockSize && f.length == blockSize && f.left == 1
  {
    var before: nat := count - 1;
    assert count * blockSize == before * blockSize + blockSize;
  }

  /** The platform's header but for one block too many, over erased bytes. */
  function OversizedVolume(): (m: seq<Byte>)
    ensures |m| == 0x1_0000
  {
    Checksummed(OneRunHeader(0x1_0000, 17, 0x1000)) + seq(0x1_0000 - TEMPLATE_BYTES, _ => 0xFF)
  }

  /** It is kept although it is not usable: its last block lies behind it, and the walk finds it there. */
  lemma OversizedVolumeKept()
    ensures Accepted(OversizedVolume(), 0x1000) && CountTerminated(OversizedVolume(), 0)
    ensures !Usable(OversizedVolume()) && Terminated(OversizedVolume(), 0)
    ensures Walk(Entries(OversizedVolume(), 0), 16) == Some(Found(|OversizedVolume()|, 0x1000, 1))
  {
    hide Checksummed, OneRunHeader;
    var m := OversizedVolume();
    assert m[..TEMPLATE_BYTES] == Checksummed(OneRunHeader(0x1_0000, 17, 0x1000));
    OneRunKept(m, 17, 0x1000);
  }

  lemma FirstEntry(m: seq<Byte>)
    requires Terminated(m, 0) && Entries(m, 0) != []
    ensures EntryAt(m, 0) == Entries(m, 0)[0]
  {
  }
}
