/** The OP-TEE shared-memory allocator (OpteeClientMem.c): blocks from the GCD service with in-band
    headers, a fence value over all free bytes that is checked on allocation, and global accounting. */
module SharedMemory {
  import opened Bytes
  import opened EfiStatus

  const PAGE: nat := 0x1000
  const HEADER_BYTES: nat := 32
  const FENCE: Byte := 0xCC

  // Offsets in OPTEE_CLIENT_MEM_HEADER: Signature, (padding,) Owner, Size, Address.
  const SIZE_AT: nat := 16
  const ADDRESS_AT: nat := 24

  /** SIGNATURE_32 ('T', 'E', 'E', 'C'). */
  const SIGNATURE_BYTES: seq<Byte> := [0x54, 0x45, 0x45, 0x43]

  function BlockSize(size: nat): nat {
    HEADER_BYTES + size + (PAGE - 1)
  }

  /** The user address in a block at `base`: past the header, rounded down to a page. */
  function UserAddress(base: nat): nat {
    (base + HEADER_BYTES + (PAGE - 1)) / PAGE * PAGE
  }

  /** For every base and size, the user area is page-aligned and lies in the block behind its header. */
  lemma UserAreaInBlock(base: nat, size: nat)
    ensures UserAddress(base) % PAGE == 0
    ensures base + HEADER_BYTES <= UserAddress(base)
    ensures UserAddress(base) + size <= base + BlockSize(size)
  {
  }

  /** No smaller block would do for every base. */
  lemma BlockIsTight(base: nat, size: nat)
    requires base % PAGE == PAGE - HEADER_BYTES + 1
    ensures UserAddress(base) + size == base + BlockSize(size)
  {
    assert UserAddress(base) == base + HEADER_BYTES + PAGE - 1;
  }

  /** The block size is a UINT64 sum: the user area lies in the block exactly when the sum does not wrap. */
  lemma UserAreaInBlockExactly(base: nat, size: nat)
    requires size < TWO64
    ensures UserAddress(base) + size <= base + BlockSize(size) % TWO64 <==> BlockSize(size) < TWO64
  {
    UserAreaInBlock(base, size);
    if BlockSize(size) >= TWO64 {
      assert BlockSize(size) % TWO64 == BlockSize(size) - TWO64;
    }
  }

  function U64Bytes(v: nat): (b: seq<Byte>)
    requires v < TWO64
    ensures |b| == 8 && U64At(b, 0) == v
  {
    var b := U32Bytes(v % TWO32) + U32Bytes(v / TWO32);
    assert b[..4] == U32Bytes(v % TWO32) && b[4..] == U32Bytes(v / TWO32);
    b
  }

  /** A header: zeroed, then signature, size and address filled in; the owner stays NULL. */
  function HeaderFor(base: nat, blockSize: nat): (h: seq<Byte>)
    requires base < TWO64 && blockSize < TWO64
    ensures |h| == HEADER_BYTES
  {
    SIGNATURE_BYTES + seq(12, _ => 0) + U64Bytes(blockSize) + U64Bytes(base)
  }

  lemma HeaderFields(h: seq<Byte>, base: nat, blockSize: nat)
    requires base < TWO64 && blockSize < TWO64 && h == HeaderFor(base, blockSize)
    ensures h[..4] == SIGNATURE_BYTES && U64At(h, SIZE_AT) == blockSize && U64At(h, ADDRESS_AT) == base
    ensures forall i | 4 <= i < SIZE_AT :: h[i] == 0
  {
    U64Frame(h, SIZE_AT, U64Bytes(blockSize));
    U64Frame(h, ADDRESS_AT, U64Bytes(base));
  }

  lemma U64Frame(m: seq<Byte>, at: nat, b: seq<Byte>)
    requires at + 8 <= |m| && |b| == 8 && m[at..at + 8] == b
    ensures U64At(m, at) == U64At(b, 0)
  {
    assert forall i {:trigger b[i]} | 0 <= i < 8 :: m[at + i] == b[i];
  }

  /** A range of the GCD memory space map. */
  datatype Extent = Extent(base: nat, length: nat)
  {
    predicate Meets(other: Extent) {
      base < other.base + other.length && other.base < base + length
    }
  }

  /** The GCD services over the shared region: what is taken, and to whom it is given next is the
      service's choice. */
  class Gcd {
    const start: nat
    const end: nat
    var taken: set<Extent>

    // How many allocations failed.
    ghost var refusals: nat

    constructor (start: nat, end: nat)
      ensures this.start == start && this.end == end && taken == {}
    {
      this.start, this.end, taken, refusals := start, end, {}, 0;
    }

    /** Success gives a page-aligned range of the region that no range already taken meets. */
    method AllocateMemorySpace(length: nat) returns (status: Status, base: nat)
      modifies this
      ensures refusals == old(refusals) + if status.Failed() then 1 else 0
      ensures if status.Failed() then taken == old(taken)
              else taken == old(taken) + {Extent(base, length)} &&
                   base % PAGE == 0 && start <= base && base + length <= end &&
                   forall e | e in old(taken) :: !e.Meets(Extent(base, length))
    {
      base := *;
      status := OutOfResources;
      if base % PAGE == 0 && start <= base && base + length <= end &&
         forall e | e in taken :: !e.Meets(Extent(base, length))
      {
        status := Success;
        taken := taken + {Extent(base, length)};
      } else {
        refusals := refusals + 1;
      }
    }

    method FreeMemorySpace(base: nat, length: nat) returns (status: Status)
      modifies this
      ensures status.Failed() <==> Extent(base, length) !in old(taken)
      ensures taken == old(taken) - {Extent(base, length)} && refusals == old(refusals)
    {
      status := if Extent(base, length) in taken then Success else NotFound;
      taken := taken - {Extent(base, length)};
    }
  }

  /** A live allocation. */
  datatype Block = Block(base: nat, size: nat)
  {
    function Length(): nat {
      BlockSize(size)
    }

    function User(): nat {
      UserAddress(base)
    }

    function Range(): Extent {
      Extent(base, Length())
    }

    predicate Contains(address: int) {
      base <= address < base + Length()
    }
  }

  function Fences(n: nat): (f: seq<Byte>)
    ensures |f| == n && forall i | 0 <= i < n :: f[i] == FENCE
  {
    seq(n, _ => FENCE)
  }

  function TotalLength(live: seq<Block>): nat {
    if live == [] then 0 else TotalLength(live[..|live| - 1]) + live[|live| - 1].Length()
  }

  function Without<T>(s: seq<T>, k: nat): seq<T>
    requires k < |s|
  {
    s[..k] + s[k + 1..]
  }

  lemma {:induction false} TotalWithout(live: seq<Block>, k: nat)
    requires k < |live|
    ensures TotalLength(Without(live, k)) + live[k].Length() == TotalLength(live)
  {
    var last := |live| - 1;
    if k < last {
      TotalWithout(live[..last], k);
      assert Without(live, k)[..last - 1] == Without(live[..last], k);
      assert Without(live, k)[last - 1] == live[last];
    } else {
      assert Without(live, k) == live[..last];
    }
  }

  /** An allocation, any use of the block and its free leave every byte as it was before. */
  lemma FreeUndoesAllocation(start: nat, before: seq<Byte>, used: seq<Byte>, b: Block)
    requires FencedBlock(start, before, b) && SameOutside(before, used, b.base - start, b.base - start + b.Length())
    ensures Put(used, b.base - start, Fences(b.Length())) == before
  {
  }

  // ------------------------------------------------------------------ what a valid region looks like

  /** The live blocks lie in the region [start, start + length), pairwise apart. */
  ghost predicate Placed(start: nat, length: nat, live: seq<Block>) {
    (forall i | 0 <= i < |live| :: Fits(start, length, live[i])) &&
    forall i, j | 0 <= i < j < |live| :: !live[i].Range().Meets(live[j].Range())
  }

  predicate Fits(start: nat, length: nat, b: Block) {
    b.base % PAGE == 0 && start <= b.base && b.base + b.Length() <= start + length
  }

  /** The block has its header right below its user area. */
  ghost predicate HeaderIn(start: nat, m: seq<Byte>, b: Block) {
    start + HEADER_BYTES <= b.User() <= start + |m| && b.base + b.Length() < TWO64 &&
    m[b.User() - HEADER_BYTES - start..b.User() - start] == HeaderFor(b.base, b.Length())
  }

  /** Region offset `a` belongs to no live block. */
  ghost predicate Outside(start: nat, live: seq<Block>, a: int) {
    forall i | 0 <= i < |live| :: !live[i].Contains(start + a)
  }

  /** Every byte outside the live blocks holds the fence value. */
  ghost predicate Fenced(start: nat, m: seq<Byte>, live: seq<Block>) {
    forall a | 0 <= a < |m| && Outside(start, live, a) :: m[a] == FENCE
  }

  ghost predicate FencedBlock(start: nat, m: seq<Byte>, b: Block) {
    Fits(start, |m|, b) && forall a | b.base - start <= a < b.base - start + b.Length() :: m[a] == FENCE
  }

  ghost predicate Sound(start: nat, m: seq<Byte>, live: seq<Block>) {
    start + |m| < TWO64 && Placed(start, |m|, live) && Fenced(start, m, live) &&
    forall i | 0 <= i < |live| :: HeaderIn(start, m, live[i])
  }

  ghost function Ranges(live: seq<Block>): set<Extent> {
    set b | b in live :: b.Range()
  }

  /** A range that no live block meets is fenced throughout, so the overflow check passes. */
  lemma RangeIsFenced(start: nat, m: seq<Byte>, live: seq<Block>, b: Block)
    requires Sound(start, m, live) && Fits(start, |m|, b)
    requires forall i | 0 <= i < |live| :: !live[i].Range().Meets(b.Range())
    ensures FencedBlock(start, m, b)
  {
    forall a | b.base - start <= a < b.base - start + b.Length() ensures m[a] == FENCE {
      forall i | 0 <= i < |live| ensures !live[i].Contains(start + a) {
        assert !live[i].Range().Meets(b.Range());
      }
      assert Outside(start, live, a);
    }
  }

  /** Bytes of one block change: the headers of the others stay. */
  lemma OtherHeaderKept(start: nat, m: seq<Byte>, m': seq<Byte>, c: Block, b: Block)
    requires HeaderIn(start, m, c) && !c.Range().Meets(b.Range())
    requires start <= b.base && SameOutside(m, m', b.base - start, b.base - start + b.Length())
    ensures HeaderIn(start, m', c)
  {
    UserAreaInBlock(c.base, c.size);
    var lo, hi := c.User() - HEADER_BYTES - start, c.User() - start;
    assert m'[lo..hi] == m[lo..hi];
  }

  lemma BlockBelowTop(start: nat, m: seq<Byte>, live: seq<Block>, b: Block)
    requires Sound(start, m, live) && Fits(start, |m|, b)
    ensures b.base + b.Length() < TWO64
  {
  }

  lemma FencedRegionIsSound(start: nat, m: seq<Byte>)
    requires start + |m| < TWO64 && forall a | 0 <= a < |m| :: m[a] == FENCE
    ensures Sound(start, m, [])
  {
  }

  /** Writing the header of a newly placed block. */
  lemma AddBlock(start: nat, m: seq<Byte>, live: seq<Block>, b: Block)
    requires Sound(start, m, live) && Fits(start, |m|, b)
    requires forall i | 0 <= i < |live| :: !live[i].Range().Meets(b.Range())
    ensures start + HEADER_BYTES <= b.User() <= start + |m|
    ensures Sound(start, Put(m, b.User() - HEADER_BYTES - start, HeaderFor(b.base, b.Length())), live + [b])
  {
    hide HeaderFor, UserAddress;
    UserAreaInBlock(b.base, b.size);
    var at := b.User() - HEADER_BYTES - start;
    var m' := Put(m, at, HeaderFor(b.base, b.Length()));
    var more := live + [b];
    forall i | 0 <= i < |more| ensures Fits(start, |m|, more[i]) && HeaderIn(start, m', more[i]) {
      if i < |live| {
        OtherHeaderKept(start, m, m', live[i], b);
      }
    }
    forall a | 0 <= a < |m'| && Outside(start, more, a) ensures m'[a] == FENCE {
      assert !more[|live|].Contains(start + a);
      forall i | 0 <= i < |live| ensures !live[i].Contains(start + a) {
        assert !more[i].Contains(start + a);
      }
      assert Outside(start, live, a);
    }
  }

  /** Fencing a live block and forgetting it. */
  lemma RemoveBlock(start: nat, m: seq<Byte>, live: seq<Block>, k: nat)
    requires Sound(start, m, live) && k < |live|
    ensures Fits(start, |m|, live[k])
    ensures Sound(start, Put(m, live[k].base - start, Fences(live[k].Length())), Without(live, k))
  {
    hide HeaderFor, UserAddress;
    var b, rest := live[k], Without(live, k);
    var m' := Put(m, b.base - start, Fences(b.Length()));
    forall i | 0 <= i < |rest| ensures Fits(start, |m|, rest[i]) && HeaderIn(start, m', rest[i]) {
      var j := if i < k then i else i + 1;
      assert rest[i] == live[j];
      MeetsSymmetric(live, j, k);
      OtherHeaderKept(start, m, m', live[j], b);
    }
    forall a | 0 <= a < |m'| && Outside(start, rest, a) ensures m'[a] == FENCE {
      if !b.Contains(start + a) {
        forall j | 0 <= j < |live| ensures !live[j].Contains(start + a) {
          if j != k {
            assert live[j] == rest[if j < k then j else j - 1];
          }
        }
        assert Outside(start, live, a);
      }
    }
  }

  lemma MeetsSymmetric(live: seq<Block>, i: nat, j: nat)
    requires i < |live| && j < |live| && i != j
    requires forall i, j | 0 <= i < j < |live| :: !live[i].Range().Meets(live[j].Range())
    ensures !live[i].Range().Meets(live[j].Range())
  {
    if j < i {
      assert !live[j].Range().Meets(live[i].Range());
    }
  }

  /** The client writes inside its own user area. */
  lemma UseBlock(start: nat, m: seq<Byte>, live: seq<Block>, k: nat, offset: nat, data: seq<Byte>)
    requires Sound(start, m, live) && k < |live| && offset + |data| <= live[k].size
    ensures start <= live[k].User() && live[k].User() - start + offset + |data| <= |m|
    ensures Sound(start, Put(m, live[k].User() - start + offset, data), live)
  {
    hide HeaderFor, UserAddress;
    var b := live[k];
    UserAreaInBlock(b.base, b.size);
    var m' := Put(m, b.User() - start + offset, data);
    forall i | 0 <= i < |live| ensures HeaderIn(start, m', live[i]) {
      if i != k {
        MeetsSymmetric(live, i, k);
        OtherHeaderKept(start, m, m', live[i], b);
      } else {
        var lo, hi := b.User() - HEADER_BYTES - start, b.User() - start;
        assert m'[lo..hi] == m[lo..hi];
      }
    }
    forall a | 0 <= a < |m'| && Outside(start, live, a) ensures m'[a] == FENCE {
      assert !live[k].Contains(start + a);
    }
  }

  lemma RangesWithout(live: seq<Block>, k: nat)
    requires k < |live| && forall i, j | 0 <= i < j < |live| :: !live[i].Range().Meets(live[j].Range())
    ensures Ranges(Without(live, k)) == Ranges(live) - {live[k].Range()}
  {
    var rest := Without(live, k);
    forall e | e in Ranges(live) && e != live[k].Range() ensures e in Ranges(rest) {
      var j :| 0 <= j < |live| && live[j].Range() == e;
      assert rest[if j < k then j else j - 1] == live[j];
    }
    forall i | 0 <= i < |rest| ensures rest[i] in live && rest[i].Range() != live[k].Range() {
      var j := if i < k then i else i + 1;
      assert rest[i] == live[j];
      MeetsSymmetric(live, j, k);
    }
  }

  lemma RangesAdd(live: seq<Block>, b: Block)
    ensures Ranges(live + [b]) == Ranges(live) + {b.Range()}
  {
    assert forall c :: c in live + [b] <==> c in live || c == b;
  }

  // ------------------------------------------------------------------ the allocator

  class OpteeClientMem {
    const start: nat
    const memory: array<Byte>
    const gcd: Gcd
    var allocationCount: nat
    var allocSize: nat
    ghost var live: seq<Block>

    ghost predicate Valid()
      reads this, gcd, memory
    {
      start % PAGE == 0 && gcd.start == start && gcd.end == start + memory.Length &&
      Sound(start, memory[..], live) && gcd.taken == Ranges(live) &&
      allocationCount == |live| && allocSize == TotalLength(live)
    }

    /** A fresh region (GcdSharedMemoryInit): the whole of it is fenced. */
    constructor (start: nat, length: nat)
      requires start % PAGE == 0 && start + length < TWO64
      ensures Valid() && live == [] && fresh(memory) && fresh(gcd)
    {
      hide Sound, Fences;
      this.start := start;
      memory := new Byte[length](_ => 0);
      gcd := new Gcd(start, start + length);
      allocationCount, allocSize, live := 0, 0, [];
      new;
      MarkSharedMemoryRegionAsFree(start, length);
      FencedRegionIsSound(start, memory[..]);
    }

    method MarkSharedMemoryRegionAsFree(address: nat, size: nat)
      requires start <= address && address + size <= start + memory.Length
      modifies memory
      ensures memory[..] == Put(old(memory[..]), address - start, Fences(size))
    {
      var mem, end := address, address + size;
      while mem != end
        invariant address <= mem <= end
        invariant forall i | 0 <= i < memory.Length ::
                    memory[i] == if address <= start + i < mem then FENCE else old(memory[i])
        decreases end - mem
      {
        memory[mem - start] := FENCE;
        mem := mem + 1;
      }
    }

    method IsSharedMemoryRegionFree(address: nat, size: nat) returns (free: bool)
      requires start <= address && address + size <= start + memory.Length
      ensures free <==> forall i | address - start <= i < address - start + size :: memory[i] == FENCE
    {
      var mem, end := address, address + size;
      while mem != end
        invariant address <= mem <= end
        invariant forall i | address - start <= i < mem - start :: memory[i] == FENCE
        decreases end - mem
      {
        if memory[mem - start] != FENCE {
          return false;
        }
        mem := mem + 1;
      }
      return true;
    }

    /** InternalMemAlloc; NULL is address 0. A failed allocation changes nothing: the overflow check,
        which would keep the GCD's range, cannot fire. */
    method Alloc(size: nat, alignment: bv64) returns (user: nat)
      requires Valid() && BlockSize(size) < TWO64
      modifies this`allocationCount, this`allocSize, this`live, gcd, memory
      ensures Valid()
      ensures user == 0 <==> !AlignmentAccepted(alignment) || gcd.refusals > old(gcd.refusals)
      ensures user == 0 ==> live == old(live) && memory[..] == old(memory[..])
      ensures user != 0 ==>
                live != [] &&
                var b, m := live[|live| - 1], old(memory[..]);
                live == old(live) + [b] && b.size == size && user == b.User() && FencedBlock(start, m, b) &&
                start + HEADER_BYTES <= user <= start + memory.Length && b.base + b.Length() < TWO64 &&
                memory[..] == Put(m, user - HEADER_BYTES - start, HeaderFor(b.base, b.Length()))
    {
      hide Sound, Placed, HeaderFor, FencedBlock;
      user := 0;
      if !AlignmentAccepted(alignment) {
        return;
      }
      var blockSize := BlockSize(size);
      var status, base := gcd.AllocateMemorySpace(blockSize);
      if status.Failed() {
        return;
      }
      ghost var b := Block(base, size);
      ApartFromLive(live, b);
      RangesAdd(live, b);
      user := Place(base, size);
    }

    /** The rest of an allocation, in a range that no live block meets. */
    method Place(base: nat, size: nat) returns (user: nat)
      requires Sound(start, memory[..], live) && Fits(start, memory.Length, Block(base, size))
      requires forall i | 0 <= i < |live| :: !live[i].Range().Meets(Block(base, size).Range())
      modifies this`allocationCount, this`allocSize, this`live, memory
      ensures var b, m := Block(base, size), old(memory[..]);
              Sound(start, memory[..], live) && live == old(live) + [b] && FencedBlock(start, m, b) &&
              b.base + b.Length() < TWO64 &&
              start + HEADER_BYTES <= user <= start + memory.Length && user == b.User() &&
              memory[..] == Put(m, user - HEADER_BYTES - start, HeaderFor(b.base, b.Length()))
      ensures allocationCount == old(allocationCount) + 1 && allocSize == old(allocSize) + BlockSize(size)
    {
      hide HeaderFor, Sound;
      ghost var b, m := Block(base, size), memory[..];
      RangeIsFenced(start, m, live, b);
      var free := IsSharedMemoryRegionFree(base, BlockSize(size));
      user := 0;
      if !free {
        assert false;
        return;
      }
      AddBlock(start, m, live, b);
      BlockBelowTop(start, m, live, b);
      user := UserAddress(base);
      Store(user - HEADER_BYTES - start, HeaderFor(base, BlockSize(size)));
      allocationCount := allocationCount + 1;
      allocSize := allocSize + BlockSize(size);
      live := live + [b];
    }

    method Store(at: nat, data: seq<Byte>)
      requires at + |data| <= memory.Length
      modifies memory
      ensures memory[..] == Put(old(memory[..]), at, data)
    {
      forall i | 0 <= i < |data| {
        memory[at + i] := data[i];
      }
    }

    /** The 32 bytes below a user address. */
    function HeaderAt(user: nat): (h: seq<Byte>)
      requires start + HEADER_BYTES <= user <= start + memory.Length
      reads memory
      ensures |h| == HEADER_BYTES
    {
      memory[..][user - HEADER_BYTES - start..user - start]
    }

    /** OpteeClientMemFree, for any address of the region that either carries no signature or was
        handed out and is still live. */
    method Free(user: nat, ghost k: nat) returns (status: Status)
      requires Valid() && start + HEADER_BYTES <= user <= start + memory.Length
      requires HeaderAt(user)[..4] == SIGNATURE_BYTES ==> k < |live| && live[k].User() == user
      modifies this`allocationCount, this`allocSize, this`live, gcd, memory
      ensures Valid()
      ensures if old(HeaderAt(user))[..4] == SIGNATURE_BYTES then
                var b := old(live)[k];
                status == Success && live == Without(old(live), k) && Fits(start, memory.Length, b) &&
                memory[..] == Put(old(memory[..]), b.base - start, Fences(b.Length()))
              else status == InvalidParameter && live == old(live) && memory[..] == old(memory[..])
    {
      hide Sound, TotalLength, HeaderFor, HeaderIn, Fits, Ranges, U64At;
      var header := HeaderAt(user);
      if header[..4] != SIGNATURE_BYTES {
        return InvalidParameter;
      }
      HeaderRead(start, memory[..], live, k);
      status := Release(U64At(header, ADDRESS_AT), U64At(header, SIZE_AT), k);
    }

    /** The rest of a free, for the range that the header states. */
    method Release(address: nat, size: nat, ghost k: nat) returns (status: Status)
      requires Valid() && k < |live| && live[k].base == address && live[k].Length() == size
      modifies this`allocationCount, this`allocSize, this`live, gcd, memory
      ensures Valid() && status == Success && live == Without(old(live), k)
      ensures Fits(start, memory.Length, old(live)[k]) &&
              memory[..] == Put(old(memory[..]), address - start, Fences(size))
    {
      hide Sound, TotalLength;
      assert live[k] in live && live[k].Range() in Ranges(live);
      ForgetBlock(start, memory[..], live, k);
      MarkSharedMemoryRegionAsFree(address, size);
      status := gcd.FreeMemorySpace(address, size);
      if status.Failed() {
        return;
      }
      allocationCount := allocationCount - 1;
      allocSize := allocSize - size;
      live := Without(live, k);
    }

    /** A client store into its own user area. */
    method ClientWrite(user: nat, offset: nat, data: seq<Byte>, ghost k: nat)
      requires Valid() && k < |live| && live[k].User() == user && offset + |data| <= live[k].size
      modifies memory
      ensures Valid() && start <= user && user - start + offset + |data| <= memory.Length
      ensures memory[..] == Put(old(memory[..]), user - start + offset, data)
    {
      hide Sound, TotalLength, UserAddress;
      UseBlock(start, memory[..], live, k, offset, data);
      Store(user - start + offset, data);
    }

    /** OpteeClientApiFinalize reports no leak exactly when nothing is live. */
    method Finalize() returns (leak: bool)
      requires Valid()
      ensures leak <==> live != []
    {
      NothingLive(live);
      leak := allocationCount != 0 || allocSize != 0;
    }
  }

  /** The header below a live user address states that block. */
  lemma HeaderRead(start: nat, m: seq<Byte>, live: seq<Block>, k: nat)
    requires Sound(start, m, live) && k < |live|
    ensures HeaderIn(start, m, live[k])
    ensures var h := m[live[k].User() - HEADER_BYTES - start..live[k].User() - start];
            U64At(h, ADDRESS_AT) == live[k].base && U64At(h, SIZE_AT) == live[k].Length() && h[..4] == SIGNATURE_BYTES
  {
    assert HeaderIn(start, m, live[k]);
    HeaderFields(HeaderFor(live[k].base, live[k].Length()), live[k].base, live[k].Length());
  }

  lemma ForgetBlock(start: nat, m: seq<Byte>, live: seq<Block>, k: nat)
    requires Sound(start, m, live) && k < |live|
    ensures Fits(start, |m|, live[k])
    ensures Sound(start, Put(m, live[k].base - start, Fences(live[k].Length())), Without(live, k))
    ensures Ranges(Without(live, k)) == Ranges(live) - {live[k].Range()}
    ensures TotalLength(Without(live, k)) == TotalLength(live) - live[k].Length()
  {
    RemoveBlock(start, m, live, k);
    RangesWithout(live, k);
    TotalWithout(live, k);
  }

  lemma NothingLive(live: seq<Block>)
    ensures live != [] <==> (|live| != 0 || TotalLength(live) != 0)
  {
  }

  lemma ApartFromLive(live: seq<Block>, b: Block)
    requires forall e | e in Ranges(live) :: !e.Meets(b.Range())
    ensures forall i | 0 <= i < |live| :: !live[i].Range().Meets(b.Range())
  {
    forall i | 0 <= i < |live| ensures !live[i].Range().Meets(b.Range()) {
      assert live[i] in live;
    }
  }

  /** Below a user address that lies outside all live blocks there is no signature: such an address
      (a freed one, before its range is given out again) is rejected by a free. */
  lemma StaleAddressRejected(start: nat, m: seq<Byte>, live: seq<Block>, user: nat)
    requires Sound(start, m, live) && start + HEADER_BYTES <= user <= start + |m|
    requires forall a | user - HEADER_BYTES - start <= a < user - start :: Outside(start, live, a)
    ensures m[user - HEADER_BYTES - start..user - start][..4] != SIGNATURE_BYTES
  {
    assert Outside(start, live, user - HEADER_BYTES - start);
    assert m[user - HEADER_BYTES - start..user - start][..4][0] == FENCE;
  }

  predicate IsPowerOf2(num: bv64) {
    num != 0 && num & (!num + 1) == num
  }

  /** The test on the requested alignment; an accepted one is then replaced by a page. */
  predicate AlignmentAccepted(alignment: bv64) {
    (alignment == 0 || IsPowerOf2(alignment)) && alignment <= 0x1000
  }

  /** Complement-and-compare finds the powers of two: zero and those up to a page are accepted. */
  lemma AcceptedAlignments(alignment: bv64)
    ensures AlignmentAccepted(alignment) <==>
            alignment in {0, 1, 2, 4, 8, 0x10, 0x20, 0x40, 0x80, 0x100, 0x200, 0x400, 0x800, 0x1000}
  {
  }

  // ------------------------------------------------------------------ runs

  datatype Request =
    | AllocRequest(size: nat, alignment: bv64)
    | UseRequest(index: nat, offset: nat, data: seq<Byte>)
    | FreeRequest(index: nat)

  /** A client's record of one allocation. */
  datatype Held = Held(user: nat, size: nat)

  ghost predicate Holds(held: seq<Held>, live: seq<Block>) {
    |held| == |live| && forall i | 0 <= i < |held| :: held[i] == Held(live[i].User(), live[i].size)
  }

  lemma HoldsWithout(held: seq<Held>, live: seq<Block>, k: nat)
    requires Holds(held, live) && k < |live|
    ensures Holds(Without(held, k), Without(live, k))
  {
    forall i | 0 <= i < |live| - 1
      ensures Without(held, k)[i] == Held(Without(live, k)[i].User(), Without(live, k)[i].size)
    {
      var j := if i < k then i else i + 1;
      assert Without(held, k)[i] == held[j] && Without(live, k)[i] == live[j];
    }
  }

  /** Every run of allocations, frees of live blocks, and client stores into their own user areas keeps
      the region valid: blocks apart, headers intact, free bytes fenced, accounts exact. No free of a
      live block is ever refused. */
  method Drive(mem: OpteeClientMem, requests: seq<Request>) returns (held: seq<Held>)
    requires mem.Valid() && mem.live == []
    requires forall r | r in requests && r.AllocRequest? :: BlockSize(r.size) < TWO64
    modifies mem, mem.gcd, mem.memory
    ensures mem.Valid() && Holds(held, mem.live)
  {
    hide Sound, TotalLength, UserAddress, Ranges, Fits, FencedBlock, HeaderFor;
    held := [];
    for n := 0 to |requests|
      invariant mem.Valid() && Holds(held, mem.live)
    {
      match requests[n] {
        case AllocRequest(size, alignment) =>
          assert requests[n] in requests;
          var user := mem.Alloc(size, alignment);
          if user != 0 {
            held := held + [Held(user, size)];
          }
        case UseRequest(k, offset, data) =>
          if k < |held| && offset + |data| <= held[k].size {
            mem.ClientWrite(held[k].user, offset, data, k);
          }
        case FreeRequest(k) =>
          if k < |held| {
            LiveSignature(mem, k);
            HoldsWithout(held, mem.live, k);
            var status := mem.Free(held[k].user, k);
            assert status == Success;
            held := Without(held, k);
          }
      }
    }
  }

  lemma LiveSignature(mem: OpteeClientMem, k: nat)
    requires mem.Valid() && k < |mem.live|
    ensures mem.start + HEADER_BYTES <= mem.live[k].User() <= mem.start + mem.memory.Length
    ensures mem.HeaderAt(mem.live[k].User())[..4] == SIGNATURE_BYTES
  {
    HeaderRead(mem.start, mem.memory[..], mem.live, k);
  }

  /** A freed block's header bytes lie outside what is still live. */
  lemma FreedHeaderIsStale(start: nat, m: seq<Byte>, live: seq<Block>, k: nat)
    requires Sound(start, m, live) && k < |live|
    ensures start + HEADER_BYTES <= live[k].User() <= start + |m|
    ensures forall a | live[k].User() - HEADER_BYTES - start <= a < live[k].User() - start ::
      Outside(start, Without(live, k), a)
  {
    hide HeaderFor, UserAddress;
    var b, rest := live[k], Without(live, k);
    UserAreaInBlock(b.base, b.size);
    assert Fits(start, |m|, b);
    forall a | b.User() - HEADER_BYTES - start <= a < b.User() - start ensures Outside(start, rest, a) {
      forall i | 0 <= i < |rest| ensures !rest[i].Contains(start + a) {
        var j := if i < k then i else i + 1;
        assert rest[i] == live[j];
        MeetsSymmetric(live, j, k);
      }
    }
  }

  /** A second free of the same address, before its range is given out again, is refused and changes
      nothing. */
  method FreeTwice(mem: OpteeClientMem, ghost k: nat, user: nat) returns (first: Status, second: Status)
    requires mem.Valid() && k < |mem.live| && mem.live[k].User() == user
    modifies mem, mem.gcd, mem.memory
    ensures mem.Valid() && first == Success && second == InvalidParameter
    ensures mem.live == Without(old(mem.live), k)
    ensures var b := old(mem.live)[k];
            Fits(mem.start, mem.memory.Length, b) &&
            mem.memory[..] == Put(old(mem.memory[..]), b.base - mem.start, Fences(b.Length()))
  {
    hide Sound, TotalLength, UserAddress, Ranges, FencedBlock, HeaderFor;
    LiveSignature(mem, k);
    FreedHeaderIsStale(mem.start, mem.memory[..], mem.live, k);
    first := mem.Free(user, k);
    StaleAddressRejected(mem.start, mem.memory[..], mem.live, user);
    second := mem.Free(user, k);
  }
}
