/** The header checksum, header validation, and the platform's template header with its lazily
    computed checksum (FvbInfo.c; VarBlockService.c, ValidateFvHeader). */
module FvHeader {
  import opened Bytes
  import opened EfiStatus
  import opened FvBlockMap
  import opened FvAttributes

  const FVH_SIGNATURE: nat := 0x4856_465F
  const FVH_REVISION: nat := 2
  const TEMPLATE_BYTES: nat := 72
  const CHECKSUM_WORD: nat := 25

  /** EFI_SYSTEM_NV_DATA_FV_GUID as it lies in memory. */
  const NV_DATA_GUID: seq<Byte> :=
    [0x8D, 0x2B, 0xF1, 0xFF, 0x96, 0x76, 0x8B, 0x4C, 0xA9, 0x85, 0x27, 0x47, 0x07, 0x5B, 0x4F, 0x50]

  /** The sum of the first `n` 16-bit words. */
  function WordSum(m: seq<Byte>, n: nat): nat
    requires 2 * n <= |m|
  {
    if n == 0 then 0 else WordSum(m, n - 1) + U16At(m, 2 * (n - 1))
  }

  /** CalculateSum16. */
  function Sum16(m: seq<Byte>, length: nat): nat
    requires length <= |m|
  {
    WordSum(m, length / 2) % 0x1_0000
  }

  function HeaderLength(m: seq<Byte>): nat
    requires |m| >= BLOCK_MAP_AT
  {
    U16At(m, HEADER_LENGTH_AT)
  }

  /** ValidateFvHeader, over a volume that holds at least the longest header. */
  function ValidateFvHeader(m: seq<Byte>): Status
    requires |m| >= 0x1_0000
  {
    if m[REVISION_AT] != FVH_REVISION || U32At(m, SIGNATURE_AT) != FVH_SIGNATURE ||
       U64At(m, FV_LENGTH_AT) == TWO64 - 1 || HeaderLength(m) % 2 != 0
    then NotFound
    else if Sum16(m, HeaderLength(m)) != 0 then NotFound
    else Success
  }

  /** What makes a header valid, byte by byte: revision 2, the letters _FVH, a length that is not all ones, an
      even header length, and words that add up to nothing. */
  lemma ValidExactly(m: seq<Byte>)
    requires |m| >= 0x1_0000
    ensures ValidateFvHeader(m) == Success <==>
            m[REVISION_AT] == 2 && m[SIGNATURE_AT..SIGNATURE_AT + 4] == [0x5F, 0x46, 0x56, 0x48] &&
            !(forall i | FV_LENGTH_AT <= i < FV_LENGTH_AT + 8 :: m[i] == 0xFF) &&
            m[HEADER_LENGTH_AT] % 2 == 0 && Sum16(m, HeaderLength(m)) == 0
    ensures ValidateFvHeader(m) == Success || ValidateFvHeader(m) == NotFound
  {
    var at := SIGNATURE_AT;
    assert m[at..at + 4] == [m[at], m[at + 1], m[at + 2], m[at + 3]];
  }

  lemma {:induction false} WordSumFrame(m: seq<Byte>, m': seq<Byte>, n: nat)
    requires 2 * n <= |m| && 2 * n <= |m'| && m'[..2 * n] == m[..2 * n]
    ensures WordSum(m', n) == WordSum(m, n)
  {
    if n > 0 {
      assert m'[..2 * (n - 1)] == m'[..2 * n][..2 * (n - 1)] == m[..2 * (n - 1)];
      assert forall i | 0 <= i < 2 * n :: m'[i] == m'[..2 * n][i];
      WordSumFrame(m, m', n - 1);
    }
  }

  /** Zero bytes add up to nothing. */
  lemma {:induction false} ZeroSum(m: seq<Byte>, n: nat)
    requires 2 * n <= |m| && forall i | 0 <= i < 2 * n :: m[i] == 0
    ensures WordSum(m, n) == 0
  {
    if n > 0 {
      ZeroSum(m, n - 1);
    }
  }

  /** Replacing one word moves the sum by the difference. */
  lemma {:induction false} WordSumPut(m: seq<Byte>, k: nat, v: nat, n: nat)
    requires 2 * n <= |m| && k < n && v < 0x1_0000
    ensures WordSum(Put(m, 2 * k, U16Bytes(v)), n) == WordSum(m, n) - U16At(m, 2 * k) + v
  {
    var m' := Put(m, 2 * k, U16Bytes(v));
    if k == n - 1 {
      WordSumFrame(m, m', n - 1);
      FieldFrame(m', 2 * k, U16Bytes(v));
    } else {
      WordSumPut(m, k, v, n - 1);
    }
  }

  /** Validation depends on the header bytes only. */
  lemma ValidateFrame(m: seq<Byte>, m': seq<Byte>)
    requires |m| >= 0x1_0000 && |m'| >= 0x1_0000
    requires m'[..BLOCK_MAP_AT] == m[..BLOCK_MAP_AT] && m'[..HeaderLength(m)] == m[..HeaderLength(m)]
    ensures HeaderLength(m') == HeaderLength(m) && ValidateFvHeader(m') == ValidateFvHeader(m)
  {
    assert forall i | 0 <= i < BLOCK_MAP_AT :: m'[i] == m'[..BLOCK_MAP_AT][i];
    var n := HeaderLength(m) / 2;
    assert m'[..2 * n] == m'[..HeaderLength(m)][..2 * n] == m[..2 * n];
    WordSumFrame(m, m', n);
  }

  // ------------------------------------------------------------------ the template

  datatype Field = Field(at: nat, bytes: seq<Byte>)

  /** Fields laid out in order, without overlap, inside `size` bytes. */
  predicate InOrder(fields: seq<Field>, size: nat) {
    (forall i | 0 <= i < |fields| :: fields[i].at + |fields[i].bytes| <= size) &&
    forall i, j | 0 <= i < j < |fields| :: fields[i].at + |fields[i].bytes| <= fields[j].at
  }

  /** `size` zero bytes with the fields put in. */
  function Initialised(fields: seq<Field>, size: nat): (m: seq<Byte>)
    requires InOrder(fields, size)
    ensures |m| == size
  {
    if fields == [] then seq(size, _ => 0)
    else
      var last := fields[|fields| - 1];
      Put(Initialised(fields[..|fields| - 1], size), last.at, last.bytes)
  }

  lemma {:induction false} FieldInitialised(fields: seq<Field>, size: nat, i: nat)
    requires InOrder(fields, size) && i < |fields|
    ensures Initialised(fields, size)[fields[i].at..fields[i].at + |fields[i].bytes|] == fields[i].bytes
  {
    if i < |fields| - 1 {
      FieldInitialised(fields[..|fields| - 1], size, i);
      assert fields[..|fields| - 1][i] == fields[i];
    }
  }

  lemma {:induction false} GapInitialised(fields: seq<Field>, size: nat, k: nat)
    requires InOrder(fields, size) && k < size
    requires forall i | 0 <= i < |fields| :: !(fields[i].at <= k < fields[i].at + |fields[i].bytes|)
    ensures Initialised(fields, size)[k] == 0
  {
    if fields != [] {
      GapInitialised(fields[..|fields| - 1], size, k);
    }
  }

  /** The initialised fields of mPlatformFvbMediaInfo[0].FvbInfo, for any number of blocks. The checksum,
      the upper half of FvLength and the end entry of the block map stay zero. */
  function HeaderFields(total: nat, count: nat, blockSize: nat): (fields: seq<Field>)
    requires 0 < blockSize < TWO32 && total < TWO32 && count < TWO32
    ensures InOrder(fields, TEMPLATE_BYTES)
  {
    [ Field(16, NV_DATA_GUID),
      Field(FV_LENGTH_AT, U32Bytes(total)),
      Field(SIGNATURE_AT, U32Bytes(FVH_SIGNATURE)),
      Field(ATTRIBUTES_AT, WordBytes(TEMPLATE_ATTRIBUTES)),
      Field(HEADER_LENGTH_AT, U16Bytes(TEMPLATE_BYTES)),
      Field(REVISION_AT, [FVH_REVISION]),
      Field(BLOCK_MAP_AT, U32Bytes(count)),
      Field(BLOCK_MAP_AT + 4, U32Bytes(blockSize)) ]
  }

  /** A header with one run of blocks. */
  function OneRunHeader(total: nat, count: nat, blockSize: nat): (h: seq<Byte>)
    requires 0 < blockSize < TWO32 && total < TWO32 && count < TWO32
    ensures |h| == TEMPLATE_BYTES
  {
    Initialised(HeaderFields(total, count, blockSize), TEMPLATE_BYTES)
  }

  /** The platform's header: as many blocks as fit. */
  function Template(total: nat, blockSize: nat): (h: seq<Byte>)
    requires 0 < blockSize < TWO32 && total < TWO32
    ensures |h| == TEMPLATE_BYTES
  {
    OneRunHeader(total, total / blockSize, blockSize)
  }

  /** The header with its checksum field set so that all words add up to 0 modulo 2^16. */
  function Checksummed(h: seq<Byte>): (r: seq<Byte>)
    requires |h| == TEMPLATE_BYTES
    ensures |r| == TEMPLATE_BYTES
  {
    var cleared := Put(h, CHECKSUM_AT, U16Bytes(0));
    Put(cleared, CHECKSUM_AT, U16Bytes((0x1_0000 - Sum16(cleared, TEMPLATE_BYTES)) % 0x1_0000))
  }

  lemma ChecksumMakesSumZero(h: seq<Byte>)
    requires |h| == TEMPLATE_BYTES
    ensures Sum16(Checksummed(h), TEMPLATE_BYTES) == 0
    ensures Checksummed(Checksummed(h)) == Checksummed(h)
  {
    hide WordSum, U16At, U16Bytes, Put;
    var cleared := Put(h, CHECKSUM_AT, U16Bytes(0));
    var sum := WordSum(cleared, TEMPLATE_BYTES / 2);
    FieldFrame(cleared, CHECKSUM_AT, U16Bytes(0));
    WordSumPut(cleared, CHECKSUM_WORD, (0x1_0000 - Sum16(cleared, TEMPLATE_BYTES)) % 0x1_0000, TEMPLATE_BYTES / 2);
    Complement(sum);
    PutTwice(cleared, h, CHECKSUM_AT, (0x1_0000 - Sum16(cleared, TEMPLATE_BYTES)) % 0x1_0000);
  }

  lemma Complement(sum: nat)
    ensures (sum + (0x1_0000 - sum % 0x1_0000) % 0x1_0000) % 0x1_0000 == 0
  {
  }

  /** Clearing the field again forgets what was put in. */
  lemma PutTwice(cleared: seq<Byte>, h: seq<Byte>, at: nat, v: nat)
    requires at + 2 <= |h| && cleared == Put(h, at, U16Bytes(0)) && v < 0x1_0000
    ensures Put(Put(cleared, at, U16Bytes(v)), at, U16Bytes(0)) == cleared
  {
    hide U16Bytes;
    var again := Put(Put(cleared, at, U16Bytes(v)), at, U16Bytes(0));
    forall i | 0 <= i < |h| ensures again[i] == cleared[i] {
    }
  }

  lemma ChecksumChangesItsField(h: seq<Byte>, k: nat)
    requires |h| == TEMPLATE_BYTES && k < TEMPLATE_BYTES && !(CHECKSUM_AT <= k < CHECKSUM_AT + 2)
    ensures Checksummed(h)[k] == h[k]
  {
    hide Sum16;
  }

  lemma FieldsMissChecksum(total: nat, count: nat, blockSize: nat, i: nat)
    requires 0 < blockSize < TWO32 && total < TWO32 && count < TWO32 && i < |HeaderFields(total, count, blockSize)|
    ensures var f := HeaderFields(total, count, blockSize)[i];
            f.at + |f.bytes| <= CHECKSUM_AT || CHECKSUM_AT + 2 <= f.at
  {
  }

  /** The bytes of header field `i` survive the checksum and any volume that begins with the header. */
  lemma HeaderFieldIn(m: seq<Byte>, total: nat, count: nat, blockSize: nat, i: nat)
    requires 0 < blockSize < TWO32 && total < TWO32 && count < TWO32 && i < |HeaderFields(total, count, blockSize)|
    requires |m| >= TEMPLATE_BYTES && m[..TEMPLATE_BYTES] == Checksummed(OneRunHeader(total, count, blockSize))
    ensures var f := HeaderFields(total, count, blockSize)[i]; m[f.at..f.at + |f.bytes|] == f.bytes
  {
    hide HeaderFields, Checksummed, Initialised;
    var f := HeaderFields(total, count, blockSize)[i];
    var h := OneRunHeader(total, count, blockSize);
    FieldInitialised(HeaderFields(total, count, blockSize), TEMPLATE_BYTES, i);
    FieldsMissChecksum(total, count, blockSize, i);
    forall k | f.at <= k < f.at + |f.bytes| ensures m[k] == h[k] {
      assert m[k] == m[..TEMPLATE_BYTES][k];
      ChecksumChangesItsField(h, k);
    }
    SameSlice(m, h, f.at, f.at + |f.bytes|);
  }

  /** What a volume that begins with a checksummed header is, whether or not its blocks fit: a valid
      header of the stated length and attributes, and one run of blocks closed by an end entry. */
  lemma OneRunVolume(m: seq<Byte>, total: nat, count: nat, blockSize: nat)
    requires 0 < blockSize <= total < TWO32 && |m| == total >= 0x1_0000 && 0 < count < TWO32
    requires m[..TEMPLATE_BYTES] == Checksummed(OneRunHeader(total, count, blockSize))
    ensures ValidateFvHeader(m) == Success && U64At(m, FV_LENGTH_AT) == total && HeaderLength(m) == TEMPLATE_BYTES
    ensures AttributesIn(m) == TEMPLATE_ATTRIBUTES
    ensures Terminated(m, 0) && MapEnd(m, 0) == TEMPLATE_BYTES
    ensures Entries(m, 0) == [MapEntry(count, blockSize)]
    ensures U32At(m, BLOCK_MAP_AT + ENTRY_BYTES) == 0
  {
    hide Checksummed, OneRunHeader, HeaderFields, WordSum, Terminated, Entries, MapEnd;
    HeaderNumbers(m, total, count, blockSize);
    HeaderZeros(m, total, count, blockSize);
    HeaderSum(m, OneRunHeader(total, count, blockSize));
    OneRunMap(m, count, blockSize);
  }

  lemma HeaderSum(m: seq<Byte>, h: seq<Byte>)
    requires |h| == TEMPLATE_BYTES <= |m| && m[..TEMPLATE_BYTES] == Checksummed(h)
    ensures Sum16(m, TEMPLATE_BYTES) == 0
  {
    ChecksumMakesSumZero(h);
    assert m[..TEMPLATE_BYTES][..2 * (TEMPLATE_BYTES / 2)] == m[..2 * (TEMPLATE_BYTES / 2)];
    WordSumFrame(m[..TEMPLATE_BYTES], m, TEMPLATE_BYTES / 2);
  }

  lemma OneRunMap(m: seq<Byte>, count: nat, length: nat)
    requires |m| >= TEMPLATE_BYTES && count > 0 && length > 0
    requires U32At(m, BLOCK_MAP_AT) == count && U32At(m, BLOCK_MAP_AT + 4) == length
    requires U32At(m, BLOCK_MAP_AT + ENTRY_BYTES) == 0
    ensures Terminated(m, 0) && MapEnd(m, 0) == TEMPLATE_BYTES && Entries(m, 0) == [MapEntry(count, length)]
  {
    assert EntryAt(m, 0) == MapEntry(count, length);
    assert Terminated(m, 1) && Entries(m, 1) == [];
  }

  lemma HeaderNumbers(m: seq<Byte>, total: nat, count: nat, blockSize: nat)
    requires 0 < blockSize <= total < TWO32 && count < TWO32 && |m| >= TEMPLATE_BYTES
    requires m[..TEMPLATE_BYTES] == Checksummed(OneRunHeader(total, count, blockSize))
    ensures U32At(m, FV_LENGTH_AT) == total && U32At(m, SIGNATURE_AT) == FVH_SIGNATURE
    ensures AttributesIn(m) == TEMPLATE_ATTRIBUTES
    ensures HeaderLength(m) == TEMPLATE_BYTES && m[REVISION_AT] == FVH_REVISION
    ensures U32At(m, BLOCK_MAP_AT) == count && U32At(m, BLOCK_MAP_AT + 4) == blockSize
  {
    HeaderWords(m, total, count, blockSize);
    HeaderFieldIn(m, total, count, blockSize, 3);
    WriteThenRead(m, TEMPLATE_ATTRIBUTES);
    HeaderFieldIn(m, total, count, blockSize, 5);
    assert m[REVISION_AT] == m[REVISION_AT..REVISION_AT + 1][0];
  }

  lemma HeaderWords(m: seq<Byte>, total: nat, count: nat, blockSize: nat)
    requires 0 < blockSize <= total < TWO32 && count < TWO32 && |m| >= TEMPLATE_BYTES
    requires m[..TEMPLATE_BYTES] == Checksummed(OneRunHeader(total, count, blockSize))
    ensures U32At(m, FV_LENGTH_AT) == total && U32At(m, SIGNATURE_AT) == FVH_SIGNATURE
    ensures HeaderLength(m) == TEMPLATE_BYTES
    ensures U32At(m, BLOCK_MAP_AT) == count && U32At(m, BLOCK_MAP_AT + 4) == blockSize
  {
    var fields := HeaderFields(total, count, blockSize);
    HeaderFieldIn(m, total, count, blockSize, 1);
    FieldFrame(m, FV_LENGTH_AT, fields[1].bytes);
    HeaderFieldIn(m, total, count, blockSize, 2);
    FieldFrame(m, SIGNATURE_AT, fields[2].bytes);
    HeaderFieldIn(m, total, count, blockSize, 4);
    FieldFrame(m, HEADER_LENGTH_AT, fields[4].bytes);
    HeaderFieldIn(m, total, count, blockSize, 6);
    FieldFrame(m, BLOCK_MAP_AT, fields[6].bytes);
    HeaderFieldIn(m, total, count, blockSize, 7);
    FieldFrame(m, BLOCK_MAP_AT + 4, fields[7].bytes);
  }

  /** The upper half of FvLength and the end entry. */
  lemma HeaderZeros(m: seq<Byte>, total: nat, count: nat, blockSize: nat)
    requires 0 < blockSize <= total < TWO32 && count < TWO32 && |m| >= TEMPLATE_BYTES
    requires m[..TEMPLATE_BYTES] == Checksummed(OneRunHeader(total, count, blockSize))
    ensures U32At(m, FV_LENGTH_AT + 4) == 0
    ensures U32At(m, BLOCK_MAP_AT + ENTRY_BYTES) == 0 && U32At(m, BLOCK_MAP_AT + ENTRY_BYTES + 4) == 0
  {
    var h := OneRunHeader(total, count, blockSize);
    forall k | FV_LENGTH_AT + 4 <= k < FV_LENGTH_AT + 8 || BLOCK_MAP_AT + ENTRY_BYTES <= k < TEMPLATE_BYTES
      ensures m[k] == 0
    {
      GapInitialised(HeaderFields(total, count, blockSize), TEMPLATE_BYTES, k);
      assert m[k] == m[..TEMPLATE_BYTES][k] == h[k];
    }
    ZeroWord(m, FV_LENGTH_AT + 4);
    ZeroWord(m, BLOCK_MAP_AT + ENTRY_BYTES);
    ZeroWord(m, BLOCK_MAP_AT + ENTRY_BYTES + 4);
  }

  lemma ZeroWord(m: seq<Byte>, at: nat)
    requires at + 4 <= |m| && forall k | at <= k < at + 4 :: m[k] == 0
    ensures U32At(m, at) == 0
  {
  }

  lemma ClearedLength(total: nat, blockSize: nat)
    requires 0 < blockSize < TWO32 && total < TWO32
    ensures HeaderLength(Put(Template(total, blockSize), CHECKSUM_AT, U16Bytes(0))) == TEMPLATE_BYTES
  {
    var fields := HeaderFields(total, total / blockSize, blockSize);
    var h := Template(total, blockSize);
    FieldInitialised(fields, TEMPLATE_BYTES, 4);
    FieldFrame(h, HEADER_LENGTH_AT, fields[4].bytes);
  }

  /** mPlatformFvbMediaInfo, one entry long, and the static flag of GetFvbInfo. */
  class MediaInfo {
    const fvLength: nat
    const blockSize: nat
    var fvbInfo: seq<Byte>
    var checksummed: bool

    ghost predicate Valid()
      reads this
    {
      0 < blockSize <= fvLength < TWO32 &&
      fvbInfo == if checksummed then Checksummed(Template(fvLength, blockSize)) else Template(fvLength, blockSize)
    }

    constructor (fvLength: nat, blockSize: nat)
      requires 0 < blockSize <= fvLength < TWO32
      ensures Valid() && this.fvLength == fvLength && this.blockSize == blockSize
    {
      this.fvLength, this.blockSize := fvLength, blockSize;
      fvbInfo, checksummed := Template(fvLength, blockSize), false;
    }

    /** The checksum is computed by the first call only; every call finds the same header. */
    method GetFvbInfo(length: nat) returns (status: Status, header: seq<Byte>)
      requires Valid()
      modifies this
      ensures Valid() && checksummed
      ensures if length == fvLength then status == Success && header == Checksummed(Template(fvLength, blockSize))
              else status == NotFound
    {
      hide Template, WordSum;
      if !checksummed {
        var cleared := Put(fvbInfo, CHECKSUM_AT, U16Bytes(0));
        ClearedLength(fvLength, blockSize);
        var checksum := (0x1_0000 - Sum16(cleared, HeaderLength(cleared))) % 0x1_0000;
        fvbInfo := Put(cleared, CHECKSUM_AT, U16Bytes(checksum));
        checksummed := true;
      }
      return if fvLength == length then Success else NotFound, fvbInfo;
    }
  }
}
