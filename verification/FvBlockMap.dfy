/** The firmware-volume header layout and its run-length block map (sections 3.2.1 of the PI
    Specification, Volume 3), and the walk that finds a block (VarBlockService.c, FvbGetLbaAddress).
    A volume is the sequence of its bytes; the header lies in the first of them. */
module FvBlockMap {
  import opened Wrappers
  import opened Bytes

  // Byte offsets of EFI_FIRMWARE_VOLUME_HEADER fields.
  const FV_LENGTH_AT: nat := 32
  const SIGNATURE_AT: nat := 40
  const ATTRIBUTES_AT: nat := 44
  const HEADER_LENGTH_AT: nat := 48
  const CHECKSUM_AT: nat := 50
  const REVISION_AT: nat := 55
  const BLOCK_MAP_AT: nat := 56
  const ENTRY_BYTES: nat := 8

  /** EFI_FV_BLOCK_MAP_ENTRY: a run of `numBlocks` blocks of `length` bytes. */
  datatype MapEntry = MapEntry(numBlocks: nat, length: nat)

  predicate EntryInside(m: seq<Byte>, k: nat) {
    BLOCK_MAP_AT + (k + 1) * ENTRY_BYTES <= |m|
  }

  function EntryAt(m: seq<Byte>, k: nat): (e: MapEntry)
    requires EntryInside(m, k)
    ensures e.numBlocks < TWO32 && e.length < TWO32
  {
    MapEntry(U32At(m, BLOCK_MAP_AT + k * ENTRY_BYTES), U32At(m, BLOCK_MAP_AT + k * ENTRY_BYTES + 4))
  }

  /** The entry at which the walk gives up. */
  predicate IsEnd(e: MapEntry) {
    e.numBlocks == 0 || e.length == 0
  }

  /** An end entry lies inside the volume, at or after entry `k`. */
  predicate Terminated(m: seq<Byte>, k: nat)
    decreases |m| - k
  {
    EntryInside(m, k) && (IsEnd(EntryAt(m, k)) || Terminated(m, k + 1))
  }

  /** The entries from `k` up to the first end entry. */
  function Entries(m: seq<Byte>, k: nat): (es: seq<MapEntry>)
    requires Terminated(m, k)
    ensures forall i | 0 <= i < |es| :: 0 < es[i].numBlocks < TWO32 && 0 < es[i].length < TWO32
    decreases |m| - k
  {
    if IsEnd(EntryAt(m, k)) then [] else [EntryAt(m, k)] + Entries(m, k + 1)
  }

  /** One past the last byte of the end entry. */
  function MapEnd(m: seq<Byte>, k: nat): (end: nat)
    requires Terminated(m, k)
    ensures BLOCK_MAP_AT < end <= |m|
    decreases |m| - k
  {
    if IsEnd(EntryAt(m, k)) then BLOCK_MAP_AT + (k + 1) * ENTRY_BYTES else MapEnd(m, k + 1)
  }

  /** The block map depends on the bytes below its end only. */
  lemma {:induction false} MapFrame(m: seq<Byte>, m': seq<Byte>, k: nat)
    requires Terminated(m, k) && |m'| == |m| && m'[..MapEnd(m, k)] == m[..MapEnd(m, k)]
    ensures Terminated(m', k) && Entries(m', k) == Entries(m, k) && MapEnd(m', k) == MapEnd(m, k)
    decreases |m| - k
  {
    MapEndAfter(m, k);
    assert forall i | 0 <= i < MapEnd(m, k) :: m'[i] == m'[..MapEnd(m, k)][i];
    assert EntryAt(m', k) == EntryAt(m, k);
    if !IsEnd(EntryAt(m, k)) {
      MapFrame(m, m', k + 1);
    }
  }

  lemma {:induction false} MapEndAfter(m: seq<Byte>, k: nat)
    requires Terminated(m, k)
    ensures BLOCK_MAP_AT + (k + 1) * ENTRY_BYTES <= MapEnd(m, k)
    decreases |m| - k
  {
    if !IsEnd(EntryAt(m, k)) {
      MapEndAfter(m, k + 1);
    }
  }

  // ------------------------------------------------------------------ the table of blocks

  /** The length of every block, by block number: each run written out. */
  function Table(es: seq<MapEntry>): seq<nat> {
    if es == [] then [] else seq(es[0].numBlocks, _ => es[0].length) + Table(es[1..])
  }

  /** Blocks of a map are not empty. */
  lemma {:induction false} BlockNotEmpty(es: seq<MapEntry>, lba: nat)
    requires lba < |Table(es)| && forall i | 0 <= i < |es| :: es[i].length > 0
    ensures Table(es)[lba] > 0
  {
    if lba >= es[0].numBlocks {
      BlockNotEmpty(es[1..], lba - es[0].numBlocks);
    }
  }

  function Sum(lengths: seq<nat>): nat {
    if lengths == [] then 0 else lengths[0] + Sum(lengths[1..])
  }

  /** Where block `lba` begins: after all lower blocks. */
  function BlockStart(table: seq<nat>, lba: nat): nat
    requires lba <= |table|
  {
    Sum(table[..lba])
  }

  lemma {:induction false} SumAppend(a: seq<nat>, b: seq<nat>)
    ensures Sum(a + b) == Sum(a) + Sum(b)
  {
    if a == [] {
      assert a + b == b;
    } else {
      assert (a + b)[1..] == a[1..] + b;
      SumAppend(a[1..], b);
    }
  }

  lemma {:induction false} SumRun(count: nat, length: nat)
    ensures Sum(seq(count, _ => length)) == count * length
  {
    if count > 0 {
      assert seq(count, _ => length)[1..] == seq(count - 1, _ => length);
      SumRun(count - 1, length);
    }
  }

  /** Consecutive blocks abut, and a lower block ends before a higher one begins. */
  lemma {:induction false} BlocksInOrder(table: seq<nat>, a: nat, b: nat)
    requires a < b <= |table|
    ensures BlockStart(table, a + 1) == BlockStart(table, a) + table[a]
    ensures BlockStart(table, a) + table[a] <= BlockStart(table, b) <= Sum(table)
  {
    assert table[..a + 1] == table[..a] + [table[a]];
    SumAppend(table[..a], [table[a]]);
    assert table[..b] == table[..a + 1] + table[a + 1..b];
    SumAppend(table[..a + 1], table[a + 1..b]);
    assert table == table[..b] + table[b..];
    SumAppend(table[..b], table[b..]);
  }

  // ------------------------------------------------------------------ the walk

  /** What FvbGetLbaAddress finds: the offset it adds up, the block's length, and how many blocks of
      that run are left. */
  datatype Found = Found(offset: nat, length: nat, left: nat)

  /** The product by which the walk skips an entry is a UINT32 product. */
  function SkippedBytes(e: MapEntry): nat {
    (e.numBlocks * e.length) % TWO32
  }

  function Walk(es: seq<MapEntry>, lba: nat): Option<Found> {
    if es == [] then None
    else if lba < es[0].numBlocks then Some(Found(lba * es[0].length, es[0].length, es[0].numBlocks - lba))
    else match Walk(es[1..], lba - es[0].numBlocks)
      case None => None
      case Some(f) => Some(f.(offset := SkippedBytes(es[0]) + f.offset))
  }

  /** The entry that block `lba` belongs to. */
  function RunOf(es: seq<MapEntry>, lba: nat): (k: nat)
    requires lba < |Table(es)|
    ensures k < |es|
  {
    if lba < es[0].numBlocks then 0 else 1 + RunOf(es[1..], lba - es[0].numBlocks)
  }

  /** The walk succeeds exactly for the block numbers of the table, with the block's length and the
      rest of its run. */
  lemma {:induction false} WalkFindsBlock(es: seq<MapEntry>, lba: nat)
    ensures Walk(es, lba).Some? <==> lba < |Table(es)|
    ensures lba < |Table(es)| ==>
              var f := Walk(es, lba).value;
              f.length == Table(es)[lba] && 0 < f.left <= |Table(es)| - lba &&
              forall i | lba <= i < lba + f.left :: Table(es)[i] == f.length
  {
    if es != [] && lba >= es[0].numBlocks {
      var rest, below := es[1..], es[0].numBlocks;
      WalkFindsBlock(rest, lba - below);
      assert forall i | below <= i < |Table(es)| :: Table(es)[i] == Table(rest)[i - below];
    }
  }

  lemma {:induction false} TableSplit(es: seq<MapEntry>, lba: nat)
    requires es != [] && es[0].numBlocks <= lba < |Table(es)|
    ensures BlockStart(Table(es), lba)
         == es[0].numBlocks * es[0].length + BlockStart(Table(es[1..]), lba - es[0].numBlocks)
  {
    var run := seq(es[0].numBlocks, _ => es[0].length);
    var below := Table(es[1..])[..lba - es[0].numBlocks];
    assert Table(es)[..lba] == run + below;
    SumAppend(run, below);
    SumRun(es[0].numBlocks, es[0].length);
  }

  /** The offset that the walk adds up never exceeds where the block begins, and is exactly that if
      and only if no skipped run is 2^32 bytes or longer. */
  lemma {:induction false} WalkOffset(es: seq<MapEntry>, lba: nat)
    requires lba < |Table(es)|
    ensures Walk(es, lba).Some? && Walk(es, lba).value.offset <= BlockStart(Table(es), lba)
    ensures Walk(es, lba).value.offset == BlockStart(Table(es), lba) <==>
            forall i | 0 <= i < RunOf(es, lba) :: es[i].numBlocks * es[i].length < TWO32
  {
    var e, rest := es[0], es[1..];
    if lba < e.numBlocks {
      assert Table(es)[..lba] == seq(lba, _ => e.length);
      SumRun(lba, e.length);
    } else {
      var k := RunOf(rest, lba - e.numBlocks);
      WalkOffset(rest, lba - e.numBlocks);
      TableSplit(es, lba);
      assert SkippedBytes(e) <= e.numBlocks * e.length;
      assert SkippedBytes(e) == e.numBlocks * e.length <==> e.numBlocks * e.length < TWO32;
      assert (forall i | 0 <= i < k + 1 :: es[i].numBlocks * es[i].length < TWO32) <==>
             (e.numBlocks * e.length < TWO32 &&
              forall i | 0 <= i < k :: rest[i].numBlocks * rest[i].length < TWO32) by {
        assert forall i | 0 <= i < k :: rest[i] == es[i + 1];
        assert forall i | 1 <= i < k + 1 :: es[i] == rest[i - 1];
      }
    }
  }

  /** A run of 2^32 bytes is skipped as if it were empty: the next block is found at its place. */
  lemma LongRunSkippedWrongly()
    ensures var es := [MapEntry(0x1_0000, 0x1_0000), MapEntry(1, 0x200)];
            Walk(es, 0x1_0000) == Some(Found(0, 0x200, 1)) && BlockStart(Table(es), 0x1_0000) == TWO32
  {
    var es := [MapEntry(0x1_0000, 0x1_0000), MapEntry(1, 0x200)];
    var run := seq(0x1_0000, _ => 0x1_0000);
    assert es[1..] == [MapEntry(1, 0x200)] && es[1..][1..] == [];
    assert Walk(es[1..], 0) == Some(Found(0, 0x200, 1));
    assert Table(es) == run + Table(es[1..]);
    assert Table(es)[..0x1_0000] == run;
    SumRun(0x1_0000, 0x1_0000);
  }

  /** Over a map whose blocks fit below 2^32 bytes, the walk is exact. */
  lemma WalkExact(es: seq<MapEntry>, lba: nat)
    requires Sum(Table(es)) < TWO32 && lba < |Table(es)|
    ensures Walk(es, lba).Some?
    ensures var f := Walk(es, lba).value; f.offset == BlockStart(Table(es), lba) && f.length == Table(es)[lba]
  {
    WalkFindsBlock(es, lba);
    WalkOffset(es, lba);
    forall i | 0 <= i < RunOf(es, lba) ensures es[i].numBlocks * es[i].length < TWO32 {
      RunWithinSum(es, i);
    }
  }

  lemma {:induction false} RunWithinSum(es: seq<MapEntry>, i: nat)
    requires i < |es|
    ensures es[i].numBlocks * es[i].length <= Sum(Table(es))
  {
    SumAppend(seq(es[0].numBlocks, _ => es[0].length), Table(es[1..]));
    SumRun(es[0].numBlocks, es[0].length);
    if i > 0 {
      RunWithinSum(es[1..], i - 1);
    }
  }
}
