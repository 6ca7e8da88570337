/** SMBIOS string packs (section 6.1.3 of DMTF DSP0134): the record writer of PlatformSmbiosDxe.c
    (LogSmbiosData) against the string-by-index reader of FrontPage.c (GetOptionalStringByIndex). */
module SmbiosStrings {
  import opened Wrappers
  import opened Bytes
  import opened EfiStatus

  /** An ASCII string without its terminating NUL. */
  type Text = seq<Byte>

  ghost predicate NulFree(t: Text) {
    forall i | 0 <= i < |t| :: t[i] != 0
  }

  ghost predicate AllNulFree(pack: seq<Text>) {
    forall i | 0 <= i < |pack| :: NulFree(pack[i])
  }

  /** The strings one after the other, each with its NUL. */
  function Packed(pack: seq<Text>): seq<Byte> {
    if pack == [] then [] else Packed(pack[..|pack| - 1]) + pack[|pack| - 1] + [0]
  }

  /** A string set as it follows the fixed record: closed by one more NUL, and a double NUL when there
      is no string at all. */
  function Layout(pack: seq<Text>): seq<Byte> {
    Packed(pack) + (if pack == [] then [0, 0] else [0])
  }

  /** Where string `i` begins, relative to the first. */
  function TextStart(pack: seq<Text>, i: nat): nat
    requires i <= |pack|
  {
    |Packed(pack[..i])|
  }

  lemma {:induction false} PackedPrefix(pack: seq<Text>, i: nat)
    requires i < |pack|
    ensures TextStart(pack, i + 1) == TextStart(pack, i) + |pack[i]| + 1 <= |Packed(pack)|
    ensures Packed(pack)[TextStart(pack, i)..TextStart(pack, i + 1)] == pack[i] + [0]
    decreases |pack|
  {
    assert pack[..i + 1][..i] == pack[..i];
    if i + 1 < |pack| {
      var front := pack[..|pack| - 1];
      PackedPrefix(front, i);
      assert front[..i] == pack[..i] && front[..i + 1] == pack[..i + 1];
      assert Packed(pack)[..|Packed(front)|] == Packed(front);
    } else {
      assert pack[..i + 1] == pack;
    }
  }

  /** Every layout ends in a double NUL. */
  lemma LayoutEndsInDoubleNul(pack: seq<Text>)
    ensures var l := Layout(pack); |l| >= 2 && l[|l| - 1] == 0 && l[|l| - 2] == 0
  {
  }

  // ------------------------------------------------------------------ the writer

  /** The size that LogSmbiosData computes is the number of bytes laid out. */
  method RecordSize(template: seq<Byte>, pack: seq<Text>) returns (size: nat)
    ensures size == |template| + |Layout(pack)|
  {
    size := |template|;
    var index := 0;
    while index < |pack|
      invariant index <= |pack| && size == |template| + TextStart(pack, index)
    {
      PackedPrefix(pack, index);
      size := size + (|pack[index]| + 1);
      index := index + 1;
    }
    if |pack| == 0 {
      size := size + 1;
    }
    size := size + 1;
    assert pack[..|pack|] == pack;
  }

  /** LogSmbiosData up to the hand-over to the SMBIOS protocol. `template` is the fixed record, as long
      as its Length field says; `granted`: memory was allocated. */
  method BuildRecord(template: seq<Byte>, pack: seq<Text>, granted: bool)
    returns (status: Status, record: array<Byte>)
    ensures status == if granted then Success else OutOfResources
    ensures status == Success ==> fresh(record) && record[..] == template + Layout(pack)
  {
    var size := RecordSize(template, pack);
    if !granted {
      return OutOfResources, new Byte[0];
    }
    record := new Byte[size](_ => 0);
    forall i | 0 <= i < |template| {
      record[i] := template[i];
    }
    var str := AppendStrings(record, template, pack);
    record[str] := 0;
    status := Success;
    assert record[..] == record[..str] + record[str..];
    assert record.Length - str == if pack == [] then 2 else 1;
    assert forall i | 0 <= i < record.Length - str :: record[str..][i] == 0;
    assert record[str..] == if pack == [] then [0, 0] else [0];
  }

  /** The copy loop, behind the fixed record. */
  method AppendStrings(record: array<Byte>, template: seq<Byte>, pack: seq<Text>) returns (str: nat)
    requires record.Length > |template| + |Packed(pack)| && record[..|template|] == template
    requires forall i | |template| <= i < record.Length :: record[i] == 0
    modifies record
    ensures str == |template| + |Packed(pack)| && record[..str] == template + Packed(pack)
    ensures forall i | str <= i < record.Length :: record[i] == 0
  {
    str := |template|;
    var index := 0;
    assert pack[..0] == [];
    while index < |pack|
      invariant index <= |pack| && str == |template| + TextStart(pack, index) < record.Length
      invariant record[..str] == template + Packed(pack[..index])
      invariant forall i | str <= i < record.Length :: record[i] == 0
    {
      PackedPrefix(pack, index);
      NextPrefix(pack, index);
      CopyText(record, str, pack[index]);
      str := str + (|pack[index]| + 1);
      index := index + 1;
    }
    assert pack[..|pack|] == pack;
  }

  lemma NextPrefix(pack: seq<Text>, i: nat)
    requires i < |pack|
    ensures Packed(pack[..i + 1]) == Packed(pack[..i]) + pack[i] + [0]
  {
    assert pack[..i + 1][..i] == pack[..i];
  }

  /** CopyMem of a string with its NUL. */
  method CopyText(record: array<Byte>, at: nat, text: Text)
    requires at + |text| < record.Length && forall i | at <= i < record.Length :: record[i] == 0
    modifies record
    ensures record[..at + |text| + 1] == old(record[..at]) + text + [0]
    ensures forall i | at + |text| < i < record.Length :: record[i] == 0
  {
    forall i | 0 <= i < |text| {
      record[at + i] := text[i];
    }
    assert record[..at] == old(record[..at]);
    assert record[at..at + |text|] == text;
    assert record[..at + |text| + 1] == record[..at] + record[at..at + |text|] + record[at + |text|..at + |text| + 1];
  }

  // ------------------------------------------------------------------ the reader

  /** AsciiStrSize of the string at `at`. */
  method AsciiStrSize(m: array<Byte>, at: nat, ghost text: Text) returns (size: nat)
    requires at + |text| < m.Length && m[at..at + |text| + 1] == text + [0] && NulFree(text)
    ensures size == |text| + 1
  {
    size := 0;
    ghost var here := m[at..at + |text| + 1];
    while m[at + size] != 0
      invariant size <= |text|
      invariant here == text + [0] && m[at + size] == here[size]
      decreases |text| - size
    {
      size := size + 1;
      assert m[at + size] == here[size];
    }
    size := size + 1;
  }

  /** What the reader finds: string `index`, unless it or a string between the first and it is empty. */
  function Lookup(pack: seq<Text>, index: nat): Option<Text> {
    if index == 0 then Some([])
    else if index <= |pack| && pack[index - 1] != [] && (forall i | 1 <= i < index :: pack[i] != [])
    then Some(pack[index - 1])
    else None
  }

  /** Exactly the packs without an empty string give every string back. */
  lemma LookupRoundTripExactly(pack: seq<Text>)
    ensures (forall k | 1 <= k <= |pack| :: Lookup(pack, k) == Some(pack[k - 1]))
            <==> forall i | 0 <= i < |pack| :: pack[i] != []
  {
    if i :| 0 <= i < |pack| && pack[i] == [] {
      assert Lookup(pack, i + 1) == None;
    }
  }

  /** An empty string behind the first hides itself and all strings behind it; an empty first string hides itself
      alone. */
  lemma EmptyHides(pack: seq<Text>, i: nat, k: nat)
    requires i < |pack| && pack[i] == []
    ensures 0 < i < k ==> Lookup(pack, k) == None
    ensures k == i + 1 ==> Lookup(pack, k) == None
    ensures i == 0 && (forall j | 0 < j < |pack| :: pack[j] != []) && 1 < k <= |pack| ==>
              Lookup(pack, k) == Some(pack[k - 1])
  {
  }

  /** The bytes that the reader looks at around string `i`. */
  lemma AroundText(pack: seq<Text>, i: nat)
    requires i < |pack|
    ensures TextStart(pack, i) + |pack[i]| + 1 < |Layout(pack)|
    ensures Layout(pack)[TextStart(pack, i)..TextStart(pack, i) + |pack[i]| + 1] == pack[i] + [0]
    ensures Layout(pack)[TextStart(pack, i) + |pack[i]| + 1]
         == if i + 1 < |pack| && pack[i + 1] != [] then pack[i + 1][0] else 0
  {
    PackedPrefix(pack, i);
    assert Layout(pack)[..|Packed(pack)|] == Packed(pack);
    if i + 1 < |pack| {
      PackedPrefix(pack, i + 1);
      var lo, hi := TextStart(pack, i + 1), TextStart(pack, i + 2);
      assert Layout(pack)[lo] == Packed(pack)[lo..hi][0];
    } else {
      assert pack[..i + 1] == pack;
    }
  }

  /** GetOptionalStringByIndex over a string set that begins at `start`. It never looks past the set. */
  method GetOptionalStringByIndex(m: array<Byte>, start: nat, index: nat, ghost pack: seq<Text>)
    returns (text: Option<Text>)
    requires AllNulFree(pack) && start + |Layout(pack)| <= m.Length
    requires m[start..start + |Layout(pack)|] == Layout(pack)
    ensures text == Lookup(pack, index)
  {
    if index == 0 {
      return Some([]);
    }
    var left, at, size := index, start, 0;
    ghost var i, here := 0, [];
    assert pack[..0] == [];
    while true
      invariant i <= |pack| && (pack != [] ==> i < |pack|)
      invariant i + left == index && left > 0 && at + size == start + TextStart(pack, i)
      invariant forall j | 1 <= j <= i && pack != [] :: pack[j] != []
      decreases left
    {
      left := left - 1;
      at := at + size;
      here := ReadAt(m, start, pack, i);
      size := AsciiStrSize(m, at, here);
      if !(m[at + size] != 0 && left != 0) {
        break;
      }
      PackedPrefix(pack, i);
      i := i + 1;
    }
    if left != 0 || size == 1 {
      return None;
    }
    text := Some(m[at..at + size - 1]);
    assert m[at..at + size - 1] == m[at..at + size][..size - 1] == here;
  }

  /** The string that begins at string `i`'s place, and the byte behind it. */
  ghost function ReadAt(m: array<Byte>, start: nat, pack: seq<Text>, i: nat): (text: Text)
    reads m
    requires AllNulFree(pack) && start + |Layout(pack)| <= m.Length
    requires m[start..start + |Layout(pack)|] == Layout(pack)
    requires if pack == [] then i == 0 else i < |pack|
    ensures text == if pack == [] then [] else pack[i]
    ensures NulFree(text)
    ensures var at := start + TextStart(pack, i);
            at + |text| + 1 < m.Length && m[at..at + |text| + 1] == text + [0] &&
            m[at + |text| + 1] == (if i + 1 < |pack| && pack[i + 1] != [] then pack[i + 1][0] else 0)
  {
    if pack == [] then
      assert m[start] == Layout(pack)[0] && m[start + 1] == Layout(pack)[1];
      []
    else
      Around(m, start, pack, i);
      pack[i]
  }

  lemma Around(m: array<Byte>, start: nat, pack: seq<Text>, i: nat)
    requires start + |Layout(pack)| <= m.Length && m[start..start + |Layout(pack)|] == Layout(pack) && i < |pack|
    ensures var at := start + TextStart(pack, i);
            at + |pack[i]| + 1 < m.Length && m[at..at + |pack[i]| + 1] == pack[i] + [0] &&
            m[at + |pack[i]| + 1] == (if i + 1 < |pack| && pack[i + 1] != [] then pack[i + 1][0] else 0)
  {
    AroundText(pack, i);
    var lo := TextStart(pack, i);
    PartOfSlice(m[..], start, Layout(pack), lo, lo + |pack[i]| + 1);
  }

  /** Written, then read: the record of a pack of nonempty strings gives every string back by number. */
  method WriteThenRead(template: seq<Byte>, pack: seq<Text>, index: nat, granted: bool)
    returns (status: Status, text: Option<Text>)
    requires AllNulFree(pack) && (forall i | 0 <= i < |pack| :: pack[i] != []) && 1 <= index < 256
    ensures status == Success <==> granted
    ensures status == Success ==> text == if index <= |pack| then Some(pack[index - 1]) else None
  {
    var record;
    status, record := BuildRecord(template, pack, granted);
    text := None;
    if status == Success {
      assert record[|template|..|template| + |Layout(pack)|] == Layout(pack);
      text := GetOptionalStringByIndex(record, |template|, index, pack);
    }
  }
}
