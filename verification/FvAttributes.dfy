/** A byte as a bit vector and back. */
module ByteBits {
  lemma ByteRoundTrip(b: int)
    requires 0 <= b < 256
    ensures (b as bv8) as int == b
  {
  }
}

/** The attribute word of a firmware volume and the rules for changing it (VarBlockService.c,
    FvbSetVolumeAttributes; section 3.2.1 of the PI Specification, Volume 3). */
module FvAttributes {
  import opened Bytes
  import opened EfiStatus
  import opened FvBlockMap
  import opened ByteBits

  const READ_DISABLED_CAP: bv32 := 0x0000_0001
  const READ_ENABLED_CAP: bv32 := 0x0000_0002
  const READ_STATUS: bv32 := 0x0000_0004
  const WRITE_DISABLED_CAP: bv32 := 0x0000_0008
  const WRITE_ENABLED_CAP: bv32 := 0x0000_0010
  const WRITE_STATUS: bv32 := 0x0000_0020
  const LOCK_CAP: bv32 := 0x0000_0040
  const LOCK_STATUS: bv32 := 0x0000_0080
  const STICKY_WRITE: bv32 := 0x0000_0200
  const MEMORY_MAPPED: bv32 := 0x0000_0400
  const ERASE_POLARITY: bv32 := 0x0000_0800
  const READ_LOCK_CAP: bv32 := 0x0000_1000
  const WRITE_LOCK_CAP: bv32 := 0x0000_4000
  const ALIGNMENT: bv32 := 0x001F_0000
  const ALIGNMENT_16: bv32 := 0x0004_0000

  const STATUS_BITS: bv32 := READ_STATUS | WRITE_STATUS | LOCK_STATUS
  const UNCHANGED_BITS: bv32 :=
    READ_DISABLED_CAP | READ_ENABLED_CAP | WRITE_DISABLED_CAP | WRITE_ENABLED_CAP | LOCK_CAP | STICKY_WRITE
    | MEMORY_MAPPED | ERASE_POLARITY | READ_LOCK_CAP | WRITE_LOCK_CAP | ALIGNMENT

  /** The attribute word of the platform's template header. */
  const TEMPLATE_ATTRIBUTES: bv32 :=
    MEMORY_MAPPED | READ_ENABLED_CAP | READ_STATUS | WRITE_ENABLED_CAP | WRITE_STATUS | ERASE_POLARITY | ALIGNMENT_16

  /** The tests of FvbSetVolumeAttributes in the source's order. */
  function Verdict(word: bv32, request: bv32): Status {
    if (word & UNCHANGED_BITS) ^ (request & UNCHANGED_BITS) != 0 then InvalidParameter
    else if word & LOCK_STATUS != 0 && (word & STATUS_BITS) ^ (request & STATUS_BITS) != 0 then AccessDenied
    else if word & READ_DISABLED_CAP == 0 && request & READ_STATUS == 0 then InvalidParameter
    else if word & READ_ENABLED_CAP == 0 && request & READ_STATUS != 0 then InvalidParameter
    else if word & WRITE_DISABLED_CAP == 0 && request & WRITE_STATUS == 0 then InvalidParameter
    else if word & WRITE_ENABLED_CAP == 0 && request & WRITE_STATUS != 0 then InvalidParameter
    else if word & LOCK_CAP == 0 && request & LOCK_STATUS != 0 then InvalidParameter
    else Success
  }

  /** The word an accepted request leaves behind. */
  function Updated(word: bv32, request: bv32): bv32 {
    (word & !STATUS_BITS) | (request & STATUS_BITS)
  }

  /** No accepted request can change the word: it is locked, or reads or writes have no capability at
      all, or neither status can be toggled and the volume cannot be locked. */
  predicate Fixed(word: bv32) {
    word & LOCK_STATUS != 0 ||
    word & (READ_DISABLED_CAP | READ_ENABLED_CAP) == 0 ||
    word & (WRITE_DISABLED_CAP | WRITE_ENABLED_CAP) == 0 ||
    (word & (if word & READ_STATUS != 0 then READ_DISABLED_CAP else READ_ENABLED_CAP) == 0 &&
     word & (if word & WRITE_STATUS != 0 then WRITE_DISABLED_CAP else WRITE_ENABLED_CAP) == 0 &&
     word & LOCK_CAP == 0)
  }

  /** A request that would change a word that is not fixed. */
  function Toggle(word: bv32): bv32 {
    var read := if word & (if word & READ_STATUS != 0 then READ_DISABLED_CAP else READ_ENABLED_CAP) != 0
                then !word & READ_STATUS else word & READ_STATUS;
    var write := if word & (if word & WRITE_STATUS != 0 then WRITE_DISABLED_CAP else WRITE_ENABLED_CAP) != 0
                 then !word & WRITE_STATUS else word & WRITE_STATUS;
    (word & !STATUS_BITS) | read | write | (if word & LOCK_CAP != 0 then LOCK_STATUS else 0)
  }

  lemma FixedAcceptsIdentityOnly(word: bv32, request: bv32)
    requires Fixed(word) && Verdict(word, request) == Success
    ensures Updated(word, request) == word
  {
  }

  lemma UnfixedAcceptsToggle(word: bv32)
    requires !Fixed(word)
    ensures Verdict(word, Toggle(word)) == Success && Updated(word, Toggle(word)) != word
  {
  }

  /** Setting attributes is the identity on every accepted request exactly for the fixed words. */
  lemma FixedExactly(word: bv32)
    ensures Fixed(word) <==> forall request :: Verdict(word, request) == Success ==> Updated(word, request) == word
  {
    if Fixed(word) {
      forall request | Verdict(word, request) == Success ensures Updated(word, request) == word {
        FixedAcceptsIdentityOnly(word, request);
      }
    } else {
      UnfixedAcceptsToggle(word);
    }
  }

  /** A request is denied access exactly for touching the status of a locked volume, if it keeps the bits that are
      fixed. */
  lemma DeniedExactly(word: bv32, request: bv32)
    ensures Verdict(word, request) == AccessDenied <==>
            word & UNCHANGED_BITS == request & UNCHANGED_BITS && word & LOCK_STATUS != 0 &&
            word & STATUS_BITS != request & STATUS_BITS
  {
    var kept, now, status, asked :=
      word & UNCHANGED_BITS, request & UNCHANGED_BITS, word & STATUS_BITS, request & STATUS_BITS;
    SameExactly(kept, now);
    SameExactly(status, asked);
    if kept != now {
      assert kept ^ now != 0;
    } else if word & LOCK_STATUS != 0 && status != asked {
      assert status ^ asked != 0;
    } else {
      assert kept ^ now == 0;
    }
  }

  lemma SameExactly(a: bv32, b: bv32)
    ensures a ^ b == 0 <==> a == b
  {
  }

  /** An accepted request changes status bits only, to what it asked for, and within the
      capabilities of the volume. */
  lemma AcceptedRequest(word: bv32, request: bv32)
    requires Verdict(word, request) == Success
    ensures Updated(word, request) & !STATUS_BITS == word & !STATUS_BITS
    ensures Updated(word, request) & STATUS_BITS == request & STATUS_BITS
    ensures Verdict(Updated(word, request), Updated(word, request)) == Success
  {
  }

  lemma TemplateIsFixed()
    ensures Fixed(TEMPLATE_ATTRIBUTES)
    ensures TEMPLATE_ATTRIBUTES & READ_STATUS != 0 && TEMPLATE_ATTRIBUTES & WRITE_STATUS != 0
  {
  }

  // ------------------------------------------------------------------ the word in the header

  function Join(x0: bv8, x1: bv8, x2: bv8, x3: bv8): bv32 {
    (x0 as bv32) | ((x1 as bv32) << 8) | ((x2 as bv32) << 16) | ((x3 as bv32) << 24)
  }

  function Part0(word: bv32): bv8 { (word & 0xFF) as bv8 }
  function Part1(word: bv32): bv8 { ((word >> 8) & 0xFF) as bv8 }
  function Part2(word: bv32): bv8 { ((word >> 16) & 0xFF) as bv8 }
  function Part3(word: bv32): bv8 { ((word >> 24) & 0xFF) as bv8 }

  lemma PartsOfJoin(x0: bv8, x1: bv8, x2: bv8, x3: bv8)
    ensures var w := Join(x0, x1, x2, x3); Part0(w) == x0 && Part1(w) == x1 && Part2(w) == x2 && Part3(w) == x3
  {
  }

  lemma JoinOfParts(word: bv32)
    ensures Join(Part0(word), Part1(word), Part2(word), Part3(word)) == word
  {
  }

  function WordBytes(word: bv32): (bytes: seq<Byte>)
    ensures |bytes| == 4
  {
    [Part0(word) as int, Part1(word) as int, Part2(word) as int, Part3(word) as int]
  }

  /** VolumeHeader->Attributes. */
  function AttributesIn(m: seq<Byte>): bv32
    requires |m| >= BLOCK_MAP_AT
  {
    Join(m[ATTRIBUTES_AT] as bv8, m[ATTRIBUTES_AT + 1] as bv8, m[ATTRIBUTES_AT + 2] as bv8, m[ATTRIBUTES_AT + 3] as bv8)
  }

  lemma WriteThenRead(m: seq<Byte>, word: bv32)
    requires |m| >= BLOCK_MAP_AT && m[ATTRIBUTES_AT..ATTRIBUTES_AT + 4] == WordBytes(word)
    ensures AttributesIn(m) == word
  {
    var b := WordBytes(word);
    forall i | 0 <= i < 4 ensures m[ATTRIBUTES_AT + i] == b[i] {
      assert m[ATTRIBUTES_AT + i] == m[ATTRIBUTES_AT..ATTRIBUTES_AT + 4][i];
    }
    JoinOfParts(word);
  }

  lemma ReadThenWrite(m: seq<Byte>)
    requires |m| >= BLOCK_MAP_AT
    ensures WordBytes(AttributesIn(m)) == m[ATTRIBUTES_AT..ATTRIBUTES_AT + 4]
  {
    PartsOfJoin(m[ATTRIBUTES_AT] as bv8, m[ATTRIBUTES_AT + 1] as bv8,
                m[ATTRIBUTES_AT + 2] as bv8, m[ATTRIBUTES_AT + 3] as bv8);
    ByteRoundTrip(m[ATTRIBUTES_AT]);
    ByteRoundTrip(m[ATTRIBUTES_AT + 1]);
    ByteRoundTrip(m[ATTRIBUTES_AT + 2]);
    ByteRoundTrip(m[ATTRIBUTES_AT + 3]);
  }
}
