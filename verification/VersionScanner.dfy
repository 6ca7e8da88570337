/** The one-pass "x.y" scanner that fills the BIOS release numbers of the SMBIOS type 0 record
    (BIOSInfoUpdateSmbiosType0 of PlatformSmbiosDxe.c). The text carries its NUL as last byte and nothing
    behind it, so a read past the terminator would be an index out of range. */
module VersionScanner {
  import opened Bytes

  const DOT: Byte := 46
  const ZERO: Byte := 48
  const LARGEST := 255

  datatype Release = Release(major: nat, minor: nat)

  ghost predicate Terminated(s: seq<Byte>) {
    s != [] && s[|s| - 1] == 0 && forall i | 0 <= i < |s| - 1 :: s[i] != 0
  }

  predicate IsDigit(c: Byte) {
    ZERO <= c <= ZERO + 9
  }

  ghost predicate Digits(s: seq<Byte>, lo: nat, hi: nat) {
    lo <= hi <= |s| && forall i | lo <= i < hi :: IsDigit(s[i])
  }

  /** The decimal number written in s[lo..hi]. */
  ghost function Number(s: seq<Byte>, lo: nat, hi: nat): nat
    requires Digits(s, lo, hi)
  {
    if lo == hi then 0 else 10 * Number(s, lo, hi - 1) + (s[hi - 1] - ZERO)
  }

  /** A nonempty run of digits with no digit on either side. */
  ghost predicate Run(s: seq<Byte>, lo: nat, hi: nat) {
    lo < hi && Digits(s, lo, hi) && (lo > 0 ==> !IsDigit(s[lo - 1])) && (hi < |s| ==> !IsDigit(s[hi]))
  }

  /** "x.y": two whole digit runs with a single dot between them, each a number that fits a byte. */
  ghost predicate Version(s: seq<Byte>, a: nat, b: nat, c: nat) {
    Run(s, a, b) && b < |s| && s[b] == DOT && Run(s, b + 1, c) &&
    Number(s, a, b) <= LARGEST && Number(s, b + 1, c) <= LARGEST
  }

  ghost predicate NoneBefore(s: seq<Byte>, k: nat) {
    forall a: nat, b: nat, c: nat | Version(s, a, b, c) :: a >= k
  }

  ghost predicate Leftmost(s: seq<Byte>, a: nat, b: nat, c: nat) {
    Version(s, a, b, c) && NoneBefore(s, a)
  }

  /** What the record should hold: the leftmost version, or what it held before when there is none. */
  ghost predicate Stores(s: seq<Byte>, before: Release, after: Release) {
    if exists a: nat, b: nat, c: nat :: Version(s, a, b, c)
    then exists a: nat, b: nat, c: nat :: Leftmost(s, a, b, c) && after == Release(Number(s, a, b), Number(s, b + 1, c))
    else after == before
  }

  lemma RunEndsOnce(s: seq<Byte>, lo: nat, hi: nat, hi': nat)
    requires Run(s, lo, hi) && Run(s, lo, hi')
    ensures hi == hi'
  {
  }

  lemma LeftmostIsOne(s: seq<Byte>, a: nat, b: nat, c: nat, a': nat, b': nat, c': nat)
    requires Leftmost(s, a, b, c) && Leftmost(s, a', b', c')
    ensures a == a' && b == b' && c == c'
  {
    RunEndsOnce(s, a, b, b');
    RunEndsOnce(s, b + 1, c, c');
  }

  /** The text alone decides what is stored. */
  lemma StoresDetermines(s: seq<Byte>, before: Release, one: Release, other: Release)
    requires Stores(s, before, one) && Stores(s, before, other)
    ensures one == other
  {
    if exists a: nat, b: nat, c: nat :: Version(s, a, b, c) {
      var a: nat, b: nat, c: nat :| Leftmost(s, a, b, c) && one == Release(Number(s, a, b), Number(s, b + 1, c));
      var a': nat, b': nat, c': nat :|
        Leftmost(s, a', b', c') && other == Release(Number(s, a', b'), Number(s, b' + 1, c'));
      LeftmostIsOne(s, a, b, c, a', b', c');
    }
  }

  lemma {:induction false} NumberGrows(s: seq<Byte>, lo: nat, mid: nat, hi: nat)
    requires lo <= mid <= hi && Digits(s, lo, hi)
    ensures Number(s, lo, mid) <= Number(s, lo, hi)
  {
    if mid < hi {
      NumberGrows(s, lo, mid, hi - 1);
    }
  }

  /** A run that does not lead a version is passed over whole. */
  lemma PassRun(s: seq<Byte>, lo: nat, hi: nat)
    requires NoneBefore(s, lo) && Run(s, lo, hi)
    requires forall c: nat :: !Version(s, lo, hi, c)
    ensures NoneBefore(s, hi) && (hi < |s| ==> NoneBefore(s, hi + 1))
  {
    forall a: nat, b: nat, c: nat | Version(s, a, b, c) ensures a >= hi && (hi < |s| ==> a > hi) {
      if a == lo {
        RunEndsOnce(s, lo, hi, b);
      }
    }
  }

  /** A run too large for a byte leads no version and ends none. */
  lemma PassLargeRun(s: seq<Byte>, lo: nat, mid: nat, hi: nat)
    requires NoneBefore(s, lo) && Run(s, lo, hi) && lo <= mid <= hi && Number(s, lo, mid) > LARGEST
    ensures NoneBefore(s, hi) && Number(s, lo, hi) > LARGEST
  {
    NumberGrows(s, lo, mid, hi);
    PassRun(s, lo, hi);
  }

  lemma LargeSecondNoVersion(s: seq<Byte>, a: nat, b: nat, c: nat, c': nat)
    requires Run(s, b + 1, c) && Number(s, b + 1, c) > LARGEST
    ensures !Version(s, a, b, c')
  {
    if Run(s, b + 1, c') {
      RunEndsOnce(s, b + 1, c, c');
    }
  }

  lemma PassLargeSecond(s: seq<Byte>, a: nat, b: nat, mid: nat, c: nat)
    requires NoneBefore(s, a) && Run(s, a, b) && b < |s| && Run(s, b + 1, c)
    requires b + 1 <= mid <= c && Number(s, b + 1, mid) > LARGEST
    ensures NoneBefore(s, c)
  {
    NumberGrows(s, b + 1, mid, c);
    forall c': nat ensures !Version(s, a, b, c') {
      LargeSecondNoVersion(s, a, b, c, c');
    }
    PassRun(s, a, b);
    PassLargeRun(s, b + 1, mid, c);
  }

  /** Inside the first run (state 1) or the second (state 3): it began at `a` or behind the dot at `b`. */
  ghost predicate Reads(s: seq<Byte>, state: nat, i: nat, a: nat, b: nat, x: nat, y: nat) {
    NoneBefore(s, a) && i <= |s| &&
    (state == 1 ==> Digits(s, a, i) && (a > 0 ==> !IsDigit(s[a - 1])) && x == Number(s, a, i) <= LARGEST && y == 0) &&
    (state == 3 ==> Run(s, a, b) && b < i && s[b] == DOT && x == Number(s, a, b) <= LARGEST &&
                    Digits(s, b + 1, i) && y == Number(s, b + 1, i) <= LARGEST)
  }

  /** What the scanner knows between two characters. */
  ghost predicate Knows(s: seq<Byte>, state: nat, i: nat, a: nat, b: nat, x: nat, y: nat) {
    i < |s| &&
    match state
    case 0 => NoneBefore(s, i) && (i > 0 && IsDigit(s[i - 1]) ==> !IsDigit(s[i]))
    case 1 => a < i && Reads(s, 1, i, a, b, x, y)
    case 3 => Reads(s, 3, i, a, b, x, y) && (i == b + 1 ==> IsDigit(s[i]))
    case 4 => i > 0 && Leftmost(s, a, b, i - 1) && x == Number(s, a, b) && y == Number(s, b + 1, i - 1)
    case _ => false
  }

  /** Skips the rest of the run that holds s[i]; stops on its last digit. */
  method SkipDigits(s: seq<Byte>, i: nat, ghost lo: nat) returns (last: nat)
    requires Terminated(s) && lo <= i < |s| - 1 && Digits(s, lo, i + 1) && (lo > 0 ==> !IsDigit(s[lo - 1]))
    ensures i <= last < |s| - 1 && Run(s, lo, last + 1)
  {
    last := i;
    while IsDigit(s[last + 1])
      invariant i <= last < |s| - 1 && Digits(s, lo, last + 1)
      decreases |s| - last
    {
      last := last + 1;
    }
  }

  /** Adds a digit to the number being read; one that no longer fits a byte abandons its whole run. */
  method TakeDigit(s: seq<Byte>, state: nat, i: nat, value: array<nat>, ghost a: nat, ghost b: nat)
    returns (next: nat, last: nat)
    requires Terminated(s) && value.Length == 2 && i < |s| - 1 && IsDigit(s[i])
    requires state == 1 || state == 3
    requires Reads(s, state, i, a, b, value[0], value[1])
    modifies value
    ensures i <= last < |s| - 1 && (next == 0 || next == state)
    ensures if next == 0 then Knows(s, 0, last + 1, a, b, value[0], value[1])
            else last == i && Reads(s, state, i + 1, a, b, value[0], value[1])
  {
    next, last := state, i;
    value[state / 2] := value[state / 2] * 10 + (s[i] - ZERO);
    if value[state / 2] > LARGEST {
      last := SkipDigits(s, i, if state == 1 then a else b + 1);
      next := 0;
      if state == 1 {
        PassLargeRun(s, a, i + 1, last + 1);
      } else {
        PassLargeSecond(s, a, b, i + 1, last + 1);
      }
    }
  }

  lemma NonDigitPasses(s: seq<Byte>, i: nat)
    ensures NoneBefore(s, 0)
    ensures NoneBefore(s, i) && i < |s| && !IsDigit(s[i]) ==> NoneBefore(s, i + 1)
  {
  }

  /** The first run ended at `b` without a dot and a digit behind it. */
  lemma RejectRun(s: seq<Byte>, a: nat, b: nat)
    requires NoneBefore(s, a) && Run(s, a, b) && b < |s| - 1
    requires !(s[b] == DOT && IsDigit(s[b + 1]))
    ensures NoneBefore(s, b + 1)
  {
    PassRun(s, a, b);
  }

  /** The second run ended at `i`: the version is found. */
  lemma AcceptRun(s: seq<Byte>, i: nat, a: nat, b: nat, x: nat, y: nat)
    requires Reads(s, 3, i, a, b, x, y) && b + 1 < i < |s| && !IsDigit(s[i])
    ensures Leftmost(s, a, b, i) && x == Number(s, a, b) && y == Number(s, b + 1, i)
  {
  }

  lemma ScanEnds(s: seq<Byte>, state: nat, i: nat, a: nat, b: nat, x: nat, y: nat, before: Release)
    requires Terminated(s) && Knows(s, state, i, a, b, x, y) && (i == |s| - 1 || state == 4)
    ensures Stores(s, before, if state == 3 || state == 4 then Release(x, y) else before)
  {
    if state == 3 {
      AcceptRun(s, i, a, b, x, y);
    }
    assert state == 3 || state == 4 ==> Leftmost(s, a, b, if state == 3 then i else i - 1);
  }

  method Scan(s: seq<Byte>, before: Release) returns (after: Release)
    requires Terminated(s)
    ensures Stores(s, before, after)
  {
    hide Leftmost, Version, Stores, NoneBefore;
    var value := new nat[2](_ => 0);
    var state, i := 0, 0;
    ghost var a, b := 0, 0;
    NonDigitPasses(s, 0);
    while i < |s| - 1 && state < 4
      invariant Knows(s, state, i, a, b, value[0], value[1])
      decreases |s| - i
    {
      if state == 0 && IsDigit(s[i]) {
        value[0], value[1] := 0, 0;
        state := 1;
        a := i;
      }
      NonDigitPasses(s, i);
      if state == 1 || state == 3 {
        if IsDigit(s[i]) {
          state, i := TakeDigit(s, state, i, value, a, b);
        } else {
          if state == 3 {
            AcceptRun(s, i, a, b, value[0], value[1]);
          }
          state := state + 1;
        }
        if state == 2 {
          b := i;
          if s[i] == DOT && IsDigit(s[i + 1]) {
            state := 3;
          } else {
            RejectRun(s, a, b);
            state := 0;
          }
        }
      }
      i := i + 1;
    }
    after := before;
    if state == 3 || state == 4 {
      after := Release(value[0], value[1]);
    }
    ScanEnds(s, state, i, a, b, value[0], value[1], before);
  }

  // ------------------------------------------------------------------ printed, then scanned

  /** `n` in decimal. */
  function Decimal(n: nat): (text: seq<Byte>)
    ensures text != [] && forall i | 0 <= i < |text| :: '0' as int <= text[i] <= '9' as int
  {
    if n < 10 then ['0' as int + n] else Decimal(n / 10) + ['0' as int + n % 10]
  }

  lemma DigitIs(c: Byte)
    ensures IsDigit(c) <==> (c as char) in "0123456789"
  {
  }

  /** A number that was printed reads as itself, wherever it stands. */
  lemma {:induction false} PrintedNumberRead(s: seq<Byte>, lo: nat, hi: nat, n: nat)
    requires lo <= hi <= |s| && s[lo..hi] == Decimal(n)
    ensures Digits(s, lo, hi) && Number(s, lo, hi) == n
  {
    assert forall i | lo <= i < hi :: s[i] == s[lo..hi][i - lo];
    if n < 10 {
      assert hi == lo + 1 && Number(s, lo, lo) == 0;
    } else {
      assert s[lo..hi - 1] == Decimal(n)[..|Decimal(n)| - 1] == Decimal(n / 10);
      PrintedNumberRead(s, lo, hi - 1, n / 10);
    }
  }

  /** The first digits of a text, if they are a printed version, are its leftmost version. */
  lemma PrintedIsLeftmost(s: seq<Byte>, a: nat, b: nat, c: nat, x: nat, y: nat)
    requires a <= b < c < |s| && s[a..b] == Decimal(x) && s[b] == DOT && s[b + 1..c] == Decimal(y)
    requires x <= LARGEST && y <= LARGEST && !IsDigit(s[c]) && forall i | 0 <= i < a :: !IsDigit(s[i])
    ensures Leftmost(s, a, b, c) && Number(s, a, b) == x && Number(s, b + 1, c) == y
  {
    PrintedNumberRead(s, a, b, x);
    PrintedNumberRead(s, b + 1, c, y);
    assert Run(s, a, b) && Run(s, b + 1, c);
    forall a': nat, b': nat, c': nat | Version(s, a', b', c') ensures a' >= a {
      assert IsDigit(s[a']);
    }
  }

  /** A version printed behind a text without digits, and not followed by a digit, is what is stored. */
  lemma PrintedVersionRead(front: seq<Byte>, x: nat, y: nat, back: seq<Byte>, before: Release, after: Release)
    requires x <= LARGEST && y <= LARGEST && back != [] && !IsDigit(back[0])
    requires forall i | 0 <= i < |front| :: !IsDigit(front[i])
    requires Stores(front + Decimal(x) + [DOT] + Decimal(y) + back, before, after)
    ensures after == Release(x, y)
  {
    hide Decimal, IsDigit, NoneBefore;
    var s := front + Decimal(x) + [DOT] + Decimal(y) + back;
    var a, b := |front|, |front| + |Decimal(x)|;
    var c := b + 1 + |Decimal(y)|;
    assert s[a..b] == Decimal(x) && s[b] == DOT && s[b + 1..c] == Decimal(y) && s[c] == back[0];
    assert forall i | 0 <= i < a :: s[i] == front[i];
    PrintedIsLeftmost(s, a, b, c, x, y);
    LeftmostStored(s, a, b, c, before, after);
  }

  lemma LeftmostStored(s: seq<Byte>, a: nat, b: nat, c: nat, before: Release, after: Release)
    requires Leftmost(s, a, b, c) && Stores(s, before, after)
    ensures after == Release(Number(s, a, b), Number(s, b + 1, c))
  {
    var a': nat, b': nat, c': nat :|
      Leftmost(s, a', b', c') && after == Release(Number(s, a', b'), Number(s, b' + 1, c'));
    LeftmostIsOne(s, a, b, c, a', b', c');
  }
}
