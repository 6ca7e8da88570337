/** The top menu of FrontPage.c: the form map that RemoveMenuFromList renumbers in place, the cells that
    CreateTopMenu fills from it and the form that CallFrontPage opens for a cell. */
module FrontPageMenu {
  import opened Wrappers

  const UNUSED := 0xFFFF

  /** A row of mFormMap; `form` stands for its formset and form identifiers. */
  datatype Row = Row(full: nat, limited: nat, text: nat, form: nat) {
    function Index(showFull: bool): nat {
      if showFull then full else limited
    }
  }

  // ------------------------------------------------------------------ one column of indices

  /** How many entries of a column are in use. */
  function Used(column: seq<nat>): nat {
    if column == [] then 0
    else Used(column[..|column| - 1]) + if column[|column| - 1] == UNUSED then 0 else 1
  }

  /** The used entries count 0, 1, 2 and so on. */
  ghost predicate Dense(column: seq<nat>) {
    |column| < UNUSED && forall i | 0 <= i < |column| && column[i] != UNUSED :: column[i] == Used(column[..i])
  }

  ghost predicate SameUse(one: seq<nat>, other: seq<nat>) {
    |one| == |other| && forall i | 0 <= i < |one| :: one[i] == UNUSED <==> other[i] == UNUSED
  }

  lemma {:induction false} UsedFits(column: seq<nat>)
    ensures Used(column) <= |column|
  {
    if column != [] {
      UsedFits(column[..|column| - 1]);
    }
  }

  lemma {:induction false} UsedGrows(column: seq<nat>, i: nat, j: nat)
    requires i <= j <= |column|
    ensures Used(column[..i]) <= Used(column[..j])
    ensures i < j && column[i] != UNUSED ==> Used(column[..i]) < Used(column[..j])
  {
    if i < j {
      UsedGrows(column, i, j - 1);
      assert column[..j][..j - 1] == column[..j - 1];
    }
  }

  lemma {:induction false} SameUseCountsAlike(one: seq<nat>, other: seq<nat>)
    requires SameUse(one, other)
    ensures Used(one) == Used(other)
  {
    if one != [] {
      SameUseCountsAlike(one[..|one| - 1], other[..|other| - 1]);
    }
  }

  /** Which rows are in use settles the whole column. */
  lemma DenseIsDetermined(one: seq<nat>, other: seq<nat>)
    requires Dense(one) && Dense(other) && SameUse(one, other)
    ensures one == other
  {
    forall i | 0 <= i < |one| ensures one[i] == other[i] {
      SameUseCountsAlike(one[..i], other[..i]);
    }
  }

  ghost predicate HasRow(column: seq<nat>, k: nat) {
    exists i :: 0 <= i < |column| && column[i] == k
  }

  lemma {:induction false} EveryCellHasARow(column: seq<nat>, k: nat)
    requires Dense(column) && k < Used(column)
    ensures HasRow(column, k)
  {
    var front := column[..|column| - 1];
    assert forall i | 0 <= i < |front| :: front[..i] == column[..i];
    if k < Used(front) {
      EveryCellHasARow(front, k);
      var i :| 0 <= i < |front| && front[i] == k;
      assert column[i] == k;
    } else {
      assert column[|column| - 1] == k;
    }
  }

  /** Cells and used rows correspond one to one. */
  lemma CellsAreRows(column: seq<nat>)
    requires Dense(column)
    ensures Used(column) <= |column| < UNUSED
    ensures forall i | 0 <= i < |column| && column[i] != UNUSED :: column[i] < Used(column)
    ensures forall i, j | 0 <= i < j < |column| && column[i] != UNUSED :: column[i] != column[j]
    ensures forall k: nat | k < UNUSED :: HasRow(column, k) <==> k < Used(column)
  {
    UsedFits(column);
    assert column[..|column|] == column;
    forall i | 0 <= i < |column| && column[i] != UNUSED ensures column[i] < Used(column) {
      UsedGrows(column, i, |column|);
    }
    forall i, j | 0 <= i < j < |column| && column[i] != UNUSED ensures column[i] != column[j] {
      UsedGrows(column, i, j);
    }
    forall k: nat | k < Used(column) ensures HasRow(column, k) {
      EveryCellHasARow(column, k);
    }
  }

  // ------------------------------------------------------------------ removing a row

  /** Whether a used row named `id` stands before row `i`. */
  predicate HitBefore(column: seq<nat>, texts: seq<nat>, id: nat, i: nat)
    requires |texts| == |column| && i <= |column|
  {
    exists j | 0 <= j < i :: texts[j] == id && column[j] != UNUSED
  }

  function Shifted(column: seq<nat>, texts: seq<nat>, id: nat, i: nat): int
    requires |texts| == |column| && i < |column|
  {
    if texts[i] == id || column[i] == UNUSED then UNUSED
    else
      var index: int := column[i];
      if HitBefore(column, texts, id, i) then index - 1 else index
  }

  ghost predicate DistinctTexts(texts: seq<nat>) {
    forall i, j | 0 <= i < j < |texts| :: texts[i] != texts[j]
  }

  /** The used rows of `after` are those of `before` without the row named `id`. */
  ghost predicate Without(before: seq<nat>, after: seq<nat>, texts: seq<nat>, id: nat)
    requires |texts| == |before| == |after|
  {
    forall i | 0 <= i < |before| :: after[i] == UNUSED <==> before[i] == UNUSED || texts[i] == id
  }

  lemma {:induction false} ShiftCounts(before: seq<nat>, after: seq<nat>, texts: seq<nat>, id: nat, k: nat)
    requires |texts| == |before| == |after| && k <= |before|
    requires DistinctTexts(texts) && Without(before, after, texts, id)
    ensures Used(after[..k]) == Used(before[..k]) - if HitBefore(before, texts, id, k) then 1 else 0
  {
    if k > 0 {
      ShiftCounts(before, after, texts, id, k - 1);
      assert before[..k][..k - 1] == before[..k - 1] && after[..k][..k - 1] == after[..k - 1];
    }
  }

  /** Taking one out of a dense column by shifting what follows leaves it dense. */
  lemma ShiftedIsDense(before: seq<nat>, after: seq<nat>, texts: seq<nat>, id: nat)
    requires |texts| == |before| == |after| && DistinctTexts(texts) && Dense(before)
    requires forall i | 0 <= i < |before| :: after[i] == Shifted(before, texts, id, i)
    ensures Without(before, after, texts, id) && Dense(after)
  {
    forall i | 0 <= i < |before| ensures after[i] == UNUSED <==> before[i] == UNUSED || texts[i] == id {
      UsedFits(before[..i]);
    }
    forall i | 0 <= i < |after| && after[i] != UNUSED ensures after[i] == Used(after[..i]) {
      ShiftCounts(before, after, texts, id, i);
    }
  }

  function Column(rows: seq<Row>, showFull: bool): (r: seq<nat>)
    ensures |r| == |rows| && forall i | 0 <= i < |r| :: r[i] == rows[i].Index(showFull)
  {
    seq(|rows|, i requires 0 <= i < |rows| => rows[i].Index(showFull))
  }

  function Texts(rows: seq<Row>): (r: seq<nat>)
    ensures |r| == |rows| && forall i | 0 <= i < |r| :: r[i] == rows[i].text
  {
    seq(|rows|, i requires 0 <= i < |rows| => rows[i].text)
  }

  /** Both menus number their rows 0, 1, 2 ... in table order, and every row has its own string. */
  ghost predicate WellNumbered(rows: seq<Row>) {
    DistinctTexts(Texts(rows)) && Dense(Column(rows, true)) && Dense(Column(rows, false))
  }

  /** The same rows with the one named `id` in neither menu. */
  ghost predicate Dropped(before: seq<Row>, after: seq<Row>, id: nat) {
    |after| == |before| && WellNumbered(after) &&
    forall i | 0 <= i < |before| ::
      after[i].text == before[i].text && after[i].form == before[i].form &&
      (after[i].full == UNUSED <==> before[i].full == UNUSED || before[i].text == id) &&
      (after[i].limited == UNUSED <==> before[i].limited == UNUSED || before[i].text == id)
  }

  /** A well-numbered table is settled by its texts, its forms and which rows are in use. */
  lemma NumberingIsDetermined(one: seq<Row>, other: seq<Row>)
    requires WellNumbered(one) && WellNumbered(other) && |one| == |other|
    requires forall i | 0 <= i < |one| ::
      one[i].text == other[i].text && one[i].form == other[i].form &&
      (one[i].full == UNUSED <==> other[i].full == UNUSED) && (one[i].limited == UNUSED <==> other[i].limited == UNUSED)
    ensures one == other
  {
    DenseIsDetermined(Column(one, true), Column(other, true));
    DenseIsDetermined(Column(one, false), Column(other, false));
    forall i | 0 <= i < |one| ensures one[i] == other[i] {
      assert one[i].full == Column(one, true)[i] && other[i].full == Column(other, true)[i];
      assert one[i].limited == Column(one, false)[i] && other[i].limited == Column(other, false)[i];
    }
  }

  lemma DroppingTwiceIsOnce(rows: seq<Row>, once: seq<Row>, twice: seq<Row>, id: nat)
    requires Dropped(rows, once, id) && Dropped(once, twice, id)
    ensures once == twice
  {
    NumberingIsDetermined(once, twice);
  }

  lemma DroppingCommutes(rows: seq<Row>, a: nat, b: nat, ra: seq<Row>, rb: seq<Row>, rab: seq<Row>, rba: seq<Row>)
    requires Dropped(rows, ra, a) && Dropped(ra, rab, b) && Dropped(rows, rb, b) && Dropped(rb, rba, a)
    ensures rab == rba
  {
    NumberingIsDetermined(rab, rba);
  }

  // ------------------------------------------------------------------ the menu

  class FrontPage {
    const formMap: array<Row>
    var showFullMenu: bool

    constructor (rows: seq<Row>, full: bool)
      requires WellNumbered(rows)
      ensures fresh(formMap) && formMap[..] == rows && showFullMenu == full
    {
      formMap := new Row[|rows|](i requires 0 <= i < |rows| => rows[i]);
      showFullMenu := full;
      new;
      assert formMap[..] == rows;
    }

    /** One round of the loop in RemoveMenuFromList. */
    method RemoveOrShift(count: nat, id: nat, fullHit: bool, limitedHit: bool) returns (full: bool, limited: bool)
      requires count < formMap.Length
      requires fullHit && formMap[count].full != UNUSED ==> formMap[count].full > 0
      requires limitedHit && formMap[count].limited != UNUSED ==> formMap[count].limited > 0
      modifies formMap
      ensures var row := old(formMap[count]);
              full == (fullHit || (row.text == id && row.full != UNUSED)) &&
              limited == (limitedHit || (row.text == id && row.limited != UNUSED)) &&
              formMap[..] == old(formMap[..])[count := Row(
                Moved(row.full, row.text == id, fullHit), Moved(row.limited, row.text == id, limitedHit),
                row.text, row.form)]
    {
      full, limited := fullHit, limitedHit;
      if formMap[count].text == id {
        if formMap[count].full != UNUSED {
          full := true;
          formMap[count] := formMap[count].(full := UNUSED);
        }
        if formMap[count].limited != UNUSED {
          limited := true;
          formMap[count] := formMap[count].(limited := UNUSED);
        }
      }
      if full && formMap[count].full != UNUSED {
        formMap[count] := formMap[count].(full := formMap[count].full - 1);
      }
      if limited && formMap[count].limited != UNUSED {
        formMap[count] := formMap[count].(limited := formMap[count].limited - 1);
      }
    }

    method RemoveMenuFromList(id: nat)
      requires WellNumbered(formMap[..])
      modifies formMap
      ensures Dropped(old(formMap[..]), formMap[..], id)
    {
      var fullRemoved, limitedRemoved := false, false;
      ghost var was := formMap[..];
      ghost var texts, fulls, limiteds := Texts(was), Column(was, true), Column(was, false);
      for count := 0 to formMap.Length
        invariant fullRemoved == HitBefore(fulls, texts, id, count)
        invariant limitedRemoved == HitBefore(limiteds, texts, id, count)
        invariant forall i | 0 <= i < formMap.Length :: formMap[i] == if i < count then Shift(was, id, i) else was[i]
      {
        FollowsHit(fulls, texts, id, count);
        FollowsHit(limiteds, texts, id, count);
        fullRemoved, limitedRemoved := RemoveOrShift(count, id, fullRemoved, limitedRemoved);
      }
      ShiftedIsDropped(was, formMap[..], id);
    }

    /** CreateTopMenu up to the list box. The password decides on `unlocked`; the availability of the DFCI
        and the HWH formset decide on the two rows that may go; `granted`: the opcode handles were allocated. */
    method CreateTopMenu(unlocked: bool, granted: bool, dfciShown: bool, hwhShown: bool, dfci: nat, hwh: nat)
        returns (cells: Option<array<Option<nat>>>)
      requires WellNumbered(formMap[..])
      modifies this, formMap
      ensures showFullMenu == (unlocked || old(showFullMenu)) && WellNumbered(formMap[..])
      ensures cells.Some? <==> granted
      ensures cells.None? ==> formMap[..] == old(formMap[..])
      ensures cells.Some? ==> Matches(formMap[..], showFullMenu, cells.value[..])
      ensures cells.Some? ==> forall i | 0 <= i < formMap.Length ::
        var gone := (!dfciShown && old(formMap[i]).text == dfci) || (!hwhShown && old(formMap[i]).text == hwh);
        formMap[i].text == old(formMap[i]).text && formMap[i].form == old(formMap[i]).form &&
        (formMap[i].full == UNUSED <==> gone || old(formMap[i]).full == UNUSED) &&
        (formMap[i].limited == UNUSED <==> gone || old(formMap[i]).limited == UNUSED)
    {
      if unlocked {
        showFullMenu := true;
      }
      if !granted {
        return None;
      }
      if !dfciShown {
        RemoveMenuFromList(dfci);
      }
      if !hwhShown {
        RemoveMenuFromList(hwh);
      }
      var menu := FillCells();
      cells := Some(menu);
    }

    /** The cells of the list box, with at least one empty cell behind the last. */
    method FillCells() returns (cells: array<Option<nat>>)
      requires WellNumbered(formMap[..])
      ensures fresh(cells) && Matches(formMap[..], showFullMenu, cells[..])
    {
      hide Dense, HasRow, Used, DistinctTexts;
      cells := new Option<nat>[formMap.Length + 1](_ => None);
      ghost var column := Column(formMap[..], showFullMenu);
      CellsAreRows(column);
      UsedFits(column);
      for count := 0 to formMap.Length
        invariant forall i | 0 <= i < count && column[i] != UNUSED :: cells[column[i]] == Some(formMap[i].text)
        invariant forall k | Used(column) <= k < cells.Length :: cells[k] == None
      {
        var index := formMap[count].Index(showFullMenu);
        assert index == column[count];
        if UNUSED != index && index < formMap.Length {
          cells[index] := Some(formMap[count].text);
        }
      }
    }

    /** The row whose form CallFrontPage opens; none is EFI_NOT_FOUND. */
    method CallFrontPage(formIndex: nat) returns (found: Option<nat>)
      requires WellNumbered(formMap[..]) && formMap.Length > 0
      ensures found.Some? ==> found.value < formMap.Length && formMap[found.value].Index(showFullMenu) == formIndex
      ensures formIndex != UNUSED ==> (found.Some? <==> formIndex < Used(Column(formMap[..], showFullMenu)))
      ensures formIndex == UNUSED ==> (found.Some? <==> Used(Column(formMap[..], showFullMenu)) < formMap.Length)
    {
      found := Search(formIndex);
      ghost var column := Column(formMap[..], showFullMenu);
      CellsAreRows(column);
      FullWhenAllUsed(column);
      assert formIndex < UNUSED ==> (HasRow(column, formIndex) <==> formIndex < Used(column));
      if formIndex > UNUSED {
        TooLarge(column, formIndex);
      }
    }

    method Search(formIndex: nat) returns (found: Option<nat>)
      requires formMap.Length > 0
      ensures found.Some? <==> HasRow(Column(formMap[..], showFullMenu), formIndex)
      ensures found.Some? ==> found.value < formMap.Length && formMap[found.value].Index(showFullMenu) == formIndex
    {
      ghost var column := Column(formMap[..], showFullMenu);
      var count, index := 0, 0;
      while count < formMap.Length
        invariant count <= formMap.Length && forall i | 0 <= i < count :: column[i] != formIndex
        invariant count > 0 ==> index == column[count - 1]
      {
        index := formMap[count].Index(showFullMenu);
        if index == formIndex {
          assert column[count] == formIndex;
          break;
        }
        count := count + 1;
      }
      found := if index != formIndex then None else Some(count);
    }

    /** The form that opens for a cell is the one whose text the cell shows. */
    method OpenCell(cells: array<Option<nat>>, k: nat) returns (found: Option<nat>)
      requires WellNumbered(formMap[..]) && formMap.Length > 0
      requires Matches(formMap[..], showFullMenu, cells[..]) && k < cells.Length
      ensures cells[k].Some? <==> found.Some?
      ensures found.Some? ==> found.value < formMap.Length && cells[k] == Some(formMap[found.value].text)
    {
      CellsAreRows(Column(formMap[..], showFullMenu));
      found := CallFrontPage(k);
    }
  }

  /** Cell `k` holds the text of the used row numbered `k`, and the cells behind the last are empty. */
  ghost predicate Matches(rows: seq<Row>, showFull: bool, cells: seq<Option<nat>>) {
    |cells| == |rows| + 1 && Used(Column(rows, showFull)) <= |rows| < UNUSED &&
    (forall i | 0 <= i < |rows| && rows[i].Index(showFull) != UNUSED ::
       rows[i].Index(showFull) < |cells| && cells[rows[i].Index(showFull)] == Some(rows[i].text)) &&
    forall k | Used(Column(rows, showFull)) <= k < |cells| :: cells[k] == None
  }

  lemma TooLarge(column: seq<nat>, k: nat)
    requires Dense(column) && k > UNUSED
    ensures !HasRow(column, k)
  {
    forall i | 0 <= i < |column| ensures column[i] != k {
      UsedFits(column[..i]);
    }
  }

  lemma {:induction false} FullWhenAllUsed(column: seq<nat>)
    ensures Used(column) < |column| <==> HasRow(column, UNUSED)
  {
    UsedFits(column);
    if column != [] {
      var front := column[..|column| - 1];
      UsedFits(front);
      FullWhenAllUsed(front);
      assert forall i | 0 <= i < |front| :: front[i] == column[i];
      if column[|column| - 1] != UNUSED && HasRow(column, UNUSED) {
        var i :| 0 <= i < |column| && column[i] == UNUSED;
        assert front[i] == UNUSED;
      }
    }
  }

  /** The table as it is shipped: six rows, of which the limited menu has three. */
  function Shipped(texts: seq<nat>, forms: seq<nat>): seq<Row>
    requires |texts| == |forms| == 6
  {
    [Row(0, 0, texts[0], forms[0]), Row(1, UNUSED, texts[1], forms[1]), Row(2, UNUSED, texts[2], forms[2]),
     Row(3, 1, texts[3], forms[3]), Row(4, UNUSED, texts[4], forms[4]), Row(5, 2, texts[5], forms[5])]
  }

  lemma ShippedIsWellNumbered(texts: seq<nat>, forms: seq<nat>)
    requires |texts| == |forms| == 6 && DistinctTexts(texts)
    ensures WellNumbered(Shipped(texts, forms))
    ensures forall i | 0 <= i < 6 ::
      Shipped(texts, forms)[i].text == texts[i] && Shipped(texts, forms)[i].form == forms[i]
    ensures forall i | 0 <= i < 6 :: Shipped(texts, forms)[i].full == i
    ensures forall i | 0 <= i < 6 :: Shipped(texts, forms)[i].limited != UNUSED <==> i == 0 || i == 3 || i == 5
  {
    hide Dense, Used;
    var rows := Shipped(texts, forms);
    assert Texts(rows) == texts;
    assert Column(rows, true) == [0] + [1] + [2] + [3] + [4] + [5];
    assert Column(rows, false) == [0] + [UNUSED] + [UNUSED] + [1] + [UNUSED] + [2];
    OneRow();
    OneMoreRow([0], 1, 1);
    OneMoreRow([0] + [1], 2, 2);
    OneMoreRow([0] + [1] + [2], 3, 3);
    OneMoreRow([0] + [1] + [2] + [3], 4, 4);
    OneMoreRow([0] + [1] + [2] + [3] + [4], 5, 5);
    OneMoreRow([0], 1, UNUSED);
    OneMoreRow([0] + [UNUSED], 1, UNUSED);
    OneMoreRow([0] + [UNUSED] + [UNUSED], 1, 1);
    OneMoreRow([0] + [UNUSED] + [UNUSED] + [1], 2, UNUSED);
    OneMoreRow([0] + [UNUSED] + [UNUSED] + [1] + [UNUSED], 2, 2);
  }

  lemma OneRow()
    ensures Dense([0]) && Used([0]) == 1
  {
    assert [0][..0] == [];
  }

  /** A column grows densely by its next index or by an unused row. */
  lemma OneMoreRow(column: seq<nat>, used: nat, index: nat)
    requires Dense(column) && Used(column) == used && |column| + 1 < UNUSED && (index == used || index == UNUSED)
    ensures Dense(column + [index]) && Used(column + [index]) == if index == UNUSED then used else used + 1
  {
    var more := column + [index];
    UsedFits(column);
    assert more[..|column|] == column;
    forall i | 0 <= i < |column| ensures more[..i] == column[..i] {
    }
  }

  /** What becomes of an index, which is not the first if a row before it was taken out. */
  function Moved(index: nat, removed: bool, hit: bool): (r: nat)
    requires hit && index != UNUSED ==> index > 0
  {
    if removed || index == UNUSED then UNUSED else if hit then index - 1 else index
  }

  ghost function Shift(rows: seq<Row>, id: nat, i: nat): Row
    requires WellNumbered(rows) && i < |rows|
  {
    var texts, fulls, limiteds := Texts(rows), Column(rows, true), Column(rows, false);
    FollowsHit(fulls, texts, id, i);
    FollowsHit(limiteds, texts, id, i);
    rows[i].(full := Shifted(fulls, texts, id, i), limited := Shifted(limiteds, texts, id, i))
  }

  lemma ShiftedIsDropped(before: seq<Row>, after: seq<Row>, id: nat)
    requires WellNumbered(before) && |after| == |before|
    requires forall i | 0 <= i < |before| :: after[i] == Shift(before, id, i)
    ensures Dropped(before, after, id)
  {
    var texts := Texts(before);
    ShiftedIsDense(Column(before, true), Column(after, true), texts, id);
    ShiftedIsDense(Column(before, false), Column(after, false), texts, id);
    assert Texts(after) == texts;
    assert forall i | 0 <= i < |before| ::
      Column(before, true)[i] == before[i].full && Column(before, false)[i] == before[i].limited &&
      Column(after, true)[i] == after[i].full && Column(after, false)[i] == after[i].limited;
  }

  /** A used row behind a hit is not the first. */
  lemma FollowsHit(column: seq<nat>, texts: seq<nat>, id: nat, i: nat)
    requires Dense(column) && |texts| == |column| && i < |column|
    ensures HitBefore(column, texts, id, i) && column[i] != UNUSED ==> column[i] > 0
    ensures 0 <= Shifted(column, texts, id, i)
  {
    if HitBefore(column, texts, id, i) && column[i] != UNUSED {
      var j :| 0 <= j < i && texts[j] == id && column[j] != UNUSED;
      UsedGrows(column, j, i);
    }
  }
}
