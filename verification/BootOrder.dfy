/** The boot-order page of BootMenu.c: the list that RebuildOrderList shows, and what RouteConfig makes of
    the list that comes back. The values of the ORDERED_LIST flags are declared outside the repository:
    a 32-bit list entry is taken apart into its low 17 bits, the three flags and the remaining bits, which
    is one-to-one whenever the flags are separate bits above bit 16. */
module BootOrder {
  import opened Wrappers

  const DISPLAYED := 6
  const UNASSIGNED := 0x1_0000

  /** The number of a Boot#### variable: 16 bits, but kept in a wider field. */
  type Number = nat

  /** A load option; `attributes` holds the attribute bits that are not named here. */
  datatype LoadOption = LoadOption(number: Number, active: bool, hidden: bool, app: bool, attributes: nat)

  /** An entry of the ordered list. */
  datatype Entry = Entry(low: nat, checkbox: bool, deletable: bool, boot: bool, rest: nat) {
    predicate Empty() {
      low == 0 && !checkbox && !deletable && !boot && rest == 0
    }

    /** The 16 low bits of the entry minus one; an entry with flags alone borrows from them. */
    function Named(): (n: Number)
      ensures n < 0x1_0000
    {
      (low + 0xFFFF) % 0x1_0000
    }
  }

  const EMPTY := Entry(0, false, false, false, 0)

  predicate Concealed(o: LoadOption) {
    o.hidden || o.app
  }

  /** How many options the page shows at most. */
  function Limit(count: nat): nat {
    if count < DISPLAYED then count else DISPLAYED
  }

  function Numbers(options: seq<LoadOption>): (r: seq<Number>)
    ensures |r| == |options|
    ensures forall i | 0 <= i < |r| :: r[i] == options[i].number
  {
    seq(|options|, i requires 0 <= i < |options| => options[i].number)
  }

  ghost predicate Distinct(numbers: seq<Number>) {
    forall i, j | 0 <= i < j < |numbers| :: numbers[i] != numbers[j]
  }

  /** Option numbers are 16 bits wide and no two options share one. */
  ghost predicate Wellformed(options: seq<LoadOption>) {
    Distinct(Numbers(options)) && forall i | 0 <= i < |options| :: options[i].number < 0x1_0000
  }

  // ------------------------------------------------------------------ entries of the list

  function Encode(o: LoadOption, fromDefaults: bool): (e: Entry)
    ensures !e.Empty() && !e.boot && e.checkbox == o.active && e.deletable == !fromDefaults && e.rest == 0
    ensures o.number < 0x1_0000 ==> e.Named() == o.number
  {
    Entry(o.number + 1, o.active, !fromDefaults, false, 0)
  }

  /** The list as RebuildOrderList leaves it: empty where an option is not shown. */
  function Shown(options: seq<LoadOption>, defaults: set<Number>): (list: seq<Entry>)
    ensures |list| == DISPLAYED
  {
    seq(DISPLAYED, i requires 0 <= i < DISPLAYED =>
      if i < Limit(|options|) && !Concealed(options[i]) then Encode(options[i], options[i].number in defaults)
      else EMPTY)
  }

  /** A displayed option has an entry unless it is hidden or an application. */
  lemma ShownExactly(options: seq<LoadOption>, defaults: set<Number>, i: nat)
    requires i < DISPLAYED
    ensures Shown(options, defaults)[i] == EMPTY <==> i >= |options| || options[i].hidden || options[i].app
  {
  }

  // ------------------------------------------------------------------ what the list means

  /** The options that the user listed, in the user's order. */
  function UserOrder(list: seq<Entry>): (r: seq<Number>)
    ensures |r| <= |list|
  {
    if list == [] then []
    else
      var front, last := list[..|list| - 1], list[|list| - 1];
      if last.Empty() then UserOrder(front) else UserOrder(front) + [last.Named()]
  }

  function NewOrder(list: seq<Entry>, options: seq<LoadOption>): seq<Number>
    requires |list| == DISPLAYED
  {
    UserOrder(list[..Limit(|options|)]) + Numbers(options)[Limit(|options|)..]
  }

  /** The checkbox of option `n`: that of the last entry that names it. */
  function Checkbox(list: seq<Entry>, n: Number): Option<bool> {
    if list == [] then None
    else
      var last := list[|list| - 1];
      if !last.Empty() && last.Named() == n then Some(last.checkbox)
      else Checkbox(list[..|list| - 1], n)
  }

  function Ticked(o: LoadOption, box: Option<bool>): LoadOption {
    if box.Some? && box.value != o.active then o.(active := !o.active) else o
  }

  /** Option `i` is displayed, and the first of its number. */
  predicate Reached(options: seq<LoadOption>, i: nat) {
    i < Limit(|options|) && forall k | 0 <= k < i :: options[k].number != options[i].number
  }

  function Reconciled(list: seq<Entry>, options: seq<LoadOption>): (r: seq<LoadOption>)
    ensures |r| == |options|
  {
    seq(|options|, i requires 0 <= i < |options| =>
      if Reached(options, i) then Ticked(options[i], Checkbox(list, options[i].number))
      else options[i])
  }

  /** The first entry that asks to boot at once, or the end of the displayed part. */
  function BootRequest(list: seq<Entry>, limit: nat): (r: nat)
    requires limit <= |list|
    ensures r <= limit && (r < limit ==> list[r].boot)
    ensures forall i | 0 <= i < r :: !list[i].boot
  {
    if limit == 0 then 0
    else
      var r := BootRequest(list, limit - 1);
      if r < limit - 1 || list[limit - 1].boot then r else limit
  }

  /** The displayed options that `order` does not hold. */
  function Missing(numbers: seq<Number>, order: seq<Number>): (r: seq<Number>)
    ensures forall n :: n in r <==> n in numbers && n !in order
    ensures r == [] <==> forall n | n in numbers :: n in order
  {
    if numbers == [] then []
    else
      var front, last := numbers[..|numbers| - 1], numbers[|numbers| - 1];
      assert numbers == front + [last];
      if last in order then Missing(front, order) else Missing(front, order) + [last]
  }

  lemma {:induction false} UserOrderHolds(list: seq<Entry>, n: Number)
    ensures n in UserOrder(list) <==> exists i :: 0 <= i < |list| && !list[i].Empty() && list[i].Named() == n
  {
    if list != [] {
      var front := list[..|list| - 1];
      UserOrderHolds(front, n);
      assert forall i | 0 <= i < |front| :: front[i] == list[i];
    }
  }

  /** Exactly the displayed options that no entry names are missing. */
  lemma MissingAreUnlisted(list: seq<Entry>, options: seq<LoadOption>, n: Number)
    requires |list| == DISPLAYED && Wellformed(options)
    ensures var limit := Limit(|options|);
            n in Missing(Numbers(options)[..limit], NewOrder(list, options)) <==>
            n in Numbers(options)[..limit] && !exists i :: 0 <= i < limit && !list[i].Empty() && list[i].Named() == n
  {
    var limit := Limit(|options|);
    UserOrderHolds(list[..limit], n);
    assert forall i | 0 <= i < limit :: list[..limit][i] == list[i];
  }

  // ------------------------------------------------------------------ shown, then routed back unchanged

  /** The numbers of the options that are not concealed. */
  function Visible(options: seq<LoadOption>): seq<Number> {
    if options == [] then []
    else
      var front, last := options[..|options| - 1], options[|options| - 1];
      if Concealed(last) then Visible(front) else Visible(front) + [last.number]
  }

  lemma {:induction false} ShownOrderReadsBack(options: seq<LoadOption>, defaults: set<Number>, k: nat)
    requires Wellformed(options) && k <= Limit(|options|)
    ensures UserOrder(Shown(options, defaults)[..k]) == Visible(options[..k])
  {
    if k > 0 {
      ShownOrderReadsBack(options, defaults, k - 1);
      var list := Shown(options, defaults);
      assert list[..k][..k - 1] == list[..k - 1];
      assert options[..k][..k - 1] == options[..k - 1];
    }
  }

  /** The checkbox that the first `k` entries of the shown list give option `i`. */
  lemma {:induction false} ShownBoxReadsBack(options: seq<LoadOption>, defaults: set<Number>, k: nat, i: nat)
    requires Wellformed(options) && k <= Limit(|options|) && i < |options|
    ensures Checkbox(Shown(options, defaults)[..k], options[i].number)
         == if i < k && !Concealed(options[i]) then Some(options[i].active) else None
  {
    if k > 0 {
      ShownBoxReadsBack(options, defaults, k - 1, i);
      var list := Shown(options, defaults);
      assert list[..k][..k - 1] == list[..k - 1];
      var numbers := Numbers(options);
      assert i != k - 1 ==> numbers[i] != numbers[k - 1];
    }
  }

  /** What the first `k` entries of the shown list say: the visible options in order, each as active as
      it is. */
  lemma ShownReadsBack(options: seq<LoadOption>, defaults: set<Number>, k: nat)
    requires Wellformed(options) && k <= Limit(|options|)
    ensures UserOrder(Shown(options, defaults)[..k]) == Visible(options[..k])
    ensures forall i | 0 <= i < |options| ::
      var o := options[i];
      Checkbox(Shown(options, defaults)[..k], o.number) == if i < k && !Concealed(o) then Some(o.active) else None
  {
    hide Shown, Visible, Checkbox, UserOrder;
    ShownOrderReadsBack(options, defaults, k);
    forall i | 0 <= i < |options|
      ensures Checkbox(Shown(options, defaults)[..k], options[i].number)
           == if i < k && !Concealed(options[i]) then Some(options[i].active) else None
    {
      ShownBoxReadsBack(options, defaults, k, i);
    }
  }

  lemma {:induction false} VisibleIsAll(options: seq<LoadOption>)
    ensures |Visible(options)| <= |options|
    ensures |Visible(options)| == |options| <==> forall i | 0 <= i < |options| :: !Concealed(options[i])
    ensures |Visible(options)| == |options| ==> Visible(options) == Numbers(options)
  {
    if options != [] {
      var front, last := options[..|options| - 1], options[|options| - 1];
      VisibleIsAll(front);
      assert options == front + [last];
      assert Numbers(options) == Numbers(front) + [last.number];
    }
  }

  lemma ShownOrder(options: seq<LoadOption>, defaults: set<Number>)
    requires Wellformed(options)
    ensures var order := NewOrder(Shown(options, defaults), options);
            (order == Numbers(options) <==> forall i | 0 <= i < Limit(|options|) :: !Concealed(options[i])) &&
            (|order| == |options| <==> order == Numbers(options))
  {
    var list, limit := Shown(options, defaults), Limit(|options|);
    ShownReadsBack(options, defaults, limit);
    VisibleIsAll(options[..limit]);
    assert Numbers(options)[..limit] == Numbers(options[..limit]);
    assert Numbers(options) == Numbers(options)[..limit] + Numbers(options)[limit..];
  }

  /** A list that comes back as it was shown changes no attribute, and keeps the boot order exactly when
      no displayed option is hidden or an application. */
  lemma UnchangedListIsIdentityExactly(options: seq<LoadOption>, defaults: set<Number>)
    requires Wellformed(options)
    ensures var list := Shown(options, defaults); var limit := Limit(|options|);
            BootRequest(list, limit) == limit &&
            Reconciled(list[..limit], options) == options &&
            (NewOrder(list, options) == Numbers(options) <==> forall i | 0 <= i < limit :: !Concealed(options[i])) &&
            (|NewOrder(list, options)| == |options| <==> NewOrder(list, options) == Numbers(options))
  {
    ShownOrder(options, defaults);
    ShownReadsBack(options, defaults, Limit(|options|));
  }

  lemma {:induction false} VisibleHolds(options: seq<LoadOption>, n: Number)
    ensures n in Visible(options) <==> exists o :: o in options && !Concealed(o) && o.number == n
  {
    if options != [] {
      var front, last := options[..|options| - 1], options[|options| - 1];
      VisibleHolds(front, n);
      assert options == front + [last];
    }
  }

  /** A list that comes back as it was shown asks to delete the concealed options among the displayed
      ones, and no others. */
  lemma ShownListDropsConcealed(options: seq<LoadOption>, defaults: set<Number>, i: nat)
    requires Wellformed(options) && i < Limit(|options|)
    ensures var missing := Missing(Numbers(options)[..Limit(|options|)], NewOrder(Shown(options, defaults), options));
            options[i].number in missing <==> Concealed(options[i])
  {
    var limit, n := Limit(|options|), options[i].number;
    ShownReadsBack(options, defaults, limit);
    VisibleHolds(options[..limit], n);
    assert Numbers(options)[..limit][i] == n && options[..limit][i] == options[i];
    assert forall j | 0 <= j < |options| && j != i :: Numbers(options)[j] != n;
  }

  // ------------------------------------------------------------------ reordered and shortened lists

  lemma {:induction false} DistinctCount(few: seq<Number>, many: seq<Number>)
    requires Distinct(few) && forall n | n in few :: n in many
    ensures |few| <= |many|
    ensures |few| == |many| ==> forall n | n in many :: n in few
    decreases |few|
  {
    if few != [] {
      var last, front := few[|few| - 1], few[..|few| - 1];
      assert forall i | 0 <= i < |front| :: front[i] == few[i];
      assert last in few;
      var k :| 0 <= k < |many| && many[k] == last;
      var rest := many[..k] + many[k + 1..];
      assert many == many[..k] + [last] + many[k + 1..];
      forall n | n in front ensures n in rest {
        assert n in few && n != last;
      }
      DistinctCount(front, rest);
      forall n | |few| == |many| && n in many ensures n in few {
        assert n == last || n in front;
      }
    }
  }

  /** A list of as many numbers, all of them in it, repeats none. */
  lemma FullListIsDistinct(many: seq<Number>, few: seq<Number>)
    requires Distinct(few) && |few| == |many| && forall n | n in few :: n in many
    ensures Distinct(many)
  {
    forall i, j | 0 <= i < j < |many| ensures many[i] != many[j] {
      if many[i] == many[j] {
        var rest := many[..j] + many[j + 1..];
        forall n | n in few ensures n in rest {
          var k :| 0 <= k < |many| && many[k] == n;
          assert rest[if k == j then i else if k < j then k else k - 1] == n;
        }
        DistinctCount(few, rest);
        assert false;
      }
    }
  }

  /** Missing is empty exactly when the entries name every displayed option. */
  lemma NoneMissingExactly(list: seq<Entry>, options: seq<LoadOption>)
    requires |list| == DISPLAYED && Wellformed(options)
    ensures var limit := Limit(|options|);
            Missing(Numbers(options)[..limit], NewOrder(list, options)) == [] <==>
            forall n | n in Numbers(options)[..limit] :: n in UserOrder(list[..limit])
  {
    var limit := Limit(|options|);
    forall n | n in Numbers(options)[..limit] ensures n in NewOrder(list, options) <==> n in UserOrder(list[..limit]) {
      var i :| 0 <= i < limit && Numbers(options)[i] == n;
      assert forall j | limit <= j < |options| :: Numbers(options)[j] != Numbers(options)[i];
    }
  }

  /** The numbers that the displayed entries name, and those of the displayed options. */
  ghost predicate NamesDisplayedOnce(user: seq<Number>, numbers: seq<Number>) {
    Distinct(user) && forall n | n in user :: n in numbers
  }

  /** Comparing the counts, as RouteConfig does, tells whether a displayed option is missing exactly
      when the list is shorter than the page, or its entries name different displayed options. */
  lemma CountTellsExactly(list: seq<Entry>, options: seq<LoadOption>)
    requires |list| == DISPLAYED && Wellformed(options)
    ensures var limit := Limit(|options|);
            var user, numbers := UserOrder(list[..limit]), Numbers(options)[..limit];
            (|NewOrder(list, options)| != |options| <==> Missing(numbers, NewOrder(list, options)) != []) <==>
            |user| < limit || NamesDisplayedOnce(user, numbers)
  {
    var limit := Limit(|options|);
    var user, numbers := UserOrder(list[..limit]), Numbers(options)[..limit];
    NoneMissingExactly(list, options);
    if forall n | n in numbers :: n in user {
      DistinctCount(numbers, user);
      if |user| == limit {
        FullListIsDistinct(user, numbers);
      }
    } else if NamesDisplayedOnce(user, numbers) {
      DistinctCount(user, numbers);
    }
  }

  /** The count takes `list` for complete although a displayed option is missing from it. */
  ghost predicate LosesUnasked(list: seq<Entry>, options: seq<LoadOption>) {
    |list| == DISPLAYED && Wellformed(options) && |NewOrder(list, options)| == |options| &&
    Missing(Numbers(options)[..Limit(|options|)], NewOrder(list, options)) != []
  }

  /** An option listed twice hides the loss of another. */
  lemma CountMissesRepeats()
    ensures exists list, options :: LosesUnasked(list, options)
  {
    TwoEntries(1, 1);
  }

  /** So does a number that no option has, even in a new order without repeats. */
  lemma CountMissesStrangers()
    ensures exists list, options :: LosesUnasked(list, options) && Distinct(NewOrder(list, options))
  {
    TwoEntries(1, 9);
  }

  lemma TwoEntries(m: Number, n: Number)
    requires m < 0x1_0000 && n < 0x1_0000 && (m != 2 && n != 2)
    ensures exists list, options :: LosesUnasked(list, options) && NewOrder(list, options) == [m, n]
  {
    var options := [LoadOption(1, true, false, false, 0), LoadOption(2, true, false, false, 0)];
    var e, f := Encode(options[0].(number := m), true), Encode(options[0].(number := n), true);
    var list := [e, f, EMPTY, EMPTY, EMPTY, EMPTY];
    assert list[..2][..1] == [e] && list[..2] == [e, f];
    assert UserOrder([e]) == [m];
    assert UserOrder(list[..2]) == [m, n];
    assert NewOrder(list, options) == [m, n];
    assert Numbers(options)[..2][1] == 2;
    assert LosesUnasked(list, options);
  }

  /** The boot order is permuted, and loses nothing, exactly when the entries permute the displayed options. */
  lemma PermutedExactly(list: seq<Entry>, options: seq<LoadOption>)
    requires |list| == DISPLAYED
    ensures var limit := Limit(|options|);
            multiset(NewOrder(list, options)) == multiset(Numbers(options)) <==>
            multiset(UserOrder(list[..limit])) == multiset(Numbers(options)[..limit])
  {
    var limit := Limit(|options|);
    var head, tail := Numbers(options)[..limit], Numbers(options)[limit..];
    assert Numbers(options) == head + tail;
    var user := UserOrder(list[..limit]);
    if multiset(user) + multiset(tail) == multiset(head) + multiset(tail) {
      assert multiset(user) == multiset(user) + multiset(tail) - multiset(tail);
      assert multiset(head) == multiset(head) + multiset(tail) - multiset(tail);
    }
  }

  ghost predicate Names(e: Entry, n: Number) {
    !e.Empty() && e.Named() == n
  }

  /** Entry `i` is the last that names option `n`. */
  ghost predicate LastNaming(list: seq<Entry>, i: nat, n: Number) {
    i < |list| && Names(list[i], n) && forall k | i < k < |list| :: !Names(list[k], n)
  }

  ghost predicate Unnamed(list: seq<Entry>, n: Number) {
    forall k | 0 <= k < |list| :: !Names(list[k], n)
  }

  lemma {:induction false} LastBoxDecides(list: seq<Entry>, i: nat, n: Number)
    requires LastNaming(list, i, n)
    ensures Checkbox(list, n) == Some(list[i].checkbox)
  {
    if i < |list| - 1 {
      LastBoxDecides(list[..|list| - 1], i, n);
    }
  }

  lemma {:induction false} UnnamedKeepsBox(list: seq<Entry>, n: Number)
    ensures Checkbox(list, n) == None <==> Unnamed(list, n)
  {
    if list != [] && !Names(list[|list| - 1], n) {
      UnnamedKeepsBox(list[..|list| - 1], n);
    }
  }

  /** Each displayed option ends as active as the last entry that names it is ticked; an option that no
      entry names, or that is not displayed, or behind another of its number, keeps its state. Nothing
      but active bits ever changes. */
  lemma ActiveBitsFollowBoxes(list: seq<Entry>, options: seq<LoadOption>, j: nat)
    requires j < |options|
    ensures var was, now := options[j], Reconciled(list, options)[j];
            now.(active := was.active) == was &&
            (forall i: nat | LastNaming(list, i, was.number) ::
               Reached(options, j) ==> now.active == list[i].checkbox) &&
            (!Reached(options, j) || Unnamed(list, was.number) ==> now == was)
  {
    var n := options[j].number;
    forall i: nat | LastNaming(list, i, n) ensures Checkbox(list, n) == Some(list[i].checkbox) {
      LastBoxDecides(list, i, n);
    }
    UnnamedKeepsBox(list, n);
  }

  // ------------------------------------------------------------------ variables

  /** BootOrder and the Boot#### variables. */
  datatype Store = Store(order: seq<Number>, options: map<Number, LoadOption>) {
    ghost predicate Valid() {
      (forall n | n in order :: n < 0x1_0000) && forall n | n in options :: options[n].number == n
    }
  }

  /** EfiBootManagerGetLoadOptions: the options that the boot order names and that exist. */
  function Loaded(order: seq<Number>, options: map<Number, LoadOption>): seq<LoadOption> {
    if order == [] then []
    else
      var n, front := order[|order| - 1], Loaded(order[..|order| - 1], options);
      if n in options then front + [options[n]] else front
  }

  lemma {:induction false} LoadedComesFrom(order: seq<Number>, options: map<Number, LoadOption>)
    requires forall n | n in options :: options[n].number == n
    ensures forall o | o in Loaded(order, options) :: o.number in order && o.number in options && options[o.number] == o
    ensures (forall n | n in order :: n in options) ==> Numbers(Loaded(order, options)) == order
  {
    if order != [] {
      LoadedComesFrom(order[..|order| - 1], options);
      assert order == order[..|order| - 1] + [order[|order| - 1]];
    }
  }

  lemma OneMore(all: seq<LoadOption>, o: LoadOption)
    requires Wellformed(all) && o.number < 0x1_0000 && forall p | p in all :: p.number != o.number
    ensures Wellformed(all + [o])
  {
    assert forall i | 0 <= i < |all| :: all[i] in all;
    assert Numbers(all + [o]) == Numbers(all) + [o.number];
  }

  lemma {:induction false} LoadedIsWellformed(order: seq<Number>, options: map<Number, LoadOption>)
    requires Store(order, options).Valid() && Distinct(order)
    ensures Wellformed(Loaded(order, options))
  {
    if order != [] {
      var last, front := order[|order| - 1], order[..|order| - 1];
      assert forall n | n in front :: n in order;
      assert last in order;
      LoadedIsWellformed(front, options);
      LoadedComesFrom(front, options);
      if last in options {
        OneMore(Loaded(front, options), options[last]);
      }
    }
  }

  lemma {:induction false} DistinctOrder(list: seq<Entry>, options: seq<LoadOption>)
    requires |list| == DISPLAYED && Wellformed(options)
    requires var user := UserOrder(list[..Limit(|options|)]);
             Distinct(user) && forall n | n in user :: n in Numbers(options)[..Limit(|options|)]
    ensures Distinct(NewOrder(list, options))
  {
    var limit := Limit(|options|);
    var user, head := UserOrder(list[..limit]), Numbers(options)[..limit];
    forall i, j | 0 <= i < |user| && limit <= j < |options| ensures user[i] != Numbers(options)[j] {
      assert user[i] in user;
      var k :| 0 <= k < limit && head[k] == user[i];
    }
  }

  /** Takes option numbers out of a boot order. */
  function Without(order: seq<Number>, gone: set<Number>): (r: seq<Number>)
    ensures forall m :: m in r <==> m in order && m !in gone
  {
    if order == [] then []
    else
      var front, last := order[..|order| - 1], order[|order| - 1];
      assert order == front + [last];
      if last in gone then Without(front, gone) else Without(front, gone) + [last]
  }

  lemma {:induction false} WithoutNone(order: seq<Number>)
    ensures Without(order, {}) == order
  {
    if order != [] {
      WithoutNone(order[..|order| - 1]);
    }
  }

  lemma {:induction false} WithoutMore(order: seq<Number>, gone: set<Number>, more: set<Number>)
    ensures Without(Without(order, gone), more) == Without(order, gone + more)
  {
    if order != [] {
      WithoutMore(order[..|order| - 1], gone, more);
    }
  }

  lemma {:induction false} WithoutStaysDistinct(order: seq<Number>, gone: set<Number>)
    requires Distinct(order)
    ensures Distinct(Without(order, gone))
  {
    if order != [] {
      var front := order[..|order| - 1];
      WithoutStaysDistinct(front, gone);
      assert order == front + [order[|order| - 1]];
      DistinctAppend(Without(front, gone), order[|order| - 1]);
    }
  }

  lemma DistinctAppend(order: seq<Number>, n: Number)
    requires Distinct(order)
    ensures Distinct(order + [n]) <==> n !in order
  {
    if k :| 0 <= k < |order| && order[k] == n {
      assert (order + [n])[k] == (order + [n])[|order|];
    }
  }

  /** The two differ in the active bit at most. */
  predicate SameButActive(one: LoadOption, other: LoadOption) {
    one.(active := other.active) == other
  }
}
