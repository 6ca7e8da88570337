/** The boot-order page in operation: RebuildOrderList and the BootOrderConfig branch of RouteConfig in
    BootMenu.c, over the option array, the list on the form and the boot variables. */
module BootMenuPage {
  import opened Wrappers
  import opened BootOrder

  /** How a submission ended. */
  datatype Outcome =
    | Ignored
    | BootAtOnce(number: Number, agreed: bool)
    | Routed(order: seq<Number>, prompted: seq<Number>, confirmed: set<Number>, written: bool)

  /** What the user answers: whether to boot at once, and for each displayed option whether to delete it. */
  datatype Answers = Answers(boot: bool, deletions: seq<bool>)

  /** Options and variables before a submission is applied, and whether they agree. */
  datatype Origin = Origin(options: seq<LoadOption>, store: Store, synced: bool)

  class BootMenu {
    var options: array<LoadOption>
    var list: array<Entry>
    var store: Store
    const defaults: set<Number>

    // How many writes of variables failed.
    ghost var failures: nat

    ghost predicate Valid()
      reads this, options
    {
      list.Length == DISPLAYED && store.Valid() &&
      forall i | 0 <= i < options.Length ::
        options[i].number in store.options && options[i].number < 0x1_0000 &&
        SameButActive(store.options[options[i].number], options[i])
    }

    /** The options in memory are those in the variables. */
    ghost predicate Synced()
      reads this, options
    {
      Reflects(store, options[..])
    }

    constructor (store: Store, defaults: set<Number>)
      requires store.Valid()
      ensures Valid() && Synced() && fresh(options) && fresh(list) && this.store == store
      ensures options[..] == Loaded(store.order, store.options) && list[..] == Shown(options[..], this.defaults)
    {
      this.store, this.defaults, failures := store, defaults, 0;
      options := new LoadOption[0];
      list := new Entry[DISPLAYED](_ => EMPTY);
      new;
      RebuildOrderList();
    }

    method RebuildOrderList()
      requires list.Length == DISPLAYED && store.Valid()
      modifies this`options, list
      ensures Valid() && Synced() && fresh(options)
      ensures options[..] == Loaded(store.order, store.options)
      ensures list[..] == Shown(options[..], defaults)
    {
      LoadOptions();
      ShowOptions();
    }

    /** EfiBootManagerGetLoadOptions. */
    method LoadOptions()
      requires list.Length == DISPLAYED && store.Valid()
      modifies this`options
      ensures Valid() && Synced() && fresh(options)
      ensures options[..] == Loaded(store.order, store.options)
    {
      var all := Loaded(store.order, store.options);
      LoadedComesFrom(store.order, store.options);
      options := new LoadOption[|all|](i requires 0 <= i < |all| => all[i]);
      assert options[..] == all;
      assert forall i | 0 <= i < |all| :: options[i] == all[i] && all[i] in all;
    }

    method ShowOptions()
      requires Valid()
      modifies list
      ensures list[..] == Shown(options[..], defaults)
    {
      for i := 0 to DISPLAYED
        invariant forall k | 0 <= k < i :: list[k] == EMPTY
      {
        list[i] := EMPTY;
      }
      var limit := Limit(options.Length);
      for index := 0 to limit
        invariant forall k | 0 <= k < DISPLAYED ::
          list[k] == if k < index then Shown(options[..], defaults)[k] else EMPTY
      {
        if !options[index].hidden && !options[index].app {
          list[index] := Encode(options[index], options[index].number in defaults);
        }
      }
    }

    /** EfiBootManagerLoadOptionToVariable; the write may fail. */
    method SaveOption(o: LoadOption) returns (kept: bool)
      requires store.Valid() && o.number in store.options
      modifies this`store, this`failures
      ensures failures == old(failures) + if kept then 0 else 1
      ensures store == if kept then old(store).(options := old(store).options[o.number := o]) else old(store)
      ensures store.Valid()
    {
      kept := *;
      if kept {
        store := store.(options := store.options[o.number := o]);
      } else {
        failures := failures + 1;
      }
    }

    /** The first displayed option of that number, or the end of the displayed part. */
    method FindDisplayed(n: Number) returns (i: nat)
      ensures i <= Limit(options.Length) && forall k | 0 <= k < i :: options[k].number != n
      ensures i < Limit(options.Length) ==> options[i].number == n
    {
      i := 0;
      while i < Limit(options.Length) && n != options[i].number
        invariant i <= Limit(options.Length) && forall k | 0 <= k < i :: options[k].number != n
      {
        i := i + 1;
      }
    }

    /** Inverts an active bit in memory and in the option's variable. */
    method Flip(i: nat) returns (kept: bool)
      requires Valid() && i < options.Length
      modifies options, this`store, this`failures
      ensures Valid() && failures == old(failures) + if kept then 0 else 1
      ensures options[..] == old(options[..])[i := old(options[i]).(active := !old(options[i]).active)]
      ensures SameBut(old(store), store, {old(options[i]).number})
      ensures old(Synced()) && Wellformed(old(options[..])) && kept ==> Synced()
    {
      ghost var was := options[..];
      options[i] := options[i].(active := !options[i].active);
      kept := SaveOption(options[i]);
      assert Wellformed(was) ==> forall k | 0 <= k < |was| && k != i :: Numbers(was)[k] != Numbers(was)[i];
    }

    /** Brings the active bit of the displayed option that `entry` names in line with its checkbox. */
    method Tick(entry: Entry) returns (ghost kept: bool)
      requires Valid() && !entry.Empty()
      modifies options, this`store, this`failures
      ensures Valid() && old(failures) <= failures && (kept <==> failures == old(failures))
      ensures options[..] == TickedAll(entry, old(options[..])) && Numbers(options[..]) == Numbers(old(options[..]))
      ensures SameBut(old(store), store, Displayed(Numbers(old(options[..]))))
      ensures old(Synced()) && Wellformed(old(options[..])) && kept ==> Synced()
      ensures options[..] == old(options[..]) ==> store == old(store)
    {
      hide BootMenu.Synced, Wellformed, SameBut, Numbers;
      ghost var was := options[..];
      kept := true;
      var i := FindDisplayed(entry.Named());
      var flip := i < Limit(options.Length) && entry.checkbox != options[i].active;
      if flip {
        kept := Flip(i);
        OneOfDisplayed(old(store), store, was, i);
      } else {
        Unchanged(store, Displayed(Numbers(was)));
      }
      TickedOne(entry, was, i, options[..]);
    }

    /** The entries before `stop` have been applied to the options and variables of `o`: active bits of
        displayed options follow the boxes, and with `kept`, every write having been made, so do the
        variables. */
    ghost predicate Applied(o: Origin, stop: nat, kept: bool)
      reads this, options, list
    {
      Valid() && stop <= DISPLAYED &&
      options[..] == Reconciled(list[..stop], o.options) && Numbers(options[..]) == Numbers(o.options) &&
      SameBut(o.store, store, Displayed(Numbers(o.options))) &&
      (o.synced && Wellformed(o.options) && kept ==> Synced()) &&
      (Quiet(list[..], o.options, stop) ==> store == o.store)
    }

    lemma NothingApplied(o: Origin)
      requires Valid() && o == Origin(options[..], store, Synced())
      ensures Applied(o, 0, true)
    {
      NothingListed(list[..], o.options);
      Unchanged(store, Displayed(Numbers(o.options)));
    }

    /** Appends what entry `index` names, if anything, to the new order, and ticks it. */
    method TakeEntry(index: nat, order: array<Number>, count: nat, ghost o: Origin, ghost before: bool)
      returns (next: nat, ghost kept: bool)
      requires Applied(o, index, before) && index < Limit(options.Length) && count < order.Length
      requires order[..count] == UserOrder(list[..index])
      modifies options, this`store, this`failures, order
      ensures old(failures) <= failures && (kept <==> before && failures == old(failures))
      ensures Applied(o, index + 1, kept) && count <= next <= count + 1
      ensures order[..next] == UserOrder(list[..index + 1])
    {
      hide Checkbox, Reconciled, UserOrder, TickedAll, BootMenu.Synced, SameBut, Numbers, Reached;
      next, kept := count, before;
      EntryStep(list[..], o.options, index);
      assert list[..][..index] == list[..index] && list[..][..index + 1] == list[..index + 1];
      NumbersDecide(o.options, options[..]);
      var entry := list[index];
      if !entry.Empty() {
        order[count] := entry.Named();
        next := count + 1;
        ghost var was := store;
        ghost var written := Tick(entry);
        kept := kept && written;
        SameButThen(o.store, was, store, Displayed(Numbers(o.options)));
      }
    }

    /** The first loop of RouteConfig. It stops where an entry asks to boot at once. */
    method ApplyList() returns (stop: nat, order: array<Number>, count: nat, ghost kept: bool)
      requires Valid()
      modifies options, this`store, this`failures
      ensures old(failures) <= failures && (kept <==> failures == old(failures))
      ensures fresh(order) && order.Length == options.Length && count <= order.Length
      ensures stop == BootRequest(list[..], Limit(options.Length))
      ensures Applied(old(Origin(options[..], store, Synced())), stop, kept)
      ensures stop == Limit(options.Length) ==> order[..count] == NewOrder(list[..], old(options[..]))
    {
      hide UserOrder, OrderSoFar, Numbers, NewOrder, BootMenu.Applied;
      kept := true;
      var limit := Limit(options.Length);
      order, count, stop := new Number[options.Length], 0, 0;
      ghost var o := Origin(options[..], store, Synced());
      NothingListed(list[..], o.options);
      NothingApplied(o);
      WholeOrder(list[..], o.options);
      var index := 0;
      while index < options.Length
        invariant index <= options.Length && count <= index
        invariant stop == if index < limit then index else limit
        invariant BootRequest(list[..], stop) == stop
        invariant Applied(o, stop, kept)
        invariant old(failures) <= failures && (kept <==> failures == old(failures))
        invariant order[..count] == OrderSoFar(list[..], Numbers(o.options), index)
      {
        if index < limit {
          if !list[index].Empty() && list[index].boot {
            return;
          }
          WithinLimit(list[..], Numbers(o.options), index);
          count, kept := TakeEntry(index, order, count, o, kept);
          stop := index + 1;
        } else {
          order[count] := options[index].number;
          count := count + 1;
          NumberApplied(o, stop, kept, index);
          OneBeyond(list[..], Numbers(o.options), index);
        }
        index := index + 1;
      }
    }

    lemma NumberApplied(o: Origin, stop: nat, kept: bool, i: nat)
      requires Applied(o, stop, kept) && i < options.Length
      ensures |o.options| == options.Length && options[i].number == Numbers(o.options)[i]
    {
      assert options[i].number == Numbers(options[..])[i];
    }

    /** Marks the displayed options that the new order holds. */
    method MarkListed(order: array<Number>, count: nat)
      requires count <= order.Length && forall k | 0 <= k < count :: order[k] < UNASSIGNED
      modifies options
      ensures forall i | 0 <= i < options.Length ::
        options[i].number == if i < Limit(options.Length) && old(options[i].number) in order[..count] then UNASSIGNED
                             else old(options[i].number)
    {
      var limit := Limit(options.Length);
      for index := 0 to limit
        invariant forall i | 0 <= i < options.Length ::
          options[i].number == if i < index && old(options[i].number) in order[..count] then UNASSIGNED
                               else old(options[i].number)
      {
        var index2 := 0;
        while index2 < count && options[index].number != order[index2]
          invariant index2 <= count && options[index].number !in order[..index2]
        {
          index2 := index2 + 1;
        }
        if index2 < count {
          assert order[..count][index2] == options[index].number;
          options[index] := options[index].(number := UNASSIGNED);
        } else {
          assert order[..index2] == order[..count];
        }
      }
    }

    /** EfiBootManagerDeleteLoadOptionVariable and the SetVariable after it; either may fail. */
    method DeleteOption(n: Number)
      requires store.Valid()
      modifies this`store, this`failures
      ensures store.Valid() && old(failures) <= failures
      ensures store.order == old(store.order) || store.order == Without(old(store.order), {n})
      ensures store.options == old(store.options) || store.options == old(store.options) - {n}
      ensures failures == old(failures) ==> store == Store(Without(old(store.order), {n}), old(store.options) - {n})
    {
      var order, options := store.order, store.options;
      var unlisted: bool, erased: bool := *, *;
      if unlisted {
        order := Without(order, {n});
      } else {
        failures := failures + 1;
      }
      if erased {
        options := options - {n};
      } else {
        failures := failures + 1;
      }
      store := Store(order, options);
    }

    /** Asks about every displayed option that is left unmarked, and deletes those the user agrees to. */
    method PromptForDeletions(answers: seq<bool>, ghost numbers: seq<Number>, ghost order: seq<Number>)
        returns (prompted: seq<Number>, confirmed: set<Number>)
      requires store.Valid() && |numbers| == options.Length && forall i | 0 <= i < |numbers| :: numbers[i] < UNASSIGNED
      requires forall i | 0 <= i < Limit(options.Length) ::
        options[i].number == if numbers[i] in order then UNASSIGNED else numbers[i]
      requires |answers| == DISPLAYED
      modifies this`store, this`failures
      ensures store.Valid() && prompted == Missing(numbers[..Limit(options.Length)], order)
      ensures confirmed == Agreed(numbers[..Limit(options.Length)], order, answers)
      ensures OnlyDeleted(old(store), store, confirmed) && old(failures) <= failures
      ensures failures == old(failures) ==> store == AllDeleted(old(store), confirmed)
    {
      hide OnlyDeleted, AllDeleted, Missing, Agreed;
      prompted, confirmed := [], {};
      var limit := Limit(options.Length);
      NothingDeleted(store);
      NothingMissing(numbers, order, answers);
      for index := 0 to limit
        invariant store.Valid() && prompted == Missing(numbers[..index], order)
        invariant confirmed == Agreed(numbers[..index], order, answers)
        invariant OnlyDeleted(old(store), store, confirmed) && old(failures) <= failures
        invariant failures == old(failures) ==> store == AllDeleted(old(store), confirmed)
      {
        MissingStep(numbers, order, answers, index);
        if options[index].number != UNASSIGNED {
          prompted := prompted + [options[index].number];
          if answers[index] {
            ghost var mid := store;
            DeleteOption(options[index].number);
            OneMoreDeleted(old(store), mid, store, confirmed, options[index].number);
            confirmed := confirmed + {options[index].number};
          }
        }
      }
    }

    /** What RouteConfig does when the counts differ: the second and third loop. */
    method DropMissing(order: array<Number>, count: nat, answers: seq<bool>)
        returns (prompted: seq<Number>, confirmed: set<Number>)
      requires Valid() && count <= order.Length && forall k | 0 <= k < count :: order[k] < UNASSIGNED
      requires |answers| == DISPLAYED
      modifies this`store, this`failures, options
      ensures store.Valid() && prompted == Missing(Numbers(old(options[..]))[..Limit(options.Length)], order[..count])
      ensures confirmed == Agreed(Numbers(old(options[..]))[..Limit(options.Length)], order[..count], answers)
      ensures OnlyDeleted(old(store), store, confirmed) && old(failures) <= failures
      ensures failures == old(failures) ==> store == AllDeleted(old(store), confirmed)
    {
      ghost var numbers := Numbers(options[..]);
      MarkListed(order, count);
      prompted, confirmed := PromptForDeletions(answers, numbers, order[..count]);
    }

    /** The three loops of RouteConfig over the list on the form, and the write of BootOrder. `mid` is
        what the variables held after the first loop. */
    method Reconcile(answers: Answers) returns (outcome: Outcome, ghost kept: bool, ghost mid: Store)
      requires Valid() && |answers.deletions| == DISPLAYED
      modifies this`store, this`failures, options
      ensures outcome != Ignored && store.Valid() && Decided(list[..], old(options[..]), answers, outcome)
      ensures old(failures) <= failures && (failures == old(failures) ==> kept)
      ensures TickedOnly(list[..], old(options[..]), old(store), mid)
      ensures old(Synced()) && Wellformed(old(options[..])) && kept ==>
                Reflects(mid, Reconciled(list[..BootRequest(list[..], Limit(options.Length))], old(options[..])))
      ensures outcome.BootAtOnce? ==> Valid() && store == mid && Numbers(options[..]) == Numbers(old(options[..]))
      ensures options == old(options)
      ensures outcome.Routed? ==> Settled(mid, store, outcome)
      ensures outcome.Routed? && failures == old(failures) ==> Done(options.Length, mid, store, outcome)
    {
      hide Agreed, Done, Reconciled, NewOrder, Missing, Numbers, BootRequest, Limit, Reflects, SameBut, Unlisted, Quiet;
      ghost var was := options[..];
      var stop, order, count;
      stop, order, count, kept := ApplyList();
      mid := store;
      LimitFits(options.Length);
      if stop < Limit(options.Length) {
        return BootAtOnce(list[stop].Named(), answers.boot), kept, mid;
      }
      OrderFits(list[..], was);
      outcome := Finish(order, count, answers.deletions);
    }

    /** From the comparison of the counts on. */
    method Finish(order: array<Number>, count: nat, answers: seq<bool>) returns (outcome: Outcome)
      requires Valid() && count <= order.Length && forall k | 0 <= k < count :: order[..count][k] < UNASSIGNED
      requires |answers| == DISPLAYED
      modifies this`store, this`failures, options
      ensures store.Valid() && outcome.Routed? && Settled(old(store), store, outcome)
      ensures outcome.order == order[..count] && forall n | n in outcome.confirmed :: n in outcome.prompted
      ensures outcome.prompted == if count == options.Length then []
                                  else Missing(Numbers(old(options[..]))[..Limit(options.Length)], order[..count])
      ensures outcome.confirmed == if count == options.Length then {}
                                   else Agreed(Numbers(old(options[..]))[..Limit(options.Length)], order[..count],
                                               answers)
      ensures old(failures) <= failures
      ensures failures == old(failures) ==> Done(options.Length, old(store), store, outcome)
    {
      hide Missing, Agreed, Numbers, Limit, Unlisted;
      assert forall k | 0 <= k < count :: order[k] == order[..count][k];
      var prompted, confirmed := [], {};
      NothingDeleted(store);
      LimitFits(options.Length);
      if options.Length != count {
        AgreedAreMissing(Numbers(options[..])[..Limit(options.Length)], order[..count], answers);
        prompted, confirmed := DropMissing(order, count, answers);
      }
      var allowed := options.Length == count || confirmed != {};
      var written: bool := *;
      written := written && allowed;
      if written {
        store := store.(order := order[..count]);
      } else if allowed {
        failures := failures + 1;
      }
      outcome := Routed(order[..count], prompted, confirmed, written);
    }

    method AcceptList(value: seq<Entry>)
      requires |value| == DISPLAYED == list.Length
      modifies list
      ensures list[..] == value
    {
      for i := 0 to DISPLAYED
        invariant list[..i] == value[..i]
      {
        list[i] := value[i];
      }
    }

    /** RouteConfig for the boot order. `submitted` is what ConfigToBlock makes of the request, if it can;
        `granted`: memory for the new order was allocated. */
    method RouteConfig(locked: bool, submitted: Option<seq<Entry>>, granted: bool, answers: Answers)
      returns (outcome: Outcome, ghost kept: bool, ghost mid: Store)
      requires Valid() && |answers.deletions| == DISPLAYED
      requires submitted.Some? ==> |submitted.value| == DISPLAYED
      modifies this`options, this`store, this`failures, options, list
      ensures Valid()
      ensures outcome == Ignored ==> store == old(store) && options == old(options) && options[..] == old(options[..])
      ensures outcome == Ignored <==> locked || submitted.None? || !granted
      ensures old(failures) <= failures && (failures == old(failures) ==> kept)
      ensures outcome != Ignored ==>
                var w, was := submitted.value, old(options[..]);
                Decided(w, was, answers, outcome) && TickedOnly(w, was, old(store), mid) &&
                (old(Synced()) && Wellformed(was) && kept ==>
                  Reflects(mid, Reconciled(w[..BootRequest(w, Limit(|was|))], was)))
      ensures options == old(options) || fresh(options)
      ensures if outcome == Ignored || (outcome.BootAtOnce? && outcome.agreed)
              then Numbers(options[..]) == Numbers(old(options[..]))
              else options[..] == Loaded(store.order, store.options) && list[..] == Shown(options[..], defaults)
      ensures outcome.BootAtOnce? ==> store == mid
      ensures outcome.Routed? ==> Settled(mid, store, outcome)
      ensures outcome.Routed? && failures == old(failures) ==> Done(|old(options[..])|, mid, store, outcome)
    {
      kept, mid := true, store;
      if locked || submitted.None? {
        return Ignored, true, store;
      }
      AcceptList(submitted.value);
      if !granted {
        return Ignored, true, store;
      }
      outcome, kept, mid := Reconcile(answers);
      if !(outcome.BootAtOnce? && outcome.agreed) {
        RebuildOrderList();
      }
    }

    /** One submission of a run. `tidy`: its list names displayed options once each. */
    method ServeOne(s: Submission, locked: bool) returns (outcome: Outcome, ghost tidy: bool)
      requires Valid() && s.Possible()
      modifies this`options, this`store, this`failures, options, list
      ensures Valid() && (options == old(options) || fresh(options))
      ensures ActiveBitsOnly(old(store).options, store.options, Confirmed(outcome))
      ensures locked || s.list.None? || !s.granted ==> store == old(store)
      ensures tidy <==> s.TidyOn(old(options[..]))
      ensures tidy && old(Orderly()) ==> Orderly()
    {
      hide Decided, TickedOnly, Settled, Wellformed, Distinct, Loaded, Shown, NamesDisplayedOnce, Numbers;
      hide BootMenu.Synced;
      ghost var was, before := options[..], store;
      tidy := s.TidyOn(was);
      ghost var kept, mid;
      outcome, kept, mid := RouteConfig(locked, s.list, s.granted, s.answers);
      if outcome == Ignored {
        NothingChanged(store.options);
      } else {
        SubmissionChanges(s.list.value, was, before, mid, store, outcome);
        if tidy && Distinct(before.order) && Wellformed(was) {
          OrderStaysDistinct(s.list.value, was, before, s.answers, mid, store, outcome);
          LoadedIsWellformed(store.order, store.options);
          if outcome.BootAtOnce? && outcome.agreed {
            NumbersDecide(was, options[..]);
          }
        }
      }
    }

    /** Every run of submissions, whatever is listed, answered or fails: variables only lose confirmed
        deletions and change in active bits. While every list named displayed options once each, the boot
        order repeats none. `pages` are the options on the page before each submission. */
    method ServePage(submissions: seq<Submission>, locked: bool)
      returns (ghost confirmed: set<Number>, ghost tidy: bool, ghost pages: seq<seq<LoadOption>>)
      requires Valid() && forall i | 0 <= i < |submissions| :: submissions[i].Possible()
      modifies this`options, this`store, this`failures, options, list
      ensures Valid() && ActiveBitsOnly(old(store).options, store.options, confirmed)
      ensures locked ==> store == old(store)
      ensures |pages| == |submissions| && (tidy <==> forall i | 0 <= i < |pages| :: submissions[i].TidyOn(pages[i]))
      ensures tidy && old(Orderly()) ==> Orderly()
    {
      hide BootMenu.Orderly, ActiveBitsOnly, Submission.TidyOn;
      confirmed, tidy, pages := {}, true, [];
      NothingChanged(store.options);
      for i := 0 to |submissions|
        invariant Valid() && (options == old(options) || fresh(options))
        invariant ActiveBitsOnly(old(store).options, store.options, confirmed)
        invariant locked ==> store == old(store)
        invariant |pages| == i && (tidy <==> forall k | 0 <= k < i :: submissions[k].TidyOn(pages[k]))
        invariant tidy && old(Orderly()) ==> Orderly()
      {
        ghost var before := store;
        pages := pages + [options[..]];
        ghost var once;
        var outcome;
        outcome, once := ServeOne(submissions[i], locked);
        ChangesThen(old(store).options, before.options, store.options, confirmed, Confirmed(outcome));
        tidy := tidy && once;
        confirmed := confirmed + Confirmed(outcome);
      }
    }

    /** The boot order and the loaded options have no repeats. */
    ghost predicate Orderly()
      reads this, options
    {
      Distinct(store.order) && Wellformed(options[..])
    }

    /** The page is built and sent back untouched. */
    method BuildAndRouteBack(granted: bool, answers: Answers) returns (outcome: Outcome)
      requires list.Length == DISPLAYED && store.Valid() && Distinct(store.order) && |answers.deletions| == DISPLAYED
      modifies this`options, this`store, this`failures, list
      ensures outcome.Ignored? <==> !granted
      ensures var all := Loaded(old(store).order, old(store).options);
              !outcome.BootAtOnce? && (outcome.Ignored? ==> store == old(store)) &&
              (outcome.Routed? ==> RoutedBack(all, outcome)) &&
              (outcome.Routed? ==> Settled(old(store), store, outcome)) &&
              (Plain(all) && (forall n | n in old(store).order :: n in old(store).options) ==> store == old(store))
    {
      hide Loaded, Shown, Decided, TickedOnly, Settled, RoutedBack, Plain, Wellformed, Distinct;
      RebuildOrderList();
      ghost var all, before := options[..], store;
      ghost var kept, mid;
      outcome, kept, mid := RouteConfig(false, Some(list[..]), granted, answers);
      if outcome != Ignored {
        LoadedIsWellformed(before.order, before.options);
        UntouchedIsRouted(all, defaults, answers, outcome);
        UntouchedChanges(before, mid, store, defaults, answers, outcome);
      }
    }
  }

  /** Variables went away only by confirmed deletion, and otherwise changed in the active bit at most. */
  ghost predicate ActiveBitsOnly(before: map<Number, LoadOption>, after: map<Number, LoadOption>,
                                 confirmed: set<Number>)
  {
    after.Keys <= before.Keys && before.Keys <= after.Keys + confirmed &&
    forall n | n in after :: SameButActive(before[n], after[n])
  }

  function Confirmed(outcome: Outcome): set<Number> {
    if outcome.Routed? then outcome.confirmed else {}
  }

  /** The list names displayed options, each once at most. */
  ghost predicate TidyList(list: seq<Entry>, options: seq<LoadOption>)
    requires |list| == DISPLAYED
  {
    NamesDisplayedOnce(UserOrder(list[..Limit(|options|)]), Numbers(options)[..Limit(|options|)])
  }

  lemma NothingChanged(options: map<Number, LoadOption>)
    ensures ActiveBitsOnly(options, options, {})
  {
  }

  lemma ChangesThen(a: map<Number, LoadOption>, b: map<Number, LoadOption>, c: map<Number, LoadOption>,
                    x: set<Number>, y: set<Number>)
    requires ActiveBitsOnly(a, b, x) && ActiveBitsOnly(b, c, y)
    ensures ActiveBitsOnly(a, c, x + y)
  {
  }

  lemma SubmissionChanges(list: seq<Entry>, options: seq<LoadOption>, before: Store, mid: Store, after: Store,
                          outcome: Outcome)
    requires |list| == DISPLAYED && TickedOnly(list, options, before, mid)
    requires if outcome.Routed? then Settled(mid, after, outcome) else after == mid
    ensures ActiveBitsOnly(before.options, after.options, Confirmed(outcome))
  {
  }

  lemma OrderStaysDistinct(list: seq<Entry>, options: seq<LoadOption>, before: Store, answers: Answers, mid: Store,
                           after: Store, outcome: Outcome)
    requires |list| == DISPLAYED == |answers.deletions|
    requires Wellformed(options) && Distinct(before.order) && TidyList(list, options)
    requires Decided(list, options, answers, outcome) && TickedOnly(list, options, before, mid)
    requires if outcome.Routed? then Settled(mid, after, outcome) else after == mid
    ensures Distinct(after.order)
  {
    DistinctOrder(list, options);
    if outcome.Routed? && !outcome.written {
      var gone :| gone <= outcome.confirmed && after.order == Without(mid.order, gone);
      WithoutStaysDistinct(mid.order, gone);
    }
  }

  /** None of the displayed options is hidden or an application. */
  ghost predicate Plain(options: seq<LoadOption>) {
    forall i | 0 <= i < Limit(|options|) :: !Concealed(options[i])
  }

  /** An untouched list keeps the order if all its options are plain, and otherwise asks to delete exactly
      the concealed ones among the displayed. */
  ghost predicate RoutedBack(options: seq<LoadOption>, outcome: Outcome)
    requires outcome.Routed?
  {
    (Plain(options) <==> outcome.order == Numbers(options)) && (Plain(options) <==> outcome.prompted == []) &&
    forall i | 0 <= i < Limit(|options|) :: options[i].number in outcome.prompted <==> Concealed(options[i])
  }

  lemma UntouchedIsRouted(options: seq<LoadOption>, defaults: set<Number>, answers: Answers, outcome: Outcome)
    requires Wellformed(options) && |answers.deletions| == DISPLAYED
    requires Decided(Shown(options, defaults), options, answers, outcome)
    ensures outcome.Routed? && RoutedBack(options, outcome)
  {
    UnchangedListIsIdentityExactly(options, defaults);
    ShownDrops(options, defaults);
    if outcome.Routed? && Plain(options) {
      assert outcome.prompted == [];
    } else if outcome.Routed? {
      var i :| 0 <= i < Limit(|options|) && Concealed(options[i]);
      assert options[i].number in outcome.prompted;
    }
  }

  /** The variables after an untouched list, when the options were loaded from them. */
  lemma UntouchedChanges(before: Store, mid: Store, after: Store, defaults: set<Number>, answers: Answers,
                         outcome: Outcome)
    requires before.Valid() && Distinct(before.order) && outcome.Routed? && |answers.deletions| == DISPLAYED
    requires var all := Loaded(before.order, before.options);
             RoutedBack(all, outcome) && TickedOnly(Shown(all, defaults), all, before, mid) &&
             Decided(Shown(all, defaults), all, answers, outcome) && Settled(mid, after, outcome)
    ensures Settled(before, after, outcome)
    ensures Plain(Loaded(before.order, before.options)) && (forall n | n in before.order :: n in before.options) ==>
              after == before
  {
    var all := Loaded(before.order, before.options);
    LoadedIsWellformed(before.order, before.options);
    LoadedComesFrom(before.order, before.options);
    ShownIsQuiet(all, defaults);
    UnchangedListIsIdentityExactly(all, defaults);
    assert mid == before;
    if Plain(all) {
      assert outcome.confirmed == {};
      NothingUnlisted(before.order, after.order);
    }
  }

  lemma NothingUnlisted(before: seq<Number>, after: seq<Number>)
    ensures Unlisted(before, after, {}) <==> after == before
  {
    WithoutNone(before);
    if gone :| gone <= {} && after == Without(before, gone) {
      assert gone == {};
    }
  }

  lemma ShownIsQuiet(options: seq<LoadOption>, defaults: set<Number>)
    requires Wellformed(options)
    ensures Quiet(Shown(options, defaults), options, Limit(|options|))
  {
    forall k: nat | k <= Limit(|options|) ensures Reconciled(Shown(options, defaults)[..k], options) == options {
      ShownReadsBack(options, defaults, k);
    }
  }

  lemma ShownDrops(options: seq<LoadOption>, defaults: set<Number>)
    requires Wellformed(options)
    ensures var missing := Missing(Numbers(options)[..Limit(|options|)], NewOrder(Shown(options, defaults), options));
            forall i | 0 <= i < Limit(|options|) :: options[i].number in missing <==> Concealed(options[i])
  {
    var missing := Missing(Numbers(options)[..Limit(|options|)], NewOrder(Shown(options, defaults), options));
    forall i | 0 <= i < Limit(|options|) ensures options[i].number in missing <==> Concealed(options[i]) {
      ShownListDropsConcealed(options, defaults, i);
    }
  }

  /** Nothing but variables of confirmed options, and their numbers in the boot order, went away. */
  ghost predicate OnlyDeleted(before: Store, after: Store, confirmed: set<Number>) {
    OthersKept(before.options, after.options, confirmed) && Unlisted(before.order, after.order, confirmed)
  }

  ghost predicate OthersKept(before: map<Number, LoadOption>, after: map<Number, LoadOption>, confirmed: set<Number>) {
    after.Keys <= before.Keys && before.Keys <= after.Keys + confirmed && forall n | n in after :: after[n] == before[n]
  }

  /** What a decided submission does behind the first loop: confirmed options may go, and BootOrder is
      rewritten with the new order or loses confirmed numbers only. It is not rewritten when options are
      missing and no deletion was confirmed. */
  ghost predicate Settled(mid: Store, after: Store, outcome: Outcome)
    requires outcome.Routed?
  {
    OthersKept(mid.options, after.options, outcome.confirmed) &&
    if outcome.written then after.order == outcome.order && (outcome.confirmed == {} ==> outcome.prompted == [])
    else Unlisted(mid.order, after.order, outcome.confirmed)
  }

  /** What the first loop does to the variables: active bits of displayed options, if any entry asks. */
  ghost predicate TickedOnly(list: seq<Entry>, options: seq<LoadOption>, before: Store, mid: Store)
    requires |list| == DISPLAYED
  {
    SameBut(before, mid, Displayed(Numbers(options))) &&
    (Quiet(list, options, BootRequest(list, Limit(|options|))) ==> mid == before)
  }

  /** The variables hold these options. */
  ghost predicate Reflects(store: Store, options: seq<LoadOption>) {
    forall i | 0 <= i < |options| ::
      options[i].number in store.options && store.options[options[i].number] == options[i]
  }

  /** Some of the confirmed numbers went out of the boot order. */
  ghost predicate Unlisted(before: seq<Number>, after: seq<Number>, confirmed: set<Number>) {
    exists gone :: gone <= confirmed && after == Without(before, gone)
  }

  lemma NumbersDecide(one: seq<LoadOption>, other: seq<LoadOption>)
    requires Numbers(one) == Numbers(other)
    ensures Wellformed(one) <==> Wellformed(other)
  {
    assert forall i | 0 <= i < |one| :: one[i].number == Numbers(one)[i] && other[i].number == Numbers(other)[i];
  }

  lemma NothingDeleted(store: Store)
    ensures OnlyDeleted(store, store, {}) && AllDeleted(store, {}) == store
  {
    WithoutNone(store.order);
    assert store.options - {} == store.options;
  }

  lemma OneMoreDeleted(before: Store, mid: Store, after: Store, confirmed: set<Number>, n: Number)
    requires OnlyDeleted(before, mid, confirmed)
    requires after.options == mid.options || after.options == mid.options - {n}
    requires after.order == mid.order || after.order == Without(mid.order, {n})
    ensures OnlyDeleted(before, after, confirmed + {n})
    ensures mid == AllDeleted(before, confirmed) && after == Store(Without(mid.order, {n}), mid.options - {n}) ==>
              after == AllDeleted(before, confirmed + {n})
  {
    WithoutMore(before.order, confirmed, {n});
    assert before.options - confirmed - {n} == before.options - (confirmed + {n});
    assert n in confirmed + {n};
    var gone :| gone <= confirmed && mid.order == Without(before.order, gone);
    WithoutMore(before.order, gone, {n});
    assert gone + {n} <= confirmed + {n};
  }

  lemma NothingMissing(numbers: seq<Number>, order: seq<Number>, answers: seq<bool>)
    requires |answers| == DISPLAYED
    ensures Missing(numbers[..0], order) == [] && Agreed(numbers[..0], order, answers) == {}
  {
  }

  lemma MissingStep(numbers: seq<Number>, order: seq<Number>, answers: seq<bool>, k: nat)
    requires k < |numbers| && k < DISPLAYED == |answers|
    ensures Agreed(numbers[..k + 1], order, answers)
         == Agreed(numbers[..k], order, answers) + if numbers[k] !in order && answers[k] then {numbers[k]} else {}
    ensures Missing(numbers[..k + 1], order)
         == Missing(numbers[..k], order) + if numbers[k] in order then [] else [numbers[k]]
  {
    assert numbers[..k + 1][..k] == numbers[..k];
  }

  /** The decision that a submitted list calls for. */
  ghost predicate Decided(list: seq<Entry>, options: seq<LoadOption>, answers: Answers, outcome: Outcome)
    requires |list| == DISPLAYED == |answers.deletions|
  {
    var limit := Limit(|options|);
    var stop := BootRequest(list, limit);
    match outcome
    case Ignored => false
    case BootAtOnce(number, agreed) => stop < limit && number == list[stop].Named() && agreed == answers.boot
    case Routed(order, prompted, confirmed, _) =>
      stop == limit && order == NewOrder(list, options) && (forall n | n in confirmed :: n in prompted) &&
      if |order| == |options| then prompted == [] && confirmed == {}
      else prompted == Missing(Numbers(options)[..limit], order) &&
           confirmed == Agreed(Numbers(options)[..limit], order, answers.deletions)
  }

  /** The missing options that the user agrees to delete. */
  ghost function Agreed(numbers: seq<Number>, order: seq<Number>, answers: seq<bool>): set<Number>
    requires |numbers| <= DISPLAYED == |answers|
  {
    set i | 0 <= i < |numbers| && numbers[i] !in order && answers[i] :: numbers[i]
  }

  lemma AgreedAreMissing(numbers: seq<Number>, order: seq<Number>, answers: seq<bool>)
    requires |numbers| <= DISPLAYED == |answers|
    ensures forall n | n in Agreed(numbers, order, answers) :: n in Missing(numbers, order)
  {
  }

  /** All variables of the confirmed options, and their numbers in the boot order, went away. */
  ghost function AllDeleted(before: Store, confirmed: set<Number>): Store {
    Store(Without(before.order, confirmed), before.options - confirmed)
  }

  /** How a decided submission over `count` options ends if all writes succeed: the confirmed options are gone, and
      BootOrder is the new order exactly if the counts agree or some deletion was confirmed. */
  ghost predicate Done(count: nat, mid: Store, after: Store, outcome: Outcome)
    requires outcome.Routed?
  {
    after.options == mid.options - outcome.confirmed &&
    (outcome.written <==> |outcome.order| == count || outcome.confirmed != {}) &&
    after.order == if outcome.written then outcome.order else mid.order
  }

  /** What comes back from the form, and what the firmware and the user do about it. */
  datatype Submission = Submission(list: Option<seq<Entry>>, granted: bool, answers: Answers)
  {
    predicate Possible() {
      |answers.deletions| == DISPLAYED && (list.Some? ==> |list.value| == DISPLAYED)
    }

    /** The list, if there is one, names displayed options once each. */
    ghost predicate TidyOn(options: seq<LoadOption>)
      requires Possible()
    {
      list.Some? ==> TidyList(list.value, options)
    }
  }

  /** No entry before `stop` asks for a change. */
  ghost predicate Quiet(list: seq<Entry>, options: seq<LoadOption>, stop: nat)
    requires stop <= |list|
  {
    forall k | 0 <= k <= stop :: Reconciled(list[..k], options) == options
  }

  /** One entry's effect on the options. */
  function TickedAll(entry: Entry, options: seq<LoadOption>): seq<LoadOption> {
    seq(|options|, i requires 0 <= i < |options| =>
      if Reached(options, i) && options[i].number == entry.Named() then Ticked(options[i], Some(entry.checkbox))
      else options[i])
  }

  /** Only variables of the options in `numbers` differ, in the active bit; none comes or goes. */
  ghost predicate SameBut(before: Store, after: Store, numbers: set<Number>) {
    after.order == before.order && after.options.Keys == before.options.Keys &&
    forall n | n in before.options ::
      SameButActive(before.options[n], after.options[n]) &&
      (n !in numbers ==> after.options[n] == before.options[n])
  }

  ghost function Displayed(numbers: seq<Number>): set<Number> {
    set n | n in numbers[..Limit(|numbers|)]
  }

  lemma OneOfDisplayed(before: Store, after: Store, options: seq<LoadOption>, i: nat)
    requires i < Limit(|options|) && SameBut(before, after, {options[i].number})
    ensures SameBut(before, after, Displayed(Numbers(options)))
  {
    assert Numbers(options)[..Limit(|options|)][i] == options[i].number;
  }

  lemma SameButThen(a: Store, b: Store, c: Store, numbers: set<Number>)
    requires SameBut(a, b, numbers) && SameBut(b, c, numbers)
    ensures SameBut(a, c, numbers)
  {
  }

  /** Ticking reaches one option at most. */
  lemma TickedOne(entry: Entry, was: seq<LoadOption>, i: nat, now: seq<LoadOption>)
    requires i <= Limit(|was|) && (forall k | 0 <= k < i :: was[k].number != entry.Named())
    requires i < Limit(|was|) ==> was[i].number == entry.Named()
    requires now == if i < Limit(|was|) && entry.checkbox != was[i].active
                    then was[i := was[i].(active := !was[i].active)] else was
    ensures now == TickedAll(entry, was) && Numbers(now) == Numbers(was)
  {
  }

  lemma Unchanged(store: Store, numbers: set<Number>)
    ensures SameBut(store, store, numbers)
  {
  }

  /** The new order after `index` rounds of the loop. */
  function OrderSoFar(list: seq<Entry>, numbers: seq<Number>, index: nat): seq<Number>
    requires |list| == DISPLAYED && index <= |numbers|
  {
    var limit := Limit(|numbers|);
    if index <= limit then UserOrder(list[..index]) else UserOrder(list[..limit]) + numbers[limit..index]
  }

  lemma OneBeyond(list: seq<Entry>, numbers: seq<Number>, index: nat)
    requires |list| == DISPLAYED && Limit(|numbers|) <= index < |numbers|
    ensures OrderSoFar(list, numbers, index + 1) == OrderSoFar(list, numbers, index) + [numbers[index]]
  {
  }

  lemma WithinLimit(list: seq<Entry>, numbers: seq<Number>, index: nat)
    requires |list| == DISPLAYED && index < Limit(|numbers|)
    ensures OrderSoFar(list, numbers, index) == UserOrder(list[..index])
    ensures OrderSoFar(list, numbers, index + 1) == UserOrder(list[..index + 1])
  {
  }

  lemma WholeOrder(list: seq<Entry>, options: seq<LoadOption>)
    requires |list| == DISPLAYED
    ensures OrderSoFar(list, Numbers(options), |options|) == NewOrder(list, options)
  {
  }

  lemma NothingListed(list: seq<Entry>, options: seq<LoadOption>)
    requires |list| == DISPLAYED
    ensures Reconciled(list[..0], options) == options && OrderSoFar(list, Numbers(options), 0) == []
  {
  }

  lemma OrderFits(list: seq<Entry>, options: seq<LoadOption>)
    requires |list| == DISPLAYED && forall i | 0 <= i < |options| :: options[i].number < 0x1_0000
    ensures forall k | 0 <= k < |NewOrder(list, options)| :: NewOrder(list, options)[k] < UNASSIGNED
  {
    UserOrderFits(list[..Limit(|options|)]);
  }

  lemma {:induction false} UserOrderFits(list: seq<Entry>)
    ensures forall k | 0 <= k < |UserOrder(list)| :: UserOrder(list)[k] < UNASSIGNED
  {
    if list != [] {
      UserOrderFits(list[..|list| - 1]);
    }
  }

  lemma LimitFits(count: nat)
    ensures Limit(count) <= DISPLAYED && Limit(count) <= count
  {
  }

  lemma EntryStep(list: seq<Entry>, options: seq<LoadOption>, k: nat)
    requires k < |list|
    ensures Reconciled(list[..k + 1], options)
         == if list[k].Empty() then Reconciled(list[..k], options)
            else TickedAll(list[k], Reconciled(list[..k], options))
    ensures UserOrder(list[..k + 1])
         == if list[k].Empty() then UserOrder(list[..k]) else UserOrder(list[..k]) + [list[k].Named()]
  {
    assert list[..k + 1][..k] == list[..k];
    var before, after := Reconciled(list[..k], options), Reconciled(list[..k + 1], options);
    forall i | 0 <= i < |options|
      ensures after[i] == if list[k].Empty() then before[i] else TickedAll(list[k], before)[i]
    {
      assert forall j | 0 <= j < |options| :: before[j].number == options[j].number;
      assert Reached(before, i) == Reached(options, i);
    }
  }
}
