/** The pool of SD/MMC slots that share one handle database, and the periodic card check
    (SdMmc.c, CheckCardsCallback). */
module SdPool {
  import opened EfiStatus
  import opened SdCommands
  import opened SdHost
  import opened SdhcSlot

  /** One database, no slot, host or handle in common. */
  ghost predicate Separate(pool: seq<SdhcInstance>, db: HandleDatabase) {
    (forall i | 0 <= i < |pool| :: pool[i].db == db) &&
    (forall i, j | 0 <= i < |pool| && 0 <= j < |pool| && i != j ::
      pool[i] != pool[j] && pool[i].host != pool[j].host && pool[i].handle != pool[j].handle)
  }

  /** Every slot is consistent: in particular its flags agree with the shared database, and at most
      one handle of the system publishes RPMB I/O. */
  ghost predicate PoolValid(pool: seq<SdhcInstance>, db: HandleDatabase)
    reads db, pool, set i | 0 <= i < |pool| :: pool[i].host
  {
    Separate(pool, db) && db.RpmbUnique() &&
    forall i | 0 <= i < |pool| :: pool[i].Valid() && pool[i].attempts == 0
  }

  /** The entries of one handle are among those that another handle's steps leave alone. */
  lemma EntriesKept(before: set<Entry>, after: set<Entry>, handle: nat, other: nat)
    requires handle != other && Others(after, other) == Others(before, other)
    ensures forall p :: Entry(handle, p) in after <==> Entry(handle, p) in before
  {
    forall p ensures Entry(handle, p) in after <==> Entry(handle, p) in before {
      assert Entry(handle, p) in after <==> Entry(handle, p) in Others(after, other);
      assert Entry(handle, p) in before <==> Entry(handle, p) in Others(before, other);
    }
  }

  /** The slots whose card is honest and has its user area selected. */
  ghost function Selected(pool: seq<SdhcInstance>): set<nat>
    reads pool, set i | 0 <= i < |pool| :: pool[i].host
  {
    set i: nat | i < |pool| && pool[i].host.honest && pool[i].UserSelected()
  }

  /** What a round leaves alone in every slot. */
  twostate predicate RoundKeeps(pool: seq<SdhcInstance>)
    reads pool, set i | 0 <= i < |pool| :: pool[i].host
  {
    old(Selected(pool)) <= Selected(pool) &&
    forall i | 0 <= i < |pool| ::
      BootBits(pool[i].host.config) == BootBits(old(pool[i].host.config)) &&
      old(pool[i].host.answers) <= pool[i].host.answers && old(pool[i].softResets) <= pool[i].softResets
  }

  /** A soft reset of one slot, as EFI_BLOCK_IO_PROTOCOL.Reset() or the card check makes it. */
  method ResetSlot(pool: seq<SdhcInstance>, db: HandleDatabase, k: nat) returns (status: Status)
    requires PoolValid(pool, db) && k < |pool|
    modifies db, pool[k], pool[k].host, pool[k].blockBuffer
    ensures PoolValid(pool, db) && RoundKeeps(pool) && pool[k].softResets > old(pool[k].softResets)
    ensures status.Failed() ==> pool[k].Excused()
  {
    var inst := pool[k];
    ghost var before := db.installed;
    ghost var cause, atExit;
    status, cause, atExit := inst.SoftReset();
    forall i | 0 <= i < |pool| && i != k ensures pool[i].Valid() && pool[i].attempts == 0 {
      EntriesKept(before, db.installed, pool[i].handle, inst.handle);
    }
  }

  /** The slot's card came or went, by the first answer the slot gave since. */
  twostate predicate Changed(inst: SdhcInstance)
    reads inst, inst.host
  {
    |old(inst.host.answers)| < |inst.host.answers| &&
    inst.host.answers[|old(inst.host.answers)|] != old(inst.media.present)
  }

  /** A slot that was not reset is as it was, its answer aside. */
  twostate predicate Untouched(inst: SdhcInstance)
    reads inst, inst.host
  {
    inst.softResets == old(inst.softResets) && inst.card == old(inst.card) && inst.media == old(inst.media) &&
    inst.host.issued == old(inst.host.issued)
  }

  /** The slot was asked for its card, and reset exactly if the card came or went. */
  twostate predicate Checked(inst: SdhcInstance)
    reads inst, inst.host
  {
    |old(inst.host.answers)| < |inst.host.answers| &&
    if Changed(inst) then inst.softResets > old(inst.softResets) else Untouched(inst)
  }

  method CheckCard(pool: seq<SdhcInstance>, db: HandleDatabase, k: nat)
    requires PoolValid(pool, db) && k < |pool|
    modifies db, pool[k], pool[k].host, pool[k].blockBuffer
    ensures PoolValid(pool, db) && RoundKeeps(pool) && Checked(pool[k])
  {
    hide SdhcInstance.BroughtUp, BootBits;
    var present := pool[k].host.Query();
    if pool[k].media.present != present {
      var _ := ResetSlot(pool, db, k);
    }
  }

  /** CheckCardsCallback: every slot is asked for its card; those whose card came or went are soft-reset, and no
      others. */
  method CheckCards(pool: seq<SdhcInstance>, db: HandleDatabase)
    requires PoolValid(pool, db)
    modifies db, pool, set i | 0 <= i < |pool| :: pool[i].host, set i | 0 <= i < |pool| :: pool[i].blockBuffer
    ensures PoolValid(pool, db) && RoundKeeps(pool)
    ensures forall i | 0 <= i < |pool| :: Checked(pool[i])
  {
    hide PoolValid, BootBits, SdhcInstance.UserSelected;
    PoolIsSeparate(pool, db);
    for k := 0 to |pool|
      invariant PoolValid(pool, db) && RoundKeeps(pool)
      invariant forall i | 0 <= i < k :: Checked(pool[i])
      invariant forall i | k <= i < |pool| ::
        Untouched(pool[i]) && pool[i].host.answers == old(pool[i].host.answers)
    {
      CheckCard(pool, db, k);
    }
  }

  lemma PoolIsSeparate(pool: seq<SdhcInstance>, db: HandleDatabase)
    requires PoolValid(pool, db)
    ensures Separate(pool, db)
  {
  }
}
