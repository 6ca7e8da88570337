/** Runs of the SD/MMC driver: card checks, resets, block I/O and RPMB requests on the slots of a pool, in any
    order and with any outcome. */
module SdRuns {
  import opened Bytes
  import opened EfiStatus
  import opened SdCommands
  import opened SdHost
  import opened SdhcSlot
  import opened SdPool
  import BlockIo
  import RpmbIo

  datatype Op =
    | CheckOp
    | ResetOp(slot: nat)
    | BlockOp(slot: nat, request: BlockIo.Request)
    | RpmbOp(slot: nat, requestCount: nat, responseCount: nat)

  /** A request that the slot's protocols, as published, can receive. */
  predicate Receivable(pool: seq<SdhcInstance>, op: Op)
    reads pool
  {
    match op
    case CheckOp => true
    case ResetOp(slot) => slot < |pool|
    case BlockOp(slot, r) =>
      slot < |pool| && pool[slot].blockIoInstalled && BlockIo.MaxTransferSize(pool[slot]) > 0 &&
      r.Representable() && r.direction != DirectionUndefined
    case RpmbOp(slot, requestCount, responseCount) => slot < |pool| && requestCount > 0 && responseCount > 0
  }

  method Block(pool: seq<SdhcInstance>, db: HandleDatabase, k: nat, r: BlockIo.Request)
    requires PoolValid(pool, db) && Receivable(pool, BlockOp(k, r))
    modifies db, pool, set i | 0 <= i < |pool| :: pool[i].host, set i | 0 <= i < |pool| :: pool[i].blockBuffer
    ensures PoolValid(pool, db) && old(Selected(pool)) <= Selected(pool)
  {
    var inst := pool[k];
    ghost var before := db.installed;
    var buffer := new Byte[r.size](_ => 0);
    var _, _, _ := BlockIo.IoBlocks(inst, r, buffer);
    forall i | 0 <= i < |pool| && i != k ensures pool[i].Valid() && pool[i].attempts == 0 {
      EntriesKept(before, db.installed, pool[i].handle, inst.handle);
    }
  }

  method Rpmb(pool: seq<SdhcInstance>, db: HandleDatabase, k: nat, requestCount: nat, responseCount: nat)
    returns (status: Status, ghost restored: bool)
    requires PoolValid(pool, db) && Receivable(pool, RpmbOp(k, requestCount, responseCount))
    modifies db, pool, set i | 0 <= i < |pool| :: pool[i].host, set i | 0 <= i < |pool| :: pool[i].blockBuffer
    ensures PoolValid(pool, db) && old(Selected(pool)) - (if restored then {} else {k}) <= Selected(pool)
    ensures !status.Failed() ==> restored
  {
    var inst := pool[k];
    ghost var before := db.installed;
    var request := new Byte[requestCount * BLOCK_BYTES];
    var response := new Byte[responseCount * BLOCK_BYTES](_ => 0);
    ghost var cached, between;
    status, restored, cached, between := RpmbIo.RpmbRequest(inst, request, requestCount, response, responseCount);
    forall i | 0 <= i < |pool| && i != k ensures pool[i].Valid() && pool[i].attempts == 0 {
      EntriesKept(before, db.installed, pool[i].handle, inst.handle);
    }
  }

  /** A block request on a selected slot goes to the user area. */
  lemma SelectedMeansUserArea(pool: seq<SdhcInstance>, k: nat, buffer: array<Byte>)
    requires k in Selected(pool)
    ensures BlockIo.StartOf(pool[k], buffer).inUserArea
  {
  }

  /** Some RPMB request to slot `k` failed. */
  ghost predicate FailedOn(ops: seq<Op>, answers: seq<Status>, k: nat)
    requires |answers| == |ops|
  {
    exists n :: 0 <= n < |ops| && ops[n].RpmbOp? && ops[n].slot == k && answers[n].Failed()
  }

  lemma FailedMore(ops: seq<Op>, answers: seq<Status>, n: nat, answer: Status)
    requires n < |ops| && |answers| == n
    ensures forall k | FailedOn(ops[..n], answers, k) :: FailedOn(ops[..n + 1], answers + [answer], k)
    ensures ops[n].RpmbOp? && answer.Failed() ==> FailedOn(ops[..n + 1], answers + [answer], ops[n].slot)
    ensures n + 1 == |ops| ==> ops[..n + 1] == ops
  {
    forall k | FailedOn(ops[..n], answers, k) ensures FailedOn(ops[..n + 1], answers + [answer], k) {
      var i :| 0 <= i < n && ops[i].RpmbOp? && ops[i].slot == k && answers[i].Failed();
      assert ops[..n + 1][i] == ops[i] && (answers + [answer])[i] == answers[i];
    }
    assert ops[..n + 1][n] == ops[n] && (answers + [answer])[n] == answer;
  }

  /** In every run, each slot's installed flags say exactly what the handle database holds for it, no
      more than one handle of the system publishes RPMB I/O, and no recovery attempt stays counted. The
      user area of an honest card stays selected through all block requests, soft resets and RPMB
      requests that succeed or at least switch back; `spoiled` are the other slots, and `answers` the
      statuses of the RPMB requests. */
  method Serve(pool: seq<SdhcInstance>, db: HandleDatabase, ops: seq<Op>)
    returns (ghost spoiled: set<nat>, ghost answers: seq<Status>)
    requires PoolValid(pool, db)
    modifies db, pool, set i | 0 <= i < |pool| :: pool[i].host, set i | 0 <= i < |pool| :: pool[i].blockBuffer
    ensures PoolValid(pool, db) && old(Selected(pool)) - spoiled <= Selected(pool)
    ensures |answers| == |ops| && forall k | k in spoiled :: FailedOn(ops, answers, k)
  {
    spoiled, answers := {}, [];
    for n := 0 to |ops|
      invariant PoolValid(pool, db) && old(Selected(pool)) - spoiled <= Selected(pool)
      invariant |answers| == n && forall k | k in spoiled :: FailedOn(ops[..n], answers, k)
    {
      ghost var answer := Success;
      ghost var spoils := {};
      if Receivable(pool, ops[n]) {
        match ops[n] {
          case CheckOp => CheckCards(pool, db);
          case ResetOp(k) => var _ := ResetSlot(pool, db, k);
          case BlockOp(k, r) => Block(pool, db, k, r);
          case RpmbOp(k, requestCount, responseCount) =>
            ghost var restored;
            var status;
            status, restored := Rpmb(pool, db, k, requestCount, responseCount);
            answer := status;
            spoils := if restored then {} else {k};
        }
      }
      FailedMore(ops, answers, n, answer);
      spoiled, answers := spoiled + spoils, answers + [answer];
    }
  }
}
