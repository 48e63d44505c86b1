/**
 Properties of whole call sequences: every reachable state satisfies the
 invariant, creates hand out consecutive ids across all three kinds, an id is
 never handed out twice (not even after its record is deleted), a record is
 stored exactly when it was created and not removed since, and no call ever
 answers `InvalidInput`.
 */
module History {
  import opened Types
  import B = Backend
  import opened Canister

  /** Every state the canister can reach from installation keeps the invariant. */
  lemma ReachableStatesSatisfyInv(calls: seq<Call>)
    requires CreateCount(calls) <= MAX_U64
    ensures B.Inv(Run(B.Init(), calls).0)
  {
  }

  /** Running one more call appends one response and leaves the earlier ones
      as they were. */
  lemma RunStep(s: B.State, calls: seq<Call>)
    requires 0 < |calls| && s.counter + CreateCount(calls) <= MAX_U64
    ensures var n := |calls| - 1;
      var (t0, resps0) := Run(s, calls[..n]);
      var (t, resps) := Run(s, calls);
      && (t, resps[n]) == Handle(t0, calls[n])
      && resps[..n] == resps0
  {
  }

  /** The ids returned by creates are exactly `s.counter`, `s.counter + 1`, ...,
      one per create whatever its kind, and the counter ends just past the last
      of them: ids strictly increase and none is handed out twice. */
  lemma {:induction false} IssuedIdsAreConsecutive(s: B.State, calls: seq<Call>)
    requires s.counter + CreateCount(calls) <= MAX_U64
    ensures var (t, resps) := Run(s, calls);
      var ids := IssuedIds(calls, resps);
      && |ids| == t.counter - s.counter
      && |ids| == CreateCount(calls)
      && forall i | 0 <= i < |ids| :: ids[i] == s.counter + i
  {
    if |calls| > 0 {
      var n := |calls| - 1;
      IssuedIdsAreConsecutive(s, calls[..n]);
      RunStep(s, calls);
    }
  }

  lemma IssuedIdsStrictlyIncrease(s: B.State, calls: seq<Call>)
    requires s.counter + CreateCount(calls) <= MAX_U64
    ensures var (t, resps) := Run(s, calls);
      var ids := IssuedIds(calls, resps);
      && (forall i | 0 <= i < |ids| :: s.counter <= ids[i] < t.counter)
      && (forall i, j | 0 <= i < j < |ids| :: ids[i] < ids[j])
  {
  }

  /** `id` was handed out once and is no longer stored under any kind. */
  ghost predicate Retired(s: B.State, id: U64) {
    id < s.counter && forall k: EntityKind :: id !in B.Keys(s, k)
  }

  /** A retired id stays retired: no later call stores it again, and no later
      create hands it out. */
  lemma {:induction false} RetiredIdStaysRetired(s: B.State, calls: seq<Call>, id: U64)
    requires s.counter + CreateCount(calls) <= MAX_U64
    requires Retired(s, id)
    ensures Retired(Run(s, calls).0, id)
    ensures id !in IssuedIds(calls, Run(s, calls).1)
  {
    IssuedIdsAreConsecutive(s, calls);
    if |calls| > 0 {
      var n := |calls| - 1;
      RetiredIdStaysRetired(s, calls[..n], id);
      RunStep(s, calls);
      var (t0, _) := Run(s, calls[..n]);
      var (t, resp) := Handle(t0, calls[n]);
      forall k: EntityKind
        ensures id !in B.Keys(t, k)
      {
        HandleChangesKeys(t0, calls[n], k, id);
      }
    }
  }

  /** Under the invariant a stored id lies below the counter. */
  lemma StoredIdIsBelowCounter(s: B.State, k: EntityKind, id: U64)
    requires B.Inv(s) && id in B.Keys(s, k)
    ensures id < s.counter
  {
  }

  /** A successful delete or cancel retires the id it removes, so by
      `RetiredIdStaysRetired` that id is never stored or handed out again. */
  lemma DeleteRetiresId(s: B.State, del: Call)
    requires B.Inv(s)
    requires IsDelete(del) && del.id in B.Keys(s, KindOf(del))
    ensures Handle(s, del).1 == UnitReply(Ok(()))
    ensures Retired(Handle(s, del).0, del.id)
  {
    var t := Handle(s, del).0;
    StoredIdIsBelowCounter(s, KindOf(del), del.id);
    forall k: EntityKind
      ensures del.id !in B.Keys(t, k)
    {
      HandleChangesKeys(s, del, k, del.id);
    }
  }

  /** Some call in the trace created `id` as a `k` and no later call removed it. */
  ghost predicate CreatedAndKept(calls: seq<Call>, resps: seq<Response>, k: EntityKind, id: U64)
    requires |calls| == |resps|
  {
    exists i | 0 <= i < |calls| ::
      && Creates(calls[i], resps[i], k, id)
      && forall j | i < j < |calls| :: !Removes(calls[j], resps[j], k, id)
  }

  /** Extending a trace by a call that does not remove `id` keeps a record
      that was created and kept. */
  lemma KeptSurvivesStep(calls: seq<Call>, resps: seq<Response>, c: Call, resp: Response, k: EntityKind, id: U64)
    requires |calls| == |resps|
    requires CreatedAndKept(calls, resps, k, id) && !Removes(c, resp, k, id)
    ensures CreatedAndKept(calls + [c], resps + [resp], k, id)
  {
    var i :| 0 <= i < |calls| && Creates(calls[i], resps[i], k, id)
      && forall j | i < j < |calls| :: !Removes(calls[j], resps[j], k, id);
    var calls', resps' := calls + [c], resps + [resp];
    assert Creates(calls'[i], resps'[i], k, id);
    assert forall j | i < j < |calls'| :: !Removes(calls'[j], resps'[j], k, id);
  }

  /** A create at the end of a trace is created and kept. */
  lemma CreateAtEndIsKept(calls: seq<Call>, resps: seq<Response>, c: Call, resp: Response, k: EntityKind, id: U64)
    requires |calls| == |resps|
    requires Creates(c, resp, k, id)
    ensures CreatedAndKept(calls + [c], resps + [resp], k, id)
  {
    var calls', resps' := calls + [c], resps + [resp];
    assert Creates(calls'[|calls|], resps'[|calls|], k, id);
  }

  /** If a longer trace created and kept `id`, then either its last call
      created it, or the shorter trace created and kept it and the last call
      did not remove it. */
  lemma KeptBeforeStep(calls: seq<Call>, resps: seq<Response>, c: Call, resp: Response, k: EntityKind, id: U64)
    requires |calls| == |resps|
    requires CreatedAndKept(calls + [c], resps + [resp], k, id)
    ensures Creates(c, resp, k, id) || (CreatedAndKept(calls, resps, k, id) && !Removes(c, resp, k, id))
  {
    var calls', resps' := calls + [c], resps + [resp];
    var i :| 0 <= i < |calls'| && Creates(calls'[i], resps'[i], k, id)
      && forall j | i < j < |calls'| :: !Removes(calls'[j], resps'[j], k, id);
    if i < |calls| {
      assert calls'[|calls|] == c && resps'[|calls|] == resp;
      assert Creates(calls[i], resps[i], k, id);
      assert forall j | i < j < |calls| :: calls'[j] == calls[j] && resps'[j] == resps[j];
    }
  }

  /** One step of `StoredIffCreatedAndKept`: if a store agrees with a trace
      before a call, it still agrees after the call and its response are
      appended. */
  lemma StoredIffStep(t0: B.State, pre: seq<Call>, resps0: seq<Response>, c: Call, k: EntityKind, id: U64)
    requires |pre| == |resps0|
    requires IsCreate(c) ==> t0.counter < MAX_U64
    requires id in B.Keys(t0, k) <==> CreatedAndKept(pre, resps0, k, id)
    ensures var (t, resp) := Handle(t0, c);
      id in B.Keys(t, k) <==> CreatedAndKept(pre + [c], resps0 + [resp], k, id)
  {
    var (t, resp) := Handle(t0, c);
    HandleChangesKeys(t0, c, k, id);
    if Creates(c, resp, k, id) {
      CreateAtEndIsKept(pre, resps0, c, resp, k, id);
    } else if CreatedAndKept(pre, resps0, k, id) && !Removes(c, resp, k, id) {
      KeptSurvivesStep(pre, resps0, c, resp, k, id);
    } else if CreatedAndKept(pre + [c], resps0 + [resp], k, id) {
      KeptBeforeStep(pre, resps0, c, resp, k, id);
    }
  }

  /** From a fresh canister, a record is stored if and only if a create handed
      out its id and no successful delete of that kind removed it since. */
  lemma {:induction false} StoredIffCreatedAndKept(calls: seq<Call>, k: EntityKind, id: U64)
    requires CreateCount(calls) <= MAX_U64
    ensures var (t, resps) := Run(B.Init(), calls);
      id in B.Keys(t, k) <==> CreatedAndKept(calls, resps, k, id)
  {
    if |calls| > 0 {
      var n := |calls| - 1;
      var pre, c := calls[..n], calls[n];
      assert calls == pre + [c];
      StoredIffCreatedAndKept(pre, k, id);
      var (t0, resps0) := Run(B.Init(), pre);
      StoredIffStep(t0, pre, resps0, c, k, id);
      RunStep(B.Init(), calls);
    }
  }

  /** The reserved `InvalidInput` error is never returned. */
  lemma {:induction false} NeverInvalidInput(s: B.State, calls: seq<Call>)
    requires s.counter + CreateCount(calls) <= MAX_U64
    ensures var resps := Run(s, calls).1;
      forall i | 0 <= i < |resps| :: !IsInvalidInput(resps[i])
  {
    if |calls| > 0 {
      NeverInvalidInput(s, calls[..|calls| - 1]);
      RunStep(s, calls);
    }
  }
}
