/**
 The canister as a whole: any of the twelve endpoints as one `Call` value, a
 dispatcher that runs one call, and `Run`, which runs a sequence of calls one
 after the other. Each call runs to completion before the next one starts, so
 a sequence of calls is the whole of the canister's behaviour.
 */
module Canister {
  import opened Types
  import B = Backend

  datatype Call =
    | AddProperty(address: string, propertyType: PropertyType, description: string)
    | DeleteProperty(id: U64)
    | GetProperty(id: U64)
    | UpdateProperty(id: U64, address: string, propertyType: PropertyType, description: string)
    | CreateLeaseAgreement(propertyId: U64, tenantId: U64, startDate: U64, endDate: U64)
    | CancelLeaseAgreement(id: U64)
    | GetLeaseAgreement(id: U64)
    | UpdateLeaseAgreement(id: U64, propertyId: U64, tenantId: U64, startDate: U64, endDate: U64)
    | AddTenant(name: string)
    | DeleteTenant(id: U64)
    | GetTenant(id: U64)
    | UpdateTenant(id: U64, name: string)

  datatype Option<T> = None | Some(value: T)

  /** What a call returns to its caller. */
  datatype Response =
    | PropertyReply(property: Result<Property>)
    | LeaseReply(lease: Result<LeaseAgreement>)
    | TenantReply(tenant: Result<Tenant>)
    | UnitReply(unit: Result<()>)

  predicate IsCreate(c: Call) {
    c.AddProperty? || c.CreateLeaseAgreement? || c.AddTenant?
  }

  predicate IsDelete(c: Call) {
    c.DeleteProperty? || c.CancelLeaseAgreement? || c.DeleteTenant?
  }

  /** The entity kind a call reads or writes. */
  function KindOf(c: Call): EntityKind {
    match c
    case AddProperty(_, _, _) => PropertyKind
    case DeleteProperty(_) => PropertyKind
    case GetProperty(_) => PropertyKind
    case UpdateProperty(_, _, _, _) => PropertyKind
    case CreateLeaseAgreement(_, _, _, _) => LeaseKind
    case CancelLeaseAgreement(_) => LeaseKind
    case GetLeaseAgreement(_) => LeaseKind
    case UpdateLeaseAgreement(_, _, _, _, _) => LeaseKind
    case AddTenant(_) => TenantKind
    case DeleteTenant(_) => TenantKind
    case GetTenant(_) => TenantKind
    case UpdateTenant(_, _) => TenantKind
  }

  /** The id of the record a response carries, if it carries one. */
  function RecordId(resp: Response): Option<U64> {
    match resp
    case PropertyReply(Ok(p)) => Some(p.id)
    case LeaseReply(Ok(l)) => Some(l.id)
    case TenantReply(Ok(t)) => Some(t.id)
    case _ => None
  }

  /** `c` was a create of kind `k` and its response handed out `id`. */
  predicate Creates(c: Call, resp: Response, k: EntityKind, id: U64) {
    IsCreate(c) && KindOf(c) == k && RecordId(resp) == Some(id)
  }

  /** `c` was a delete of kind `k` on `id` and it succeeded. */
  predicate Removes(c: Call, resp: Response, k: EntityKind, id: U64) {
    IsDelete(c) && KindOf(c) == k && c.id == id && resp == UnitReply(Ok(()))
  }

  predicate IsInvalidInput(resp: Response) {
    match resp
    case PropertyReply(r) => r.Err? && r.error.InvalidInput?
    case LeaseReply(r) => r.Err? && r.error.InvalidInput?
    case TenantReply(r) => r.Err? && r.error.InvalidInput?
    case UnitReply(r) => r.Err? && r.error.InvalidInput?
  }

  /** Runs one call. Only creates move the counter, a create hands out the
      counter's old value, no call answers `InvalidInput`, and the invariant
      is preserved. */
  function Handle(s: B.State, c: Call): (r: (B.State, Response))
    requires IsCreate(c) ==> s.counter < MAX_U64
    ensures r.0.counter == if IsCreate(c) then s.counter + 1 else s.counter
    ensures IsCreate(c) ==> RecordId(r.1) == Some(s.counter)
    ensures !IsInvalidInput(r.1)
    ensures B.Inv(s) ==> B.Inv(r.0)
  {
    match c
    case AddProperty(a, pt, d) =>
      var x := B.AddProperty(s, a, pt, d); (x.next, PropertyReply(x.result))
    case DeleteProperty(id) =>
      var x := B.DeleteProperty(s, id); (x.next, UnitReply(x.result))
    case GetProperty(id) =>
      var x := B.GetProperty(s, id); (x.next, PropertyReply(x.result))
    case UpdateProperty(id, a, pt, d) =>
      var x := B.UpdateProperty(s, id, a, pt, d); (x.next, PropertyReply(x.result))
    case CreateLeaseAgreement(p, t, sd, ed) =>
      var x := B.CreateLeaseAgreement(s, p, t, sd, ed); (x.next, LeaseReply(x.result))
    case CancelLeaseAgreement(id) =>
      var x := B.CancelLeaseAgreement(s, id); (x.next, UnitReply(x.result))
    case GetLeaseAgreement(id) =>
      var x := B.GetLeaseAgreement(s, id); (x.next, LeaseReply(x.result))
    case UpdateLeaseAgreement(id, p, t, sd, ed) =>
      var x := B.UpdateLeaseAgreement(s, id, p, t, sd, ed); (x.next, LeaseReply(x.result))
    case AddTenant(n) =>
      var x := B.AddTenant(s, n); (x.next, TenantReply(x.result))
    case DeleteTenant(id) =>
      var x := B.DeleteTenant(s, id); (x.next, UnitReply(x.result))
    case GetTenant(id) =>
      var x := B.GetTenant(s, id); (x.next, TenantReply(x.result))
    case UpdateTenant(id, n) =>
      var x := B.UpdateTenant(s, id, n); (x.next, TenantReply(x.result))
  }

  /** The key set of a kind changes only by a create adding the id it handed
      out or by a successful delete removing its argument. */
  lemma HandleChangesKeys(s: B.State, c: Call, k: EntityKind, id: U64)
    requires IsCreate(c) ==> s.counter < MAX_U64
    ensures var (t, resp) := Handle(s, c);
      id in B.Keys(t, k) <==> Creates(c, resp, k, id) || (id in B.Keys(s, k) && !Removes(c, resp, k, id))
  {
    match c
    case AddProperty(_, _, _) =>
    case DeleteProperty(_) =>
    case GetProperty(_) =>
    case UpdateProperty(_, _, _, _) =>
    case CreateLeaseAgreement(_, _, _, _) =>
    case CancelLeaseAgreement(_) =>
    case GetLeaseAgreement(_) =>
    case UpdateLeaseAgreement(_, _, _, _, _) =>
    case AddTenant(_) =>
    case DeleteTenant(_) =>
    case GetTenant(_) =>
    case UpdateTenant(_, _) =>
  }

  /** How many of `calls` are creates, of any kind. */
  function CreateCount(calls: seq<Call>): (n: nat)
    ensures n <= |calls|
    ensures n == 0 <==> forall i | 0 <= i < |calls| :: !IsCreate(calls[i])
  {
    if |calls| == 0 then 0
    else
      var n := |calls| - 1;
      CreateCount(calls[..n]) + (if IsCreate(calls[n]) then 1 else 0)
  }

  /** Runs `calls` in order from `s`, returning the final state and every
      response. Only creates move the counter, so the precondition bounds the
      number of creates, not of calls, to keep the counter within `u64::MAX`. */
  function Run(s: B.State, calls: seq<Call>): (r: (B.State, seq<Response>))
    requires s.counter + CreateCount(calls) <= MAX_U64
    ensures r.0.counter == s.counter + CreateCount(calls)
    ensures s.counter <= r.0.counter <= s.counter + |calls|
    ensures |r.1| == |calls|
    ensures B.Inv(s) ==> B.Inv(r.0)
    decreases |calls|
  {
    if |calls| == 0 then (s, [])
    else
      var (t, resps) := Run(s, calls[..|calls| - 1]);
      var (u, resp) := Handle(t, calls[|calls| - 1]);
      (u, resps + [resp])
  }

  /** The ids the creates among `calls` returned to their callers, in order. */
  function IssuedIds(calls: seq<Call>, resps: seq<Response>): seq<U64>
    requires |calls| == |resps|
  {
    if |calls| == 0 then []
    else
      var n := |calls| - 1;
      IssuedIds(calls[..n], resps[..n])
        + (if IsCreate(calls[n]) && RecordId(resps[n]).Some? then [RecordId(resps[n]).value] else [])
  }
}
