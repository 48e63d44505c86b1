/**
 How the endpoints compose: a read after a create, update or delete sees what
 that call did, deleting twice fails the second time, and all three kinds of
 create draw from one counter.
 */
module Lifecycle {
  import opened Types
  import opened Backend

  lemma InitSatisfiesInv()
    ensures Inv(Init())
    ensures Init().counter == 0
  {
  }

  /** Under the invariant the counter's current value is stored nowhere, so the
      next create cannot overwrite an existing record of any kind. */
  lemma FreshIdIsUnused(s: State)
    requires Inv(s)
    ensures Unused(s, s.counter)
    ensures forall k: EntityKind :: s.counter !in Keys(s, k)
  {
  }

  /** No id is stored under two entity kinds. */
  lemma StoresAreDisjoint(s: State, k1: EntityKind, k2: EntityKind)
    requires Inv(s)
    requires k1 != k2
    ensures Keys(s, k1) !! Keys(s, k2)
  {
  }

  // ----------------------------------------------------- a create adds one record

  /** Under the invariant a create overwrites nothing: its store gains exactly
      one record. */
  lemma AddPropertyAddsOneRecord(s: State, address: string, propertyType: PropertyType, description: string)
    requires Inv(s) && s.counter < MAX_U64
    ensures |AddProperty(s, address, propertyType, description).next.properties| == |s.properties| + 1
  {
  }

  lemma CreateLeaseAgreementAddsOneRecord(s: State, propertyId: U64, tenantId: U64, startDate: U64, endDate: U64)
    requires Inv(s) && s.counter < MAX_U64
    ensures |CreateLeaseAgreement(s, propertyId, tenantId, startDate, endDate).next.leases| == |s.leases| + 1
  {
  }

  lemma AddTenantAddsOneRecord(s: State, name: string)
    requires Inv(s) && s.counter < MAX_U64
    ensures |AddTenant(s, name).next.tenants| == |s.tenants| + 1
  {
  }

  // ---------------------------------------------------------- read after create

  lemma GetAfterAddProperty(s: State, address: string, propertyType: PropertyType, description: string)
    requires s.counter < MAX_U64
    ensures var a := AddProperty(s, address, propertyType, description);
      GetProperty(a.next, a.result.value.id).result == Ok(Property(s.counter, address, propertyType, description))
  {
  }

  lemma GetAfterCreateLeaseAgreement(s: State, propertyId: U64, tenantId: U64, startDate: U64, endDate: U64)
    requires s.counter < MAX_U64
    ensures var a := CreateLeaseAgreement(s, propertyId, tenantId, startDate, endDate);
      GetLeaseAgreement(a.next, a.result.value.id).result == Ok(LeaseAgreement(s.counter, propertyId, tenantId, startDate, endDate))
  {
  }

  lemma GetAfterAddTenant(s: State, name: string)
    requires s.counter < MAX_U64
    ensures var a := AddTenant(s, name);
      GetTenant(a.next, a.result.value.id).result == Ok(Tenant(s.counter, name))
  {
  }

  // ---------------------------------------------------------- read after update

  lemma GetAfterUpdateProperty(s: State, id: U64, address: string, propertyType: PropertyType, description: string)
    requires Inv(s) && id in s.properties
    ensures var u := UpdateProperty(s, id, address, propertyType, description);
      GetProperty(u.next, id).result == Ok(Property(id, address, propertyType, description))
  {
  }

  lemma GetAfterUpdateLeaseAgreement(s: State, id: U64, propertyId: U64, tenantId: U64, startDate: U64, endDate: U64)
    requires Inv(s) && id in s.leases
    ensures var u := UpdateLeaseAgreement(s, id, propertyId, tenantId, startDate, endDate);
      GetLeaseAgreement(u.next, id).result == Ok(LeaseAgreement(id, propertyId, tenantId, startDate, endDate))
  {
  }

  lemma GetAfterUpdateTenant(s: State, id: U64, name: string)
    requires Inv(s) && id in s.tenants
    ensures GetTenant(UpdateTenant(s, id, name).next, id).result == Ok(Tenant(id, name))
  {
  }

  // ------------------------------------------------- read and delete after delete

  /** A successful delete is followed by `NotFound` from both a read and a second
      delete of the same id; the second delete changes nothing. */
  lemma DeletePropertyTwice(s: State, id: U64)
    requires id in s.properties
    ensures var d1 := DeleteProperty(s, id);
      && d1.result == Ok(())
      && GetProperty(d1.next, id).result == Err(NotFound(PropertyKind, id))
      && DeleteProperty(d1.next, id) == Reply(d1.next, Err(NotFound(PropertyKind, id)))
  {
  }

  lemma CancelLeaseAgreementTwice(s: State, id: U64)
    requires id in s.leases
    ensures var d1 := CancelLeaseAgreement(s, id);
      && d1.result == Ok(())
      && GetLeaseAgreement(d1.next, id).result == Err(NotFound(LeaseKind, id))
      && CancelLeaseAgreement(d1.next, id) == Reply(d1.next, Err(NotFound(LeaseKind, id)))
  {
  }

  lemma DeleteTenantTwice(s: State, id: U64)
    requires id in s.tenants
    ensures var d1 := DeleteTenant(s, id);
      && d1.result == Ok(())
      && GetTenant(d1.next, id).result == Err(NotFound(TenantKind, id))
      && DeleteTenant(d1.next, id) == Reply(d1.next, Err(NotFound(TenantKind, id)))
  {
  }

  // -------------------------------------------------------------- shared counter

  /** A property, a tenant and a lease created one after the other receive three
      consecutive ids: the kinds share one counter. */
  lemma CreatesShareOneCounter(s: State, address: string, propertyType: PropertyType, description: string, name: string, startDate: U64, endDate: U64)
    requires s.counter + 3 <= MAX_U64
    ensures var p := AddProperty(s, address, propertyType, description);
      var t := AddTenant(p.next, name);
      var l := CreateLeaseAgreement(t.next, p.result.value.id, t.result.value.id, startDate, endDate);
      && p.result.value.id == s.counter
      && t.result.value.id == s.counter + 1
      && l.result.value.id == s.counter + 2
      && l.next.counter == s.counter + 3
  {
  }

  /** The usual first session on a fresh canister: ids start at 0. The lease is readable, can be cancelled once, and a second
      cancel names it in a `NotFound`. */
  lemma FreshCanisterScenario()
    ensures var p := AddProperty(Init(), "1 Main St", House, "two bedrooms");
      var t := AddTenant(p.next, "Ann");
      var l := CreateLeaseAgreement(t.next, p.result.value.id, t.result.value.id, 1000, 2000);
      var c1 := CancelLeaseAgreement(l.next, 2);
      && p.result.value.id == 0
      && t.result.value.id == 1
      && l.result.value.id == 2
      && GetLeaseAgreement(l.next, 2).result == Ok(LeaseAgreement(2, 0, 1, 1000, 2000))
      && c1.result == Ok(())
      && CancelLeaseAgreement(c1.next, 2).result == Err(NotFound(LeaseKind, 2))
  {
  }

  /** A lease may name a property and tenant that are not stored and end before
      it starts; creating it still succeeds, and so does updating it to such
      values. */
  lemma LeaseFieldsAreNotValidated(s: State, id: U64, propertyId: U64, tenantId: U64, startDate: U64, endDate: U64)
    requires s.counter < MAX_U64
    requires propertyId !in s.properties && tenantId !in s.tenants && endDate < startDate
    requires id in s.leases
    ensures CreateLeaseAgreement(s, propertyId, tenantId, startDate, endDate).result.Ok?
    ensures UpdateLeaseAgreement(s, id, propertyId, tenantId, startDate, endDate).result.Ok?
  {
  }
}
