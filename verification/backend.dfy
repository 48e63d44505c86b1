/**
 The canister's state and its twelve CRUD endpoints, each a pure function
 from the state before a call to the state after it and the call's result.

 The state is the shared id counter (a stable `Cell<u64>` starting at 0) and
 three independent stable maps from `u64` to a record. Every create draws its
 id from the one counter, so properties, lease agreements and tenants share a
 single id sequence.
 */
module Backend {
  import opened Types

  datatype State = State(
    counter: U64,
    properties: map<U64, Property>,
    leases: map<U64, LeaseAgreement>,
    tenants: map<U64, Tenant>)

  /** The state after a call and what the call returned. */
  datatype Reply<T> = Reply(next: State, result: Result<T>)

  /** A freshly installed canister: counter 0, all stores empty. */
  function Init(): State {
    State(0, map[], map[], map[])
  }

  /** The ids stored for one entity kind. */
  function Keys(s: State, k: EntityKind): set<U64> {
    match k
    case PropertyKind => s.properties.Keys
    case LeaseKind => s.leases.Keys
    case TenantKind => s.tenants.Keys
  }

  /** Every key is an id the counter has already handed out, and every record
      carries the key it is stored under. */
  ghost predicate PropertiesWellKeyed(s: State) {
    forall k | k in s.properties :: k < s.counter && s.properties[k].id == k
  }

  ghost predicate LeasesWellKeyed(s: State) {
    forall k | k in s.leases :: k < s.counter && s.leases[k].id == k
  }

  ghost predicate TenantsWellKeyed(s: State) {
    forall k | k in s.tenants :: k < s.counter && s.tenants[k].id == k
  }

  /** The global invariant: all keys lie below the counter, each record's id
      is its key, and no id is stored under two entity kinds. */
  ghost predicate Inv(s: State) {
    && PropertiesWellKeyed(s)
    && LeasesWellKeyed(s)
    && TenantsWellKeyed(s)
    && s.properties.Keys !! s.leases.Keys
    && s.properties.Keys !! s.tenants.Keys
    && s.leases.Keys !! s.tenants.Keys
  }

  /** No store holds `id`. */
  ghost predicate Unused(s: State, id: U64) {
    id !in s.properties && id !in s.leases && id !in s.tenants
  }

  /** Reads the counter and writes it back one higher. `Cell::set` returns the
      value it replaced, so the id handed to the caller is the counter BEFORE
      the increment: from `Init()` the first id is 0, not 1. */
  function DrawId(s: State): (r: (U64, State))
    requires s.counter < MAX_U64
  {
    (s.counter, s.(counter := s.counter + 1))
  }

  /** Raising the counter keeps the invariant, and the old counter value is
      stored nowhere. */
  lemma BumpKeepsInv(s: State)
    requires Inv(s) && s.counter < MAX_U64
    ensures Unused(s, s.counter)
    ensures Inv(s.(counter := s.counter + 1))
  {
  }

  /** Storing a record under an issued id that no store holds keeps the
      invariant. */
  lemma InsertPropertyKeepsInv(s: State, p: Property)
    requires Inv(s) && p.id < s.counter && Unused(s, p.id)
    ensures Inv(s.(properties := s.properties[p.id := p]))
  {
  }

  lemma InsertLeaseKeepsInv(s: State, l: LeaseAgreement)
    requires Inv(s) && l.id < s.counter && Unused(s, l.id)
    ensures Inv(s.(leases := s.leases[l.id := l]))
  {
  }

  lemma InsertTenantKeepsInv(s: State, t: Tenant)
    requires Inv(s) && t.id < s.counter && Unused(s, t.id)
    ensures Inv(s.(tenants := s.tenants[t.id := t]))
  {
  }

  // ---------------------------------------------------------------- properties

  function AddProperty(s: State, address: string, propertyType: PropertyType, description: string): (r: Reply<Property>)
    requires s.counter < MAX_U64
    ensures r.result.Ok?
    ensures r.result.value == Property(s.counter, address, propertyType, description)
    ensures r.next.counter == s.counter + 1
    ensures r.next.properties.Keys == s.properties.Keys + {s.counter}
    ensures r.next.properties[s.counter] == r.result.value
    ensures forall k | k in s.properties && k != s.counter :: r.next.properties[k] == s.properties[k]
    ensures r.next.leases == s.leases && r.next.tenants == s.tenants
    ensures Inv(s) ==> Unused(s, r.result.value.id)
    ensures Inv(s) ==> Inv(r.next)
  {
    var (id, s1) := DrawId(s);
    var property := Property(id, address, propertyType, description);
    var next := s1.(properties := s1.properties[id := property]);
    assert Inv(s) ==> Inv(next) by {
      if Inv(s) { BumpKeepsInv(s); InsertPropertyKeepsInv(s1, property); }
    }
    Reply(next, Ok(property))
  }

  function DeleteProperty(s: State, id: U64): (r: Reply<()>)
    ensures r.result.Ok? <==> id in s.properties
    ensures r.result.Err? ==> r.result.error == NotFound(PropertyKind, id) && r.next == s
    ensures r.next.properties.Keys == s.properties.Keys - {id}
    ensures forall k | k in r.next.properties :: r.next.properties[k] == s.properties[k]
    ensures r.next.counter == s.counter && r.next.leases == s.leases && r.next.tenants == s.tenants
    ensures Inv(s) ==> Inv(r.next)
  {
    if id in s.properties then
      Reply(s.(properties := s.properties - {id}), Ok(()))
    else
      Reply(s, Err(NotFound(PropertyKind, id)))
  }

  function GetProperty(s: State, id: U64): (r: Reply<Property>)
    ensures r.next == s
    ensures r.result.Ok? <==> id in s.properties
    ensures r.result.Ok? ==> r.result.value == s.properties[id]
    ensures r.result.Err? ==> r.result.error == NotFound(PropertyKind, id)
    ensures Inv(s) && r.result.Ok? ==> r.result.value.id == id
  {
    if id in s.properties then Reply(s, Ok(s.properties[id]))
    else Reply(s, Err(NotFound(PropertyKind, id)))
  }

  /** Loads the stored record, replaces every field but the id and stores it
      back under the same key. The id returned is the stored record's own. */
  function UpdateProperty(s: State, id: U64, address: string, propertyType: PropertyType, description: string): (r: Reply<Property>)
    ensures r.result.Ok? <==> id in s.properties
    ensures r.result.Err? ==> r.result.error == NotFound(PropertyKind, id) && r.next == s
    ensures r.result.Ok? ==>
      && r.result.value == Property(s.properties[id].id, address, propertyType, description)
      && r.next == s.(properties := s.properties[id := r.result.value])
    ensures r.next.properties.Keys == s.properties.Keys
    ensures Inv(s) && r.result.Ok? ==> r.result.value.id == id
    ensures Inv(s) ==> Inv(r.next)
  {
    if id in s.properties then
      var updated := s.properties[id].(address := address, propertyType := propertyType, description := description);
      Reply(s.(properties := s.properties[id := updated]), Ok(updated))
    else
      Reply(s, Err(NotFound(PropertyKind, id)))
  }

  // ---------------------------------------------------------- lease agreements

  /** No check that `propertyId` or `tenantId` is stored, nor that the dates
      are ordered: every call succeeds. */
  function CreateLeaseAgreement(s: State, propertyId: U64, tenantId: U64, startDate: U64, endDate: U64): (r: Reply<LeaseAgreement>)
    requires s.counter < MAX_U64
    ensures r.result.Ok?
    ensures r.result.value == LeaseAgreement(s.counter, propertyId, tenantId, startDate, endDate)
    ensures r.next.counter == s.counter + 1
    ensures r.next.leases.Keys == s.leases.Keys + {s.counter}
    ensures r.next.leases[s.counter] == r.result.value
    ensures forall k | k in s.leases && k != s.counter :: r.next.leases[k] == s.leases[k]
    ensures r.next.properties == s.properties && r.next.tenants == s.tenants
    ensures Inv(s) ==> Unused(s, r.result.value.id)
    ensures Inv(s) ==> Inv(r.next)
  {
    var (id, s1) := DrawId(s);
    var lease := LeaseAgreement(id, propertyId, tenantId, startDate, endDate);
    var next := s1.(leases := s1.leases[id := lease]);
    assert Inv(s) ==> Inv(next) by {
      if Inv(s) { BumpKeepsInv(s); InsertLeaseKeepsInv(s1, lease); }
    }
    Reply(next, Ok(lease))
  }

  function CancelLeaseAgreement(s: State, id: U64): (r: Reply<()>)
    ensures r.result.Ok? <==> id in s.leases
    ensures r.result.Err? ==> r.result.error == NotFound(LeaseKind, id) && r.next == s
    ensures r.next.leases.Keys == s.leases.Keys - {id}
    ensures forall k | k in r.next.leases :: r.next.leases[k] == s.leases[k]
    ensures r.next.counter == s.counter && r.next.properties == s.properties && r.next.tenants == s.tenants
    ensures Inv(s) ==> Inv(r.next)
  {
    if id in s.leases then
      Reply(s.(leases := s.leases - {id}), Ok(()))
    else
      Reply(s, Err(NotFound(LeaseKind, id)))
  }

  function GetLeaseAgreement(s: State, id: U64): (r: Reply<LeaseAgreement>)
    ensures r.next == s
    ensures r.result.Ok? <==> id in s.leases
    ensures r.result.Ok? ==> r.result.value == s.leases[id]
    ensures r.result.Err? ==> r.result.error == NotFound(LeaseKind, id)
    ensures Inv(s) && r.result.Ok? ==> r.result.value.id == id
  {
    if id in s.leases then Reply(s, Ok(s.leases[id]))
    else Reply(s, Err(NotFound(LeaseKind, id)))
  }

  function UpdateLeaseAgreement(s: State, id: U64, propertyId: U64, tenantId: U64, startDate: U64, endDate: U64): (r: Reply<LeaseAgreement>)
    ensures r.result.Ok? <==> id in s.leases
    ensures r.result.Err? ==> r.result.error == NotFound(LeaseKind, id) && r.next == s
    ensures r.result.Ok? ==>
      && r.result.value == LeaseAgreement(s.leases[id].id, propertyId, tenantId, startDate, endDate)
      && r.next == s.(leases := s.leases[id := r.result.value])
    ensures r.next.leases.Keys == s.leases.Keys
    ensures Inv(s) && r.result.Ok? ==> r.result.value.id == id
    ensures Inv(s) ==> Inv(r.next)
  {
    if id in s.leases then
      var updated := s.leases[id].(propertyId := propertyId, tenantId := tenantId, startDate := startDate, endDate := endDate);
      Reply(s.(leases := s.leases[id := updated]), Ok(updated))
    else
      Reply(s, Err(NotFound(LeaseKind, id)))
  }

  // ------------------------------------------------------------------- tenants

  function AddTenant(s: State, name: string): (r: Reply<Tenant>)
    requires s.counter < MAX_U64
    ensures r.result.Ok?
    ensures r.result.value == Tenant(s.counter, name)
    ensures r.next.counter == s.counter + 1
    ensures r.next.tenants.Keys == s.tenants.Keys + {s.counter}
    ensures r.next.tenants[s.counter] == r.result.value
    ensures forall k | k in s.tenants && k != s.counter :: r.next.tenants[k] == s.tenants[k]
    ensures r.next.properties == s.properties && r.next.leases == s.leases
    ensures Inv(s) ==> Unused(s, r.result.value.id)
    ensures Inv(s) ==> Inv(r.next)
  {
    var (id, s1) := DrawId(s);
    var tenant := Tenant(id, name);
    var next := s1.(tenants := s1.tenants[id := tenant]);
    assert Inv(s) ==> Inv(next) by {
      if Inv(s) { BumpKeepsInv(s); InsertTenantKeepsInv(s1, tenant); }
    }
    Reply(next, Ok(tenant))
  }

  function DeleteTenant(s: State, id: U64): (r: Reply<()>)
    ensures r.result.Ok? <==> id in s.tenants
    ensures r.result.Err? ==> r.result.error == NotFound(TenantKind, id) && r.next == s
    ensures r.next.tenants.Keys == s.tenants.Keys - {id}
    ensures forall k | k in r.next.tenants :: r.next.tenants[k] == s.tenants[k]
    ensures r.next.counter == s.counter && r.next.properties == s.properties && r.next.leases == s.leases
    ensures Inv(s) ==> Inv(r.next)
  {
    if id in s.tenants then
      Reply(s.(tenants := s.tenants - {id}), Ok(()))
    else
      Reply(s, Err(NotFound(TenantKind, id)))
  }

  function GetTenant(s: State, id: U64): (r: Reply<Tenant>)
    ensures r.next == s
    ensures r.result.Ok? <==> id in s.tenants
    ensures r.result.Ok? ==> r.result.value == s.tenants[id]
    ensures r.result.Err? ==> r.result.error == NotFound(TenantKind, id)
    ensures Inv(s) && r.result.Ok? ==> r.result.value.id == id
  {
    if id in s.tenants then Reply(s, Ok(s.tenants[id]))
    else Reply(s, Err(NotFound(TenantKind, id)))
  }

  function UpdateTenant(s: State, id: U64, name: string): (r: Reply<Tenant>)
    ensures r.result.Ok? <==> id in s.tenants
    ensures r.result.Err? ==> r.result.error == NotFound(TenantKind, id) && r.next == s
    ensures r.result.Ok? ==>
      && r.result.value == Tenant(s.tenants[id].id, name)
      && r.next == s.(tenants := s.tenants[id := r.result.value])
    ensures r.next.tenants.Keys == s.tenants.Keys
    ensures Inv(s) && r.result.Ok? ==> r.result.value.id == id
    ensures Inv(s) ==> Inv(r.next)
  {
    if id in s.tenants then
      var updated := s.tenants[id].(name := name);
      Reply(s.(tenants := s.tenants[id := updated]), Ok(updated))
    else
      Reply(s, Err(NotFound(TenantKind, id)))
  }
}
