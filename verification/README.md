# Real-estate management canister — Dafny model

This project models the backend of a real-estate record keeper that runs as an
Internet Computer canister. The backend stores **properties**, **lease
agreements** and **tenants**, and offers create, read, update and delete
endpoints for each of the three kinds. Its state has two parts:

- one id counter, kept in a stable `Cell<u64>` that starts at 0;
- three stable B-tree maps from `u64` to a record, one map per kind.

In the model the state is an immutable `State(counter, properties, leases,
tenants)`. The counter is a `U64`, a subset type of `int` bounded by
`u64::MAX`. Each store is a Dafny `map<U64, T>`. Each endpoint is a pure
function from the state before the call to a `Reply(next, result)`.

Files:

- `types.dfy` (module `Types`): the records, `PropertyType`, `EntityKind`, and
  the `Error`/`Result` types. `NotFound` carries the entity kind and the id.
- `backend.dfy` (module `Backend`): the state, the global invariant `Inv`, and
  the twelve endpoints.
- `lifecycle.dfy` (module `Lifecycle`): how endpoints compose. Covers reads
  after creates, updates and deletes, deleting twice, and the shared counter.
- `canister.dfy` (module `Canister`): every endpoint as a single `Call` value,
  the dispatcher `Handle`, and `Run`, which executes a sequence of calls.
- `history.dfy` (module `History`): properties of whole call sequences.

**How ids are assigned.** Every create runs
`counter.borrow_mut().set(current_value + 1)` and uses the return value as the
new id. `Cell::set` in ic-stable-structures returns the value it *replaced*. So
the id is the counter *before* the increment, and the counter ends one higher.
On a fresh canister the first id is therefore **0** (see
`Lifecycle.FreshCanisterScenario`).

**The invariant.** `Backend.Inv` has three parts:

- every key in every store is below the counter;
- every record carries the key it is stored under;
- the three key sets are pairwise disjoint.

Disjointness does not follow from "keys below the counter". It holds because
all creates draw from the one counter, so it is stated as part of `Inv`. An
update returns the stored record with its fields replaced. The id it returns
is therefore the stored record's own id. Under `Inv` that id equals the
argument.

## Model

| member | source | states |
|---|---|---|
| Backend.AddProperty | src/icp_rust_boilerplate_backend/src/lib.rs:135-152 | Always succeeds. The new property's id is the counter before the call, and its other fields are the arguments. The counter goes up by one. The property is stored under that id, and every other record and the other two stores are unchanged. Under `Inv` the id was stored nowhere before, and `Inv` still holds afterwards. |
| Backend.DeleteProperty | src/icp_rust_boilerplate_backend/src/lib.rs:155-162 | Succeeds exactly when the id is stored. On success only that key is removed. On failure it returns `NotFound(PropertyKind, id)` and the state is unchanged. The counter and the other stores never change, and `Inv` is preserved. |
| Backend.GetProperty | src/icp_rust_boilerplate_backend/src/lib.rs:227-234 | The state is unchanged. Succeeds exactly when the id is stored, and then returns the stored record. Otherwise it returns `NotFound(PropertyKind, id)`. Under `Inv` the returned record's id is the requested id. |
| Backend.UpdateProperty | src/icp_rust_boilerplate_backend/src/lib.rs:258-280 | Succeeds exactly when the id is stored. On success it returns the stored record's id with address, type and description replaced, and stores that record under the same key. Nothing else changes, and the key set stays the same. On failure it returns `NotFound(PropertyKind, id)` and the state is unchanged. Under `Inv` the returned id equals the argument, and `Inv` is preserved. |
| Backend.CreateLeaseAgreement | src/icp_rust_boilerplate_backend/src/lib.rs:166-184 | Always succeeds, whatever the property id, tenant id and dates are. The id is the counter before the call, and the counter goes up by one. The lease is stored under the id and nothing else changes. Under `Inv` the id is fresh and `Inv` is preserved. |
| Backend.CancelLeaseAgreement | src/icp_rust_boilerplate_backend/src/lib.rs:187-194 | Succeeds exactly when the id is stored, and then removes only that key. Otherwise it returns `NotFound(LeaseKind, id)` and the state is unchanged. `Inv` is preserved. |
| Backend.GetLeaseAgreement | src/icp_rust_boilerplate_backend/src/lib.rs:237-244 | The state is unchanged. Returns the stored lease exactly when its id is present, and `NotFound(LeaseKind, id)` otherwise. |
| Backend.UpdateLeaseAgreement | src/icp_rust_boilerplate_backend/src/lib.rs:284-313 | Succeeds exactly when the id is stored, with no check of the other stores or of the date order. On success it replaces all four non-id fields and stores the result under the same key. On failure it returns `NotFound(LeaseKind, id)` and nothing changes. `Inv` is preserved. |
| Backend.AddTenant | src/icp_rust_boilerplate_backend/src/lib.rs:198-213 | Always succeeds. The id is the counter before the call, and the counter goes up by one. The tenant is stored under the id and nothing else changes. Under `Inv` the id is fresh and `Inv` is preserved. |
| Backend.DeleteTenant | src/icp_rust_boilerplate_backend/src/lib.rs:216-223 | Succeeds exactly when the id is stored, and then removes only that key. Otherwise it returns `NotFound(TenantKind, id)` and the state is unchanged. |
| Backend.GetTenant | src/icp_rust_boilerplate_backend/src/lib.rs:247-254 | The state is unchanged. Returns the stored tenant exactly when its id is present, and `NotFound(TenantKind, id)` otherwise. |
| Backend.UpdateTenant | src/icp_rust_boilerplate_backend/src/lib.rs:317-337 | Succeeds exactly when the id is stored. It replaces the name, keeps the id, and stores the record under the same key. Otherwise it returns `NotFound(TenantKind, id)` and the state is unchanged. |
| Lifecycle.InitSatisfiesInv | src/icp_rust_boilerplate_backend/src/lib.rs:105-123 | A freshly installed canister has counter 0 and satisfies `Inv`. |
| Lifecycle.FreshIdIsUnused | src/icp_rust_boilerplate_backend/src/lib.rs:136-150 | Under `Inv` the counter's current value is not a key of any store. |
| Lifecycle.StoresAreDisjoint | src/icp_rust_boilerplate_backend/src/lib.rs:110-123 | Under `Inv` no id is stored under two different kinds. This restates the disjointness conjuncts of `Inv`; the proof that disjointness holds is every endpoint's `Inv(s) ==> Inv(r.next)`. |
| Lifecycle.AddPropertyAddsOneRecord | src/icp_rust_boilerplate_backend/src/lib.rs:136-150 | Under `Inv`, `add_property` overwrites nothing: the property store gains exactly one record. |
| Lifecycle.CreateLeaseAgreementAddsOneRecord | src/icp_rust_boilerplate_backend/src/lib.rs:167-182 | Under `Inv`, a lease create overwrites nothing: the lease store gains exactly one record. |
| Lifecycle.AddTenantAddsOneRecord | src/icp_rust_boilerplate_backend/src/lib.rs:199-211 | Under `Inv`, a tenant create overwrites nothing: the tenant store gains exactly one record. |
| Lifecycle.GetAfterAddProperty | src/icp_rust_boilerplate_backend/src/lib.rs:143-151 | Reading the returned id right after `add_property` yields exactly the supplied fields under that id. |
| Lifecycle.GetAfterCreateLeaseAgreement | src/icp_rust_boilerplate_backend/src/lib.rs:174-183 | Reading right after a lease create yields exactly the supplied fields under the new id. |
| Lifecycle.GetAfterAddTenant | src/icp_rust_boilerplate_backend/src/lib.rs:206-212 | Reading right after a tenant create yields the supplied name under the new id. |
| Lifecycle.GetAfterUpdateProperty | src/icp_rust_boilerplate_backend/src/lib.rs:259-270 | Under `Inv`, after an update of a stored property, a read returns the same id with the new fields. |
| Lifecycle.GetAfterUpdateLeaseAgreement | src/icp_rust_boilerplate_backend/src/lib.rs:291-303 | Under `Inv`, after an update of a stored lease, a read returns the same id with the new fields. |
| Lifecycle.GetAfterUpdateTenant | src/icp_rust_boilerplate_backend/src/lib.rs:318-327 | Under `Inv`, after an update of a stored tenant, a read returns the same id with the new name. |
| Lifecycle.DeletePropertyTwice | src/icp_rust_boilerplate_backend/src/lib.rs:155-162 | The first delete of a stored id succeeds. A read afterwards returns `NotFound`. A second delete also returns `NotFound` and changes nothing, so delete is not idempotent. |
| Lifecycle.CancelLeaseAgreementTwice | src/icp_rust_boilerplate_backend/src/lib.rs:187-194 | The same for cancelling a lease. |
| Lifecycle.DeleteTenantTwice | src/icp_rust_boilerplate_backend/src/lib.rs:216-223 | The same for deleting a tenant. |
| Lifecycle.CreatesShareOneCounter | src/icp_rust_boilerplate_backend/src/lib.rs:136-204 | A property, a tenant and a lease created in a row get the ids `c`, `c+1` and `c+2`, and the counter ends at `c+3`. |
| Lifecycle.FreshCanisterScenario | src/icp_rust_boilerplate_backend/src/lib.rs:105-108 | On a fresh canister the first three creates get ids 0, 1 and 2. The lease reads back with its fields. It can be cancelled once, and a second cancel returns `NotFound(LeaseKind, 2)`. |
| Lifecycle.LeaseFieldsAreNotValidated | src/icp_rust_boilerplate_backend/src/lib.rs:166-184 | A lease that names an unstored property and an unstored tenant, and ends before it starts, is still created. An update to such values also succeeds. This is a special case of `CreateLeaseAgreement`'s unconditional success and of `UpdateLeaseAgreement`'s success exactly when the id is stored. |
| Canister.Handle | src/icp_rust_boilerplate_backend/src/lib.rs:134-337 | For any call, only a create moves the counter, and then by exactly one. A create returns the counter's old value as its id. No call returns `InvalidInput`. `Inv` is preserved. |
| Canister.HandleChangesKeys | src/icp_rust_boilerplate_backend/src/lib.rs:150-223 | After any call, an id is stored under kind `k` exactly when one of two things holds. Either that call created it as a `k`, or it was already stored as a `k` and the call was not a successful delete of it. |
| Canister.Run | src/icp_rust_boilerplate_backend/src/lib.rs:134-337 | Over any sequence of calls the counter grows by exactly the number of creates among them, whatever their kind, so it never decreases and grows by at most one per call. There is one response per call, and `Inv` is preserved. |
| History.ReachableStatesSatisfyInv | src/icp_rust_boilerplate_backend/src/lib.rs:105-123 | Every state reachable from installation satisfies `Inv`. |
| History.IssuedIdsAreConsecutive | src/icp_rust_boilerplate_backend/src/lib.rs:136-204 | Over any sequence of calls, the ids returned by creates of all kinds are exactly `c, c+1, ...`, where `c` is the starting counter. There is one id per create, and the counter ends just past the last one. |
| History.IssuedIdsStrictlyIncrease | src/icp_rust_boilerplate_backend/src/lib.rs:136-204 | Issued ids lie between the starting and final counter, and each is strictly greater than every id issued before it. |
| History.RetiredIdStaysRetired | src/icp_rust_boilerplate_backend/src/lib.rs:136-223 | An id that was issued and is no longer stored is never stored again and never returned by a later create, whatever calls follow. |
| History.StoredIdIsBelowCounter | src/icp_rust_boilerplate_backend/src/lib.rs:105-123 | Under `Inv` every stored id of any kind is below the counter. This unfolds the key-bound conjuncts of `Inv`, stated per kind for use in `DeleteRetiresId`. |
| History.DeleteRetiresId | src/icp_rust_boilerplate_backend/src/lib.rs:155-223 | Under `Inv` a delete or cancel of a stored id succeeds, and afterwards that id is below the counter and stored under no kind. With `RetiredIdStaysRetired`, a deleted id is never reused. |
| History.StoredIffCreatedAndKept | src/icp_rust_boilerplate_backend/src/lib.rs:150-223 | From installation, an id is stored as kind `k` exactly when some create of kind `k` returned it and no later successful delete of kind `k` removed it. |
| History.NeverInvalidInput | src/icp_rust_boilerplate_backend/src/lib.rs:128-131 | No response in any sequence of calls is an `InvalidInput` error. |

## Left out

- Candid encoding and decoding in the `Storable` impls (lib.rs:49-97): a foreign serialisation library. Records are stored by value.
- The `MAX_SIZE = 1024` byte bound on encoded records (lib.rs:60-97): the encoded size depends on Candid internals. An oversized record, which would make the insert fail, is not modelled.
- `MemoryManager`, virtual memories and `MemoryId` partitioning (lib.rs:99-124): persistence plumbing. Stores are maps and the counter is a number.
- `thread_local!`/`RefCell` borrowing, the `ic_cdk::update`/`query` attributes and `export_candid!`: runtime and interface plumbing. Calls are modelled as running one at a time, to completion.
- The text of error messages (`format!("Property with id={} not found", id)` and the lease and tenant variants): `NotFound` carries the kind and the id that the text names.
- Backend.AddProperty, Backend.CreateLeaseAgreement, Backend.AddTenant: require `counter < u64::MAX`. At `u64::MAX`, `current_value + 1` overflows: a debug build panics and a release build wraps to 0. Neither case is modelled. `Canister.Run` and the `History` lemmas carry the same bound over a whole sequence: the starting counter plus the number of creates in it stays within `u64::MAX`.
- The `.expect(...)` panics when the counter cell cannot be initialised or written: these are failures of the persistence layer, which is not modelled.
