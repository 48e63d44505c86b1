/**
 The records a real-estate canister keeps: properties, lease agreements and
 tenants, each keyed by a 64-bit identifier, and the error a call can return.
 Records are held by value; how they are serialised for stable memory is not
 part of this model.
 */
module Types {

  /** Largest value of an unsigned 64-bit integer. */
  const MAX_U64: int := 0xFFFF_FFFF_FFFF_FFFF

  /** Rust's `u64`: identifiers, the id counter and lease dates. */
  type U64 = x: int | 0 <= x <= MAX_U64

  datatype PropertyType = House | Apartment | Commercial

  datatype Property = Property(
    id: U64,
    address: string,
    propertyType: PropertyType,
    description: string)

  /** `propertyId` and `tenantId` are plain numbers: nothing checks that they
      name a stored property or tenant. The dates are Unix timestamps with no
      required order between them. */
  datatype LeaseAgreement = LeaseAgreement(
    id: U64,
    propertyId: U64,
    tenantId: U64,
    startDate: U64,
    endDate: U64)

  datatype Tenant = Tenant(id: U64, name: string)

  /** The entity a `NotFound` error names. */
  datatype EntityKind = PropertyKind | LeaseKind | TenantKind

  /** `NotFound` carries the entity kind and id that the canister's message
      text spells out. `InvalidInput` is declared but no call returns it. */
  datatype Error = NotFound(kind: EntityKind, id: U64) | InvalidInput(msg: string)

  datatype Result<T> = Ok(value: T) | Err(error: Error)
}
