/** The tenant-management service (internal/service/tenant_service.go). */
module TenantService {
  import opened Wrappers
  import opened Config
  import opened Entities
  import opened Dto
  import opened Tables
  import opened Repository

  /** The view of a tenant that the service hands out. */
  function TenantResponseOf(t: Tenant): TenantResponse
  {
    TenantResponse(t.id, t.name, t.email, t.phone, t.address)
  }

  /** `GetTenantByID`: the view of the tenant with key `tenantId`. */
  function GetTenantByID(store: Store, tenantId: nat): (r: Result<TenantResponse>)
    reads store
    ensures r.Err? <==> forall t :: t in store.tenants ==> t.id != tenantId
    ensures r.Err? ==> r.error == TenantNotFound
    ensures r.Ok? ==> r.value.id == tenantId
    ensures r.Ok? ==> exists t :: (
      && t in store.tenants && t.id == tenantId
      && r.value.name == t.name && r.value.email == t.email && r.value.phone == t.phone
      && r.value.address == t.address)
  {
    match store.TenantByID(tenantId)
    case None => Err(TenantNotFound)
    case Some(t) => Ok(TenantResponseOf(t))
  }

  /** `GetAllTenants`: one view per tenant, in table order. */
  method GetAllTenants(store: Store) returns (r: seq<TenantResponse>)
    ensures |r| == |store.tenants|
    ensures forall i :: 0 <= i < |r| ==> r[i] == TenantResponseOf(store.tenants[i])
  {
    var tenants := store.tenants;
    r := [];
    for i := 0 to |tenants|
      invariant |r| == i
      invariant forall j :: 0 <= j < i ==> r[j] == TenantResponseOf(tenants[j])
    {
      r := r + [TenantResponseOf(tenants[i])];
    }
  }

  /** The tenant after `UpdateTenant` has copied the request onto it. */
  function Edited(t: Tenant, request: TenantRequest, now: Time): Tenant
  {
    t.(name := request.name, email := request.email, phone := request.phone,
       address := request.address, updatedAt := now)
  }

  /**
   * Editing a stored tenant leaves the key, the active flag and the deletion
   * time of every tenant as they were.
   */
  lemma EditKeepsStatus(tenants: seq<Tenant>, t: Tenant, request: TenantRequest, now: Time)
    requires KeysIncreasing(tenants, TenantKey)
    requires t in tenants
    ensures var r := ReplaceByKey(tenants, TenantKey, Edited(t, request, now));
      forall i :: 0 <= i < |r| ==>
        && r[i].id == tenants[i].id
        && r[i].isActive == tenants[i].isActive
        && r[i].deletedAt == tenants[i].deletedAt
  {
    var r := ReplaceByKey(tenants, TenantKey, Edited(t, request, now));
    var k :| 0 <= k < |tenants| && tenants[k] == t;
    forall i | 0 <= i < |r|
      ensures r[i].id == tenants[i].id
      ensures r[i].isActive == tenants[i].isActive
      ensures r[i].deletedAt == tenants[i].deletedAt
    {
      if TenantKey(tenants[i]) == TenantKey(t) {
        assert i == k;
      }
    }
  }

  /**
   * `UpdateTenant`: overwrites the name, e-mail, phone, address and update
   * time, without checking the new e-mail's domain against other tenants.
   */
  method UpdateTenant(store: Store, tenantId: nat, request: TenantRequest, now: Time,
                      rejected: set<Table>) returns (err: Option<Error>)
    requires store.Valid()
    modifies store
    ensures store.Valid()
    ensures store.users == old(store.users) && store.licences == old(store.licences)
    ensures
      match old(store.TenantByID(tenantId))
      case None =>
        err == Some(TenantNotFound) && unchanged(store)
      case Some(t) =>
        if TenantTable in rejected then
          err == Some(DatabaseError) && unchanged(store)
        else
          && err == None
          && store.tenants == ReplaceByKey(old(store.tenants), TenantKey, Edited(t, request, now))
    ensures |store.tenants| == |old(store.tenants)|
    ensures forall i :: 0 <= i < |store.tenants| ==>
      && store.tenants[i].id == old(store.tenants[i].id)
      && store.tenants[i].isActive == old(store.tenants[i].isActive)
      && store.tenants[i].deletedAt == old(store.tenants[i].deletedAt)
  {
    var found := store.TenantByID(tenantId);
    if found.None? {
      return Some(TenantNotFound);
    }
    if TenantTable in rejected {
      return Some(DatabaseError);
    }
    EditKeepsStatus(store.tenants, found.value, request, now);
    store.UpdateTenant(Edited(found.value, request, now));
    return None;
  }

  /**
   * `DeleteTenant`: marks the tenant inactive and deleted, then deletes its
   * row. Its users and its licence stay in their tables.
   */
  method DeleteTenant(store: Store, tenantId: nat, now: Time, rejected: set<Table>)
    returns (err: Option<Error>)
    requires store.Valid()
    modifies store
    ensures store.Valid()
    ensures store.users == old(store.users) && store.licences == old(store.licences)
    ensures
      match old(store.TenantByID(tenantId))
      case None =>
        err == Some(TenantNotFound) && unchanged(store)
      case Some(t) =>
        if TenantTable in rejected then
          err == Some(DatabaseError) && unchanged(store)
        else
          err == None && store.tenants == RemoveByKey(old(store.tenants), TenantKey, tenantId)
  {
    var found := store.TenantByID(tenantId);
    if found.None? {
      return Some(TenantNotFound);
    }
    var tenant := found.value.(isActive := false, updatedAt := now, deletedAt := Some(now));
    if TenantTable in rejected {
      return Some(DatabaseError);
    }
    store.DeleteTenant(tenant);
    return None;
  }
}
