/**
 * The tenant-licence service (src/internal/services/tenant-licence-service.go):
 * read-only views of a licence and an overwrite of its editable fields.
 */
module LicenceService {
  import opened Wrappers
  import opened Config
  import opened Entities
  import opened Dto
  import opened Tables
  import opened Repository

  /** The response carrying every field of the licence. */
  function FullResponse(l: TenantLicence): TenantLicenceResponse
  {
    TenantLicenceResponse(l.id, l.tenantId, l.licenceKey, l.licencedSeats, l.usedSeats, l.expiryDate)
  }

  /** The response carrying only the licence's id; every other field is Go's zero value. */
  function IdOnlyResponse(l: TenantLicence): TenantLicenceResponse
  {
    TenantLicenceResponse(l.id, 0, "", 0, 0, None)
  }

  /** `GetTenantLicenceByID(tenantID)`: the full view of the licence of tenant `tenantId`. */
  function GetTenantLicenceByID(store: Store, tenantId: nat): (r: Result<TenantLicenceResponse>)
    reads store
    ensures r.Err? <==> forall l :: l in store.licences ==> l.tenantId != tenantId
    ensures r.Err? ==> r.error == TenantLicenceNotFound
    ensures r.Ok? ==> exists l :: (
      && l in store.licences && l.tenantId == tenantId
      && r.value.id == l.id && r.value.tenantId == l.tenantId && r.value.licenceKey == l.licenceKey
      && r.value.licencedSeats == l.licencedSeats && r.value.usedSeats == l.usedSeats
      && r.value.expiryDate == l.expiryDate)
  {
    match store.LicenceByTenantID(tenantId)
    case None => Err(TenantLicenceNotFound)
    case Some(l) => Ok(FullResponse(l))
  }

  /** `GetAllTenantLicences`: the repository's list of every licence, as it is. */
  function GetAllTenantLicences(store: Store): (r: seq<TenantLicence>)
    reads store
    ensures |r| == |store.licences|
    ensures forall i :: 0 <= i < |r| ==> r[i] == store.licences[i]
  {
    store.licences
  }

  /** `GetTenantLicenceByLicenceKey`: the licence with exactly this key, with only its id filled in. */
  function GetTenantLicenceByLicenceKey(store: Store, key: string): (r: Result<TenantLicenceResponse>)
    reads store
    ensures r.Err? <==> forall l :: l in store.licences ==> l.licenceKey != key
    ensures r.Err? ==> r.error == TenantLicenceNotFound
    ensures r.Ok? ==> exists l :: l in store.licences && l.licenceKey == key && r.value.id == l.id
    ensures r.Ok? ==> (
      && r.value.tenantId == 0 && r.value.licenceKey == "" && r.value.licencedSeats == 0
      && r.value.usedSeats == 0 && r.value.expiryDate == None)
  {
    match store.LicenceByKey(key)
    case None => Err(TenantLicenceNotFound)
    case Some(l) => Ok(IdOnlyResponse(l))
  }

  /** `GetTenantLicenceByTenantID`: the licence of tenant `tenantId`, with only its id filled in. */
  function GetTenantLicenceByTenantID(store: Store, tenantId: nat): (r: Result<TenantLicenceResponse>)
    reads store
    ensures r.Err? <==> forall l :: l in store.licences ==> l.tenantId != tenantId
    ensures r.Err? ==> r.error == TenantLicenceNotFound
    ensures r.Ok? ==> exists l :: l in store.licences && l.tenantId == tenantId && r.value.id == l.id
    ensures r.Ok? ==> (
      && r.value.tenantId == 0 && r.value.licenceKey == "" && r.value.licencedSeats == 0
      && r.value.usedSeats == 0 && r.value.expiryDate == None)
  {
    match store.LicenceByTenantID(tenantId)
    case None => Err(TenantLicenceNotFound)
    case Some(l) => Ok(IdOnlyResponse(l))
  }

  /**
   * The repository's `GetByID` and `GetByTenantID` select on the same column,
   * so the two views of a tenant's licence fail together and name the same licence.
   */
  lemma ByIDAndByTenantIDAgree(store: Store, tenantId: nat)
    ensures GetTenantLicenceByID(store, tenantId).Err? == GetTenantLicenceByTenantID(store, tenantId).Err?
    ensures GetTenantLicenceByID(store, tenantId).Ok? ==>
      GetTenantLicenceByID(store, tenantId).value.id == GetTenantLicenceByTenantID(store, tenantId).value.id
  {
  }

  /** The licence after `UpdateTenantLicence` has copied the request onto it. */
  function Overwritten(l: TenantLicence, request: TenantLicenceUpdateRequest, now: Time): TenantLicence
  {
    l.(updatedAt := now, licenceKey := request.licenceKey,
       licencedSeats := request.licencedSeats, expiryDate := request.expiryDate)
  }

  /**
   * Overwriting a stored licence leaves the key, the tenant and the seats in use
   * of every licence as they were.
   */
  lemma OverwriteKeepsOwnerAndSeatsInUse(licences: seq<TenantLicence>, l: TenantLicence,
                                           request: TenantLicenceUpdateRequest, now: Time)
    requires KeysIncreasing(licences, LicenceKey)
    requires l in licences
    ensures var r := ReplaceByKey(licences, LicenceKey, Overwritten(l, request, now));
      forall i :: 0 <= i < |r| ==>
        && r[i].id == licences[i].id
        && r[i].tenantId == licences[i].tenantId
        && r[i].usedSeats == licences[i].usedSeats
  {
    var r := ReplaceByKey(licences, LicenceKey, Overwritten(l, request, now));
    var k :| 0 <= k < |licences| && licences[k] == l;
    forall i | 0 <= i < |r|
      ensures r[i].id == licences[i].id
      ensures r[i].tenantId == licences[i].tenantId
      ensures r[i].usedSeats == licences[i].usedSeats
    {
      if LicenceKey(licences[i]) == LicenceKey(l) {
        assert i == k;
      }
    }
  }

  /**
   * `UpdateTenantLicence`: overwrites the key, the seat count and the expiry
   * date of the licence of tenant `tenantId`, without comparing the new seat
   * count with the seats in use.
   */
  method UpdateTenantLicence(store: Store, tenantId: nat, request: TenantLicenceUpdateRequest,
                             now: Time, rejected: set<Table>) returns (err: Option<Error>)
    requires store.Valid()
    modifies store
    ensures store.Valid()
    ensures store.tenants == old(store.tenants) && store.users == old(store.users)
    ensures
      match old(store.LicenceByTenantID(tenantId))
      case None =>
        err == Some(TenantLicenceNotFound) && unchanged(store)
      case Some(l) =>
        if LicenceTable in rejected then
          err == Some(DatabaseError) && unchanged(store)
        else
          && err == None
          && store.licences == ReplaceByKey(old(store.licences), LicenceKey, Overwritten(l, request, now))
    ensures |store.licences| == |old(store.licences)|
    ensures forall i :: 0 <= i < |store.licences| ==>
      && store.licences[i].id == old(store.licences[i].id)
      && store.licences[i].tenantId == old(store.licences[i].tenantId)
      && store.licences[i].usedSeats == old(store.licences[i].usedSeats)
  {
    var found := store.LicenceByTenantID(tenantId);
    if found.None? {
      return Some(TenantLicenceNotFound);
    }
    if LicenceTable in rejected {
      return Some(DatabaseError);
    }
    OverwriteKeepsOwnerAndSeatsInUse(store.licences, found.value, request, now);
    store.UpdateLicence(Overwritten(found.value, request, now));
    return None;
  }
}
