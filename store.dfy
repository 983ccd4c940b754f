/**
 * The database behind the three repositories of internal/repository: one
 * table of tenants, one of users and one of tenant licences, each with its
 * auto-increment counter. Lookups are functions over the tables; `Create`,
 * `Update` and `Delete` change them.
 */
module Repository {
  import opened Wrappers
  import opened Entities
  import opened Tables
  import opened Text

  class Store {
    var tenants: seq<Tenant>
    var users: seq<User>
    var licences: seq<TenantLicence>
    var nextTenantId: nat
    var nextUserId: nat
    var nextLicenceId: nat

    /** Each table is in ascending key order and below its auto-increment counter. */
    ghost predicate Valid()
      reads this
    {
      && KeysIncreasing(tenants, TenantKey) && KeysBelow(tenants, TenantKey, nextTenantId)
      && KeysIncreasing(users, UserKey) && KeysBelow(users, UserKey, nextUserId)
      && KeysIncreasing(licences, LicenceKey) && KeysBelow(licences, LicenceKey, nextLicenceId)
    }

    /** Every licence keeps `0 <= UsedSeats <= LicencedSeats`. */
    ghost predicate SeatsBounded()
      reads this
    {
      forall i :: 0 <= i < |licences| ==> SeatsWithinLicence(licences[i])
    }

    /** An empty database; keys start at 1. */
    constructor ()
      ensures Valid()
      ensures tenants == [] && users == [] && licences == []
      ensures nextTenantId == 1 && nextUserId == 1 && nextLicenceId == 1
    {
      tenants, users, licences := [], [], [];
      nextTenantId, nextUserId, nextLicenceId := 1, 1, 1;
    }

    // ---- tenants ----

    /** `Create`: stores the row under a fresh key, after every existing row. */
    method CreateTenant(t: Tenant) returns (stored: Tenant)
      requires Valid()
      modifies this`tenants, this`nextTenantId
      ensures users == old(users) && licences == old(licences)
      ensures Valid()
      ensures stored == t.(id := old(nextTenantId))
      ensures tenants == old(tenants) + [stored]
      ensures forall x :: x in old(tenants) ==> x.id < stored.id
    {
      stored := t.(id := nextTenantId);
      tenants := tenants + [stored];
      nextTenantId := nextTenantId + 1;
    }

    /** `GetByID`: the tenant whose `id` is `id`. */
    function TenantByID(id: nat): (r: Option<Tenant>)
      reads this
      ensures r.Some? ==> r.value in tenants && r.value.id == id
      ensures r.None? <==> forall t :: t in tenants ==> t.id != id
    {
      FirstMatch(tenants, (t: Tenant) => t.id == id)
    }

    /** `GetByEmailDomain`: the first tenant whose e-mail merely ends with `domain`. */
    function TenantByEmailDomain(domain: string): (r: Option<Tenant>)
      reads this
      ensures r.Some? ==> r.value in tenants && EndsWith(r.value.email, domain)
      ensures r.None? <==> forall t :: t in tenants ==> !EndsWith(t.email, domain)
    {
      FirstMatch(tenants, (t: Tenant) => EndsWith(t.email, domain))
    }

    /** `Update`: the tenant with the same key is replaced; nothing else changes. */
    method UpdateTenant(t: Tenant)
      requires Valid()
      modifies this`tenants
      ensures users == old(users) && licences == old(licences)
      ensures Valid()
      ensures tenants == ReplaceByKey(old(tenants), TenantKey, t)
    {
      ReplaceByKeyProperties(tenants, TenantKey, t);
      tenants := ReplaceByKey(tenants, TenantKey, t);
    }

    /** `Delete`: the tenant with the same key leaves the table; the others stay in order. */
    method DeleteTenant(t: Tenant)
      requires Valid()
      modifies this`tenants
      ensures users == old(users) && licences == old(licences)
      ensures Valid()
      ensures tenants == RemoveByKey(old(tenants), TenantKey, t.id)
    {
      tenants := RemoveByKey(tenants, TenantKey, t.id);
    }

    // ---- users ----

    /** `Create`: stores the row under a fresh key, after every existing row. */
    method CreateUser(u: User) returns (stored: User)
      requires Valid()
      modifies this`users, this`nextUserId
      ensures tenants == old(tenants) && licences == old(licences)
      ensures Valid()
      ensures stored == u.(id := old(nextUserId))
      ensures users == old(users) + [stored]
      ensures forall x :: x in old(users) ==> x.id < stored.id
    {
      stored := u.(id := nextUserId);
      users := users + [stored];
      nextUserId := nextUserId + 1;
    }

    /** `GetByID(userId, tenantId)`: the user with key `userId` that belongs to tenant `tenantId`. */
    function UserByID(userId: nat, tenantId: nat): (r: Option<User>)
      reads this
      ensures r.Some? ==> r.value in users && r.value.id == userId && r.value.tenantId == tenantId
      ensures r.None? <==> forall u :: u in users ==> !(u.id == userId && u.tenantId == tenantId)
    {
      FirstMatch(users, (u: User) => u.id == userId && u.tenantId == tenantId)
    }

    /** `GetByEmail`: the first user whose e-mail equals `email` exactly. */
    function UserByEmail(email: string): (r: Option<User>)
      reads this
      ensures r.Some? ==> r.value in users && r.value.email == email
      ensures r.None? <==> forall u :: u in users ==> u.email != email
    {
      FirstMatch(users, (u: User) => u.email == email)
    }

    /** `GetByEmailDomain`: the first user whose e-mail merely ends with `domain`. */
    function UserByEmailDomain(domain: string): (r: Option<User>)
      reads this
      ensures r.Some? ==> r.value in users && EndsWith(r.value.email, domain)
      ensures r.None? <==> forall u :: u in users ==> !EndsWith(u.email, domain)
    {
      FirstMatch(users, (u: User) => EndsWith(u.email, domain))
    }

    /** `GetAll(tenantId)`: exactly the users of tenant `tenantId`, in key order. */
    function UsersOfTenant(tenantId: nat): (r: seq<User>)
      reads this
      ensures forall u :: u in r <==> u in users && u.tenantId == tenantId
      ensures KeysIncreasing(users, UserKey) ==> KeysIncreasing(r, UserKey)
    {
      var mine := (u: User) => u.tenantId == tenantId;
      FilterKeepsKeysIncreasing(users, UserKey, mine);
      Filter(users, mine)
    }

    /** `Update`: the user with the same key is replaced; nothing else changes. */
    method UpdateUser(u: User)
      requires Valid()
      modifies this`users
      ensures tenants == old(tenants) && licences == old(licences)
      ensures Valid()
      ensures users == ReplaceByKey(old(users), UserKey, u)
    {
      ReplaceByKeyProperties(users, UserKey, u);
      users := ReplaceByKey(users, UserKey, u);
    }

    /** `Delete`: the user with the same key leaves the table; the others stay in order. */
    method DeleteUser(u: User)
      requires Valid()
      modifies this`users
      ensures tenants == old(tenants) && licences == old(licences)
      ensures Valid()
      ensures users == RemoveByKey(old(users), UserKey, u.id)
    {
      users := RemoveByKey(users, UserKey, u.id);
    }

    // ---- tenant licences ----

    /** `Create`: stores the row under a fresh key, after every existing row. */
    method CreateLicence(l: TenantLicence) returns (stored: TenantLicence)
      requires Valid()
      modifies this`licences, this`nextLicenceId
      ensures tenants == old(tenants) && users == old(users)
      ensures Valid()
      ensures stored == l.(id := old(nextLicenceId))
      ensures licences == old(licences) + [stored]
      ensures forall x :: x in old(licences) ==> x.id < stored.id
    {
      stored := l.(id := nextLicenceId);
      licences := licences + [stored];
      nextLicenceId := nextLicenceId + 1;
    }

    /**
     * `GetByID(tenantID)` and `GetByTenantID(tenantID)`: both select on
     * `tenant_id`, so both are this one lookup.
     */
    function LicenceByTenantID(tenantId: nat): (r: Option<TenantLicence>)
      reads this
      ensures r.Some? ==> r.value in licences && r.value.tenantId == tenantId
      ensures r.None? <==> forall l :: l in licences ==> l.tenantId != tenantId
    {
      FirstMatch(licences, (l: TenantLicence) => l.tenantId == tenantId)
    }

    /** `GetByLicenceKey`: the licence whose key equals `key` exactly. */
    function LicenceByKey(key: string): (r: Option<TenantLicence>)
      reads this
      ensures r.Some? ==> r.value in licences && r.value.licenceKey == key
      ensures r.None? <==> forall l :: l in licences ==> l.licenceKey != key
    {
      FirstMatch(licences, (l: TenantLicence) => l.licenceKey == key)
    }

    /** `Update`: the licence with the same key is replaced; nothing else changes. */
    method UpdateLicence(l: TenantLicence)
      requires Valid()
      modifies this`licences
      ensures tenants == old(tenants) && users == old(users)
      ensures Valid()
      ensures licences == ReplaceByKey(old(licences), LicenceKey, l)
    {
      ReplaceByKeyProperties(licences, LicenceKey, l);
      licences := ReplaceByKey(licences, LicenceKey, l);
    }

    /** `Delete`: the licence with the same key leaves the table; the others stay in order. */
    method DeleteLicence(l: TenantLicence)
      requires Valid()
      modifies this`licences
      ensures tenants == old(tenants) && users == old(users)
      ensures Valid()
      ensures licences == RemoveByKey(old(licences), LicenceKey, l.id)
    {
      licences := RemoveByKey(licences, LicenceKey, l.id);
    }
  }
}
