/**
 * Worked runs of the services on small databases, each showing a behaviour of
 * the code as written: the inverted "already exists" checks, the missing
 * rollback, the seat count that leaves its bounds, the swapped lookup
 * arguments, and a login that ignores the account's state.
 */
module Scenarios {
  import opened Wrappers
  import opened Config
  import opened Entities
  import opened Dto
  import opened Tables
  import opened Text
  import opened Repository
  import Registration
  import LoginService
  import LicenceService
  import UserService

  /** A stored tenant with key `id` whose e-mail is `email`. */
  function SomeTenant(id: nat, email: string, now: Time): Tenant
  {
    Tenant(id, "", email, "", "", true, now, now, None)
  }

  /** A stored user with key `id`, of tenant `tenantId`, with the given e-mail, hash and account state. */
  function SomeUser(id: nat, tenantId: nat, email: string, hash: string, isActive: bool, attempts: int, now: Time): User
  {
    User(id, tenantId, "", "", email, hash, attempts, isActive, TenantUserRole,
         None, "", "", None, false, "", None, now, now, None)
  }

  /** A stored licence with key 1 for tenant 1. */
  function SomeLicence(licencedSeats: int, usedSeats: int, now: Time): TenantLicence
  {
    TenantLicence(1, 1, "key", licencedSeats, usedSeats, None, now, now)
  }

  /** A database holding exactly the given rows, every auto-increment counter at `next`. */
  method Database(tenants: seq<Tenant>, users: seq<User>, licences: seq<TenantLicence>, next: nat)
    returns (store: Store)
    requires KeysIncreasing(tenants, TenantKey) && KeysBelow(tenants, TenantKey, next)
    requires KeysIncreasing(users, UserKey) && KeysBelow(users, UserKey, next)
    requires KeysIncreasing(licences, LicenceKey) && KeysBelow(licences, LicenceKey, next)
    ensures fresh(store) && store.Valid()
    ensures store.tenants == tenants && store.users == users && store.licences == licences
    ensures store.nextTenantId == next && store.nextUserId == next && store.nextLicenceId == next
  {
    store := new Store();
    store.tenants, store.users, store.licences := tenants, users, licences;
    store.nextTenantId, store.nextUserId, store.nextLicenceId := next, next, next;
  }

  /**
   * On an empty database every tenant registration is refused as already
   * existing, so no first tenant can ever be provisioned this way.
   */
  method FirstTenantIsRefused(reg: TenantRegistration, now: Time, key: string, hash: Option<string>)
    returns (err: Option<Error>)
    requires '@' in reg.email
    ensures err == Some(TenantAlreadyExists)
  {
    var store := new Store();
    err := Registration.RegisterTenant(store, reg, now, key, hash, {});
  }

  /**
   * With a tenant at `domain` already stored, a second tenant at the same
   * domain is provisioned: the database ends with two tenants sharing it.
   */
  method SameDomainTenantIsProvisioned(local: string, other: string, domain: string,
                                       reg: TenantRegistration, now: Time, key: string, hash: string)
    returns (err: Option<Error>, tenantCount: nat)
    requires '@' !in local && '@' !in other && '@' !in domain
    requires reg.email == other + ['@'] + domain
    ensures err == None && tenantCount == 2
  {
    var first := SomeTenant(1, local + ['@'] + domain, now);
    var store := Database([first], [], [], 2);
    DomainOfAddress(other, domain, []);
    assert reg.email == other + ['@'] + domain + [];
    assert EmailDomain(reg.email) == domain;
    assert EndsWith(first.email, domain) by {
      assert first.email[|first.email| - |domain|..] == domain;
    }
    assert first in store.tenants;
    err := Registration.RegisterTenant(store, reg, now, key, Some(hash), {});
    tenantCount := |store.tenants|;
  }

  /**
   * When the licence cannot be stored, the tenant created just before stays
   * in the database without a licence and without an admin.
   */
  method TenantOrphanedWhenLicenceFails(local: string, domain: string, reg: TenantRegistration,
                                        now: Time, key: string, hash: string)
    returns (err: Option<Error>, tenantCount: nat, licenceCount: nat, userCount: nat)
    requires '@' !in local && '@' !in domain
    requires reg.email == local + ['@'] + domain
    ensures err == Some(FailedToCreateTenantLicence)
    ensures tenantCount == 2 && licenceCount == 0 && userCount == 0
  {
    var first := SomeTenant(1, reg.email, now);
    var store := Database([first], [], [], 2);
    AddressMatchesOwnDomain(local, domain);
    assert first in store.tenants;
    err := Registration.RegisterTenant(store, reg, now, key, Some(hash), {LicenceTable});
    tenantCount, licenceCount, userCount := |store.tenants|, |store.licences|, |store.users|;
  }

  /**
   * The seat taken by RegisterUser is saved before hashing: when hashing
   * fails, the licence counts one more seat in use and no user was added.
   */
  method SeatLeakedWhenHashingFails(local: string, domain: string, reg: UserRegistration, now: Time)
    returns (err: Option<Error>, usedSeats: int, userCount: nat)
    requires '@' !in local && '@' !in domain
    requires reg.email == local + ['@'] + domain
    ensures err == Some(FailedToHashPassword)
    ensures usedSeats == 3 && userCount == 1
  {
    var licence := SomeLicence(5, 2, now);
    var member := SomeUser(1, 1, reg.email, "hash", true, 0, now);
    var store := Database([], [member], [licence], 2);
    AddressMatchesOwnDomain(local, domain);
    assert member in store.users && licence in store.licences;
    err := Registration.RegisterUser(store, 1, reg, now, None, {});
    assert store.licences == ReplaceByKey([licence], LicenceKey, Registration.SeatsMoved(licence, 1));
    usedSeats, userCount := store.licences[0].usedSeats, |store.users|;
  }

  /**
   * Deleting a user from a licence with no seat in use drives the seat count
   * to -1: the decrement has no floor.
   */
  method SeatCountGoesNegative(now: Time) returns (err: Option<Error>, usedSeats: int)
    ensures err == None && usedSeats == -1
  {
    var licence := SomeLicence(5, 0, now);
    var user := SomeUser(1, 1, "a@b", "hash", true, 0, now);
    var store := Database([], [user], [licence], 2);
    assert user in store.users && licence in store.licences;
    err := Registration.DeleteUser(store, 1, 1, now, {});
    assert store.licences == ReplaceByKey([licence], LicenceKey, Registration.SeatsMoved(licence, -1));
    usedSeats := store.licences[0].usedSeats;
  }

  /**
   * An update may lower the seat count below the seats in use and may change
   * the licence key.
   */
  method LicenceUpdateOvercommits(now: Time, newKey: string) returns (err: Option<Error>, licence: TenantLicence)
    ensures err == None
    ensures licence.usedSeats > licence.licencedSeats && licence.licenceKey == newKey
  {
    var stored := SomeLicence(5, 3, now);
    var store := Database([], [], [stored], 2);
    assert stored in store.licences;
    err := LicenceService.UpdateTenantLicence(store, 1, TenantLicenceUpdateRequest(newKey, 1, None), now, {});
    licence := store.licences[0];
  }

  /**
   * User 1 of tenant 2 is not found when asked for as (tenant 2, user 1), but
   * is found when asked for as (tenant 1, user 2).
   */
  method UserLookupIsSwapped(now: Time) returns (asked: Result<UserResponse>, swapped: Result<UserResponse>)
    ensures asked == Err(UserNotFound)
    ensures swapped.Ok? && swapped.value.id == 1 && swapped.value.tenantId == 2
  {
    var user := SomeUser(1, 2, "a@b", "hash", true, 0, now);
    var store := Database([], [user], [], 2);
    assert user in store.users;
    asked := UserService.GetUserByID(store, 2, 1);
    swapped := UserService.GetUserByID(store, 1, 2);
  }

  /**
   * A deactivated user with many failed attempts behind it still logs in:
   * neither `IsActive` nor the attempt counter is looked at.
   */
  method InactiveUserLogsIn(email: string, password: string, hash: string, ip: string, now: Time,
                            verify: (string, string) -> bool)
    returns (r: Result<LoginResponse>)
    requires verify(hash, password)
    ensures r.Ok? && r.value.email == email && r.value.tenantId == 1
  {
    var tenant := SomeTenant(1, email, now);
    var user := SomeUser(1, 1, email, hash, false, MaxFailedLoginAttempts + 1, now);
    var store := Database([tenant], [user], [], 2);
    assert store.UserByEmail(email) == Some(user);
    assert store.TenantByID(1) == Some(tenant);
    r := LoginService.Login(store, LoginRequest(email, password), ip, now, verify, {});
  }
}
