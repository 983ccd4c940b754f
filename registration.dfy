/**
 * The user-registration service (src/internal/services/user-registration-service.go):
 * provisioning a tenant with its starter licence and first admin, adding users
 * against the licence's seats, and deleting users.
 *
 * As written, the "already exists" checks fire when NO row matches the domain,
 * nothing is rolled back when a later step fails, the seat count is decremented
 * without a floor, and `DeleteUser` passes its two ids to `GetByID` in the
 * opposite order from the repository's parameters. The model keeps all four.
 *
 * The hash bcrypt would produce is the parameter `hash` (`None` when hashing
 * fails), the fresh uuid is `licenceKey`, `time.Now()` is `now`, and `rejected`
 * names the tables whose writes the database refuses during the call.
 */
module Registration {
  import opened Wrappers
  import opened Config
  import opened Entities
  import opened Dto
  import opened Tables
  import opened Text
  import opened Repository

  /** A new tenant's licence: five seats, one of them taken by the admin. */
  const StarterLicencedSeats: int := 5
  const StarterUsedSeats: int := 1

  /** The tenant record RegisterTenant builds; `Create` assigns its key. `IsActive` is left unset. */
  function NewTenant(reg: TenantRegistration, now: Time): Tenant
  {
    Tenant(0, reg.name, reg.email, reg.phone, reg.address, false, now, now, None)
  }

  /** The starter licence RegisterTenant builds for tenant `tenantId`. */
  function StarterLicence(tenantId: nat, licenceKey: string, now: Time): TenantLicence
  {
    TenantLicence(0, tenantId, licenceKey, StarterLicencedSeats, StarterUsedSeats, None, now, now)
  }

  /** The user record both registrations build: active, unverified, never logged in. */
  function NewUser(tenantId: nat, reg: UserRegistration, hash: string, role: string, now: Time): User
  {
    User(0, tenantId, reg.firstName, reg.lastName, reg.email, hash, 0, true, role,
         None, "", "", None, false, "", None, now, now, None)
  }

  /** A user as `DeleteUser` leaves it: inactive, updated and deleted at `now`. */
  function SoftDeleted(u: User, now: Time): User
  {
    u.(isActive := false, updatedAt := now, deletedAt := Some(now))
  }

  /** A licence with one seat more (`delta == 1`) or one seat fewer (`delta == -1`) in use. */
  function SeatsMoved(l: TenantLicence, delta: int): TenantLicence
  {
    l.(usedSeats := l.usedSeats + delta)
  }

  /** Putting a licence within its bounds in place of another keeps every licence within bounds. */
  lemma ReplacedLicenceKeepsSeatsBounded(rows: seq<TenantLicence>, l: TenantLicence)
    requires forall i :: 0 <= i < |rows| ==> SeatsWithinLicence(rows[i])
    requires SeatsWithinLicence(l)
    ensures var r := ReplaceByKey(rows, LicenceKey, l);
      forall i :: 0 <= i < |r| ==> SeatsWithinLicence(r[i])
  {
    var r := ReplaceByKey(rows, LicenceKey, l);
    forall i | 0 <= i < |r|
      ensures SeatsWithinLicence(r[i])
    {
      if LicenceKey(rows[i]) != LicenceKey(l) {
        assert r[i] == rows[i];
      }
    }
  }

  /**
   * `RegisterTenant`: refuses when no tenant's e-mail ends with the new
   * tenant's domain; otherwise creates the tenant, its starter licence and its
   * `tenant_admin`, stopping at the first failure and keeping what was written.
   */
  method RegisterTenant(store: Store, reg: TenantRegistration, now: Time, licenceKey: string,
                        hash: Option<string>, rejected: set<Table>) returns (err: Option<Error>)
    requires store.Valid()
    requires '@' in reg.email
    modifies store
    ensures store.Valid()
    ensures old(store.SeatsBounded()) ==> store.SeatsBounded()
    ensures err == Some(TenantAlreadyExists) <==> old(store.TenantByEmailDomain(EmailDomain(reg.email))).None?
    ensures
      var tenant := NewTenant(reg, now).(id := old(store.nextTenantId));
      var licence := StarterLicence(tenant.id, licenceKey, now).(id := old(store.nextLicenceId));
      if old(store.TenantByEmailDomain(EmailDomain(reg.email))).None? then
        unchanged(store)
      else if TenantTable in rejected then
        err == Some(FailedToCreateTenant) && unchanged(store)
      else if LicenceTable in rejected then
        && err == Some(FailedToCreateTenantLicence)
        && store.tenants == old(store.tenants) + [tenant]
        && store.licences == old(store.licences)
        && store.users == old(store.users)
      else if hash.None? || UserTable in rejected then
        && err == Some(if hash.None? then FailedToHashPassword else FailedToCreateUser)
        && store.tenants == old(store.tenants) + [tenant]
        && store.licences == old(store.licences) + [licence]
        && store.users == old(store.users)
      else
        && err == None
        && store.tenants == old(store.tenants) + [tenant]
        && store.licences == old(store.licences) + [licence]
        && store.users == old(store.users) + [NewUser(tenant.id, reg.admin, hash.value, TenantAdminRole, now).(id := old(store.nextUserId))]
    ensures err == None ==>
      && |store.tenants| == |old(store.tenants)| + 1
      && |store.licences| == |old(store.licences)| + 1
      && |store.users| == |old(store.users)| + 1
      && var t, l, u := store.tenants[|store.tenants| - 1], store.licences[|store.licences| - 1], store.users[|store.users| - 1];
         && t.email == reg.email && t !in old(store.tenants)
         && l.tenantId == t.id && l.licencedSeats == 5 && l.usedSeats == 1 && l.expiryDate == None
         && u.tenantId == t.id && u.email == reg.admin.email && u.role == TenantAdminRole
         && u.isActive && u.failedLoginAttempts == 0
  {
    var domain := EmailDomain(reg.email);
    if store.TenantByEmailDomain(domain).None? {
      return Some(TenantAlreadyExists);
    }
    if TenantTable in rejected {
      return Some(FailedToCreateTenant);
    }
    var tenant := store.CreateTenant(NewTenant(reg, now));
    if LicenceTable in rejected {
      return Some(FailedToCreateTenantLicence);
    }
    var licence := store.CreateLicence(StarterLicence(tenant.id, licenceKey, now));
    if hash.None? {
      return Some(FailedToHashPassword);
    }
    if UserTable in rejected {
      return Some(FailedToCreateUser);
    }
    var admin := store.CreateUser(NewUser(tenant.id, reg.admin, hash.value, TenantAdminRole, now));
    return None;
  }

  /**
   * `RegisterUser`: the (inverted) domain check, then the licence of
   * `tenantId` must exist, have a free seat and not have expired; the seat is
   * taken and saved before the password is hashed and the `tenant_user` created.
   */
  method RegisterUser(store: Store, tenantId: nat, reg: UserRegistration, now: Time,
                      hash: Option<string>, rejected: set<Table>) returns (err: Option<Error>)
    requires store.Valid()
    requires '@' in reg.email
    modifies store
    ensures store.Valid()
    ensures old(store.SeatsBounded()) ==> store.SeatsBounded()
    ensures store.tenants == old(store.tenants)
    ensures
      var licence := old(store.LicenceByTenantID(tenantId));
      if old(store.UserByEmailDomain(EmailDomain(reg.email))).None? then
        err == Some(UserAlreadyExists) && unchanged(store)
      else if licence.None? then
        err == Some(TenantLicenceNotFound) && unchanged(store)
      else if licence.value.usedSeats >= licence.value.licencedSeats then
        err == Some(TenantLicenceExceeded) && unchanged(store)
      else if Expired(licence.value, now) then
        err == Some(TenantLicenceExpired) && unchanged(store)
      else if LicenceTable in rejected then
        err == Some(DatabaseError) && unchanged(store)
      else
        && store.licences == ReplaceByKey(old(store.licences), LicenceKey, SeatsMoved(licence.value, 1))
        && if hash.None? || UserTable in rejected then
             && err == Some(if hash.None? then FailedToHashPassword else FailedToCreateUser)
             && store.users == old(store.users)
           else
             && err == None
             && store.users == old(store.users) + [NewUser(tenantId, reg, hash.value, TenantUserRole, now).(id := old(store.nextUserId))]
    ensures err == None ==>
      && |store.users| == |old(store.users)| + 1
      && var u := store.users[|store.users| - 1];
         u.tenantId == tenantId && u.role == TenantUserRole && u.isActive && u.email == reg.email
  {
    var domain := EmailDomain(reg.email);
    if store.UserByEmailDomain(domain).None? {
      return Some(UserAlreadyExists);
    }
    var found := store.LicenceByTenantID(tenantId);
    if found.None? {
      return Some(TenantLicenceNotFound);
    }
    var licence := found.value;
    if licence.usedSeats >= licence.licencedSeats {
      return Some(TenantLicenceExceeded);
    }
    if Expired(licence, now) {
      return Some(TenantLicenceExpired);
    }
    licence := SeatsMoved(licence, 1);
    if LicenceTable in rejected {
      return Some(DatabaseError);
    }
    ghost var before := store.licences;
    store.UpdateLicence(licence);
    if old(store.SeatsBounded()) {
      ReplacedLicenceKeepsSeatsBounded(before, licence);
    }
    if hash.None? {
      return Some(FailedToHashPassword);
    }
    if UserTable in rejected {
      return Some(FailedToCreateUser);
    }
    var user := store.CreateUser(NewUser(tenantId, reg, hash.value, TenantUserRole, now));
    return None;
  }

  /**
   * `DeleteUser`: looks the user up with `GetByID(tenantId, userId)` although
   * the repository expects `(userId, tenantId)`, gives one seat back to the
   * licence of `tenantId` without a floor, then saves the user as inactive and
   * deleted at `now`.
   */
  method DeleteUser(store: Store, tenantId: nat, userId: nat, now: Time, rejected: set<Table>)
    returns (err: Option<Error>)
    requires store.Valid()
    modifies store
    ensures store.Valid()
    ensures store.tenants == old(store.tenants)
    ensures
      var user := old(store.UserByID(tenantId, userId));
      var licence := old(store.LicenceByTenantID(tenantId));
      if user.None? then
        err == Some(UserNotFound) && unchanged(store)
      else if licence.None? then
        err == Some(TenantLicenceNotFound) && unchanged(store)
      else if LicenceTable in rejected then
        err == Some(DatabaseError) && unchanged(store)
      else
        && store.licences == ReplaceByKey(old(store.licences), LicenceKey, SeatsMoved(licence.value, -1))
        && if UserTable in rejected then
             err == Some(DatabaseError) && store.users == old(store.users)
           else
             && err == None
             && store.users == ReplaceByKey(old(store.users), UserKey, SoftDeleted(user.value, now))
    ensures
      var licence := old(store.LicenceByTenantID(tenantId));
      old(store.SeatsBounded()) && (licence.Some? ==> licence.value.usedSeats > 0) ==> store.SeatsBounded()
  {
    var found := store.UserByID(tenantId, userId);
    if found.None? {
      return Some(UserNotFound);
    }
    var user := SoftDeleted(found.value, now);
    var licence := store.LicenceByTenantID(tenantId);
    if licence.None? {
      return Some(TenantLicenceNotFound);
    }
    if LicenceTable in rejected {
      return Some(DatabaseError);
    }
    var moved := SeatsMoved(licence.value, -1);
    ghost var before := store.licences;
    store.UpdateLicence(moved);
    if old(store.SeatsBounded()) && licence.value.usedSeats > 0 {
      ReplacedLicenceKeepsSeatsBounded(before, moved);
    }
    assert store.users == old(store.users);
    if UserTable in rejected {
      return Some(DatabaseError);
    }
    store.UpdateUser(user);
    assert store.licences == ReplaceByKey(before, LicenceKey, moved);
    return None;
  }
}
