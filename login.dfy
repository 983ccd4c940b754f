/**
 * The login service (src/internal/services/login-service.go): finds the user
 * by exact e-mail, checks the password, finds the user's tenant and records
 * when and from where the user logged in.
 *
 * bcrypt's comparison is the parameter `verify(hash, password)`; `time.Now()`
 * is `now`; `rejected` names the tables whose writes the database refuses.
 * The failed-attempt counter and `IsActive` are never consulted.
 */
module LoginService {
  import opened Wrappers
  import opened Config
  import opened Entities
  import opened Dto
  import opened Tables
  import opened Repository

  /** A user as a successful login leaves it: only the last-login time and address move. */
  function LoggedIn(u: User, now: Time, ip: string): User
  {
    u.(lastLoginAt := Some(now), lastLoginIp := ip)
  }

  /**
   * Stamping the login of a stored user leaves the failed-attempt counter, the
   * active flag and the hash of every user as they were.
   */
  lemma LoggedInKeepsAccountState(users: seq<User>, u: User, now: Time, ip: string)
    requires KeysIncreasing(users, UserKey)
    requires u in users
    ensures var r := ReplaceByKey(users, UserKey, LoggedIn(u, now, ip));
      forall i :: 0 <= i < |r| ==>
        && r[i].failedLoginAttempts == users[i].failedLoginAttempts
        && r[i].isActive == users[i].isActive
        && r[i].passwordHash == users[i].passwordHash
  {
    var r := ReplaceByKey(users, UserKey, LoggedIn(u, now, ip));
    var k :| 0 <= k < |users| && users[k] == u;
    forall i | 0 <= i < |r|
      ensures r[i].failedLoginAttempts == users[i].failedLoginAttempts
      ensures r[i].isActive == users[i].isActive
      ensures r[i].passwordHash == users[i].passwordHash
    {
      if UserKey(users[i]) == UserKey(u) {
        assert i == k;
      }
    }
  }

  /**
   * `Login`: user lookup, then password, then tenant lookup, the first failure
   * winning; on success the user's last login is saved and the response names
   * the tenant, the user, the e-mail and the role.
   */
  method Login(store: Store, request: LoginRequest, ip: string, now: Time,
               verify: (string, string) -> bool, rejected: set<Table>)
    returns (r: Result<LoginResponse>)
    requires store.Valid()
    modifies store
    ensures store.Valid()
    ensures store.tenants == old(store.tenants) && store.licences == old(store.licences)
    ensures
      match old(store.UserByEmail(request.email))
      case None =>
        r == Err(UserNotFound) && unchanged(store)
      case Some(user) =>
        if !verify(user.passwordHash, request.password) then
          r == Err(InvalidPassword) && unchanged(store)
        else if old(store.TenantByID(user.tenantId)).None? then
          r == Err(TenantNotFound) && unchanged(store)
        else if UserTable in rejected then
          r == Err(DatabaseError) && unchanged(store)
        else
          && r == Ok(LoginResponse(user.tenantId, user.id, user.email, user.role))
          && store.users == ReplaceByKey(old(store.users), UserKey, LoggedIn(user, now, ip))
    ensures |store.users| == |old(store.users)|
    ensures forall i :: 0 <= i < |store.users| ==>
      && store.users[i].failedLoginAttempts == old(store.users[i].failedLoginAttempts)
      && store.users[i].isActive == old(store.users[i].isActive)
      && store.users[i].passwordHash == old(store.users[i].passwordHash)
  {
    var found := store.UserByEmail(request.email);
    if found.None? {
      return Err(UserNotFound);
    }
    var user := found.value;
    if !verify(user.passwordHash, request.password) {
      return Err(InvalidPassword);
    }
    var tenant := store.TenantByID(user.tenantId);
    if tenant.None? {
      return Err(TenantNotFound);
    }
    if UserTable in rejected {
      return Err(DatabaseError);
    }
    LoggedInKeepsAccountState(store.users, user, now, ip);
    store.UpdateUser(LoggedIn(user, now, ip));
    return Ok(LoginResponse(tenant.value.id, user.id, user.email, user.role));
  }
}
