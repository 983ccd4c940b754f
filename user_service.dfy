/**
 * The user-management service (internal/service/user_service.go). Every lookup
 * passes `(tenantId, userId)` to a repository `GetByID` whose parameters are
 * `(userId, tenantId)`: it finds the user whose key is `tenantId` and whose
 * tenant is `userId`.
 */
module UserService {
  import opened Wrappers
  import opened Config
  import opened Entities
  import opened Dto
  import opened Tables
  import opened Repository

  /** The view of a user that the service hands out. */
  function UserResponseOf(u: User): UserResponse
  {
    UserResponse(u.id, u.tenantId, u.firstName, u.lastName, u.email, u.role, u.isActive, u.lastLoginAt, u.createdAt)
  }

  /** `GetUserByID(tenantId, userId)`: the view of the user found with the swapped arguments. */
  function GetUserByID(store: Store, tenantId: nat, userId: nat): (r: Result<UserResponse>)
    reads store
    ensures r.Err? <==> forall u :: u in store.users ==> !(u.id == tenantId && u.tenantId == userId)
    ensures r.Err? ==> r.error == UserNotFound
    ensures r.Ok? ==> exists u :: (
      && u in store.users && u.id == tenantId && u.tenantId == userId
      && r.value.id == u.id && r.value.tenantId == u.tenantId && r.value.email == u.email
      && r.value.firstName == u.firstName && r.value.lastName == u.lastName && r.value.role == u.role
      && r.value.isActive == u.isActive && r.value.lastLoginAt == u.lastLoginAt
      && r.value.createdAt == u.createdAt)
  {
    match store.UserByID(tenantId, userId)
    case None => Err(UserNotFound)
    case Some(u) => Ok(UserResponseOf(u))
  }

  /** `GetAllUsers(tenantId)`: one view per user of the tenant, in table order. */
  method GetAllUsers(store: Store, tenantId: nat) returns (r: seq<UserResponse>)
    ensures |r| == |store.UsersOfTenant(tenantId)|
    ensures forall i :: 0 <= i < |r| ==> r[i] == UserResponseOf(store.UsersOfTenant(tenantId)[i])
    ensures forall i :: 0 <= i < |r| ==> r[i].tenantId == tenantId
  {
    var users := store.UsersOfTenant(tenantId);
    r := [];
    for i := 0 to |users|
      invariant |r| == i
      invariant forall j :: 0 <= j < i ==> r[j] == UserResponseOf(users[j])
      invariant forall j :: 0 <= j < i ==> r[j].tenantId == tenantId
    {
      assert users[i] in users;
      r := r + [UserResponseOf(users[i])];
    }
  }

  /** The user after `UpdateUser` has copied the request onto it; the role is taken as given. */
  function Edited(u: User, request: UserUpdateRequest, now: Time): User
  {
    u.(firstName := request.firstName, lastName := request.lastName, email := request.email,
       role := request.role, updatedAt := now)
  }

  /**
   * Editing a stored user leaves the key, the tenant, the hash and the active
   * flag of every user as they were.
   */
  lemma EditKeepsAccount(users: seq<User>, u: User, request: UserUpdateRequest, now: Time)
    requires KeysIncreasing(users, UserKey)
    requires u in users
    ensures var r := ReplaceByKey(users, UserKey, Edited(u, request, now));
      forall i :: 0 <= i < |r| ==>
        && r[i].id == users[i].id
        && r[i].tenantId == users[i].tenantId
        && r[i].passwordHash == users[i].passwordHash
        && r[i].isActive == users[i].isActive
  {
    var r := ReplaceByKey(users, UserKey, Edited(u, request, now));
    var k :| 0 <= k < |users| && users[k] == u;
    forall i | 0 <= i < |r|
      ensures r[i].id == users[i].id
      ensures r[i].tenantId == users[i].tenantId
      ensures r[i].passwordHash == users[i].passwordHash
      ensures r[i].isActive == users[i].isActive
    {
      if UserKey(users[i]) == UserKey(u) {
        assert i == k;
      }
    }
  }

  /** `UpdateUser`: overwrites the names, the e-mail, the role and the update time. */
  method UpdateUser(store: Store, tenantId: nat, userId: nat, request: UserUpdateRequest,
                    now: Time, rejected: set<Table>) returns (err: Option<Error>)
    requires store.Valid()
    modifies store
    ensures store.Valid()
    ensures store.tenants == old(store.tenants) && store.licences == old(store.licences)
    ensures
      match old(store.UserByID(tenantId, userId))
      case None =>
        err == Some(UserNotFound) && unchanged(store)
      case Some(u) =>
        if UserTable in rejected then
          err == Some(DatabaseError) && unchanged(store)
        else
          && err == None
          && store.users == ReplaceByKey(old(store.users), UserKey, Edited(u, request, now))
    ensures |store.users| == |old(store.users)|
    ensures forall i :: 0 <= i < |store.users| ==>
      && store.users[i].id == old(store.users[i].id)
      && store.users[i].tenantId == old(store.users[i].tenantId)
      && store.users[i].passwordHash == old(store.users[i].passwordHash)
      && store.users[i].isActive == old(store.users[i].isActive)
  {
    var found := store.UserByID(tenantId, userId);
    if found.None? {
      return Some(UserNotFound);
    }
    if UserTable in rejected {
      return Some(DatabaseError);
    }
    EditKeepsAccount(store.users, found.value, request, now);
    store.UpdateUser(Edited(found.value, request, now));
    return None;
  }

  /**
   * `DeleteUser`: marks the user inactive and deleted, then deletes the row by
   * its key. No licence seat is given back.
   */
  method DeleteUser(store: Store, tenantId: nat, userId: nat, now: Time, rejected: set<Table>)
    returns (err: Option<Error>)
    requires store.Valid()
    modifies store
    ensures store.Valid()
    ensures store.tenants == old(store.tenants) && store.licences == old(store.licences)
    ensures
      match old(store.UserByID(tenantId, userId))
      case None =>
        err == Some(UserNotFound) && unchanged(store)
      case Some(u) =>
        if UserTable in rejected then
          err == Some(DatabaseError) && unchanged(store)
        else
          err == None && store.users == RemoveByKey(old(store.users), UserKey, u.id)
  {
    var found := store.UserByID(tenantId, userId);
    if found.None? {
      return Some(UserNotFound);
    }
    var user := found.value.(isActive := false, updatedAt := now, deletedAt := Some(now));
    if UserTable in rejected {
      return Some(DatabaseError);
    }
    store.DeleteUser(user);
    return None;
  }
}
