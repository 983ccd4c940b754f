# Auth server: provisioning, seat licensing and login

This project models the business core of a multi-tenant authentication server. The server keeps three tables: tenants, their users, and one licence per tenant. The licence records how many seats were bought (`LicencedSeats`) and how many are in use (`UsedSeats`). The model covers these services:

- **Registration** provisions a tenant. It creates the tenant, a starter licence of 5 seats with 1 in use, and a `tenant_admin` user.
- **Registration** also adds `tenant_user`s against the licence's free seats and deletes users, giving their seat back.
- **Login** checks an e-mail and password and stamps the last-login time and address.
- **Licence service** reads a licence and overwrites its editable fields.
- **User and tenant services** read, list, edit and delete records.

Each of these services is a method over one `Repository.Store`. The store is a class whose three tables are sequences of records in ascending primary-key order, each with its own auto-increment counter. The repositories' lookups are functions over those tables. `First` picks the first match, which is the match with the lowest key. A suffix match stands in for `LIKE '%' + domain`.

Things outside the program become parameters:

- `now` is `time.Now()`;
- the client address is `ip`;
- bcrypt's compare is `verify(hash, password)`;
- the hash bcrypt would produce is `hash`, which is `None` when hashing fails;
- the fresh uuid is `licenceKey`;
- `rejected` is the set of tables whose write the database refuses during the call.

The model reproduces the code as written, including these behaviours:

- **Inverted existence checks.** Registering a tenant or a user is refused as "already exists" exactly when *no* stored e-mail ends with the new address's domain. So the first tenant of an empty database can never be registered.
- **No rollback.** A failure after the first write keeps the rows written so far: an orphaned tenant, or a seat taken with no user added.
- **Unfloored decrement.** Deleting a user decrements `UsedSeats` with no floor, so the count can become negative.
- **Swapped lookup arguments.** `user_service.go` and the registration service's `DeleteUser` call `GetByID(tenantId, userId)`, but the repository's parameters are `(userId, tenantId)`.
- **Licence overwrite.** An update may set the seat count below the seats in use, and may change the licence key.
- **No lockout.** Login never consults `IsActive` or the failed-attempt counter.

`Scenarios` exhibits each of these on a concrete small database. The invariants that do hold are proved as contracts:

- keys stay increasing and below their counters (`Store.Valid`);
- registering a user keeps every licence within `0 <= UsedSeats <= LicencedSeats`;
- deleting a user keeps that bound when the licence had a seat in use;
- every failure path writes nothing beyond the steps already taken;
- each update changes exactly the fields the code assigns.

The model keeps these behaviours of the code as written:

- the inverted existence checks;
- the missing rollback;
- the missing floor on the seat count;
- the missing login lockout;
- `UserService.DeleteUser` releasing no seat;
- the licence key being mutable.

## Model

| member | source | states |
|---|---|---|
| Text.Split | src/internal/services/user-registration-service.go:31 | `strings.Split` on `@`: at least one field, no field holds the separator, a single field exactly when the separator is absent |
| Text.SplitFieldCount | src/internal/services/user-registration-service.go:31 | a split has exactly one more field than the string has separators |
| Text.JoinSplit | src/internal/services/user-registration-service.go:31 | joining the fields of a split gives the original string back |
| Text.SplitJoin | src/internal/services/user-registration-service.go:31 | splitting a join of separator-free fields gives the same fields back |
| Text.SplitWithoutSeparator | src/internal/services/user-registration-service.go:98 | a string with no `@` splits into itself alone |
| Text.SplitAtFirst | src/internal/services/user-registration-service.go:98 | the text before the first separator is the first field and the remainder is split on |
| Text.EmailDomain | src/internal/services/user-registration-service.go:31 | `Split(email, "@")[1]` needs an `@` (Go panics otherwise); the domain holds no `@` and is shorter than the address |
| Text.DomainOfAddress | src/internal/services/user-registration-service.go:98 | the domain of `local@domain` or `local@domain@more` is `domain`: the text between the first and the next `@` |
| Text.AddressMatchesOwnDomain | internal/repository/tenant_repository.go:52-58 | an address with one `@` is found by the suffix search for its own domain |
| Text.SuffixMatchIsLooserThanDomain | internal/repository/user_repository.go:52-58 | `LIKE '%'+domain` also finds addresses whose domain differs, e.g. `x@notexample.com` for `example.com` |
| Tables.FirstMatch | internal/repository/tenant_repository.go:20-26 | `First`: a found row is in the table and matches; not found exactly when no row matches |
| Tables.FirstMatchHasLowestKey | internal/repository/user_repository.go:60-66 | over a key-ordered table, `First` returns the matching row with the lowest primary key |
| Tables.Filter | internal/repository/user_repository.go:36-42 | `Find`: exactly the rows that satisfy the condition |
| Tables.FilterKeepsKeysIncreasing | internal/repository/user_repository.go:36-42 | filtering a key-ordered table leaves the kept rows in key order (the order the model gives `Find`) |
| Tables.ReplaceByKey | internal/repository/user_repository.go:28-30 | `Save` of a stored row: same length and keys; the row with the key is replaced, every other row unchanged |
| Tables.ReplaceByKeyProperties | internal/repository/tenant_licence_repository.go:28-30 | a replacement keeps key order and changes nothing when no row has the key |
| Tables.RemoveByKey | internal/repository/tenant_repository.go:32-34 | `Delete`: exactly the rows with other keys remain, in key order |
| Repository.Store.constructor | internal/repository/tenant_repository.go:12-14 | an empty, valid database whose counters start at 1 |
| Repository.Store.CreateTenant | internal/repository/tenant_repository.go:16-18 | appends the tenant under a fresh key larger than every stored key and keeps the table valid; the other tables are unchanged |
| Repository.Store.TenantByID | internal/repository/tenant_repository.go:20-26 | found tenant has the id; not found exactly when no tenant has it |
| Repository.Store.TenantByEmailDomain | internal/repository/tenant_repository.go:52-58 | found tenant's e-mail ends with the domain; not found exactly when none does |
| Repository.Store.UpdateTenant | internal/repository/tenant_repository.go:28-30 | replaces the tenant with the same key and keeps the table valid; the other tables are unchanged |
| Repository.Store.DeleteTenant | internal/repository/tenant_repository.go:32-34 | removes the tenant's key from the table and keeps it valid; the other tables are unchanged |
| Repository.Store.CreateUser | internal/repository/user_repository.go:16-18 | appends the user under a fresh key larger than every stored key; the other tables are unchanged |
| Repository.Store.UserByID | internal/repository/user_repository.go:20-26 | first argument matches the user key, second the tenant; not found exactly when no user has both |
| Repository.Store.UserByEmail | internal/repository/user_repository.go:60-66 | exact e-mail equality; not found exactly when no user has it |
| Repository.Store.UserByEmailDomain | internal/repository/user_repository.go:52-58 | found user's e-mail ends with the domain; not found exactly when none does |
| Repository.Store.UsersOfTenant | internal/repository/user_repository.go:36-42 | exactly the users of the tenant, listed in key order |
| Repository.Store.UpdateUser | internal/repository/user_repository.go:28-30 | replaces the user with the same key and keeps the table valid; the other tables are unchanged |
| Repository.Store.DeleteUser | internal/repository/user_repository.go:32-34 | removes the user's key from the table and keeps it valid; the other tables are unchanged |
| Repository.Store.CreateLicence | internal/repository/tenant_licence_repository.go:16-18 | appends the licence under a fresh key larger than every stored key; the other tables are unchanged |
| Repository.Store.LicenceByTenantID | internal/repository/tenant_licence_repository.go:20-26 | `GetByID` selects on `tenant_id`: found licence belongs to the tenant; not found exactly when none does |
| Repository.Store.LicenceByKey | internal/repository/tenant_licence_repository.go:44-50 | exact licence-key equality; not found exactly when no licence has the key |
| Repository.Store.UpdateLicence | internal/repository/tenant_licence_repository.go:28-30 | replaces the licence with the same key and keeps the table valid; the other tables are unchanged |
| Repository.Store.DeleteLicence | internal/repository/tenant_licence_repository.go:32-34 | removes the licence's key from the table and keeps it valid; the other tables are unchanged |
| Registration.ReplacedLicenceKeepsSeatsBounded | src/internal/services/user-registration-service.go:114-125 | saving a licence within its seat bounds keeps every licence within bounds |
| Registration.RegisterTenant | src/internal/services/user-registration-service.go:30-95 | already-exists exactly when no tenant matches the domain, with no write; each later failure keeps the rows already written; success adds one tenant, one 5-seat licence with 1 used and no expiry, and one active `tenant_admin` with no failed attempts; the seat bound is preserved |
| Registration.RegisterUser | src/internal/services/user-registration-service.go:97-156 | checks in order domain (inverted), licence found, seats free, not expired, each failure writing nothing; then the seat is saved before hashing, so a later failure keeps it; success adds one active `tenant_user`; the seat bound is preserved |
| Registration.DeleteUser | src/internal/services/user-registration-service.go:158-184 | user looked up with swapped ids; not found or no licence writes nothing; otherwise the licence loses one seat with no floor, then the user is saved inactive and deleted at `now`; the bound holds when a seat was in use |
| LoginService.LoggedInKeepsAccountState | src/internal/services/login-service.go:41-46 | stamping a stored user's login leaves every user's failed-attempt counter, active flag and hash as they were |
| LoginService.Login | src/internal/services/login-service.go:22-54 | user, then password, then tenant, the first failure winning with no write; success replaces only the last-login time and address and answers with the tenant, user id, e-mail and role; attempts, `IsActive` and the hash never change |
| LicenceService.GetTenantLicenceByID | src/internal/services/tenant-licence-service.go:21-37 | not found exactly when the tenant has no licence; otherwise every field of a licence of that tenant |
| LicenceService.GetAllTenantLicences | src/internal/services/tenant-licence-service.go:39-41 | the licence table as it is |
| LicenceService.GetTenantLicenceByLicenceKey | src/internal/services/tenant-licence-service.go:43-53 | not found exactly when no licence has the key; otherwise only the id is filled in |
| LicenceService.GetTenantLicenceByTenantID | src/internal/services/tenant-licence-service.go:55-65 | not found exactly when the tenant has no licence; otherwise only the id is filled in |
| LicenceService.ByIDAndByTenantIDAgree | internal/repository/tenant_licence_repository.go:52-58 | the by-id and by-tenant views fail together and name the same licence |
| LicenceService.OverwriteKeepsOwnerAndSeatsInUse | src/internal/services/tenant-licence-service.go:75-80 | overwriting a stored licence leaves every licence's key, tenant and seats in use as they were |
| LicenceService.UpdateTenantLicence | src/internal/services/tenant-licence-service.go:67-81 | not found writes nothing; otherwise key, seats, expiry and update time are overwritten while id, tenant and used seats stay |
| UserService.GetUserByID | internal/service/user_service.go:20-39 | the lookup matches user key = `tenantId` and tenant = `userId`; not found exactly when no such user; the view copies the user's fields |
| UserService.GetAllUsers | internal/service/user_service.go:41-62 | one view per user of the tenant, same length and order, each of that tenant |
| UserService.EditKeepsAccount | internal/service/user_service.go:72-78 | editing a stored user leaves every user's key, tenant, hash and active flag as they were |
| UserService.UpdateUser | internal/service/user_service.go:64-79 | swapped lookup; not found writes nothing; names, e-mail, role (unchecked) and update time overwritten; key, tenant, hash and `IsActive` stay |
| UserService.DeleteUser | internal/service/user_service.go:81-96 | swapped lookup; not found writes nothing; the user's row is deleted and no licence changes |
| TenantService.GetTenantByID | internal/service/tenant_service.go:20-34 | not found exactly when no tenant has the id; the view copies id, name, e-mail, phone and address |
| TenantService.GetAllTenants | internal/service/tenant_service.go:36-53 | one view per tenant, same length and order |
| TenantService.EditKeepsStatus | internal/service/tenant_service.go:63-69 | editing a stored tenant leaves every tenant's key, active flag and deletion time as they were |
| TenantService.UpdateTenant | internal/service/tenant_service.go:55-70 | not found writes nothing; name, e-mail, phone, address and update time overwritten with no domain re-check; key, `IsActive` and deletion stay |
| TenantService.DeleteTenant | internal/service/tenant_service.go:72-85 | not found writes nothing; the tenant's row is deleted, its users and licence stay |
| Scenarios.FirstTenantIsRefused | src/internal/services/user-registration-service.go:31-35 | on an empty database every tenant registration returns already-exists |
| Scenarios.SameDomainTenantIsProvisioned | src/internal/services/user-registration-service.go:31-35 | a second tenant at an existing domain is provisioned, leaving two tenants on it |
| Scenarios.TenantOrphanedWhenLicenceFails | src/internal/services/user-registration-service.go:49-64 | a refused licence write leaves the new tenant with no licence and no admin |
| Scenarios.SeatLeakedWhenHashingFails | src/internal/services/user-registration-service.go:122-130 | a hashing failure leaves the seat taken and no user added |
| Scenarios.SeatCountGoesNegative | src/internal/services/user-registration-service.go:178-181 | deleting a user from a licence with no seat in use leaves `UsedSeats == -1` |
| Scenarios.LicenceUpdateOvercommits | src/internal/services/tenant-licence-service.go:75-80 | an update can leave more seats used than licensed and changes the key |
| Scenarios.UserLookupIsSwapped | internal/service/user_service.go:20-21 | user 1 of tenant 2 is not found as (tenant 2, user 1) but is found as (tenant 1, user 2) |
| Scenarios.InactiveUserLogsIn | src/internal/services/login-service.go:22-54 | an inactive user past the attempt limit still logs in |

## Left out

- Lookup errors other than not-found, which the code passes through unchanged: the model's lookups only find a row or report not found. A refused write is `DatabaseError`.
- The bcrypt hash and compare, uuid generation and the clock are parameters, not code.
- `time.Now()` is read several times in one Go call; the model uses one `now` per call.
- GORM semantics:
  - soft-delete scoping of `First`, `Find` and `Delete` (the model structs are not part of this model);
  - `Save` inserting a row whose key is absent: `Update` only replaces;
  - the store filling in `UpdatedAt` on its own.
- `LIKE` wildcard characters inside a domain, and case-insensitive collation: the suffix match compares characters exactly.
- `Find` (`GetAll`) issues no ORDER BY, so the database returns its rows in an unspecified order; the model uses key order.
- The `user_id` column in the user `GetByID` query is taken to be the user's primary key.
- Concurrency: the read-check-write race on `UsedSeats`, transactions and locking. The model is sequential.
- Go's 64-bit `int` and `uint` wrap-around: seat counts and ids are unbounded integers.
- `Repository.Store.DeleteUser`, `Repository.Store.DeleteTenant`: the fields set just before `Delete` are not kept, because the row leaves the table.
- `GetAllWithUsers` and `GetAllWithTenant` (eager loading of associations): not used by the core services.
- The tenant repository's `GetAll` is the tenant table itself, read by `TenantService.GetAllTenants`.
- The `src/internal/repositories` package used by the registration and login services is not part of this model. Those services are modelled against the repositories in `internal/repository`, so the registration `DeleteUser` lookup is swapped in the same way.
- The tenant created by registration has `IsActive` false (Go's zero value), since no column default is known.
- Login lockout: the code does not implement it, so it is not modelled.
- HTTP handlers, JSON binding, JWT middleware, dependency wiring and schema migration.
