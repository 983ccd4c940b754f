/**
 * Roles, error kinds and policy constants of the auth server
 * (internal/config/config.go). The `src` copy of this file lacks the four
 * licence errors that the registration service returns (licence not found,
 * exceeded, expired, and failed to create), so the fuller list is the one
 * modelled.
 */
module Config {

  /** A point in time; `time.Now()` becomes a parameter of each operation. */
  type Time = int

  const SuperAdminRole: string := "super_admin"
  const AdminRole: string := "admin"
  const TenantAdminRole: string := "tenant_admin"
  const TenantUserRole: string := "tenant_user"

  /** Declared by the configuration; no operation of the server reads it. */
  const MaxFailedLoginAttempts: int := 3

  datatype Error =
    | FailedToCreateTenant
    | FailedToCreateUser
    | FailedToHashPassword
    | TenantAlreadyExists
    | UserAlreadyExists
    | UserNotFound
    | InvalidPassword
    | TenantNotFound
    | TenantLicenceNotFound
    | TenantLicenceExceeded
    | TenantLicenceExpired
    | FailedToCreateTenantLicence
      /** An error of the database itself, which the services pass on unchanged. */
    | DatabaseError

  /** A value or the error that replaced it (Go's `(T, error)` pair). */
  datatype Result<+T> = Ok(value: T) | Err(error: Error)

  /** The three tables; a call says which of them refuse its writes. */
  datatype Table = TenantTable | UserTable | LicenceTable
}
