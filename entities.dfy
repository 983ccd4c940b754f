/** The three stored records: tenants, their users and their licences. */
module Entities {
  import opened Wrappers
  import opened Config

  datatype Tenant = Tenant(
    id: nat,
    name: string,
    email: string,
    phone: string,
    address: string,
    isActive: bool,
    createdAt: Time,
    updatedAt: Time,
    deletedAt: Option<Time>)

  datatype User = User(
    id: nat,
    tenantId: nat,
    firstName: string,
    lastName: string,
    email: string,
    passwordHash: string,
    failedLoginAttempts: int,
    isActive: bool,
    role: string,
    lastLoginAt: Option<Time>,
    lastLoginIp: string,
    resetPasswordToken: string,
    resetPasswordTokenExpiresAt: Option<Time>,
    isEmailVerified: bool,
    emailVerificationToken: string,
    emailVerificationTokenExpiresAt: Option<Time>,
    createdAt: Time,
    updatedAt: Time,
    deletedAt: Option<Time>)

  /** `expiryDate == None` means the licence never expires. */
  datatype TenantLicence = TenantLicence(
    id: nat,
    tenantId: nat,
    licenceKey: string,
    licencedSeats: int,
    usedSeats: int,
    expiryDate: Option<Time>,
    createdAt: Time,
    updatedAt: Time)

  /** Primary keys, as the tables see them. */
  function TenantKey(t: Tenant): nat { t.id }
  function UserKey(u: User): nat { u.id }
  function LicenceKey(l: TenantLicence): nat { l.id }

  /** The seat invariant the licence is meant to keep. */
  ghost predicate SeatsWithinLicence(l: TenantLicence)
  {
    0 <= l.usedSeats <= l.licencedSeats
  }

  /** `ExpiryDate.Before(now)`: a set expiry date strictly before `now`. */
  predicate Expired(l: TenantLicence, now: Time)
  {
    l.expiryDate.Some? && l.expiryDate.value < now
  }
}
