/** Request and response records exchanged with the services' callers. */
module Dto {
  import opened Wrappers
  import opened Config

  datatype UserRegistration = UserRegistration(
    firstName: string,
    lastName: string,
    email: string,
    password: string)

  datatype TenantRegistration = TenantRegistration(
    name: string,
    email: string,
    phone: string,
    address: string,
    admin: UserRegistration)

  datatype TenantLicenceResponse = TenantLicenceResponse(
    id: nat,
    tenantId: nat,
    licenceKey: string,
    licencedSeats: int,
    usedSeats: int,
    expiryDate: Option<Time>)

  datatype TenantLicenceUpdateRequest = TenantLicenceUpdateRequest(
    licenceKey: string,
    licencedSeats: int,
    expiryDate: Option<Time>)

  datatype UserResponse = UserResponse(
    id: nat,
    tenantId: nat,
    firstName: string,
    lastName: string,
    email: string,
    role: string,
    isActive: bool,
    lastLoginAt: Option<Time>,
    createdAt: Time)

  datatype UserUpdateRequest = UserUpdateRequest(
    id: nat,
    tenantId: nat,
    firstName: string,
    lastName: string,
    email: string,
    role: string)

  datatype TenantResponse = TenantResponse(
    id: nat,
    name: string,
    email: string,
    phone: string,
    address: string)

  datatype TenantRequest = TenantRequest(
    name: string,
    email: string,
    phone: string,
    address: string)

  datatype LoginRequest = LoginRequest(email: string, password: string)

  datatype LoginResponse = LoginResponse(tenantId: nat, userId: nat, email: string, role: string)
}
