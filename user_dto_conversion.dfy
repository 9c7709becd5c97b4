/**
 * The Users service's DTO conversions: request records to entities and entities to
 * response records, for users and for addresses. Every Java field is a reference that
 * may be null, so every field is an `Option`. Each conversion fills a new object field by
 * field and does nothing else.
 */
module UserDtoConversion {
  import opened Optional

  /** A Java `Double`, carried as its IEEE 754 bit pattern and only ever copied. */
  datatype Double = Double(bits: bv64)

  datatype UserRequest = UserRequest(
    userName: Option<string>,
    userPassword: Option<string>,
    phoneNumber: Option<string>,
    userEmail: Option<string>,
    userRole: Option<string>)

  /** The `User` entity. */
  datatype User = User(
    userId: Option<int>,
    userName: Option<string>,
    userPassword: Option<string>,
    phoneNumber: Option<string>,
    userEmail: Option<string>,
    userRole: Option<string>,
    wallet: Option<Double>)

  /** The user as the service answers with it; it has no role. */
  datatype UserResponse = UserResponse(
    userId: Option<int>,
    userEmail: Option<string>,
    userName: Option<string>,
    phoneNumber: Option<string>,
    userPassword: Option<string>,
    wallet: Option<Double>)

  datatype AddressRequest = AddressRequest(
    street: Option<string>,
    city: Option<string>,
    state: Option<string>,
    zipCode: Option<int>,
    country: Option<string>,
    userId: Option<int>)

  /** The `Address` entity; its id is assigned when it is saved. */
  datatype Address = Address(
    addressId: Option<int>,
    street: Option<string>,
    city: Option<string>,
    state: Option<string>,
    zipCode: Option<int>,
    country: Option<string>,
    userId: Option<int>)

  datatype AddressResponse = AddressResponse(
    street: Option<string>,
    city: Option<string>,
    state: Option<string>,
    zipCode: Option<int>,
    country: Option<string>,
    userId: Option<int>)

  /** The values a freshly constructed `new User()` is taken to start with: every field
      null. The entity's own initialisers are not part of this model; if it starts the
      wallet at the default amount, only this constant changes. */
  const NEW_USER: User := User(None, None, None, None, None, None, None)

  /** The values a freshly constructed `new Address()` is taken to start with: every
      field null. The entity's own initialisers are not part of this model. */
  const NEW_ADDRESS: Address := Address(None, None, None, None, None, None, None)

  /** `convertUserRequestToUser`: the request's five fields are copied; the id and the
      wallet keep the values a new `User` starts with. */
  function ConvertUserRequestToUser(userRequest: UserRequest): (user: User)
    ensures user.userName == userRequest.userName
    ensures user.userPassword == userRequest.userPassword
    ensures user.phoneNumber == userRequest.phoneNumber
    ensures user.userEmail == userRequest.userEmail
    ensures user.userRole == userRequest.userRole
    ensures user.userId == NEW_USER.userId && user.wallet == NEW_USER.wallet
  {
    NEW_USER.(userName := userRequest.userName,
              userPassword := userRequest.userPassword,
              phoneNumber := userRequest.phoneNumber,
              userEmail := userRequest.userEmail,
              userRole := userRequest.userRole)
  }

  /** `userToUserResponse`: six fields are copied; the role is not carried. */
  function UserToUserResponse(user: User): (response: UserResponse)
    ensures response.userId == user.userId
    ensures response.userEmail == user.userEmail
    ensures response.userName == user.userName
    ensures response.phoneNumber == user.phoneNumber
    ensures response.userPassword == user.userPassword
    ensures response.wallet == user.wallet
  {
    UserResponse(user.userId, user.userEmail, user.userName, user.phoneNumber, user.userPassword, user.wallet)
  }

  /** `convertAddressRequestToAddress`: all six fields are copied, nulls included; the id
      is left as a new `Address` has it. */
  function ConvertAddressRequestToAddress(addressRequest: AddressRequest): (address: Address)
    ensures address.street == addressRequest.street
    ensures address.city == addressRequest.city
    ensures address.state == addressRequest.state
    ensures address.zipCode == addressRequest.zipCode
    ensures address.country == addressRequest.country
    ensures address.userId == addressRequest.userId
    ensures address.addressId == NEW_ADDRESS.addressId
  {
    NEW_ADDRESS.(street := addressRequest.street,
                 city := addressRequest.city,
                 state := addressRequest.state,
                 zipCode := addressRequest.zipCode,
                 country := addressRequest.country,
                 userId := addressRequest.userId)
  }

  /** `addressToAddressResponse`: the same six fields are copied; the id is not carried. */
  function AddressToAddressResponse(address: Address): (response: AddressResponse)
    ensures response.street == address.street
    ensures response.city == address.city
    ensures response.state == address.state
    ensures response.zipCode == address.zipCode
    ensures response.country == address.country
    ensures response.userId == address.userId
  {
    AddressResponse(address.street, address.city, address.state, address.zipCode, address.country, address.userId)
  }

  // ---------------------------------------------------------------------------------
  // What the conversions keep and what they drop.

  /** Reads the request an address response was built from; the reference the address
      round trip is checked against. */
  function AddressRequestOf(response: AddressResponse): AddressRequest
  {
    AddressRequest(response.street, response.city, response.state, response.zipCode, response.country, response.userId)
  }

  /** An address request survives the trip to an entity and on to a response: every one
      of its six fields comes back unchanged. */
  lemma AddressRoundTrip(addressRequest: AddressRequest)
    ensures AddressRequestOf(AddressToAddressResponse(ConvertAddressRequestToAddress(addressRequest))) == addressRequest
  {
  }

  /** Two addresses give the same response exactly when they differ at most in the id. */
  lemma AddressResponseForgetsOnlyId(a: Address, b: Address)
    ensures AddressToAddressResponse(a) == AddressToAddressResponse(b) <==>
              a.(addressId := None) == b.(addressId := None)
  {
  }

  /** Different user requests give different users: nothing of a request is dropped. */
  lemma ConvertUserRequestToUserInjective(p: UserRequest, q: UserRequest)
    ensures ConvertUserRequestToUser(p) == ConvertUserRequestToUser(q) <==> p == q
  {
  }

  /** Two users give the same response exactly when they differ at most in the role. */
  lemma UserResponseForgetsOnlyRole(u: User, v: User)
    ensures UserToUserResponse(u) == UserToUserResponse(v) <==>
              u.(userRole := None) == v.(userRole := None)
  {
  }

  /** A user request, converted to an entity and on to a response, keeps its name,
      password, phone and email; the id and wallet are a new user's; the role is gone. */
  lemma UserRoundTrip(userRequest: UserRequest)
    ensures UserToUserResponse(ConvertUserRequestToUser(userRequest))
              == UserResponse(NEW_USER.userId, userRequest.userEmail, userRequest.userName,
                              userRequest.phoneNumber, userRequest.userPassword, NEW_USER.wallet)
  {
  }

  /** Requests whose fields are all null are not rejected: they convert to entities whose
      fields are all null (or, for the user, a new user's defaults). */
  lemma AllNullRequestsConvert()
    ensures ConvertUserRequestToUser(UserRequest(None, None, None, None, None)) == NEW_USER
    ensures ConvertAddressRequestToAddress(AddressRequest(None, None, None, None, None, None)) == NEW_ADDRESS
  {
  }
}
