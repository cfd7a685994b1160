/**
 * The HTTP handlers in front of the enrollment service: each turns a
 * service outcome into a status code and a body.
 */
module EnrollmentsController {
  import opened Js
  import opened Results
  import opened Repositories
  import Service = EnrollmentsService

  const OK := 200
  const NO_CONTENT := 204
  const BAD_REQUEST := 400

  /**
   * What a handler sends: a bare status, a status with a body, or nothing at
   * all (the request is left without a response).
   */
  datatype HttpResponse = SendStatus(status: int) | Send(status: int, body: Value) | NoResponse

  /**
   * getEnrollmentByUser: the user's enrollment view with 200, or 204 when the
   * read fails, whether for a missing enrollment or a store error.
   */
  function GetEnrollmentByUser(byUser: map<int, Record>, byEnrollment: map<int, Record>, userId: int,
                               readFails: bool)
    : (r: HttpResponse)
    ensures r == SendStatus(NO_CONTENT) <==> readFails || userId !in byUser
    ensures !readFails && userId in byUser ==>
              r.Send? && r.status == OK && r.body.Obj?
              && Service.IsEnrollmentView(r.body.fields, byUser[userId], AddressOf(byEnrollment, byUser[userId]))
  {
    match Service.GetOneWithAddressByUserId(byUser, byEnrollment, userId, readFails)
    case Ok(enrollmentWithAddress) => Send(OK, Obj(enrollmentWithAddress))
    case Err(_) => SendStatus(NO_CONTENT)
  }

  /** The parameters handed to the service: the request body, with `userId` set to the authenticated user. */
  function RequestParams(body: Value, userId: int): (params: Record)
    ensures params.Keys == Spread(body).Keys + {"userId"}
    ensures params["userId"] == Num(userId)
    ensures forall k :: k in params && k != "userId" ==> params[k] == body.fields[k]
  {
    Spread(body)["userId" := Num(userId)]
  }

  /** The status postCreateOrUpdateEnrollment sends for what the service call did. */
  function CreateOrUpdateResponse(serviceCall: Result<()>): (r: HttpResponse)
    ensures serviceCall.Ok? ==> r == SendStatus(OK)
    ensures serviceCall.Err? ==> r == SendStatus(BAD_REQUEST)
  {
    match serviceCall
    case Ok(_) => SendStatus(OK)
    case Err(error) =>
      if error == NotFoundError then SendStatus(BAD_REQUEST) else SendStatus(BAD_REQUEST)
  }

  /**
   * postCreateOrUpdateEnrollment, with the service reporting its failures to
   * the handler: 200 when both rows were written, 400 otherwise.
   */
  method PostCreateOrUpdateEnrollment(enrollments: EnrollmentRepository, addresses: AddressRepository,
                                      body: Value, userId: int, reply: Value,
                                      faults: Service.StoreFaults, now: int)
    returns (r: HttpResponse)
    requires enrollments.Valid() && addresses.Valid() && Linked(enrollments, addresses)
    modifies enrollments, addresses
    ensures enrollments.Valid() && addresses.Valid() && Linked(enrollments, addresses)
    ensures r == SendStatus(OK) || r == SendStatus(BAD_REQUEST)
    ensures r == SendStatus(OK) <==>
              Service.ReplyGate(reply).Ok? && !faults.enrollmentUpsertFails && !faults.addressUpsertFails
    ensures Service.ReplyGate(reply).Err? || faults.enrollmentUpsertFails ==>
              enrollments.byUser == old(enrollments.byUser) && addresses.byEnrollment == old(addresses.byEnrollment)
    ensures Service.ReplyGate(reply).Ok? && !faults.enrollmentUpsertFails ==>
              && userId in enrollments.byUser
              && enrollments.byUser == Service.EnrollmentsAfter(old(enrollments.byUser), old(enrollments.nextId), userId,
                                                                Service.EnrollmentPayload(RequestParams(body, userId)), now)
              && HasId(enrollments.byUser[userId])
              && addresses.byEnrollment ==
                   if faults.addressUpsertFails then old(addresses.byEnrollment)
                   else Service.AddressesAfter(old(addresses.byEnrollment), old(addresses.nextId),
                                               IdOf(enrollments.byUser[userId]),
                                               Service.AddressPayload(RequestParams(body, userId)), now)
  {
    var params := RequestParams(body, userId);
    var outcome := Service.CreateOrUpdateEnrollmentWithAddress(enrollments, addresses, params, reply, faults, now);
    var serviceCall := match outcome
                       case Created => Ok(())
                       case BadRequest(error) => Err(error);
    r := CreateOrUpdateResponse(serviceCall);
  }

  /** The `cep` query parameter is usable: a string with something besides white space. */
  predicate CepGiven(cep: Value)
  {
    Truthy(cep) && cep.Str? && Trim(cep.s) != ""
  }

  /** A `cep` is usable exactly when it is a string holding a character `trim` keeps. */
  lemma CepGivenIffNotBlank(cep: Value)
    ensures CepGiven(cep) <==> cep.Str? && !Blank(cep.s)
  {
    if cep.Str? {
      TrimEmptyIffBlank(cep.s);
    }
  }

  /** The address body of a successful lookup, with `localidade` renamed `cidade`. */
  function FormattedAddress(address: Record): (body: Record)
    requires Service.LookupFields <= address.Keys
    ensures body.Keys == {"logradouro", "complemento", "bairro", "cidade", "uf"}
    ensures body["cidade"] == address["localidade"]
    ensures forall k :: k in body && k != "cidade" ==> k in address && body[k] == address[k]
  {
    map["logradouro" := address["logradouro"],
        "complemento" := address["complemento"],
        "bairro" := address["bairro"],
        "cidade" := address["localidade"],
        "uf" := address["uf"]]
  }

  /**
   * getAddressFromCEP: 400 for a missing or blank `cep` (the lookup is not
   * consulted), the formatted address with 200, 204 for an unknown postal
   * code, and no response at all for any other failure.
   */
  function GetAddressFromCep(cep: Value, reply: Value): (r: HttpResponse)
    ensures !cep.Str? || Blank(cep.s) ==> r == SendStatus(BAD_REQUEST)
    ensures cep.Str? && !Blank(cep.s) ==>
              match Service.GetAddressFromCep(reply)
              case Ok(address) => r == Send(OK, Obj(FormattedAddress(address)))
              case Err(NotFoundError) => r == SendStatus(NO_CONTENT)
              case Err(_) => r == NoResponse
  {
    CepGivenIffNotBlank(cep);
    if !CepGiven(cep) then
      SendStatus(BAD_REQUEST)
    else
      var lookup := Service.GetAddressFromCep(reply);
      match lookup
      case Ok(address) =>
        if !Truthy(Obj(address)) then SendStatus(NO_CONTENT)
        else Send(OK, Obj(FormattedAddress(address)))
      case Err(error) =>
        if error == NotFoundError then SendStatus(NO_CONTENT) else NoResponse
  }

  /** A lookup served for a usable `cep` reaches the client with the city under `cidade`. */
  lemma CityReachesClient(cep: string, status: int, statusText: string, address: Record)
    requires !Blank(cep)
    requires status != 400
    requires address.Keys == Service.LookupFields
    ensures var r := GetAddressFromCep(Str(cep), Service.LookupReply(status, statusText, Obj(address)));
            r.Send? && r.status == OK && r.body.Obj? && r.body.fields["cidade"] == address["localidade"]
  {
    Service.LookupRoundTrip(status, statusText, address);
  }
}
