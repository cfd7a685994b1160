/**
 * The enrollment service: the postal-code lookup classifier, the read
 * projection of a user's enrollment with its address, the address payload
 * helper, and the create-or-update orchestration over the two repositories.
 *
 * The lookup endpoint's reply (an HTTP client response object with `status`,
 * `statusText` and `data`) is an input value: the outbound call is not part
 * of this model.
 */
module EnrollmentsService {
  import opened Js
  import opened Results
  import opened Repositories

  /** The keys of the address a lookup resolves to, in the endpoint's naming. */
  const LookupFields: set<string> := {"logradouro", "complemento", "bairro", "localidade", "uf"}

  /** Enrollment keys the read projection leaves out. */
  const EnrollmentHidden: set<string> := {"userId", "createdAt", "updatedAt", "Address"}

  /** Address keys the read projection leaves out. */
  const AddressHidden: set<string> := {"createdAt", "updatedAt", "enrollmentId"}

  /** A reply that is an object at all: reading a property of it does not throw. */
  predicate Answered(reply: Value)
  {
    reply != Undefined && reply != Null
  }

  /** The endpoint marks a well-formed but unknown postal code with an `erro` key. */
  predicate FlaggedNotFound(v: Value)
  {
    v.Obj? && "erro" in v.fields
  }

  /** A reply shaped like the endpoint's: a status, its text and a payload. */
  function LookupReply(status: int, statusText: string, data: Value): Value
  {
    Obj(map["status" := Num(status), "statusText" := Str(statusText), "data" := data])
  }

  // ---------------------------------------------------------------------------
  // getAddressFromCEP
  // ---------------------------------------------------------------------------

  /**
   * Classifies the lookup reply: status 400 is a RequestError carrying the
   * reply's status and status text; an empty payload or one flagged `erro` is
   * a NotFoundError; a non-empty primitive payload makes the `in` test throw;
   * an object or array payload yields the five address fields.
   */
  function GetAddressFromCep(reply: Value): (r: Result<Record>)
    ensures !Answered(reply) ==> r == Err(TypeError)
    ensures Answered(reply) && Get(reply, "status") == Num(400) ==>
              r == Err(RequestError(400, Get(reply, "statusText")))
    ensures r == Err(NotFoundError) <==>
              && Answered(reply) && Get(reply, "status") != Num(400)
              && (!Truthy(Get(reply, "data")) || FlaggedNotFound(Get(reply, "data")))
    ensures r.Ok? <==>
              && Answered(reply) && Get(reply, "status") != Num(400)
              && (Get(reply, "data").Obj? || Get(reply, "data").Arr?)
              && !FlaggedNotFound(Get(reply, "data"))
    ensures (&& Answered(reply) && Get(reply, "status") != Num(400) && Truthy(Get(reply, "data"))
             && !(Get(reply, "data").Obj? || Get(reply, "data").Arr?)) ==> r == Err(TypeError)
    ensures r.Ok? ==> r.value.Keys == LookupFields
    ensures r.Ok? ==> forall k :: k in LookupFields ==> r.value[k] == Get(Get(reply, "data"), k)
  {
    match Prop(reply, "status")
    case Throws => Err(TypeError)
    case Done(status) =>
      if status == Num(400) then
        Err(RequestError(400, Get(reply, "statusText")))
      else
        var data := Get(reply, "data");
        if !Truthy(data) then
          Err(NotFoundError)
        else
          match HasKey(data, "erro")
          case Throws => Err(TypeError)
          case Done(flagged) =>
            if flagged then
              Err(NotFoundError)
            else
              Ok(map["logradouro" := Get(data, "logradouro"),
                     "complemento" := Get(data, "complemento"),
                     "bairro" := Get(data, "bairro"),
                     "localidade" := Get(data, "localidade"),
                     "uf" := Get(data, "uf")])
  }

  /** A status-400 reply is classified from the status line alone: the payload is never read. */
  lemma RequestErrorIgnoresPayload(statusText: string, data1: Value, data2: Value)
    ensures GetAddressFromCep(LookupReply(400, statusText, data1))
         == GetAddressFromCep(LookupReply(400, statusText, data2))
         == Err(RequestError(400, Str(statusText)))
  {
  }

  /** A resolved address served back by the endpoint is returned unchanged. */
  lemma LookupRoundTrip(status: int, statusText: string, address: Record)
    requires status != 400
    requires address.Keys == LookupFields
    ensures GetAddressFromCep(LookupReply(status, statusText, Obj(address))) == Ok(address)
  {
    var r := GetAddressFromCep(LookupReply(status, statusText, Obj(address)));
    assert r.Ok?;
    assert r.value.Keys == address.Keys;
    assert forall k :: k in address ==> r.value[k] == address[k];
    assert r.value == address;
  }

  // ---------------------------------------------------------------------------
  // getOneWithAddressByUserId and getFirstAddress
  // ---------------------------------------------------------------------------

  /** The first address without its bookkeeping keys, or null when there is none. */
  function GetFirstAddress(first: Value): (r: Value)
    ensures Truthy(r) <==> Truthy(first)
    ensures !Truthy(first) ==> r == Null
    ensures Truthy(first) ==> r.Obj? && r.fields.Keys == Spread(first).Keys - AddressHidden
    ensures Truthy(first) ==> forall k :: k in r.fields ==> r.fields[k] == Spread(first)[k]
  {
    if !Truthy(first) then Null else Obj(Exclude(Spread(first), AddressHidden))
  }

  /**
   * What the read returns for an enrollment row and its address row: every
   * enrollment key but the hidden ones, with its value, and an `address` key
   * holding the address without its bookkeeping keys, present exactly when
   * there is an address (or the row itself carries an `address` key).
   */
  predicate IsEnrollmentView(view: Record, row: Record, address: Option<Record>)
  {
    && view.Keys == (row.Keys - EnrollmentHidden) + (if address.Some? then {"address"} else {})
    && (forall k :: k in row && k !in EnrollmentHidden && k != "address" ==> view[k] == row[k])
    && (address.Some? ==> view["address"] == Obj(Exclude(address.value, AddressHidden)))
    && (address.None? && "address" in row ==> view["address"] == row["address"])
  }

  /**
   * getOneWithAddressByUserId: the user's enrollment view, NotFoundError when
   * there is no enrollment, or the store's error when the query throws
   * (`readFails`).
   */
  function GetOneWithAddressByUserId(byUser: map<int, Record>, byEnrollment: map<int, Record>, userId: int,
                                     readFails: bool)
    : (r: Result<Record>)
    ensures r.Err? <==> readFails || userId !in byUser
    ensures readFails ==> r == Err(StoreError)
    ensures !readFails && userId !in byUser ==> r == Err(NotFoundError)
    ensures r.Ok? ==> IsEnrollmentView(r.value, byUser[userId], AddressOf(byEnrollment, byUser[userId]))
  {
    if readFails then Err(StoreError)
    else match FindWithAddressByUserId(byUser, byEnrollment, userId)
    case None => Err(NotFoundError)
    case Some(found) =>
      var address := GetFirstAddress(First(Get(Obj(found), "Address")));
      Ok(Exclude(found, EnrollmentHidden) + (if Truthy(address) then map["address" := address] else map[]))
  }

  /** An enrollment without an address reads back with no `address` key at all. */
  lemma NoAddressNoKey(byUser: map<int, Record>, byEnrollment: map<int, Record>, userId: int)
    requires userId in byUser && "address" !in byUser[userId]
    requires AddressOf(byEnrollment, byUser[userId]).None?
    ensures GetOneWithAddressByUserId(byUser, byEnrollment, userId, false).Ok?
    ensures "address" !in GetOneWithAddressByUserId(byUser, byEnrollment, userId, false).value
  {
  }

  // ---------------------------------------------------------------------------
  // getAddressForUpsert
  // ---------------------------------------------------------------------------

  /**
   * The address payload for both the create and the update: the submitted
   * address spread, with `addressDetail` written again when it is truthy,
   * which leaves every key and value as submitted.
   */
  function GetAddressForUpsert(address: Value): (r: Record)
    ensures r == Spread(address)
    ensures address.Obj? ==> r.Keys == address.fields.Keys
  {
    var detail := Get(address, "addressDetail");
    Spread(address) + (if Truthy(detail) then map["addressDetail" := detail] else map[])
  }

  // ---------------------------------------------------------------------------
  // createOrUpdateEnrollmentWithAddress
  // ---------------------------------------------------------------------------

  /** What the upsert reports: 201 Created, or 400 Bad Request with its error body. */
  datatype Outcome = Created | BadRequest(error: Error)

  /** Whether each repository call throws; the service cannot see why. */
  datatype StoreFaults = StoreFaults(enrollmentUpsertFails: bool, addressUpsertFails: bool)

  /** The enrollment create payload: the parameters without `address`. */
  function EnrollmentPayload(params: Record): (p: Record)
    ensures p.Keys == params.Keys - {"address"}
    ensures forall k :: k in p ==> p[k] == params[k]
  {
    Exclude(params, {"address"})
  }

  /** The address payload, taken from `params.address`. */
  function AddressPayload(params: Record): Record
  {
    GetAddressForUpsert(Get(Obj(params), "address"))
  }

  /**
   * The gate in front of the writes, as written: it tests the reply object
   * itself, not its payload, for emptiness and for the `erro` flag.
   */
  function ReplyGate(reply: Value): (r: Result<()>)
    ensures r.Ok? <==> (reply.Obj? || reply.Arr?) && Get(reply, "status") != Num(400) && !FlaggedNotFound(reply)
    ensures Answered(reply) && Get(reply, "status") == Num(400) ==>
              r == Err(RequestError(400, Get(reply, "statusText")))
  {
    match Prop(reply, "status")
    case Throws => Err(TypeError)
    case Done(status) =>
      if status == Num(400) then
        Err(RequestError(400, Get(reply, "statusText")))
      else if !Truthy(reply) then
        Err(NotFoundError)
      else
        match HasKey(reply, "erro")
        case Throws => Err(TypeError)
        case Done(flagged) => if flagged then Err(NotFoundError) else Ok(())
  }

  /** The reply the endpoint gives for an unknown postal code gets through the gate as written. */
  lemma GateAdmitsUnknownCep()
    ensures var reply := LookupReply(200, "OK", Obj(map["erro" := Bool(true)]));
            ReplyGate(reply).Ok? && GetAddressFromCep(reply) == Err(NotFoundError)
  {
  }

  /** The gate as written never looks at the payload. */
  lemma GateIgnoresPayload(status: int, statusText: string, data1: Value, data2: Value)
    ensures ReplyGate(LookupReply(status, statusText, data1)) == ReplyGate(LookupReply(status, statusText, data2))
  {
  }

  /**
   * The gate as intended: the reply must resolve through the lookup
   * classifier, so an empty or flagged payload is turned away.
   */
  function IntendedReplyGate(reply: Value): (r: Result<()>)
    ensures r.Ok? ==> Truthy(Get(reply, "data")) && !FlaggedNotFound(Get(reply, "data"))
    ensures r.Ok? <==> GetAddressFromCep(reply).Ok?
    ensures r.Err? ==> r.error == GetAddressFromCep(reply).error
  {
    match GetAddressFromCep(reply)
    case Ok(_) => Ok(())
    case Err(e) => Err(e)
  }

  /**
   * Every object reply the intended gate admits, and that carries no `erro`
   * key of its own, the gate as written admits too.
   */
  lemma IntendedGateIsStricter(reply: Value)
    requires IntendedReplyGate(reply).Ok?
    requires !FlaggedNotFound(reply) && reply.Obj?
    ensures ReplyGate(reply).Ok?
  {
  }

  /** The enrollment rows after the enrollment upsert of a submission. */
  function EnrollmentsAfter(byUser: map<int, Record>, nextId: int, userId: int, enrollment: Record, now: int)
    : map<int, Record>
  {
    UpsertRow(byUser, userId, enrollment, Exclude(enrollment, {"userId"}),
              EnrollmentOwned(nextId, now), EnrollmentStoreKeys, now)
  }

  /** The address rows after the address upsert of a submission under an enrollment id. */
  function AddressesAfter(byEnrollment: map<int, Record>, nextId: int, enrollmentId: int, address: Record, now: int)
    : map<int, Record>
  {
    UpsertRow(byEnrollment, enrollmentId, address, address,
              AddressOwned(nextId, enrollmentId, now), AddressStoreKeys, now)
  }

  /**
   * The body of the `try` once the gate has passed: upsert the enrollment
   * under the user id, then the address under the id of the enrollment the
   * first upsert returned. A failing address upsert keeps the enrollment write.
   */
  method UpsertEnrollmentAndAddress(enrollments: EnrollmentRepository, addresses: AddressRepository,
                                    userId: int, enrollment: Record, address: Record,
                                    faults: StoreFaults, now: int)
    returns (outcome: Outcome)
    requires enrollments.Valid() && addresses.Valid() && Linked(enrollments, addresses)
    modifies enrollments, addresses
    ensures enrollments.Valid() && addresses.Valid() && Linked(enrollments, addresses)
    ensures outcome == Created <==> !faults.enrollmentUpsertFails && !faults.addressUpsertFails
    ensures outcome != Created ==> outcome == BadRequest(InvalidDataError)
    ensures faults.enrollmentUpsertFails ==> enrollments.byUser == old(enrollments.byUser) && addresses.byEnrollment == old(addresses.byEnrollment)
    ensures !faults.enrollmentUpsertFails ==>
              && enrollments.byUser == EnrollmentsAfter(old(enrollments.byUser), old(enrollments.nextId), userId, enrollment, now)
              && HasId(enrollments.byUser[userId])
              && (userId in old(enrollments.byUser) ==>
                    IdOf(enrollments.byUser[userId]) == IdOf(old(enrollments.byUser)[userId]))
    ensures !faults.enrollmentUpsertFails && faults.addressUpsertFails ==> addresses.byEnrollment == old(addresses.byEnrollment)
    ensures !faults.enrollmentUpsertFails && !faults.addressUpsertFails ==>
              addresses.byEnrollment == AddressesAfter(old(addresses.byEnrollment), old(addresses.nextId),
                                                       IdOf(enrollments.byUser[userId]), address, now)
  {
    var newEnrollment := enrollments.Upsert(userId, enrollment, Exclude(enrollment, {"userId"}), now,
                                            faults.enrollmentUpsertFails);
    if newEnrollment.Err? {
      return BadRequest(InvalidDataError);
    }
    var enrollmentId := IdOf(newEnrollment.value);
    assert enrollmentId in IdsOf(enrollments.byUser);
    var newAddress := addresses.Upsert(enrollmentId, address, address, now, faults.addressUpsertFails);
    if newAddress.Err? {
      return BadRequest(InvalidDataError);
    }
    outcome := Created;
  }

  /**
   * createOrUpdateEnrollmentWithAddress as written: nothing is written unless
   * the reply passes the gate; then both upserts run in order, and any
   * failure is reported as 400 with the invalid-data error.
   */
  method CreateOrUpdateEnrollmentWithAddress(enrollments: EnrollmentRepository, addresses: AddressRepository,
                                             params: Record, reply: Value, faults: StoreFaults, now: int)
    returns (outcome: Outcome)
    requires enrollments.Valid() && addresses.Valid() && Linked(enrollments, addresses)
    requires "userId" in params && params["userId"].Num?
    modifies enrollments, addresses
    ensures enrollments.Valid() && addresses.Valid() && Linked(enrollments, addresses)
    ensures outcome == Created || outcome == BadRequest(InvalidDataError)
    ensures ReplyGate(reply).Err? ==> outcome != Created && enrollments.byUser == old(enrollments.byUser) && addresses.byEnrollment == old(addresses.byEnrollment)
    ensures outcome == Created <==> ReplyGate(reply).Ok? && !faults.enrollmentUpsertFails && !faults.addressUpsertFails
    ensures ReplyGate(reply).Ok? && faults.enrollmentUpsertFails ==> enrollments.byUser == old(enrollments.byUser) && addresses.byEnrollment == old(addresses.byEnrollment)
    ensures ReplyGate(reply).Ok? && !faults.enrollmentUpsertFails ==>
              && enrollments.byUser == EnrollmentsAfter(old(enrollments.byUser), old(enrollments.nextId),
                                                        params["userId"].n, EnrollmentPayload(params), now)
              && HasId(enrollments.byUser[params["userId"].n])
              && addresses.byEnrollment ==
                   if faults.addressUpsertFails then old(addresses.byEnrollment)
                   else AddressesAfter(old(addresses.byEnrollment), old(addresses.nextId),
                                       IdOf(enrollments.byUser[params["userId"].n]), AddressPayload(params), now)
  {
    var enrollment := EnrollmentPayload(params);
    var address := AddressPayload(params);
    var gate := ReplyGate(reply);
    if gate.Err? {
      return BadRequest(InvalidDataError);
    }
    outcome := UpsertEnrollmentAndAddress(enrollments, addresses, params["userId"].n, enrollment, address, faults, now);
  }

  /**
   * The same operation with the intended gate: a postal code the lookup
   * rejects or does not know is never written.
   */
  method CreateOrUpdateEnrollmentWithAddressIntended(enrollments: EnrollmentRepository, addresses: AddressRepository,
                                                     params: Record, reply: Value, faults: StoreFaults, now: int)
    returns (outcome: Outcome)
    requires enrollments.Valid() && addresses.Valid() && Linked(enrollments, addresses)
    requires "userId" in params && params["userId"].Num?
    modifies enrollments, addresses
    ensures enrollments.Valid() && addresses.Valid() && Linked(enrollments, addresses)
    ensures outcome == Created || outcome == BadRequest(InvalidDataError)
    ensures GetAddressFromCep(reply).Err? ==> outcome != Created && enrollments.byUser == old(enrollments.byUser) && addresses.byEnrollment == old(addresses.byEnrollment)
    ensures outcome == Created <==>
              GetAddressFromCep(reply).Ok? && !faults.enrollmentUpsertFails && !faults.addressUpsertFails
    ensures GetAddressFromCep(reply).Ok? && faults.enrollmentUpsertFails ==> enrollments.byUser == old(enrollments.byUser) && addresses.byEnrollment == old(addresses.byEnrollment)
    ensures GetAddressFromCep(reply).Ok? && !faults.enrollmentUpsertFails ==>
              && enrollments.byUser == EnrollmentsAfter(old(enrollments.byUser), old(enrollments.nextId),
                                                        params["userId"].n, EnrollmentPayload(params), now)
              && HasId(enrollments.byUser[params["userId"].n])
              && addresses.byEnrollment ==
                   if faults.addressUpsertFails then old(addresses.byEnrollment)
                   else AddressesAfter(old(addresses.byEnrollment), old(addresses.nextId),
                                       IdOf(enrollments.byUser[params["userId"].n]), AddressPayload(params), now)
  {
    var enrollment := EnrollmentPayload(params);
    var address := AddressPayload(params);
    var gate := IntendedReplyGate(reply);
    if gate.Err? {
      return BadRequest(InvalidDataError);
    }
    outcome := UpsertEnrollmentAndAddress(enrollments, addresses, params["userId"].n, enrollment, address, faults, now);
  }

  // ---------------------------------------------------------------------------
  // Properties across operations
  // ---------------------------------------------------------------------------

  /**
   * After a submission's address upsert, reading the user back yields an
   * `address` holding every submitted address field (the postal code among
   * them) with the submitted value.
   */
  lemma ReadAfterUpsert(byUser: map<int, Record>, byEnrollment: map<int, Record>, userId: int,
                        address: Record, nextAddressId: int, now: int)
    requires userId in byUser && HasId(byUser[userId])
    ensures var view := GetOneWithAddressByUserId(
                          byUser, AddressesAfter(byEnrollment, nextAddressId, IdOf(byUser[userId]), address, now), userId,
                          false);
            && view.Ok? && "address" in view.value && view.value["address"].Obj?
            && forall k :: k in address && k !in AddressStoreKeys ==>
                 k in view.value["address"].fields && view.value["address"].fields[k] == address[k]
  {
    var id := IdOf(byUser[userId]);
    var rows := AddressesAfter(byEnrollment, nextAddressId, id, address, now);
    assert AddressOf(rows, byUser[userId]) == Some(rows[id]);
  }

  /**
   * A submission for a user who already has an enrollment and an address
   * adds no row: both upserts update in place, the enrollment keeps its id,
   * and both rows take every submitted field the store does not own.
   */
  lemma ResubmissionUpdatesInPlace(byUser: map<int, Record>, enrollmentNextId: int,
                                   byEnrollment: map<int, Record>, addressNextId: int,
                                   userId: int, enrollment: Record, address: Record, now: int)
    requires userId in byUser && HasId(byUser[userId]) && IdOf(byUser[userId]) in byEnrollment
    ensures var users := EnrollmentsAfter(byUser, enrollmentNextId, userId, enrollment, now);
            && users.Keys == byUser.Keys
            && HasId(users[userId]) && IdOf(users[userId]) == IdOf(byUser[userId])
            && forall k :: k in enrollment && k !in EnrollmentStoreKeys && k != "userId" ==>
                 k in users[userId] && users[userId][k] == enrollment[k]
    ensures var id := IdOf(byUser[userId]);
            var rows := AddressesAfter(byEnrollment, addressNextId, id, address, now);
            && rows.Keys == byEnrollment.Keys
            && forall k :: k in address && k !in AddressStoreKeys ==> k in rows[id] && rows[id][k] == address[k]
  {
    var users := EnrollmentsAfter(byUser, enrollmentNextId, userId, enrollment, now);
    assert users[userId] == Updated(byUser[userId], Exclude(enrollment, {"userId"}), EnrollmentStoreKeys, now);
    assert users[userId]["id"] == byUser[userId]["id"];
  }

  /**
   * Two successful submissions for one user leave one enrollment and one
   * address for that user, and both hold the second submission's fields.
   */
  method SubmitTwice(enrollments: EnrollmentRepository, addresses: AddressRepository,
                     params1: Record, params2: Record, reply1: Value, reply2: Value, now1: int, now2: int)
    returns (first: Outcome, second: Outcome)
    requires enrollments.Valid() && addresses.Valid() && Linked(enrollments, addresses)
    requires "userId" in params1 && params1["userId"].Num?
    requires "userId" in params2 && params2["userId"] == params1["userId"]
    modifies enrollments, addresses
    ensures first == Created && second == Created ==>
              var userId := params1["userId"].n;
              && enrollments.byUser.Keys == old(enrollments.byUser).Keys + {userId}
              && HasId(enrollments.byUser[userId])
              && var id := IdOf(enrollments.byUser[userId]);
              && addresses.byEnrollment.Keys == old(addresses.byEnrollment).Keys + {id}
              && (forall k :: k in EnrollmentPayload(params2) && k !in EnrollmentStoreKeys && k != "userId" ==>
                    k in enrollments.byUser[userId] && enrollments.byUser[userId][k] == EnrollmentPayload(params2)[k])
              && forall k :: k in AddressPayload(params2) && k !in AddressStoreKeys ==>
                   k in addresses.byEnrollment[id] && addresses.byEnrollment[id][k] == AddressPayload(params2)[k]
  {
    var noFaults := StoreFaults(false, false);
    var userId := params1["userId"].n;
    first := CreateOrUpdateEnrollmentWithAddress(enrollments, addresses, params1, reply1, noFaults, now1);
    if first == Created {
      ghost var id := IdOf(enrollments.byUser[userId]);
      assert id in addresses.byEnrollment;
      ResubmissionUpdatesInPlace(enrollments.byUser, enrollments.nextId, addresses.byEnrollment, addresses.nextId,
                                 userId, EnrollmentPayload(params2), AddressPayload(params2), now2);
    }
    second := CreateOrUpdateEnrollmentWithAddress(enrollments, addresses, params2, reply2, noFaults, now2);
  }
}
