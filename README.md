# Enrollment service and controller, modelled in Dafny

This project models the enrollment part of an event-registration back end.
A user's enrollment (name, document, birthday, phone) is stored with one
postal address. Postal codes (CEPs) are checked against a ViaCEP-style lookup
endpoint.

The service, `src/services/enrollments-service/index.ts`, does four things:

- `getAddressFromCEP` turns the lookup reply into a `RequestError`, a
  `NotFoundError` or the five address fields.
- `getOneWithAddressByUserId` reads a user's enrollment and its first address,
  without the bookkeeping keys.
- `getAddressForUpsert` builds the address payload.
- `createOrUpdateEnrollmentWithAddress` gates on the lookup reply. It then
  upserts the enrollment under the user id, and the address under the id of
  that enrollment.

The controller, `src/controllers/enrollments-controller.ts`, turns each
service outcome into an HTTP status and body.

Files:

- `js.dfy` (module `Js`): the JavaScript value semantics the code relies on.
  That covers objects as `map<string, Value>` records, truthiness, property
  reads that throw on `undefined`/`null`, the `in` operator, object spread,
  `exclude` as "a copy without these keys", and `String.prototype.trim`.
- `results.dfy` (module `Results`): the error kinds of `@/errors`, plus
  `Result` and `Option`.
- `repositories.dfy` (module `Repositories`): the two stores as classes whose
  map fields the upserts reassign. Enrollments are keyed by user id; addresses
  are keyed by enrollment id. The store owns `id`, `createdAt`, `updatedAt`
  and (for addresses) `enrollmentId`. Each class keeps an invariant: ids are
  present, below the next id, and unique; every address points back at its
  key. `Linked` ties the two stores: every address belongs to an existing
  enrollment.
- `enrollments_service.dfy` (module `EnrollmentsService`): the service. The
  classifier, the gate and the projection are pure functions. The
  create-or-update is a method over the two repository objects.
- `enrollments_controller.dfy` (module `EnrollmentsController`): the three
  handlers.

Inputs that stand in for what the code cannot see:

- the lookup reply (a `Value`);
- whether each repository call throws (`StoreFaults`);
- the clock (`now`).

## Model

| member | source | states |
|---|---|---|
| `EnrollmentsService.GetAddressFromCep` | src/services/enrollments-service/index.ts:11-34 | An `undefined` or `null` reply throws a TypeError. Status 400 gives `RequestError(400, statusText)`. Otherwise, an empty payload or one holding `erro` gives `NotFoundError`, and these are the only NotFound cases. A non-empty primitive payload makes the `'erro' in data` test throw a TypeError. The result is an address exactly when the payload is an object or array without `erro`; its keys are exactly `logradouro`, `complemento`, `bairro`, `localidade`, `uf`, each read unchanged from the payload |
| `EnrollmentsService.RequestErrorIgnoresPayload` | src/services/enrollments-service/index.ts:14-16 | For status 400 the payload is never looked at: any two payloads give the same `RequestError` |
| `EnrollmentsService.LookupRoundTrip` | src/services/enrollments-service/index.ts:24-33 | A non-400 reply whose payload is a five-field address yields that same address |
| `EnrollmentsService.GetFirstAddress` | src/services/enrollments-service/index.ts:52-56 | `null` exactly when there is no first address; otherwise the address without `createdAt`, `updatedAt`, `enrollmentId`, with every other key and value kept |
| `EnrollmentsService.GetOneWithAddressByUserId` | src/services/enrollments-service/index.ts:36-48 | Fails exactly when the store query throws (with the store's error) or the user has no enrollment (with `NotFoundError`). Otherwise it returns every enrollment key except `userId`, `createdAt`, `updatedAt`, `Address`, with values unchanged. An `address` key is added exactly when the enrollment has an address, holding that address minus its bookkeeping keys |
| `EnrollmentsService.NoAddressNoKey` | src/services/enrollments-service/index.ts:41-47 | An enrollment without an address reads back with no `address` key at all (absent, not null) |
| `EnrollmentsService.GetAddressForUpsert` | src/services/enrollments-service/index.ts:88-93 | The payload has the same keys and values as the submitted address. Re-adding a truthy `addressDetail` changes nothing |
| `EnrollmentsService.EnrollmentPayload` | src/services/enrollments-service/index.ts:61 | The enrollment payload has every parameter key except `address`, each with its value |
| `EnrollmentsService.ReplyGate` | src/services/enrollments-service/index.ts:67-75 | The gate as written passes exactly when the reply object is an object or array, its status is not 400 and the reply object itself has no `erro` key. A 400 is reported as a `RequestError` with the reply's status text |
| `EnrollmentsService.GateIgnoresPayload` | src/services/enrollments-service/index.ts:71-75 | The gate as written gives the same verdict whatever the payload is |
| `EnrollmentsService.GateAdmitsUnknownCep` | src/services/enrollments-service/index.ts:71-75 | A 200 reply whose payload is `{erro: true}` passes the gate as written, though the classifier calls it `NotFoundError` |
| `EnrollmentsService.IntendedReplyGate` | src/services/enrollments-service/index.ts:71-75 | The corrected gate passes exactly when the classifier resolves an address, so its payload is non-empty and carries no `erro` flag. It fails with the classifier's own error |
| `EnrollmentsService.IntendedGateIsStricter` | src/services/enrollments-service/index.ts:67-75 | Every object reply the corrected gate admits, and whose response object has no `erro` key, the gate as written admits too |
| `EnrollmentsService.UpsertEnrollmentAndAddress` | src/services/enrollments-service/index.ts:77-84 | The enrollment is upserted under the user id: created from the payload, or updated with the payload minus `userId`. Then the address is upserted under the id of the returned enrollment, with the same payload for create and update; the id stays the same across updates. The result is 201 exactly when both succeed. A failing enrollment upsert changes no store. A failing address upsert keeps the enrollment write. Both store invariants and `Linked` are preserved |
| `EnrollmentsService.CreateOrUpdateEnrollmentWithAddress` | src/services/enrollments-service/index.ts:60-86 | If the gate fails, neither store changes and the result is 400 with `InvalidDataError`. If it passes, the stores end as the two upserts leave them, in order. The result is 201 exactly when the gate and both upserts succeed, and 400 `InvalidDataError` otherwise |
| `EnrollmentsService.CreateOrUpdateEnrollmentWithAddressIntended` | src/services/enrollments-service/index.ts:60-86 | The same operation behind the corrected gate. Any reply the classifier rejects (malformed, unknown or empty) leaves both stores unchanged |
| `EnrollmentsService.ReadAfterUpsert` | src/services/enrollments-service/index.ts:79 | After the address upsert, reading the user back succeeds. The result carries an `address` holding every submitted address field, the postal code among them, with the submitted value |
| `EnrollmentsService.SubmitTwice` | src/services/enrollments-service/index.ts:77-79 | Two successful submissions for one user add at most one enrollment key and one address key. The user's enrollment holds every field of the second submission that the store does not own (except `userId`), and the user's address holds every such address field, with the second submission's values |
| `Repositories.EnrollmentRepository.Upsert` | src/services/enrollments-service/index.ts:77 | Upsert keyed by user id. A missing row is created with a fresh id; an existing row keeps its id and takes the update payload. A failure changes nothing. No id is ever lost |
| `Repositories.AddressRepository.Upsert` | src/services/enrollments-service/index.ts:79 | Upsert keyed by enrollment id. The created row points back at that enrollment. A failure changes nothing |
| `Repositories.FindWithAddressByUserId` | src/services/enrollments-service/index.ts:37 | Finds the user's enrollment exactly when one exists. The result has the row's keys plus `Address`, every other key keeping its value. `Address` is an array of at most one element. It has one element exactly when the address store holds a row for the enrollment's id, and that element is the address row |
| `Js.Exclude` | src/services/enrollments-service/index.ts:45 | `exclude` keeps exactly the keys not named, each with its value |
| `Js.TrimEmptyIffBlank` | src/controllers/enrollments-controller.ts:38 | `s.trim() === ''` exactly when every character of `s` is JavaScript white space or a line terminator |
| `EnrollmentsController.GetEnrollmentByUser` | src/controllers/enrollments-controller.ts:6-16 | 204 exactly when the read throws or the user has no enrollment. Otherwise 200, with the service's enrollment view as body |
| `EnrollmentsController.RequestParams` | src/controllers/enrollments-controller.ts:20-23 | The service gets the request body's keys and values, with `userId` overwritten by the authenticated user's id |
| `EnrollmentsController.CreateOrUpdateResponse` | src/controllers/enrollments-controller.ts:25-31 | Success gives 200. Any error, `NotFoundError` or another, gives 400 |
| `EnrollmentsController.PostCreateOrUpdateEnrollment` | src/controllers/enrollments-controller.ts:18-32 | Answers 200 or 400, and 200 exactly when the gate and both upserts succeed. If the gate fails or the enrollment upsert fails, no store changes. Otherwise the enrollment rows are the upsert of the body with the authenticated user id. The address rows are then the upsert of the body's `address` under that enrollment's id, or unchanged when the address upsert fails |
| `EnrollmentsController.CepGivenIffNotBlank` | src/controllers/enrollments-controller.ts:37-40 | The `cep` check passes exactly when `cep` is a string with at least one character `trim` keeps |
| `EnrollmentsController.FormattedAddress` | src/controllers/enrollments-controller.ts:49-55 | The body has exactly `logradouro`, `complemento`, `bairro`, `cidade`, `uf`. `cidade` is the lookup's `localidade`; the rest are unchanged |
| `EnrollmentsController.GetAddressFromCep` | src/controllers/enrollments-controller.ts:36-63 | A missing, non-string or blank `cep` gives 400 whatever the lookup says. Otherwise a resolved address gives 200 with the formatted body, `NotFoundError` gives 204, and any other error sends no response |
| `EnrollmentsController.CityReachesClient` | src/controllers/enrollments-controller.ts:49-57 | For a usable `cep` and a resolved reply, the client gets 200 with the endpoint's `localidade` under `cidade` |

## Findings

| source | as written | input that shows it | evidently intended | confidence | as-written member | corrected member |
|---|---|---|---|---|---|---|
| src/services/enrollments-service/index.ts:71-75 | The write gate tests `!response` and `'erro' in response` on the HTTP response object, which never has an `erro` key | A 200 reply whose `data` is `{erro: true}`, which the endpoint returns for an unknown CEP: the gate passes and the enrollment and address are written | Test `response.data`, as `getAddressFromCEP` does at lines 18-22, so an unknown or empty lookup is never persisted | not executed | `EnrollmentsService.ReplyGate`, shown by `EnrollmentsService.GateAdmitsUnknownCep` | `EnrollmentsService.IntendedReplyGate`, used by `EnrollmentsService.CreateOrUpdateEnrollmentWithAddressIntended` |

`CreateOrUpdateEnrollmentWithAddress` and the controller's
`PostCreateOrUpdateEnrollment` follow the code as written. The corrected
operation uses the intended gate. Only the corrected operation has the
property "a postal code the lookup does not know is never written".

## Left out

- The outbound lookup call (`request.get`) and the `VIA_CEP_API` URL. The model takes the lookup reply for `address.cep` as an input value.
- Prisma and the repository code, which are not part of this model. The stores are maps with upsert semantics. Which calls fail is an input: `StoreFaults` for the two upserts, `readFails` for the read query. Timestamps come from a `now` input. Transactions are not modelled.
- Prisma's rejection of unknown payload keys. It appears only as a possible store failure.
- The body of `exclude` (`@/utils/prisma-utils`), which is not part of this model. It is modelled as a copy without the named keys. It does not mutate its argument.
- The Express `Response` object and `console.error`. Handler results are the `HttpResponse` and `Outcome` datatypes.
- Wiring discrepancy: the controller calls `createOrUpdateEnrollmentWithAddress` without `res` (controller lines 20-23). As written, `res.status` at service line 81 and line 84 would throw, and the controller would answer 400 every time. `PostCreateOrUpdateEnrollment` models the evident intent instead: the service reports success or failure to the handler.
- The service's own response (`res.status(CREATED)` without a send, `send(invalidDataError)` sending the factory rather than its result). It is reduced to the `Created` / `BadRequest(InvalidDataError)` outcome.
- JSON serialisation of response bodies, which drops keys whose value is `undefined`. Bodies are the values as built.
- JavaScript's loose `==` between a string status and 400. The status is compared as a number only.
- Spreading a string request body, which gives index keys. A non-object body or address spreads to no keys.
- Floating-point numbers and NaN. Numbers are unbounded integers.
- Concurrent submissions for the same user, and request cancellation. Each call runs to completion on its own.
- Atomicity of the two writes. The code performs no rollback: a failed address upsert keeps the enrollment row, and the model does the same.
