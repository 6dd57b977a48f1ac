# Blood-bank store and request fulfilment, modelled in Dafny

This project models the server-side core of a small blood-bank application:
a **stock ledger** (one volume per blood type), a **request ledger**
(requests, each created together with its own recipient, carrying a textual
status), and a **donor registry** (donors with unique emails). The
controller/service/repository layers of the application become pure functions
over one immutable `Database.State`; every operation that can throw returns a
`Result<(State, T), Error>`, so a failed call has no new state and therefore
no partial effect.

The centrepiece is `RequestService.UpdateRequestStatus`. Rejection only
rewrites the status. Fulfilment loads the request ("Request not found" if it
is missing), then in one transaction checks that a stock row for the
request's blood type exists and holds at least the request's volume
("Insufficient blood stock" otherwise), takes the volume out of that row and
marks the request `fulfilled`. The current status is never consulted, so a
fulfilled request can be fulfilled again and the stock is decremented a
second time; `FulfilTwiceDecrementsTwice` and `FulfilIgnoresStatus` prove
this. Request volumes are not validated at any layer; the stock can
nonetheless never become negative, because the guard compares the row with
the volume before subtracting it.

Module layout (one module per source file, plus shared pieces):

| file | module | models |
|---|---|---|
| wrappers.dfy | `Wrappers` | `Option` (nullable results) and `Result` (thrown errors) |
| text.dfy | `Text` | code-point string order for listings; `Contains` for `String.includes` |
| database.dfy | `Database` | the tables, the autoincrement counters, the error vocabulary, the schema's invariants |
| blood_stock_repository.dfy | `BloodStockRepository` | src/repositories/bloodStock.repository.ts |
| blood_stock_service.dfy | `BloodStockService` | src/services/bloodStock.service.ts |
| request_repository.dfy | `RequestRepository` | src/repositories/request.repository.ts |
| request_service.dfy | `RequestService` | src/services/request.service.ts |
| request_controller.dfy | `RequestController` | `create` and `updateStatus` of src/controllers/request.controller.ts |
| donor_repository.dfy | `DonorRepository` | src/repos/donor.repository.ts |
| donor_service.dfy | `DonorService` | src/services/donor.service.ts |
| application.dfy | `Application` | arbitrary sequences of calls, and two end-to-end scenarios |

Modelling choices:

- **Store.** Each table with an integer id is a `map<int, _>` plus a counter
  standing for the autoincrement sequence, starting at 1 and never reused.
  `Database.WellFormed` is what the schema guarantees: rows sit under their
  own id, ids are below their counter, and each request's recipient exists.
  Members that require it ask no more than the database itself guarantees:
  `Application.EmptyIsValid` and `Application.Run` show every state reached
  from the empty store by the modelled calls satisfies it.
  `Valid` adds the two invariants this model proves are preserved:
  `StockNonNegative` and `UniqueEmails`.
- **Store-raised errors.** Updating or deleting a missing row fails with
  `RecordToUpdateNotFound` / `RecordToDeleteNotFound`. The donor `email`
  column is unique: the repository looks donors up with `findUnique` on
  `email`, which needs a unique index. A create or update that would
  duplicate an email therefore fails in the store with
  `UniqueConstraintFailed`. The store's own messages are longer: they
  name the failing call and open with a general sentence. `Message()` keeps
  only their last sentence. The model relies only on the update message
  containing "not found", which the full message does too.
- **Orderings.** Listings with no ordering return rows by ascending id.
  `getAllRequests` sorts by date descending with a stable insertion sort,
  so requests with equal dates stay in ascending id order. Blood types are
  ordered by character code.
- **Inputs.** The request `date` is a parameter, and `pending` is taken as
  the status the store assigns a new request. The controller receives the
  id path parameter already parsed (`None` when `parseInt` yields NaN) and
  the body already parsed (or the message of the parse error).

## Behaviour worth knowing

- Donor updates do not re-check email uniqueness in the service. Only the
  store's unique index refuses a duplicate, with its own error
  (`DonorService.UpdateToTakenEmail`).
- A fulfilled or rejected request can be transitioned again; a second
  fulfilment takes its volume out of stock a second time
  (`RequestService.FulfilTwiceDecrementsTwice`).
- `findDonorById` returns null for an absent id.
- `listDonors` takes no arguments and always returns page 1 of 10.

## Model

| member | source | states |
|---|---|---|
| BloodStockRepository.GetAllStock | src/repositories/bloodStock.repository.ts:5-11 | every stock row exactly once, strictly ascending by blood type, each with its stored volume |
| BloodStockRepository.ListingRoundTrip | src/repositories/bloodStock.repository.ts:5-11 | the ledger rebuilt from the listing equals the stored stock map: the listing loses and invents nothing |
| BloodStockRepository.UpdateStock | src/repositories/bloodStock.repository.ts:13-22 | upsert: the returned row is (bloodType, volume); the type is added if absent; its volume becomes exactly the given one; other types and tables are unchanged |
| BloodStockRepository.UpdateStockIdempotent | src/repositories/bloodStock.repository.ts:17-21 | upserting the same row twice gives the same state and row as upserting it once |
| BloodStockRepository.UpdateStockOverwrites | src/repositories/bloodStock.repository.ts:18-19 | the result does not depend on the previous volume of that type: no accumulation |
| BloodStockService.ListStock | src/services/bloodStock.service.ts:7-9 | the service returns the repository listing unchanged |
| BloodStockService.UpdateStockLevel | src/services/bloodStock.service.ts:11-22 | an empty blood type fails "Blood type cannot be empty." even when the volume is also negative; otherwise a negative volume fails "Volume cannot be negative."; it succeeds exactly when the type is non-empty and the volume at least 0, and then it is the upsert with the volume unchanged |
| BloodStockService.UpdateStockLevelPreservesValid | src/services/bloodStock.service.ts:18-21 | an accepted stock update keeps every volume non-negative, along with the other invariants |
| RequestRepository.InsertByDate | src/repositories/request.repository.ts:10-12 | inserting into a newest-first listing keeps it newest-first and adds exactly that row to its multiset |
| RequestRepository.SortNewestFirst | src/repositories/request.repository.ts:10-12 | the result is newest-first and a permutation of the input |
| RequestRepository.GetAllRequests | src/repositories/request.repository.ts:5-14 | as many rows as stored requests; every request appears; each row is a stored request with its own recipient; rows are ordered by date descending |
| RequestRepository.GetRequestById | src/repositories/request.repository.ts:16-20 | returns a request exactly when the id is stored, and it is the stored request; otherwise null |
| RequestRepository.CreateRequestWithRecipient | src/repositories/request.repository.ts:22-34 | adds exactly one new recipient and one new request under fresh ids; the request points at the new recipient and copies blood type and volume; its date is the given one and its status pending; existing rows, stock and donors are unchanged; well-formedness is kept |
| RequestRepository.CreatedRequestIsFound | src/repositories/request.repository.ts:16-34 | a request just created is found by its fresh id, and the lookup returns it unchanged |
| RequestRepository.UpdateRequestStatus | src/repositories/request.repository.ts:36-44 | fails with the store's not-found error exactly when the id is absent; otherwise only that request's status changes, and every other field, request and table is unchanged |
| RequestService.SubmitRequest | src/services/request.service.ts:10-18 | submission is exactly the repository's create-with-recipient |
| RequestService.ListAllRequests | src/services/request.service.ts:20-22 | listing is exactly the repository's listing |
| RequestService.FulfilTransaction | src/services/request.service.ts:38-60 | the transaction succeeds exactly when a stock row for the request's type holds at least its volume, and otherwise fails "Insufficient blood stock" |
| RequestService.UpdateRequestStatus | src/services/request.service.ts:24-61 | reject: the repository status update, stock untouched. Fulfil: a missing id fails "Request not found"; a missing or short stock row fails "Insufficient blood stock"; it succeeds exactly otherwise. On success the type's stock drops by exactly the volume and the request becomes fulfilled; no other stock row, request or table changes |
| RequestService.UpdateRequestStatusPreservesValid | src/services/request.service.ts:44-51 | a successful reject or fulfil keeps all invariants; in particular no stock volume becomes negative |
| RequestService.FulfilTwiceDecrementsTwice | src/services/request.service.ts:28-57 | with stock for two, fulfilling the same request twice succeeds both times and takes twice its volume out of stock |
| RequestService.FulfilIgnoresStatus | src/services/request.service.ts:28-57 | the outcome of fulfilment, state and returned request included, is the same whatever status the request currently holds |
| RequestController.ErrorStatus | src/controllers/request.controller.ts:57-64 | a caught error maps to 400 exactly when "Insufficient" or "not found" occurs at some position of its message, and to 500 otherwise |
| RequestController.Create | src/controllers/request.controller.ts:7-21 | an unreadable body answers 400 with the error's message and no change; otherwise the request is submitted and answered 201 with it; the answer is 201 exactly for a readable body, else 400, and a 400 changes nothing |
| RequestController.ParseStatus | src/controllers/request.controller.ts:45-50 | only the strings "fulfilled" and "rejected" are accepted, each as the service status of the same name |
| RequestController.UpdateStatus | src/controllers/request.controller.ts:35-66 | a non-numeric id answers 400 "Invalid ID"; any other status answers 400 "Invalid status provided."; both leave the store unchanged. A valid call answers 200 with the service's updated request, or its error classified by message; any non-200 answer leaves the store unchanged |
| RequestController.ServiceErrorsAreClientErrors | src/controllers/request.controller.ts:61-63 | "Request not found", "Insufficient blood stock" and the store's not-found error all classify as 400 |
| RequestController.WellFormedCallsNeverFailWith500 | src/controllers/request.controller.ts:35-66 | with a numeric id and a valid status the answer is 200, or 400 with the store unchanged, never 500 |
| Text.ContainsIffOccurs | src/controllers/request.controller.ts:61 | the substring test used for classification holds exactly when the pattern occurs at some offset |
| DonorRepository.CreateDonor | src/repos/donor.repository.ts:6-8 | fails with the unique-index error exactly when the email is taken; otherwise adds one donor with the given fields under a fresh id, and changes no other donor or table |
| DonorRepository.GetDonorById | src/repos/donor.repository.ts:10-12 | returns a donor exactly when the id is stored, and it is the stored donor |
| DonorRepository.GetDonorByEmail | src/repos/donor.repository.ts:14-16 | returns a donor exactly when some donor holds the email, and the returned one is stored and holds it |
| DonorRepository.GetDonorByEmailIsTheHolder | src/repos/donor.repository.ts:14-16 | with unique emails, the lookup returns the one donor holding that email |
| DonorRepository.AllDonors | src/repos/donor.repository.ts:22-25 | the table read without ordering: every donor exactly once, ascending by id |
| DonorRepository.Window | src/repos/donor.repository.ts:23-24 | skip/take: at most `take` elements, the i-th being element `skip + i`; full when enough remain, else everything from `skip` on |
| DonorRepository.GetAllDonors | src/repos/donor.repository.ts:18-26 | page `page` of size `limit` (defaults 1 and 10) holds at most `limit` donors: those at positions `(page - 1) * limit` onward of the id-ordered table |
| DonorRepository.DonorOnItsPage | src/repos/donor.repository.ts:18-26 | the pages partition the listing: the donor at position i is on page i / limit + 1, at offset i % limit |
| DonorRepository.UpdateDonor | src/repos/donor.repository.ts:28-33 | a missing id fails with the store's not-found error; an email held by another donor fails with the unique-index error; otherwise each supplied field is overwritten, the others are kept, and no other donor or table changes |
| DonorRepository.DeleteDonor | src/repos/donor.repository.ts:35-37 | fails exactly when the id is absent; otherwise removes exactly that id, returns the removed row, and changes nothing else |
| DonorService.RegisterDonor | src/services/donor.service.ts:8-14 | an email already held fails "A donor with this email already exists."; a new email always succeeds, as the repository create |
| DonorService.RegisterDonorPreservesValid | src/services/donor.service.ts:8-14 | registration keeps the invariant that no two donors share an email |
| DonorService.RegisteredDonorIsFound | src/services/donor.service.ts:8-18 | a registered donor is found again by its id and, emails being unique, by its email |
| DonorService.RegisterSameEmailTwice | src/services/donor.service.ts:9-12 | a second registration with the same email fails with the duplicate-email error, and the first donor is stored with its own fields |
| DonorService.FindDonorById | src/services/donor.service.ts:16-18 | null exactly for an absent id; otherwise the stored donor |
| DonorService.ListDonors | src/services/donor.service.ts:20-22 | the default page: the first min(10, n) donors by id |
| DonorService.UpdateDonorDetails | src/services/donor.service.ts:24-26 | passes the update to the repository unchanged; never raises the service's duplicate-email error |
| DonorService.UpdateToTakenEmail | src/services/donor.service.ts:24-26 | updating a donor to another donor's email is refused only by the store's unique index |
| DonorService.UpdateDonorDetailsPreservesValid | src/services/donor.service.ts:24-26 | a successful update keeps all invariants, unique emails included |
| DonorService.RemoveDonor | src/services/donor.service.ts:28-30 | removal is the repository delete; on success the returned donor had that id and the id is gone |
| DonorService.RemoveDonorPreservesValid | src/services/donor.service.ts:28-30 | removal keeps all invariants, and the freed id is below the counter, so it is never reused |
| DonorService.RemovedDonorIsGone | src/services/donor.service.ts:16-30 | after a removal the removed id finds nobody, and every other id finds what it found before |
| Application.Run | src/services/request.service.ts:44-51 | after any sequence of stock, request and donor calls, the database stays valid: every stock volume is non-negative, donor emails are unique and the schema holds |
| Application.FulfilScenario | src/services/request.service.ts:38-57 | stock {A+: 5}, a request for 3 of A+: it is created pending, and fulfilling it leaves {A+: 2} and the request fulfilled |
| Application.InsufficientStockScenario | src/services/request.service.ts:44-46 | stock {O-: 1}, a request for 2 of O-: fulfilling answers 400 "Insufficient blood stock", the stock stays {O-: 1} and the request pending |

## Left out

- The React pages, layout and header: UI state, fetch calls and alerts. The page shows the fulfil and reject buttons only for pending requests. That is a UI guard and is not server behaviour.
- The store library's transactions and isolation: fulfilment is one all-or-nothing function. Concurrent fulfilments and several server instances are out of scope; the model is sequential.
- Failures of the store itself, such as a lost connection, are not modelled. The store refuses only missing rows and duplicate emails.
- Route files, the donor and blood-stock controllers, and `RequestController.findAll`: HTTP plumbing. Its only logic is JSON `typeof` checks and status-code translation, and the typed model makes those checks vanish.
- The zod schemas (src/lib/validation.ts): no modelled code uses them.
- JavaScript number details are not modelled: `parseInt` prefix parsing, NaN (which slips past `volume < 0`), and non-integer volumes. Ids and volumes are integers.
- The store's integer columns are bounded, the model's integers are not. An id beyond the column's range makes the store throw an error whose message contains neither "Insufficient" nor "not found", which the controller answers with 500; `RequestController.WellFormedCallsNeverFailWith500` holds only for ids the column can hold.
- DonorRepository.UpdateDonor: a partial donor that also carries an `id` field would renumber the donor in the store; the patch models only name, email, blood type and contact.
- DonorRepository.GetAllDonors: defined only for page >= 1 and limit >= 0. The store's handling of a negative skip or take is not modelled. The only caller uses the defaults 1 and 10.
- RequestRepository.GetAllRequests: requests with equal dates come out in ascending id order; the store leaves that order unspecified.
- BloodStockRepository.GetAllStock: blood types are ordered by character code; the database's collation is not modelled.
- Strings are compared code point by code point, for equality as well as order. A case- or accent-insensitive collation would treat more emails as duplicates and more blood types as one stock row; that is not modelled.
- The Playwright verification script and the styling configuration.
