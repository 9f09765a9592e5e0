# mycarton: carton inventory and reservations, in Dafny

This project models the carton inventory and reservation core of the
mycarton AdonisJS application. Merchants add cartons of six sizes to stock.
Customers reserve cartons by size and quantity, and can cancel their
reservations.

The database is one immutable `Store`. It holds the users, cartons and
reservations tables as maps from id to row, plus the two auto-increment
counters. Each controller action is a pure function from a store to
`Result<Store, Error>`:

- on success, the function returns the new store;
- on an error (Forbidden, NotFound, CartonNotAvailable(size), Invalid), no store is returned, so the old one stands.

The schema's foreign-key actions (ON DELETE CASCADE and SET NULL) are
written as explicit deletion functions.

The allocation query has a `limit` but no ordering, so the store does not
decide which cartons a request line claims. The model therefore takes that
choice as a parameter (`picks`, one set of ids per line), and `PicksOk`
says what the query may return. Every property holds for every admissible
choice. The method `Allocation.Allocate` runs the request with a
set-choice query loop (`Inventory.QueryAvailable`) and is proved to
produce an admissible choice, so one always exists.

Modules, one file each:

- `Wrappers`: `Option`, `Result`.
- `Domain`: enums and their spellings, the rows, the store, the invariants `Integrity` and `LinkInv`.
- `Validators`: the request validators.
- `Inventory`: pools, links, claim and release.
- `Allocation`: the reservation request.
- `Cancellation`: the cancel request.
- `Cartons`: intake, deletion, lookup and listing of cartons.
- `Reservations`: lookup, listing and relations of reservations.
- `Cascades`: deleting a user.
- `Lifecycle`: runs of actions.

The two invariants:

- `Integrity`: every key is below its counter, and every carton link names an existing reservation.
- `LinkInv`: a carton has a reservation link exactly when its status is RESERVED.

## Model

| member | source | states |
|---|---|---|
| Domain.ParseSize | app/cartons/models/carton.ts:8-15 | a spelling parses to a size exactly when it is the spelling of that size; the six sizes are the only ones |
| Domain.ParseCartonStatus | app/cartons/models/carton.ts:17-22 | a spelling parses exactly when it is one of the four carton statuses, and to that status |
| Domain.ParseReservationStatus | app/reservations/models/reservation.ts:10-15 | a spelling parses exactly when it is one of RESERVED, MODIFIED, COMPLETED, CANCELED, and to that status |
| Domain.ParseUserType | app/auth/models/user.ts:17-20 | a spelling parses exactly when it is CUSTOMER or MERCHANT, and to that role |
| Domain.NamesAreInjective | database/migrations/1709226875100_create_cartons_table.ts:11-12 | distinct sizes and carton statuses (these lines), reservation statuses (app/reservations/models/reservation.ts, lines 10-15) and roles (app/auth/models/user.ts, lines 17-20) have distinct column spellings; a corollary of the parsers' round trips |
| Validators.ValidateEntries | app/reservations/validators/reservation_validator.ts:6-11 | a carton list passes exactly when every line has a known size and a quantity in 1..max; one bad line rejects all; the typed lines match the raw ones position by position |
| Validators.ValidateBody | app/cartons/validators/carton_validator.ts:5-12 | a body passes exactly when its cartons list is present and every line passes; a missing list is Invalid |
| Validators.ReservationValidator | app/reservations/validators/reservation_validator.ts:4-13 | reservation bodies pass exactly when every line passes with bound 15; accepted quantities lie in 1..15; an empty list passes |
| Validators.CartonValidator | app/cartons/validators/carton_validator.ts:4-13 | intake bodies pass exactly when every line passes with bound 100; accepted quantities lie in 1..100 |
| Validators.EntriesUnderTighterBound | app/reservations/validators/reservation_validator.ts:9 | a list accepted under a quantity bound is accepted, with the same lines, under any larger bound |
| Validators.ReservationBodyIsIntakeBody | app/cartons/validators/carton_validator.ts:9 | every accepted reservation body is an accepted intake body with the same lines |
| Validators.ReservationBodyExamples | tests/functional/reservations.spec.ts:210-328 | the reservation verdicts the functional tests expect: L10+M2 passes, L100+M2 and L0+M2 fail; an empty list passes with no lines |
| Validators.CartonBodyExamples | tests/functional/cartons.spec.ts:21-98 | the intake verdicts the functional tests expect: L3+M2 passes; L102+M2, Z102+M0 and a body without cartons fail |
| Validators.ParseAccountKind | app/auth/validators/auth_validator.ts:9 | only 'client' and 'shopkeeper' parse, each to its own kind |
| Validators.TakenEmails | app/auth/validators/auth_validator.ts:13-16 | the set of e-mails is exactly those of the existing users |
| Validators.Utf16Length | app/auth/validators/auth_validator.ts:5-8 | the length the string rules measure, in UTF-16 code units: between one and two per character |
| Validators.Utf16LengthCounts | app/auth/validators/auth_validator.ts:5-8 | the code-unit length equals the character count exactly when no character is astral, and twice it exactly when every one is |
| Validators.Utf16LengthAppend | app/auth/validators/auth_validator.ts:5-8 | code-unit lengths add up over concatenation |
| Validators.RegisterValidator | app/auth/validators/auth_validator.ts:3-19 | a registration passes exactly when, in UTF-16 code units, name is 3..64, adress 5..255, city 2..64, zip code exactly 5, and password 8..32, the kind is client/shopkeeper and the e-mail is unused; the fields pass through unchanged |
| Validators.LoginValidator | app/auth/validators/auth_validator.ts:21-26 | a login body passes exactly when the password is 8..32 UTF-16 code units long |
| Validators.AstralLengthExamples | app/auth/validators/auth_validator.ts:5-24 | a two-emoji name is 4 units long and meets the 3-unit minimum; a 17-emoji password is 34 units long and fails login |
| Validators.RegisteredPasswordPassesLogin | app/auth/validators/auth_validator.ts:17-24 | every password a registration accepts also passes the login validator |
| Validators.ExistingEmailRejected | app/auth/validators/auth_validator.ts:13-16 | registering with an existing user's e-mail is always Invalid |
| Validators.RegisteredKindIsNoUserType | app/auth/validators/auth_validator.ts:9 | no accepted registration kind is a spelling of the users table's role enum |
| Validators.RegisterBodyExamples | tests/functional/authentication.spec.ts:8-137 | the registration verdicts the functional tests expect: accepted, rejected on a used e-mail, a short password, a short name |
| Inventory.TotalIsSumOfDemands | app/cartons/controllers/cartons_controller.ts:29-37 | the total quantity of a list is the sum of its per-size demands |
| Inventory.DemandAppend | app/reservations/controllers/reservations_controller.ts:36 | per-size demand adds up over concatenated request lists |
| Inventory.Claim | app/reservations/controllers/reservations_controller.ts:51-58 | claimed cartons become RESERVED and linked to the reservation; every other row is unchanged; no row appears or disappears |
| Inventory.Release | app/reservations/controllers/reservations_controller.ts:92-101 | every carton linked to the reservation becomes INSTOCK with a null link, whatever its status; others unchanged; none stays linked |
| Inventory.ReleaseIdempotent | app/reservations/controllers/reservations_controller.ts:92-101 | releasing twice equals releasing once |
| Inventory.QueryAvailable | app/reservations/controllers/reservations_controller.ts:37-41 | the query returns INSTOCK cartons of the size, of any merchant: `limit` of them when that many exist, all of them otherwise |
| Inventory.ClaimPoolSet | app/reservations/controllers/reservations_controller.ts:51-58 | after a claim, each size's pool is the old pool minus the claimed cartons |
| Inventory.ClaimShrinksPool | app/reservations/controllers/reservations_controller.ts:37-58 | claiming from one size's pool shrinks that pool by the number claimed and leaves the other sizes' counts alone |
| Inventory.ClaimGrowsLinked | app/reservations/controllers/reservations_controller.ts:51-58 | claiming adds exactly the claimed cartons to the reservation's cartons of that size |
| Inventory.ReleasePoolSet | app/reservations/controllers/reservations_controller.ts:92-101 | after a release, each size's pool is the old pool plus the reservation's cartons of that size |
| Allocation.Walk | app/reservations/controllers/reservations_controller.ts:36-59 | the line loop adds and removes no rows, changes a row only by claiming an INSTOCK carton for the new reservation, and a failure names the size of some line |
| Allocation.AddReservation | app/reservations/controllers/reservations_controller.ts:14-68 | a non-customer is Forbidden before validation; a bad body is Invalid; success adds exactly one RESERVED reservation for the caller under the next id and touches no user |
| Allocation.ClaimLines | app/reservations/controllers/reservations_controller.ts:36-59 | the loop with real queries produces admissible choices, and its result is the line walk's result for those choices |
| Allocation.Allocate | app/reservations/controllers/reservations_controller.ts:14-68 | the executable request always finds admissible choices and returns the modelled outcome |
| Allocation.WalkSucceedsIff | app/reservations/controllers/reservations_controller.ts:36-49 | the line walk succeeds exactly when, for every size, the total requested is at most the stock of that size |
| Allocation.WalkFailsAtFirstShortLine | app/reservations/controllers/reservations_controller.ts:43-48 | the walk fails exactly when some line runs short counting earlier lines of its size, and the error names the first such line's size |
| Allocation.WalkLinksDemand | app/reservations/controllers/reservations_controller.ts:36-58 | on success, per size, the reservation's cartons grow and the pool shrinks by exactly the requested total |
| Allocation.WalkEffect | app/reservations/controllers/reservations_controller.ts:36-58 | for a fresh reservation id, the walk links per size exactly the requested number of cartons, each INSTOCK before and claimed after, takes them from the pool, and leaves every other row as it was |
| Allocation.FreshIdHasNoCartons | app/reservations/controllers/reservations_controller.ts:28-34 | the id a new reservation gets is unused, and no carton is linked to it |
| Allocation.AllocationAllOrNothing | app/reservations/controllers/reservations_controller.ts:26-67 | a valid customer request succeeds exactly when every size is in stock in the requested total; otherwise it fails with CartonNotAvailable for the first short line and writes nothing |
| Allocation.AllocationEffect | app/reservations/controllers/reservations_controller.ts:28-58 | one new RESERVED reservation for the caller; per size exactly the requested number of cartons linked; each was INSTOCK and is now RESERVED; every other carton unchanged |
| Allocation.AllocationPreservesInvariants | app/reservations/controllers/reservations_controller.ts:28-58 | a successful request keeps referential integrity and the link invariant |
| Allocation.EmptyStockRequestFails | tests/functional/reservations.spec.ts:330-356 | with no stock, a request for L3 and M2 fails naming size L |
| Allocation.AllocationIgnoresOwners | app/reservations/controllers/reservations_controller.ts:37-41 | stores that differ only in carton owners give a request the same outcome, so a request draws on every merchant's stock |
| Cancellation.Cancel | app/reservations/controllers/reservations_controller.ts:74-110 | succeeds exactly when the reservation exists and the caller's id is its customer; a missing id is NotFound; any other caller is Forbidden; on success the reservation alone becomes CANCELED and only its cartons change, each back INSTOCK and unlinked |
| Cancellation.CancelIgnoresRole | app/reservations/controllers/reservations_controller.ts:78 | the check compares ids only: callers with the same id and different roles get the same result |
| Cancellation.NullCustomerCannotCancel | database/migrations/1709231837946_create_reservations_table.ts:12 | a reservation with a NULL customer is Forbidden to every caller |
| Cancellation.CancelIsIdempotent | app/reservations/controllers/reservations_controller.ts:85-101 | cancelling twice gives the store of cancelling once |
| Cancellation.CancelRestocks | app/reservations/controllers/reservations_controller.ts:92-101 | each size's pool becomes the old pool plus the reservation's cartons of that size; under the link invariant its count grows by their number |
| Cancellation.CancelPreservesInvariants | app/reservations/controllers/reservations_controller.ts:85-101 | cancelling keeps referential integrity and the link invariant |
| Cancellation.ReleaseUndoesClaims | app/reservations/controllers/reservations_controller.ts:92-101 | releasing a reservation undoes claims of unlinked stock made for it |
| Cancellation.CancelUndoesAllocation | app/reservations/controllers/reservations_controller.ts:74-110 | cancelling a just-created reservation restores every carton row; the reservation remains CANCELED |
| Cartons.Expand | app/cartons/controllers/cartons_controller.ts:24-37 | intake expands a list into Σ quantity rows, each INSTOCK, owned by the caller, unlinked, of a requested size |
| Cartons.ExpandCountsDemand | app/cartons/controllers/cartons_controller.ts:29-37 | the expansion has, for every size, exactly the quantity requested for that size |
| Cartons.PushCopies | app/cartons/controllers/cartons_controller.ts:30-36 | the inner loop appends exactly `quantity` copies of the new row |
| Cartons.ExpandCartons | app/cartons/controllers/cartons_controller.ts:29-37 | the nested push loop builds exactly the expansion |
| Cartons.Fresh | app/cartons/controllers/cartons_controller.ts:39 | the created rows get consecutive new ids from the carton sequence, in list order |
| Cartons.AddCartons | app/cartons/controllers/cartons_controller.ts:12-42 | succeeds exactly when the caller is a merchant and the body passes; a non-merchant is Forbidden before validation; a bad body is Invalid; success touches no user or reservation and advances the sequence by Σ quantity |
| Cartons.IntakeKeys | app/cartons/controllers/cartons_controller.ts:24-39 | intake keeps every old row, adds exactly Σ quantity rows under new ids, each INSTOCK, owned by the caller and unlinked |
| Cartons.IntakeCounts | app/cartons/controllers/cartons_controller.ts:29-39 | intake creates, per size, exactly the requested number of cartons |
| Cartons.IntakePreservesInvariants | app/cartons/controllers/cartons_controller.ts:24-39 | intake keeps referential integrity and the link invariant |
| Cartons.DeleteCarton | app/cartons/controllers/cartons_controller.ts:44-61 | deletion succeeds exactly for the owner; missing id is NotFound, another caller Forbidden; only that row goes, whatever its status |
| Cartons.DeleteLinkedCartonShrinksReservation | app/cartons/controllers/cartons_controller.ts:55-57 | deleting a RESERVED carton leaves its reservation with one carton fewer |
| Cartons.DeletePreservesInvariants | app/cartons/controllers/cartons_controller.ts:44-61 | deletion keeps referential integrity and the link invariant |
| Cartons.ViewCarton | app/cartons/controllers/cartons_controller.ts:7-10 | the lookup returns the row when it exists and NotFound otherwise |
| Cartons.DeletedCartonIsGone | app/cartons/controllers/cartons_controller.ts:44-61 | after a deletion the lookup of that id is NotFound |
| Cartons.ListCartons | app/cartons/controllers/cartons_controller.ts:63-76 | succeeds exactly when the target exists and is a merchant; unknown target is NotFound, a non-merchant target Forbidden; on success exactly the cartons whose merchant is the target |
| Cartons.ListingGrowsByIntake | app/cartons/controllers/cartons_controller.ts:63-76 | after an intake the merchant's listing has grown by exactly the quantity added |
| Reservations.ViewReservation | app/reservations/controllers/reservations_controller.ts:9-12 | the lookup returns the row when it exists and NotFound otherwise |
| Reservations.ListReservations | app/reservations/controllers/reservations_controller.ts:112-125 | succeeds exactly when the target exists and is a customer; unknown target is NotFound, a non-customer target Forbidden; on success exactly the reservations whose customer is the target |
| Reservations.RelationsAgree | app/reservations/models/reservation.ts:36-37 | a carton is among a reservation's cartons exactly when its link names it, and then its reservation is that row |
| Reservations.ListedHaveTheirCustomer | app/reservations/models/reservation.ts:33-34 | every reservation listed for a user has that user as its customer |
| Reservations.ListingAfterAllocation | app/reservations/controllers/reservations_controller.ts:112-125 | after a successful request the customer's listing is the old one plus the new RESERVED reservation |
| Reservations.ViewAfterCancel | app/reservations/controllers/reservations_controller.ts:74-110 | after a cancel the reservation reads back CANCELED, with the same customer and no cartons |
| Cascades.Detach | database/migrations/1709226875100_create_cartons_table.ts:19-24 | SET NULL: cartons of the removed reservations lose their link and keep status, size and owner; others unchanged |
| Cascades.Unowned | database/migrations/1709226875100_create_cartons_table.ts:13-18 | CASCADE: exactly the cartons of other merchants remain, unchanged |
| Cascades.DeleteUser | database/migrations/1709226875100_create_cartons_table.ts:13-24 | deleting a user removes exactly their cartons and exactly their reservations, and changes no carton status; every surviving user and reservation row is unchanged, and a surviving carton keeps its row except that a link to a deleted reservation becomes NULL |
| Cascades.DeleteUserKeepsIntegrity | database/migrations/1709231837946_create_reservations_table.ts:12 | the cascade leaves no dangling link |
| Cascades.DeleteUserStrandsCartons | database/migrations/1709226875100_create_cartons_table.ts:19-24 | another merchant's carton reserved for the deleted customer stays RESERVED with a NULL link, so the link invariant fails and no pool holds the carton |
| Cascades.StrandedCartonExample | database/migrations/1709226875100_create_cartons_table.ts:24 | a concrete one-carton store that satisfies both invariants and loses the link invariant on the customer's deletion |
| Cascades.Restock | database/migrations/1709226875100_create_cartons_table.ts:19-24 | the corrected detach: unlinked cartons also go back INSTOCK |
| Cascades.DeleteUserReleasing | database/migrations/1709231837946_create_reservations_table.ts:12 | the corrected deletion removes exactly the user's cartons and reservations; every surviving user and reservation row is unchanged, and a surviving carton keeps its row except that one linked to a deleted reservation is released to INSTOCK with no link |
| Cascades.DeleteUserReleasingKeepsInvariants | database/migrations/1709226875100_create_cartons_table.ts:19-24 | the corrected deletion keeps both invariants; its users and reservations equal the cascade's; every carton row equals the cascade's up to its status, and the status is the cascade's too unless the carton was linked to a deleted reservation |
| Lifecycle.EmptyIsConsistent | app/reservations/models/reservation.ts:10-15 | an empty store satisfies every invariant |
| Lifecycle.ReserveKeepsConsistent | app/reservations/controllers/reservations_controller.ts:28-58 | a request keeps the invariants and links no carton to a CANCELED reservation |
| Lifecycle.CancelKeepsConsistent | app/reservations/controllers/reservations_controller.ts:85-101 | a cancel keeps the invariants and leaves no carton on the CANCELED reservation |
| Lifecycle.StepKeepsConsistent | app/reservations/controllers/reservations_controller.ts:26-101 | every controller action keeps the invariants; only RESERVED and CANCELED are ever written |
| Lifecycle.RunKeepsConsistent | app/reservations/models/reservation.ts:12-13 | after any run of controller actions from a consistent store, the invariants hold and no reservation is MODIFIED or COMPLETED |
| Lifecycle.RunSequencesGrow | app/cartons/models/carton.ts:26-27 | the id sequences never go back along a run |

## Left out

- Concurrency: the `forUpdate()` row lock and transaction isolation are not modelled. Each action is one atomic transition of a sequential store.
- Persistence failures: the `.catch` handlers that answer 500 are not modelled, and neither are the mechanics of the unawaited `trx.rollback()`. Only the observable effect of a shortfall is modelled: CartonNotAvailable with no state change.
- Allocation.AddReservation: on a shortfall the reservation counter does not advance. A database sequence consumed inside a rolled-back transaction stays consumed. Ids matter here only for freshness, so this does not change any stated property.
- Authentication and sessions: login, logout, hashing, tokens, middleware and routes are not modelled. The caller's id and role are a `Principal` parameter.
- Validators.RegisterValidator: does not check e-mail syntax (`vine.string().email()` is a library call). The e-mail is an opaque string and uniqueness is set membership.
- Validators.LoginValidator: does not check e-mail syntax, for the same reason.
- Validators.ValidateEntries: quantities are integers. Non-numeric and fractional quantities, which the number rule handles in its own way, are not modelled.
- HTTP detail: status codes and message texts are not modelled. Only the error kinds Forbidden, NotFound, CartonNotAvailable(size) and Invalid are.
- Timestamps: `createdAt` and `updatedAt` are not modelled. User rows keep only the role and the e-mail.
- The `edit` action is an empty stub and has no behaviour to model.
- The `reservations_cartons` join table is unused by the code and is not modelled.
- Registration writes no user in the model, because the auth controller is not part of this model.
- Cartons.DeleteCarton: the `catch` branch, where the row vanishes between the lookup and the delete, needs concurrency and is not modelled.
- The factories create cartons and reservations with NULL owners, and the tests rely on this. The model keeps `merchantId` non-null, as the cartons migration declares it. Reservations keep a nullable customer, as their migration allows.
- Registration accepts the kinds 'client' and 'shopkeeper', while the role column holds CUSTOMER and MERCHANT. `Validators.RegisteredKindIsNoUserType` states this mismatch without resolving it.
- The registration field is spelt `adress`, while the users table column is `address`.
- Selection order: the allocation query has a limit and no orderBy; the model admits any choice and does not refine it to ascending ids.
- Empty requests: the validator accepts an empty cartons list; such a request creates a reservation with no cartons.
- Unpaired surrogates: a JavaScript string can hold a lone surrogate code unit, which a Dafny string cannot; strings here are sequences of Unicode scalar values, measured in UTF-16 code units by `Validators.Utf16Length`.
- Lifecycle.StepKeepsConsistent: user deletion is not an action of a run. The cascade breaks the link invariant, as recorded under Findings.

## Findings

| source | as written | input that shows it | evidently intended | confidence | as-written member | corrected member |
|---|---|---|---|---|---|---|
| database/migrations/1709226875100_create_cartons_table.ts:19-24 | Deleting a customer deletes their reservations by CASCADE. The cartons linked to those reservations get a NULL link by SET NULL and keep status RESERVED. | A customer (user 0) has a RESERVED reservation 0 holding carton 0 of merchant 1. Deleting user 0 leaves carton 0 RESERVED with no reservation. No reservation holds it, no request can claim it, and the link invariant fails. | The unlinked cartons go back in stock, as a cancellation would leave them. | medium; not executed | Cascades.DeleteUserStrandsCartons, Cascades.StrandedCartonExample | Cascades.DeleteUserReleasing, Cascades.DeleteUserReleasingKeepsInvariants |
