# Booking service — a Dafny model of the booking workflow

This project models the booking service of a vehicle-workshop system. A
create request is a `Booking` that has passed bean validation. The service
runs it through four collaborators in order:

1. the vehicle service confirms that the vehicle exists;
2. the workshop service returns the open slots, and the first one is taken;
3. the repository stores the booking as PENDING, which is the one durability point;
4. the payment service charges the saved booking's id and amount.

After the charge the booking is saved again as CONFIRMED or FAILED. A failed
payment is a normal return, not a fault. The model also covers the
administrative operations: lookup by id, listing, the unchecked status
override and delete.

Each remote call is a parameter describing how that call ended
(`VehicleOutcome`, `SlotOutcome`, `PaymentOutcome`). The clock reading is a
`Timestamp` parameter. The repository is a `Store`: a `map<int, Booking>`
plus the next identity value. `CreateBooking` is a pure function. It returns
the result (a booking or a `Fault`), the store afterwards, and the ordered
list of collaborator calls it made. Repository saves appear in that list, so
"never consulted" and "saved once before the charge" can be stated directly.

Modules:
- `Wrappers` (`wrappers.dfy`): `Option` for nullable references, `Result` for a return value or a fault.
- `JavaString` (`java_string.dfy`): `String.trim()`, `toUpperCase()` and `equalsIgnoreCase`, as far as the service depends on them.
- `BookingEntity` (`booking.dfy`): the record, the status enumeration, and the `@Valid` constraints.
- `BookingStore` (`booking_store.dfy`): the repository's `save`, `findById` and `delete`.
- `BookingService` (`booking_service.dfy`): the five service operations.
- `BookingProperties` (`booking_properties.dfy`): lemmas that relate steps and operations, invariants over any sequence of requests, and worked scenarios.

In three places the code behaves differently from what the workflow's intent suggests; the model follows the code:
- An unreachable vehicle service raises a plain runtime fault (`VehicleServiceUnavailable`). It is not a dedicated service-unavailable fault.
- A slot fetch that throws raises the same slot-not-found fault as an empty slot list. It does not raise a service-unavailable fault.
- The create path never clears the request's `id` or `paymentId`. So "payment id set iff CONFIRMED" holds only when the request has no payment id and a successful response carries one (`PaymentIdIffConfirmed`). `PaymentIdCaveats` shows both ways it fails otherwise.

Semantics the model fixes explicitly:
- `save` inserts under the next identity value when the booking has no id or its id names no stored row. Otherwise it replaces that row.
- `@NotBlank` is `trim().length() > 0`. Every character up to U+0020 counts as blank.
- `toUpperCase` maps a–z, plus dotless ı → I and long ſ → S. It expands ß → SS and the Latin ligatures ﬀ ﬁ ﬂ ﬃ ﬄ ﬅ ﬆ to plain letters, so `"conﬁrmed"` is accepted as CONFIRMED. A–Z are kept, being their own upper case. Every other character outside A–Z is kept unchanged too; for such a character Java's upper case is a string containing a character outside A–Z (é becomes É, ŉ becomes ʼN, ǰ becomes J̌), so keeping it cannot change whether the result names an enum constant. The model's `ToUpper` is therefore exact for deciding enum names, not as a general `toUpperCase`.
- `equalsIgnoreCase` compares character by character. It also compares the lower cases of the upper cases, as `String.regionMatches` does. It is exact when one side consists of capitals other than I and K, as the literal "SUCCESS" does; it is not a general `equalsIgnoreCase`.

## Model

| member | source | states |
|---|---|---|
| JavaString.TrimStart | src/main/java/com/ivoyant/booking_service/entity/Booking.java:30-31 | the result is the suffix left after the longest prefix of characters ≤ U+0020; when non-empty it starts with a character trim keeps |
| JavaString.TrimEnd | src/main/java/com/ivoyant/booking_service/entity/Booking.java:30-31 | the result is the prefix left after the longest suffix of characters ≤ U+0020; when non-empty it ends with a character trim keeps |
| JavaString.Trim | src/main/java/com/ivoyant/booking_service/entity/Booking.java:30-31 | trim leaves nothing exactly when every character is ≤ U+0020; otherwise both ends of the result are kept characters |
| JavaString.UpperChars | src/main/java/com/ivoyant/booking_service/service/BookingServiceImpl.java:134 | one character upper-cases to between one and three characters |
| JavaString.UpperCharsCapitals | src/main/java/com/ivoyant/booking_service/service/BookingServiceImpl.java:134 | a character's upper case consists of capitals A–Z exactly for a–z, A–Z, dotless ı, long ſ, sharp ß and the Latin ligatures ﬀ–ﬆ, the characters that can help spell an enum name |
| JavaString.ToUpperAppend | src/main/java/com/ivoyant/booking_service/service/BookingServiceImpl.java:134 | upper-casing a concatenation concatenates the upper-cased parts |
| JavaString.UpperCharsStable | src/main/java/com/ivoyant/booking_service/service/BookingServiceImpl.java:134 | the upper case of one character is its own upper case |
| JavaString.ToUpperIdempotent | src/main/java/com/ivoyant/booking_service/service/BookingServiceImpl.java:134 | upper-casing twice is the same as upper-casing once |
| JavaString.ToUpperKeepsCapitals | src/main/java/com/ivoyant/booking_service/service/BookingServiceImpl.java:134 | a string of capital letters A–Z is unchanged by upper-casing |
| BookingEntity.StatusNamed | src/main/java/com/ivoyant/booking_service/service/BookingServiceImpl.java:134 | `valueOf` yields a constant exactly when the name is that constant's name, so names and constants correspond one to one |
| BookingEntity.NotBlankIffVisibleChar | src/main/java/com/ivoyant/booking_service/entity/Booking.java:30-31 | a service type passes @NotBlank iff it is non-null and contains a character above U+0020 |
| BookingEntity.ValidityIgnoresOptionalFields | src/main/java/com/ivoyant/booking_service/entity/Booking.java:18-42 | validity does not depend on `id`, `slotId`, `bookingDate` or `paymentId`, which carry no constraint |
| BookingStore.EmptyStore | src/main/java/com/ivoyant/booking_service/entity/Booking.java:18-20 | a fresh database has no rows and is well formed: identity values start at 1 |
| BookingStore.Save | src/main/java/com/ivoyant/booking_service/service/BookingServiceImpl.java:78-110 | the returned record is what is now stored under its id; no other row changes; a new booking gets an id not yet in use; an existing one keeps its id; well-formedness is kept |
| BookingStore.FindById | src/main/java/com/ivoyant/booking_service/service/BookingServiceImpl.java:118 | finds a record exactly when the id is stored, and it is the stored record |
| BookingStore.Delete | src/main/java/com/ivoyant/booking_service/service/BookingServiceImpl.java:151 | removes exactly the given id and keeps every other row and the identity counter |
| BookingService.CheckVehicle | src/main/java/com/ivoyant/booking_service/service/BookingServiceImpl.java:45-53 | passes only when the vehicle is found; a 404 becomes vehicle-not-found for that id; an I/O failure becomes a runtime fault that is not a not-found fault; any other error propagates with its reason |
| BookingService.AllocateSlot | src/main/java/com/ivoyant/booking_service/service/BookingServiceImpl.java:57-70 | succeeds exactly when a non-empty list arrives whose first entry has a readable id, and then yields that first id; a throwing fetch, a null list or an empty list is slot-not-found |
| BookingService.PendingBooking | src/main/java/com/ivoyant/booking_service/service/BookingServiceImpl.java:73-75 | the record to insert is PENDING, carries the slot and the current time, and otherwise equals the request |
| BookingService.Settle | src/main/java/com/ivoyant/booking_service/service/BookingServiceImpl.java:85-107 | CONFIRMED iff the response status equals "SUCCESS" ignoring case, else FAILED; a confirmed booking takes the response's payment id; a failed one keeps its payment id; no other field changes |
| BookingService.CreateBooking | src/main/java/com/ivoyant/booking_service/service/BookingServiceImpl.java:40-113 | a fault leaves the store unchanged and makes no save or charge; a normal return is CONFIRMED or FAILED, equals the record stored under its id, changes no other record, is dated now, and keeps every request field except id, slot, status, date and payment id; well-formedness is kept |
| BookingService.GetBookingById | src/main/java/com/ivoyant/booking_service/service/BookingServiceImpl.java:115-120 | returns the stored record iff the id is present, otherwise booking-not-found; the store never changes |
| BookingService.GetAllBookings | src/main/java/com/ivoyant/booking_service/service/BookingServiceImpl.java:122-126 | every listed booking is the record stored under its id, every stored record is listed, and ids strictly increase, so none is listed twice |
| BookingService.UpdateBookingStatus | src/main/java/com/ivoyant/booking_service/service/BookingServiceImpl.java:128-144 | a missing id is booking-not-found whatever the status string; a null status is a null-pointer fault; a status naming no constant after upper-casing is invalid-status; each fault leaves the store unchanged; otherwise only that record's status is overwritten, with no transition check |
| BookingService.DeleteBooking | src/main/java/com/ivoyant/booking_service/service/BookingServiceImpl.java:147-153 | a missing id is booking-not-found and changes nothing; a present id is removed and every other record is kept |
| BookingProperties.VehicleFailureAborts | src/main/java/com/ivoyant/booking_service/service/BookingServiceImpl.java:45-53 | a failed vehicle check raises its fault, stores nothing, calls only the vehicle service, and gives the same run whatever the slot and payment outcomes |
| BookingProperties.SlotFailureAborts | src/main/java/com/ivoyant/booking_service/service/BookingServiceImpl.java:57-66 | a throwing, null or empty slot fetch raises slot-not-found, stores nothing, never charges, and gives the same run whatever the payment outcome |
| BookingProperties.UnreadableFirstSlotAborts | src/main/java/com/ivoyant/booking_service/service/BookingServiceImpl.java:68-69 | an unreadable first slot aborts with a generic fault before any save, whatever the later slots hold |
| BookingProperties.OneInsertBeforePayment | src/main/java/com/ivoyant/booking_service/service/BookingServiceImpl.java:73-82 | exactly one save precedes the charge; it stores a PENDING record with the first slot and the current time; the charge carries the saved id and the request amount; a request without id is inserted under a fresh id, adding exactly one key |
| BookingProperties.PaymentCallFailureFailsBooking | src/main/java/com/ivoyant/booking_service/service/BookingServiceImpl.java:85-94 | a throwing payment call returns normally with a stored FAILED booking whose payment id is untouched |
| BookingProperties.PaymentDecidesStatus | src/main/java/com/ivoyant/booking_service/service/BookingServiceImpl.java:96-107 | on a normal return the booking is CONFIRMED iff the response status reads SUCCESS ignoring case, with the response id; otherwise it is FAILED with the request's payment id |
| BookingProperties.PaymentIdIffConfirmed | src/main/java/com/ivoyant/booking_service/service/BookingServiceImpl.java:96-107 | when the request has no payment id and an accepted response carries one, a returned booking has a payment id iff it is CONFIRMED |
| BookingProperties.PaymentIdCaveats | src/main/java/com/ivoyant/booking_service/service/BookingServiceImpl.java:100-105 | a request that already carries a payment id can end FAILED with that id; an accepted response without an id yields CONFIRMED with no payment id |
| BookingProperties.LookupMissingIsStable | src/main/java/com/ivoyant/booking_service/service/BookingServiceImpl.java:115-120 | looking up a missing id raises booking-not-found and leaves the store unchanged, however many times it is repeated |
| BookingProperties.DeleteThenLookup | src/main/java/com/ivoyant/booking_service/service/BookingServiceImpl.java:147-153 | after deleting a present id, looking it up raises booking-not-found |
| BookingProperties.SuccessReadings | src/main/java/com/ivoyant/booking_service/service/BookingServiceImpl.java:100 | a payment status confirms the booking exactly when it has seven characters spelling SUCCESS with each letter in either case, where each S may also be the long s ſ |
| BookingProperties.ParseStatusIgnoresCase | src/main/java/com/ivoyant/booking_service/service/BookingServiceImpl.java:134 | the status parse gives the same answer for a string and its upper case |
| BookingProperties.ParseStatusAcceptsNames | src/main/java/com/ivoyant/booking_service/service/BookingServiceImpl.java:134 | every constant's name parses to that constant |
| BookingProperties.UpdateOverridesAnyState | src/main/java/com/ivoyant/booking_service/service/BookingServiceImpl.java:128-144 | any stored booking, in any status, takes any named status, and a later lookup sees it |
| BookingProperties.Replay | src/main/java/com/ivoyant/booking_service/entity/Booking.java:18-20 | any sequence of service requests keeps the store well formed: ids are assigned by the identity counter and match the rows they label |
| BookingProperties.StepKeepsAmountsPositive | src/main/java/com/ivoyant/booking_service/entity/Booking.java:37-39 | one request that passed validation keeps every stored amount positive |
| BookingProperties.AmountsStayPositive | src/main/java/com/ivoyant/booking_service/entity/Booking.java:37-39 | any sequence of validated requests keeps every stored amount positive |
| BookingProperties.OnlyOverrideLeavesPending | src/main/java/com/ivoyant/booking_service/service/BookingServiceImpl.java:73-112 | starting from settled records, no PENDING record is left after any sequence of requests unless a status override explicitly sets PENDING |
| BookingProperties.ScenarioConfirmed | src/main/java/com/ivoyant/booking_service/service/BookingServiceImpl.java:40-113 | vehicle 42, slot 7, amount 100.0 and response SUCCESS/555 on an empty store give booking 1: slot 7, CONFIRMED, payment 555, the only stored record |
| BookingProperties.ScenarioDeclined | src/main/java/com/ivoyant/booking_service/service/BookingServiceImpl.java:104-106 | the same request answered FAILURE gives slot 7, FAILED and no payment id |
| BookingProperties.ScenarioArchivedStatus | src/main/java/com/ivoyant/booking_service/service/BookingServiceImpl.java:133-139 | updating to "archived" raises invalid-status and leaves the store unchanged |

## Left out

- HTTP transport, URL construction and the configured service names: each remote call is reduced to its outcome.
- Logging, and the clock: `LocalDateTime.now()` is the `now` parameter.
- The controller and the exception handler, which are framework wiring. `IsNotFound` names the three faults that handler answers with 404. Bean validation is not run by the service; `IsValid` is the predicate the controller's `@Valid` enforces, and the invariant lemmas assume it of create requests.
- Repository failures: `save`, `findById` and `delete` always succeed, so fatal store faults are not modelled.
- JPA merge details: a booking whose id names no stored row is inserted under a fresh id. Newer Hibernate versions raise an optimistic-lock fault instead.
- `Long` arithmetic: ids are unbounded integers. A slot id that is missing, non-numeric or out of `Long` range is folded, with null and non-map entries, into `Malformed`.
- `Double` amounts: modelled as `real`, so NaN and infinities do not arise.
- Null `id` arguments to lookup, update and delete, which the HTTP path variables never produce.
- Turkish, Azeri and Lithuanian default locales, where `toUpperCase` maps i to İ or drops a combining dot above (U+0307) after i or j, so that for instance "pendi\u0307ng" would read as PENDING.
- JavaString.ToUpper: keeps characters outside a–z, ı, ſ, ß and the ligatures unchanged (é stays é, where Java gives É), because only whether the result spells an enum name is used.
- JavaString.EqualsIgnoreCase: may answer false for two letters outside basic Latin that Java deems equal ignoring case (é and É), because it is only compared with "SUCCESS".
- Further values of the status enumeration: its source file is not part of this model, and only the three values the service uses are modelled.
- Concurrent requests, double-booking and isolation, which belong to the database and the workshop service.
- UpdateBookingStatus: requires a well-formed store (every row carries its own id), which the database guarantees but the Java method does not check.
- DeleteBooking: requires a well-formed store, for the same reason.
- GetAllBookings: requires a well-formed store; `findAll` promises no order, and the model lists by ascending id, which is one order the database may use.
