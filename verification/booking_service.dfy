/** The booking service: the create-booking workflow over the vehicle,
    workshop and payment services and the repository, and the administrative
    lookup, listing, status override and delete operations.

    Every remote call is an input describing how that call ended; the
    repository is a `Store` value threaded through and returned. */
module BookingService {
  import opened Wrappers
  import opened BookingEntity
  import opened BookingStore
  import JavaString

  /** How the vehicle lookup ended: the vehicle exists, a 404 reply, an I/O
      failure reaching the service, or any other client error. */
  datatype VehicleOutcome = Found | NotFound | Unreachable | OtherError(reason: string)

  /** One element of the workshop's slot array: a map whose "id" parses as a
      `Long`, or anything else (a null element, a non-map, a missing or
      non-numeric "id"). */
  datatype SlotEntry = Slot(id: int) | Malformed

  /** How the slot fetch ended: the call threw, the body was null, or an array. */
  datatype SlotOutcome = Threw | Null | Slots(entries: seq<SlotEntry>)

  /** How the payment call ended: it threw, it returned null, or a response
      whose status and id may each be null. */
  datatype PaymentOutcome = CallFailed | NoResponse | Response(status: Option<string>, paymentId: Option<int>)

  /** The body posted to the payment service. */
  datatype PaymentRequest = PaymentRequest(amount: Option<real>, bookingId: int)

  /** One call the workflow makes to a collaborator, in order. */
  datatype Call =
    | VerifyVehicle(vehicleId: Option<int>)
    | FetchSlots
    | Persist(record: Booking)
    | Charge(request: PaymentRequest)

  /** Why slot allocation failed: the fetch threw, or no slot came back. */
  datatype SlotCause = FetchFailed | NoneAvailable

  /** The exceptions the service raises. */
  datatype Fault =
    | VehicleNotFound(vehicleId: Option<int>)
    | VehicleServiceUnavailable
    | VehicleCallFailed(reason: string)
    | SlotNotFound(cause: SlotCause)
    | SlotIdUnreadable
    | BookingNotFound(id: int)
    | InvalidStatus(status: string)
    | NullStatus

  /** The three faults the HTTP layer answers with 404. */
  predicate IsNotFound(f: Fault) {
    f.VehicleNotFound? || f.SlotNotFound? || f.BookingNotFound?
  }

  /** A service call's return value or fault, and the repository afterwards. */
  datatype Reply<+T> = Reply(result: Result<T, Fault>, store: Store)

  /** A create-booking run: its outcome, the repository afterwards, and the
      collaborator calls it made. */
  datatype Run = Run(result: Result<Booking, Fault>, store: Store, calls: seq<Call>)

  // ---------------------------------------------------------------------
  // createBooking, step by step

  /** Step 1: vehicle check. `None` means the vehicle exists. */
  function CheckVehicle(outcome: VehicleOutcome, vehicleId: Option<int>): (r: Option<Fault>)
    ensures r.None? <==> outcome.Found?
    ensures outcome.NotFound? ==> r == Some(VehicleNotFound(vehicleId))
    ensures outcome.Unreachable? ==> r == Some(VehicleServiceUnavailable) && !IsNotFound(r.value)
    ensures outcome.OtherError? ==> r == Some(VehicleCallFailed(outcome.reason))
  {
    match outcome
    case Found => None
    case NotFound => Some(VehicleNotFound(vehicleId))
    case Unreachable => Some(VehicleServiceUnavailable)
    case OtherError(reason) => Some(VehicleCallFailed(reason))
  }

  /** Step 2: fetch the slots and take the id of the first one returned. */
  function AllocateSlot(outcome: SlotOutcome): (r: Result<int, Fault>)
    ensures r.Success? <==> outcome.Slots? && |outcome.entries| > 0 && outcome.entries[0].Slot?
    ensures r.Success? ==> r.value == outcome.entries[0].id
    ensures outcome.Threw? ==> r == Failure(SlotNotFound(FetchFailed))
    ensures outcome.Null? || (outcome.Slots? && |outcome.entries| == 0) ==> r == Failure(SlotNotFound(NoneAvailable))
  {
    match outcome
    case Threw => Failure(SlotNotFound(FetchFailed))
    case Null => Failure(SlotNotFound(NoneAvailable))
    case Slots(entries) =>
      if |entries| == 0 then Failure(SlotNotFound(NoneAvailable))
      else match entries[0]
        case Slot(id) => Success(id)
        case Malformed => Failure(SlotIdUnreadable)
  }

  /** Step 3: the record inserted before payment. */
  function PendingBooking(request: Booking, slotId: int, now: Timestamp): (b: Booking)
    ensures b.status == Some(Pending) && b.slotId == Some(slotId) && b.bookingDate == Some(now)
    ensures b.(slotId := request.slotId, status := request.status, bookingDate := request.bookingDate) == request
  {
    request.(slotId := Some(slotId), bookingDate := Some(now), status := Some(Pending))
  }

  /** The payment service accepted the charge: a response whose status equals
      "SUCCESS" ignoring case. */
  predicate PaymentAccepted(outcome: PaymentOutcome) {
    outcome.Response? && outcome.status.Some? && JavaString.EqualsIgnoreCase("SUCCESS", outcome.status.value)
  }

  /** Steps 5 and 6: the saved booking's terminal state. An accepted payment
      confirms it and records the response's payment id; a failed call, a null
      response or any other status fails it and leaves the payment id alone. */
  function Settle(saved: Booking, outcome: PaymentOutcome): (r: Booking)
    ensures r.status == Some(Confirmed) <==> PaymentAccepted(outcome)
    ensures r.status == Some(Failed) <==> !PaymentAccepted(outcome)
    ensures PaymentAccepted(outcome) ==> r.paymentId == outcome.paymentId
    ensures !PaymentAccepted(outcome) ==> r.paymentId == saved.paymentId
    ensures r.(status := saved.status, paymentId := saved.paymentId) == saved
  {
    match outcome
    case CallFailed => saved.(status := Some(Failed))
    case NoResponse => saved.(status := Some(Failed))
    case Response(status, paymentId) =>
      if status.Some? && JavaString.EqualsIgnoreCase("SUCCESS", status.value) then
        saved.(status := Some(Confirmed), paymentId := paymentId)
      else
        saved.(status := Some(Failed))
  }

  /** `createBooking(request)`. Vehicle and slot faults abort before anything
      is stored. Otherwise the booking is saved as PENDING, the payment service
      is charged with the saved id and amount, and whatever the payment outcome
      the booking is saved again in a terminal state and returned. */
  function CreateBooking(store: Store, request: Booking, now: Timestamp, vehicle: VehicleOutcome,
                         slots: SlotOutcome, payment: PaymentOutcome): (r: Run)
    ensures r.result.Failure? ==> r.store == store && forall i :: 0 <= i < |r.calls| ==> !r.calls[i].Persist? && !r.calls[i].Charge?
    ensures r.result.Success? ==>
      var b := r.result.value;
      && b.status in {Some(Confirmed), Some(Failed)}
      && b.id.Some? && b.id.value in r.store.records && r.store.records[b.id.value] == b
      && OnlyChangedAt(store.records, r.store.records, b.id.value)
      && b.bookingDate == Some(now)
      && b.(id := request.id, slotId := request.slotId, status := request.status,
            bookingDate := request.bookingDate, paymentId := request.paymentId) == request
    ensures WellFormed(store) ==> WellFormed(r.store)
  {
    var verifyCall := VerifyVehicle(request.vehicleId);
    match CheckVehicle(vehicle, request.vehicleId)
    case Some(fault) => Run(Failure(fault), store, [verifyCall])
    case None =>
      match AllocateSlot(slots)
      case Failure(fault) => Run(Failure(fault), store, [verifyCall, FetchSlots])
      case Success(slotId) =>
        var pending := PendingBooking(request, slotId, now);
        var first := Save(store, pending);
        var charge := PaymentRequest(first.record.amount, first.record.id.value);
        var settled := Settle(first.record, payment);
        var last := Save(first.store, settled);
        Run(Success(last.record), last.store, [verifyCall, FetchSlots, Persist(pending), Charge(charge), Persist(settled)])
  }

  // ---------------------------------------------------------------------
  // Administrative operations

  /** `getBookingById(id)`: the stored record, or booking-not-found. */
  function GetBookingById(store: Store, id: int): (r: Reply<Booking>)
    ensures r.store == store
    ensures r.result.Success? <==> id in store.records
    ensures r.result.Success? ==> r.result.value == store.records[id]
    ensures r.result.Failure? ==> r.result.error == BookingNotFound(id)
  {
    match FindById(store, id)
    case Some(b) => Reply(Success(b), store)
    case None => Reply(Failure(BookingNotFound(id)), store)
  }

  /** `getAllBookings()`: every stored record exactly once, in id order. */
  method GetAllBookings(store: Store) returns (r: seq<Booking>)
    requires WellFormed(store)
    ensures forall i :: 0 <= i < |r| ==> r[i].id.Some? && r[i].id.value in store.records && store.records[r[i].id.value] == r[i]
    ensures forall k :: k in store.records ==> store.records[k] in r
    ensures forall i, j :: 0 <= i < j < |r| ==> r[i].id.Some? && r[j].id.Some? && r[i].id.value < r[j].id.value
  {
    r := [];
    var k := 1;
    while k < store.nextId
      invariant 1 <= k <= store.nextId
      invariant forall i :: 0 <= i < |r| ==> r[i].id.Some? && r[i].id.value in store.records && store.records[r[i].id.value] == r[i] && r[i].id.value < k
      invariant forall j :: j in store.records && j < k ==> store.records[j] in r
      invariant forall i, j :: 0 <= i < j < |r| ==> r[i].id.Some? && r[j].id.Some? && r[i].id.value < r[j].id.value
    {
      if k in store.records {
        r := r + [store.records[k]];
      }
      k := k + 1;
    }
  }

  /** `BookingStatus.valueOf(status.toUpperCase())`. */
  function ParseStatus(status: string): Option<BookingStatus> {
    StatusNamed(JavaString.ToUpper(status))
  }

  /** `updateBookingStatus(id, status)`: a missing id is reported before the
      status is looked at; a null status raises a null-pointer fault; a status
      naming no enum constant after upper-casing is invalid; otherwise the
      status is overwritten whatever it was, and nothing else changes. */
  function UpdateBookingStatus(store: Store, id: int, status: Option<string>): (r: Reply<Booking>)
    requires WellFormed(store)
    ensures id !in store.records ==> r == Reply(Failure(BookingNotFound(id)), store)
    ensures id in store.records && status.None? ==> r == Reply(Failure(NullStatus), store)
    ensures id in store.records && status.Some? && ParseStatus(status.value).None? ==>
      r == Reply(Failure(InvalidStatus(status.value)), store)
    ensures r.result.Success? <==> id in store.records && status.Some? && ParseStatus(status.value).Some?
    ensures r.result.Success? ==>
      && r.result.value == store.records[id].(status := ParseStatus(status.value))
      && r.store == Store(store.records[id := r.result.value], store.nextId)
    ensures WellFormed(r.store)
  {
    match GetBookingById(store, id).result
    case Failure(fault) => Reply(Failure(fault), store)
    case Success(booking) =>
      match status
      case None => Reply(Failure(NullStatus), store)
      case Some(s) =>
        match ParseStatus(s)
        case None => Reply(Failure(InvalidStatus(s)), store)
        case Some(newStatus) =>
          var saved := Save(store, booking.(status := Some(newStatus)));
          Reply(Success(saved.record), saved.store)
  }

  /** `deleteBooking(id)`: booking-not-found for a missing id; otherwise
      exactly that record is removed. */
  function DeleteBooking(store: Store, id: int): (r: Reply<()>)
    requires WellFormed(store)
    ensures id !in store.records ==> r == Reply(Failure(BookingNotFound(id)), store)
    ensures id in store.records ==> r.result.Success?
    ensures r.store.records.Keys == store.records.Keys - {id}
    ensures forall j :: j in r.store.records ==> r.store.records[j] == store.records[j]
    ensures WellFormed(r.store)
  {
    match GetBookingById(store, id).result
    case Failure(fault) => Reply(Failure(fault), store)
    case Success(booking) => Reply(Success(()), Delete(store, booking.id.value))
  }
}
