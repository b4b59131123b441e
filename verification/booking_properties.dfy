/** Properties of the booking service that relate its steps, its outcomes and
    several of its operations to one another. */
module BookingProperties {
  import opened Wrappers
  import opened BookingEntity
  import opened BookingStore
  import opened BookingService
  import JavaString

  // ---------------------------------------------------------------------
  // createBooking: aborts before anything is stored

  /** A failed vehicle check raises the matching fault, stores nothing, and
      never reaches the workshop or payment service: the run is the same
      whatever those two would have answered. */
  lemma VehicleFailureAborts(store: Store, request: Booking, now: Timestamp, vehicle: VehicleOutcome,
                             slots: SlotOutcome, payment: PaymentOutcome, slots': SlotOutcome, payment': PaymentOutcome)
    requires !vehicle.Found?
    ensures var r := CreateBooking(store, request, now, vehicle, slots, payment);
      && r.store == store
      && r.calls == [VerifyVehicle(request.vehicleId)]
      && (vehicle.NotFound? ==> r.result == Failure(VehicleNotFound(request.vehicleId)))
      && (vehicle.Unreachable? ==> r.result == Failure(VehicleServiceUnavailable))
      && (vehicle.OtherError? ==> r.result == Failure(VehicleCallFailed(vehicle.reason)))
      && r == CreateBooking(store, request, now, vehicle, slots', payment')
  {
  }

  /** A slot fetch that throws, returns null or returns no slot raises
      slot-not-found, stores nothing and never reaches the payment service. */
  lemma SlotFailureAborts(store: Store, request: Booking, now: Timestamp, slots: SlotOutcome,
                          payment: PaymentOutcome, payment': PaymentOutcome)
    requires slots.Threw? || slots.Null? || (slots.Slots? && |slots.entries| == 0)
    ensures var r := CreateBooking(store, request, now, Found, slots, payment);
      && r.result.Failure? && r.result.error.SlotNotFound?
      && r.store == store
      && r.calls == [VerifyVehicle(request.vehicleId), FetchSlots]
      && r == CreateBooking(store, request, now, Found, slots, payment')
  {
  }

  /** A first slot whose id cannot be read aborts the run too, with a
      generic fault, whatever the later slots hold. */
  lemma UnreadableFirstSlotAborts(store: Store, request: Booking, now: Timestamp, rest: seq<SlotEntry>,
                                  payment: PaymentOutcome)
    ensures var r := CreateBooking(store, request, now, Found, Slots([Malformed] + rest), payment);
      r.result == Failure(SlotIdUnreadable) && r.store == store && |r.calls| == 2
  {
  }

  // ---------------------------------------------------------------------
  // createBooking: from the first save to the terminal state

  /** When the vehicle exists and the first slot is readable, the run saves
      exactly once before charging: a PENDING record with that slot and the
      current time. The charge carries the saved id and amount, and the second
      save stores the settled record under the same id. For a request without
      an id that first save is a fresh insert. */
  lemma OneInsertBeforePayment(store: Store, request: Booking, now: Timestamp, slotId: int,
                               rest: seq<SlotEntry>, payment: PaymentOutcome)
    requires WellFormed(store)
    ensures var r := CreateBooking(store, request, now, Found, Slots([Slot(slotId)] + rest), payment);
      && r.result.Success?
      && var b := r.result.value;
      && |r.calls| == 5
      && r.calls[0] == VerifyVehicle(request.vehicleId) && r.calls[1] == FetchSlots
      && r.calls[2].Persist? && r.calls[4].Persist? && r.calls[3].Charge?
      && r.calls[4].record == b
      && (forall i :: 0 <= i < 3 && r.calls[i].Persist? ==> i == 2)
      && var pending := r.calls[2].record;
      && pending.status == Some(Pending) && pending.slotId == Some(slotId) && pending.bookingDate == Some(now)
      && r.calls[3].request == PaymentRequest(request.amount, b.id.value)
      && b.slotId == Some(slotId)
      && (request.id.None? ==>
            && b.id == Some(store.nextId)
            && store.nextId !in store.records
            && r.store.records.Keys == store.records.Keys + {store.nextId}
            && r.store.nextId == store.nextId + 1)
  {
  }

  /** A payment call that throws is not a fault: the booking is stored as
      FAILED, its payment id untouched, and returned normally. */
  lemma PaymentCallFailureFailsBooking(store: Store, request: Booking, now: Timestamp, slotId: int,
                                       rest: seq<SlotEntry>)
    ensures var r := CreateBooking(store, request, now, Found, Slots([Slot(slotId)] + rest), CallFailed);
      && r.result.Success?
      && r.result.value.status == Some(Failed)
      && r.result.value.paymentId == request.paymentId
      && r.store.records[r.result.value.id.value] == r.result.value
  {
  }

  /** On a normal return the payment outcome alone decides the terminal
      status: CONFIRMED with the response's payment id when the status reads
      "SUCCESS" ignoring case, FAILED with the request's payment id otherwise. */
  lemma PaymentDecidesStatus(store: Store, request: Booking, now: Timestamp, vehicle: VehicleOutcome,
                             slots: SlotOutcome, payment: PaymentOutcome)
    ensures var r := CreateBooking(store, request, now, vehicle, slots, payment);
      r.result.Success? ==>
        && (r.result.value.status == Some(Confirmed) <==> PaymentAccepted(payment))
        && (PaymentAccepted(payment) ==> r.result.value.paymentId == payment.paymentId)
        && (!PaymentAccepted(payment) ==>
              r.result.value.status == Some(Failed) && r.result.value.paymentId == request.paymentId)
  {
  }

  /** The payment id is set exactly on confirmed bookings, provided the
      request carries no payment id of its own and a successful response
      carries one. Without those two conditions the service can return a
      FAILED booking with a payment id, or a CONFIRMED one without. */
  lemma PaymentIdIffConfirmed(store: Store, request: Booking, now: Timestamp, vehicle: VehicleOutcome,
                              slots: SlotOutcome, payment: PaymentOutcome)
    requires request.paymentId.None?
    requires PaymentAccepted(payment) ==> payment.paymentId.Some?
    ensures var r := CreateBooking(store, request, now, vehicle, slots, payment);
      r.result.Success? ==> (r.result.value.paymentId.Some? <==> r.result.value.status == Some(Confirmed))
  {
  }

  /** The two ways the invariant "payment id set iff CONFIRMED" fails when its
      conditions are dropped. */
  lemma PaymentIdCaveats(store: Store, now: Timestamp)
    ensures var request := Booking(None, Some(1), Some(42), None, Some("Oil change"), Some(Pending), Some(100.0), None, Some(9));
      var r := CreateBooking(store, request, now, Found, Slots([Slot(7)]), Response(Some("FAILURE"), None));
      r.result.Success? && r.result.value.status == Some(Failed) && r.result.value.paymentId == Some(9)
    ensures var request := Booking(None, Some(1), Some(42), None, Some("Oil change"), Some(Pending), Some(100.0), None, None);
      var r := CreateBooking(store, request, now, Found, Slots([Slot(7)]), Response(Some("success"), None));
      r.result.Success? && r.result.value.status == Some(Confirmed) && r.result.value.paymentId.None?
  {
    assert JavaString.EqualsIgnoreCase("SUCCESS", "success");
    FailureIsNotSuccess();
  }

  // ---------------------------------------------------------------------
  // Administrative operations

  /** Looking up a missing id raises booking-not-found, however often it is done. */
  lemma LookupMissingIsStable(store: Store, id: int, n: nat)
    requires id !in store.records
    ensures RepeatLookup(store, id, n) == Reply(Failure(BookingNotFound(id)), store)
  {
  }

  /** `n + 1` consecutive lookups of the same id; the last reply. */
  function RepeatLookup(store: Store, id: int, n: nat): Reply<Booking>
    decreases n
  {
    var r := GetBookingById(store, id);
    if n == 0 then r else RepeatLookup(r.store, id, n - 1)
  }

  /** After a delete the id is gone for good: a lookup raises booking-not-found. */
  lemma DeleteThenLookup(store: Store, id: int)
    requires WellFormed(store) && id in store.records
    ensures var d := DeleteBooking(store, id);
      d.result.Success? && GetBookingById(d.store, id).result == Failure(BookingNotFound(id))
  {
  }

  /** Status parsing ignores case: upper-casing the input first changes nothing. */
  lemma {:induction false} ParseStatusIgnoresCase(s: string)
    ensures ParseStatus(JavaString.ToUpper(s)) == ParseStatus(s)
  {
    JavaString.ToUpperIdempotent(s);
  }

  /** Every enum name is accepted as itself. */
  lemma ParseStatusAcceptsNames(st: BookingStatus)
    ensures ParseStatus(Name(st)) == Some(st)
  {
    var n := Name(st);
    assert JavaString.AllCapitals(n) by {
      match st
      case Pending =>
      case Confirmed =>
      case Failed =>
    }
    JavaString.ToUpperKeepsCapitals(n);
  }

  /** The status override ignores the current state: any stored booking, in
      any status, takes any recognised status, and a lookup then sees it. */
  lemma UpdateOverridesAnyState(store: Store, id: int, st: BookingStatus)
    requires WellFormed(store) && id in store.records
    ensures var u := UpdateBookingStatus(store, id, Some(Name(st)));
      && u.result.Success?
      && GetBookingById(u.store, id).result == Success(store.records[id].(status := Some(st)))
  {
    ParseStatusAcceptsNames(st);
  }

  // ---------------------------------------------------------------------
  // Invariants across any sequence of service calls

  /** One request to the service, with the outcomes of the remote calls it makes. */
  datatype Command =
    | Create(request: Booking, now: Timestamp, vehicle: VehicleOutcome, slots: SlotOutcome, payment: PaymentOutcome)
    | Lookup(id: int)
    | UpdateStatus(id: int, status: Option<string>)
    | Remove(id: int)

  /** The repository after one request. */
  function Step(store: Store, c: Command): Store
    requires WellFormed(store)
  {
    match c
    case Create(request, now, vehicle, slots, payment) => CreateBooking(store, request, now, vehicle, slots, payment).store
    case Lookup(id) => GetBookingById(store, id).store
    case UpdateStatus(id, status) => UpdateBookingStatus(store, id, status).store
    case Remove(id) => DeleteBooking(store, id).store
  }

  /** The repository after a sequence of requests, in order. */
  function Replay(store: Store, cs: seq<Command>): (r: Store)
    requires WellFormed(store)
    ensures WellFormed(r)
    decreases |cs|
  {
    if |cs| == 0 then store else Replay(Step(store, cs[0]), cs[1..])
  }

  /** A create request that passed @Valid. */
  predicate Admitted(c: Command) {
    c.Create? ==> IsValid(c.request)
  }

  /** Every stored booking has a positive amount. */
  predicate AmountsPositive(store: Store) {
    forall k :: k in store.records ==> PositiveAmount(store.records[k].amount)
  }

  /** Every stored booking is in a terminal state. */
  predicate AllSettled(store: Store) {
    forall k :: k in store.records ==> store.records[k].status != Some(Pending)
  }

  /** One admitted request keeps every stored amount positive. */
  lemma StepKeepsAmountsPositive(store: Store, c: Command)
    requires WellFormed(store) && AmountsPositive(store) && Admitted(c)
    ensures AmountsPositive(Step(store, c))
  {
    match c
    case Create(request, now, vehicle, slots, payment) =>
      var r := CreateBooking(store, request, now, vehicle, slots, payment);
      if r.result.Success? {
        var k := r.result.value.id.value;
        assert PositiveAmount(r.store.records[k].amount);
        forall j | j in r.store.records
          ensures PositiveAmount(r.store.records[j].amount)
        {
          if j != k {
            assert r.store.records[j] == store.records[j];
          }
        }
      }
    case Lookup(_) =>
    case UpdateStatus(id, status) =>
      var u := UpdateBookingStatus(store, id, status);
      if u.result.Success? {
        assert u.store.records == store.records[id := store.records[id].(status := ParseStatus(status.value))];
      }
    case Remove(id) =>
  }

  /** Amounts stay positive across any sequence of admitted requests. */
  lemma {:induction false} AmountsStayPositive(store: Store, cs: seq<Command>)
    requires WellFormed(store) && AmountsPositive(store)
    requires forall i :: 0 <= i < |cs| ==> Admitted(cs[i])
    ensures AmountsPositive(Replay(store, cs))
    decreases |cs|
  {
    if |cs| > 0 {
      StepKeepsAmountsPositive(store, cs[0]);
      AmountsStayPositive(Step(store, cs[0]), cs[1..]);
    }
  }

  /** The create workflow never leaves a PENDING record behind; only the
      administrative override can put one there. */
  lemma {:induction false} OnlyOverrideLeavesPending(store: Store, cs: seq<Command>)
    requires WellFormed(store) && AllSettled(store)
    requires forall i :: 0 <= i < |cs| ==> !(cs[i].UpdateStatus? && cs[i].status.Some?
                                              && ParseStatus(cs[i].status.value) == Some(Pending))
    ensures AllSettled(Replay(store, cs))
    decreases |cs|
  {
    if |cs| > 0 {
      OnlyOverrideLeavesPending(Step(store, cs[0]), cs[1..]);
    }
  }

  // ---------------------------------------------------------------------
  // Worked scenarios

  /** Vehicle 42 exists, slot 7 is the only one, 100.0 is charged and the
      payment service answers SUCCESS with id 555. */
  lemma ScenarioConfirmed()
    ensures var request := Booking(None, Some(1), Some(42), None, Some("Oil change"), Some(Pending), Some(100.0), None, None);
      var r := CreateBooking(EmptyStore(), request, Timestamp(0), Found, Slots([Slot(7)]), Response(Some("SUCCESS"), Some(555)));
      && r.result.Success?
      && r.result.value.slotId == Some(7) && r.result.value.status == Some(Confirmed) && r.result.value.paymentId == Some(555)
      && r.result.value.id == Some(1) && r.store.records == map[1 := r.result.value]
  {
    assert JavaString.EqualsIgnoreCase("SUCCESS", "SUCCESS");
  }

  /** The same request, but the payment service answers FAILURE. */
  lemma ScenarioDeclined()
    ensures var request := Booking(None, Some(1), Some(42), None, Some("Oil change"), Some(Pending), Some(100.0), None, None);
      var r := CreateBooking(EmptyStore(), request, Timestamp(0), Found, Slots([Slot(7)]), Response(Some("FAILURE"), None));
      && r.result.Success?
      && r.result.value.slotId == Some(7) && r.result.value.status == Some(Failed) && r.result.value.paymentId.None?
  {
    FailureIsNotSuccess();
  }

  /** The payment statuses that read as "SUCCESS" ignoring case: seven
      characters, each letter in either case, and each S possibly a long s. */
  lemma SuccessReadings(s: string, paymentId: Option<int>)
    ensures JavaString.EqualsIgnoreCase("SUCCESS", s) <==>
      && |s| == 7
      && s[0] in {'S', 's', '\U{017F}'} && s[1] in {'U', 'u'} && s[2] in {'C', 'c'} && s[3] in {'C', 'c'}
      && s[4] in {'E', 'e'} && s[5] in {'S', 's', '\U{017F}'} && s[6] in {'S', 's', '\U{017F}'}
    ensures PaymentAccepted(Response(Some(s), paymentId)) <==> JavaString.EqualsIgnoreCase("SUCCESS", s)
  {
    if |s| == 7 {
      assert "SUCCESS"[0] == 'S' && "SUCCESS"[1] == 'U' && "SUCCESS"[2] == 'C' && "SUCCESS"[3] == 'C'
          && "SUCCESS"[4] == 'E' && "SUCCESS"[5] == 'S' && "SUCCESS"[6] == 'S';
    }
  }

  /** The payment status "FAILURE" does not read as "SUCCESS". */
  lemma FailureIsNotSuccess()
    ensures !JavaString.EqualsIgnoreCase("SUCCESS", "FAILURE")
  {
    assert "SUCCESS"[0] == 'S' && "FAILURE"[0] == 'F';
    assert !JavaString.CharEqualsIgnoreCase("SUCCESS"[0], "FAILURE"[0]);
  }

  /** An archived status is not in the vocabulary: the update is refused and
      the stored status stays as it was. */
  lemma ScenarioArchivedStatus(store: Store, id: int)
    requires WellFormed(store) && id in store.records
    ensures var u := UpdateBookingStatus(store, id, Some("archived"));
      u.result == Failure(InvalidStatus("archived")) && u.store == store
  {
    ArchivedNamesNoStatus();
  }

  /** "archived" upper-cases to a string starting with A, which no constant's name does. */
  lemma ArchivedNamesNoStatus()
    ensures ParseStatus("archived") == None
  {
    var u := JavaString.ToUpper("archived");
    assert u == ['A'] + JavaString.ToUpper("archived"[1..]);
    assert u[0] == 'A';
  }
}
