/** The `Booking` entity, its status vocabulary, and the bean-validation
    constraints a create request must satisfy before it reaches the service. */
module BookingEntity {
  import opened Wrappers
  import JavaString

  /** The booking status enumeration. Only the three values the service
      itself uses are known; the real enumeration may hold more. */
  datatype BookingStatus = Pending | Confirmed | Failed

  /** The enum constant's name, as `Enum.name()` spells it. */
  function Name(st: BookingStatus): string {
    match st
    case Pending => "PENDING"
    case Confirmed => "CONFIRMED"
    case Failed => "FAILED"
  }

  /** `BookingStatus.valueOf(name)`: the constant with exactly that name, if any. */
  function StatusNamed(name: string): (r: Option<BookingStatus>)
    ensures forall st :: r == Some(st) <==> Name(st) == name
  {
    if name == "PENDING" then Some(Pending)
    else if name == "CONFIRMED" then Some(Confirmed)
    else if name == "FAILED" then Some(Failed)
    else None
  }

  /** An opaque point in time; the service reads the clock once per booking. */
  datatype Timestamp = Timestamp(instant: int)

  /** A booking record. Every field is a nullable Java reference; `amount` is a
      `Double` in the source and only its sign matters here. */
  datatype Booking = Booking(
    id: Option<int>,
    userId: Option<int>,
    vehicleId: Option<int>,
    slotId: Option<int>,
    serviceType: Option<string>,
    status: Option<BookingStatus>,
    amount: Option<real>,
    bookingDate: Option<Timestamp>,
    paymentId: Option<int>)

  /** @NotBlank: not null, and `trim()` leaves something. */
  predicate NotBlank(s: Option<string>) {
    s.Some? && |JavaString.Trim(s.value)| > 0
  }

  /** @Positive on a present value. */
  predicate PositiveAmount(a: Option<real>) {
    a.Some? && a.value > 0.0
  }

  /** The constraints checked by @Valid on a create request: user, vehicle,
      status and amount present, service type not blank, amount positive.
      `id`, `slotId`, `bookingDate` and `paymentId` are unconstrained. */
  predicate IsValid(b: Booking) {
    && b.userId.Some?
    && b.vehicleId.Some?
    && NotBlank(b.serviceType)
    && b.status.Some?
    && PositiveAmount(b.amount)
  }

  /** A service type passes @NotBlank exactly when it is present and holds a
      character above U+0020. */
  lemma NotBlankIffVisibleChar(s: Option<string>)
    ensures NotBlank(s) <==> s.Some? && exists i :: 0 <= i < |s.value| && !JavaString.IsTrimmable(s.value[i])
  {
  }

  /** Validity looks only at the constrained fields: the store-assigned and
      optional fields may hold anything. */
  lemma ValidityIgnoresOptionalFields(b: Booking, id: Option<int>, slotId: Option<int>,
                                      date: Option<Timestamp>, paymentId: Option<int>)
    ensures IsValid(b) <==> IsValid(b.(id := id, slotId := slotId, bookingDate := date, paymentId := paymentId))
  {
  }

}
