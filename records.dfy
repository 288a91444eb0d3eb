/** The rows of the tables the scheduling, payment and CRM services read and
    write, with only the columns those services use. Primary keys are
    natural numbers drawn from one counter of the store (the source uses
    random UUIDs; all that matters is that a new key is unused). */
module Records {
  import opened Common
  import opened Time
  import opened CrmTypes

  type Id = nat

  datatype Role = Admin | InstructorRole | StudentRole | Parent

  datatype BookingStatus = Pending | Confirmed | InProgress | Completed | Cancelled | NoShow | Rescheduled

  /** The value stored in `bookings.status`. */
  function StatusName(s: BookingStatus): string
  {
    match s
    case Pending => "pending"
    case Confirmed => "confirmed"
    case InProgress => "in_progress"
    case Completed => "completed"
    case Cancelled => "cancelled"
    case NoShow => "no_show"
    case Rescheduled => "rescheduled"
  }

  /** A booking that still holds its time: the overlap scan only considers these. */
  predicate HoldsSlot(s: BookingStatus) { s == Pending || s == Confirmed }

  datatype Profile = Profile(
    id: Id, clerkUserId: string, firstName: string, lastName: Option<string>,
    email: string, phone: Option<string>, role: Role)

  datatype Instructor = Instructor(id: Id, profileId: Id)

  datatype Student = Student(
    id: Id, profileId: Id, instructorId: Id, isActive: bool, enrolledAt: Option<Instant>)

  datatype Service = Service(
    id: Id, instructorId: Id, name: string, durationMinutes: int, priceCents: int, isActive: bool)

  /** A recurring weekly window; `dayOfWeek` is 0 (Sunday) to 6, times are "HH:MM". */
  datatype AvailabilityRule = AvailabilityRule(
    id: Id, instructorId: Id, dayOfWeek: int, startTime: string, endTime: string, isActive: bool)

  /** A one-off exception for the day containing `date`. */
  datatype AvailabilityOverride = AvailabilityOverride(
    id: Id, instructorId: Id, date: Instant, isAvailable: bool,
    startTime: Option<string>, endTime: Option<string>, reason: Option<string>)

  datatype Booking = Booking(
    id: Id, instructorId: Id, studentId: Id, serviceId: Option<Id>,
    scheduledAt: Instant, durationMinutes: int, status: BookingStatus,
    meetingLocation: Option<string>, notes: Option<string>,
    confirmedAt: Option<Instant>, updatedAt: Instant)

  /** The instant a booking's lesson ends. */
  function BookingEnd(b: Booking): Instant { b.scheduledAt + b.durationMinutes * MINUTE_MS }

  datatype VoucherType = Percentage | FixedAmount | FreeLesson

  datatype Voucher = Voucher(
    id: Id, code: string, voucherType: VoucherType,
    discountPercent: Option<int>, discountCents: Option<int>,
    maxUses: Option<int>, timesUsed: int,
    validFrom: Instant, validUntil: Option<Instant>, isActive: bool)

  datatype PaymentStatus = PaymentPending | Processing | PaymentCompleted | Failed | Refunded
                         | PartiallyRefunded | Disputed

  datatype Payment = Payment(
    id: Id, instructorId: Id, studentId: Option<Id>, bookingId: Option<Id>,
    amountCents: int, discountCents: int, currency: string, status: PaymentStatus,
    provider: string, providerSessionId: Option<string>, description: Option<string>,
    voucherCode: Option<string>, paidAt: Option<Instant>, refundedAt: Option<Instant>,
    refundedCents: int, updatedAt: Instant)

  datatype Contact = Contact(
    id: Id, instructorId: Option<Id>, profileId: Option<Id>,
    firstName: Option<string>, lastName: Option<string>, email: Option<string>,
    phone: Option<string>, source: Option<string>, notes: Option<string>,
    lifecycle: Lifecycle, updatedAt: Instant)

  /** The editable contact fields; `None` is a field the request leaves out. */
  datatype ContactFields = ContactFields(
    firstName: Option<string>, lastName: Option<string>, email: Option<string>,
    phone: Option<string>, notes: Option<string>, source: Option<string>)

  /** The JSON payload of an audit record, one shape per action. */
  datatype AuditPayload =
    | BookingCreatedPayload(instructorId: Id, serviceId: Id, scheduledAt: Instant)
    | StatusChangePayload(previousStatus: BookingStatus, newStatus: BookingStatus)
    | PaymentSuccessPayload(bookingId: Id, stripeSessionId: string)
    | PaymentRefundedPayload(paymentIntentId: string)
    | ContactCreatedPayload(contactInstructorId: Id, email: Option<string>)
    | ContactUpdatedPayload(fields: ContactFields)
    | LifecycleChangedPayload(from: Lifecycle, to: Lifecycle)
    | StudentEnrolledPayload(contactId: Id, enrollingInstructorId: Id)
    | EmptyPayload

  /** One appended row of `audit_log`; `actor` is None for system events. */
  datatype AuditEntry = AuditEntry(
    actor: Option<Id>, action: string, entityType: string, entityId: Id, payload: AuditPayload)
}
