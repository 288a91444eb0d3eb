/** The booking service: availability lookups against the store, booking
    creation with its write-time re-check, status updates with the student
    cancellation rule, and the booking-with-details projection. */
module BookingService {
  import opened Common
  import opened Time
  import opened Records
  import opened Database
  import opened Slots
  import opened Availability

  datatype BookingError =
    | StudentProfileNotFound
    | ServiceNotFound
    | SlotUnavailable
    | BookingNotFound
    | StudentsOnlyCancel
    | CancellationTooLate
    /** The `RangeError` slot generation throws for a start past 24:00. */
    | InvalidTimeValue

  /** The `Error` message each failure throws. */
  function ErrorMessage(e: BookingError): string
  {
    match e
    case StudentProfileNotFound => "Student profile not found"
    case ServiceNotFound => "Service not found"
    case SlotUnavailable => "This slot is no longer available"
    case BookingNotFound => "Booking not found"
    case StudentsOnlyCancel => "Students can only cancel bookings"
    case CancellationTooLate => "Cancellations must be made at least 24 hours in advance"
    case InvalidTimeValue => "Invalid time value"
  }

  /** A booking request; `scheduledAt` is the instant its ISO string denotes. */
  datatype BookingRequest = BookingRequest(
    instructorId: Id, serviceId: Id, scheduledAt: Instant,
    notes: Option<string>, meetingLocation: Option<string>)

  datatype ActorRole = InstructorActor | StudentActor

  datatype StudentDetails = StudentDetails(
    id: Id, firstName: string, lastName: Option<string>, email: string, phone: Option<string>)

  datatype BookingWithDetails = BookingWithDetails(
    booking: Booking, service: Option<Service>, student: Option<StudentDetails>)

  /** Notice a student must give to cancel: 24 hours. */
  const CANCELLATION_NOTICE_MS: int := 24 * HOUR_MS

  // ---------------------------------------------------------------------------
  // Lookups
  // ---------------------------------------------------------------------------

  function BookingById(bookings: seq<Booking>, id: Id): Option<Booking>
  {
    Find(bookings, (b: Booking) => b.id == id)
  }

  function ServiceById(services: seq<Service>, id: Id): Option<Service>
  {
    Find(services, (s: Service) => s.id == id)
  }

  function ActiveService(services: seq<Service>, id: Id): Option<Service>
  {
    Find(services, (s: Service) => s.id == id && s.isActive)
  }

  function StudentById(students: seq<Student>, id: Id): Option<Student>
  {
    Find(students, (s: Student) => s.id == id)
  }

  /** The student record of a profile. */
  function StudentOfProfile(students: seq<Student>, profileId: Id): Option<Student>
  {
    Find(students, (s: Student) => s.profileId == profileId)
  }

  function ProfileById(profiles: seq<Profile>, id: Id): Option<Profile>
  {
    Find(profiles, (p: Profile) => p.id == id)
  }

  /** `getBookingWithDetails`: the booking with its service and, when the
      student's profile exists, the student's contact details (left joins). */
  function Details(bookings: seq<Booking>, services: seq<Service>, students: seq<Student>,
                   profiles: seq<Profile>, bookingId: Id): (r: Result<BookingWithDetails, BookingError>)
    ensures r.Err? <==> forall i :: 0 <= i < |bookings| ==> bookings[i].id != bookingId
    ensures r.Err? ==> r.error == BookingNotFound
    ensures r.Ok? ==> r.value.booking in bookings && r.value.booking.id == bookingId
  {
    match BookingById(bookings, bookingId)
    case None => Err(BookingNotFound)
    case Some(b) =>
      var service := if b.serviceId.Some? then ServiceById(services, b.serviceId.value) else None;
      var student := StudentById(students, b.studentId);
      var profile := if student.Some? then ProfileById(profiles, student.value.profileId) else None;
      var details :=
        if profile.Some? then
          Some(StudentDetails(student.value.id, profile.value.firstName, profile.value.lastName,
                              profile.value.email, profile.value.phone))
        else None;
      Ok(BookingWithDetails(b, service, details))
  }

  /** The joins behind the projection: the service is the booking's own,
      if it still exists; the student details are present exactly when the
      booking's student row and that student's profile both exist, and then
      they are that profile's. */
  lemma DetailsJoin(bookings: seq<Booking>, services: seq<Service>, students: seq<Student>,
                    profiles: seq<Profile>, bookingId: Id)
    requires Details(bookings, services, students, profiles, bookingId).Ok?
    ensures var d := Details(bookings, services, students, profiles, bookingId).value;
      && (match d.service
          case Some(s) => s in services && Some(s.id) == d.booking.serviceId
          case None => d.booking.serviceId.None?
                       || forall i :: 0 <= i < |services| ==> services[i].id != d.booking.serviceId.value)
      && (d.student.Some? <==>
            exists st, p :: st in students && p in profiles && st.id == d.booking.studentId && p.id == st.profileId
                            && st == StudentById(students, d.booking.studentId).value)
      && (d.student.Some? ==>
            d.student.value.id == d.booking.studentId
            && exists p :: p in profiles && p.id == StudentById(students, d.booking.studentId).value.profileId
                           && d.student.value == StudentDetails(d.booking.studentId, p.firstName, p.lastName,
                                                                p.email, p.phone))
  {
    var d := Details(bookings, services, students, profiles, bookingId).value;
    var st := StudentById(students, d.booking.studentId);
    if st.Some? {
      var p := ProfileById(profiles, st.value.profileId);
      if p.Some? {
        assert st.value in students && p.value in profiles;
      }
    }
  }

  // ---------------------------------------------------------------------------
  // Availability against the store
  // ---------------------------------------------------------------------------

  /** `getAvailableSlots(instructorId, date)` for civil day `day`; None where
      it throws. */
  method GetAvailableSlots(db: Db, instructorId: Id, day: int, env: Env) returns (r: Option<seq<TimeSlot>>)
    ensures r == AvailableSlots(db.rules, db.overrides, db.bookings, instructorId, day, env)
  {
    var rules := RulesFor(db.rules, instructorId, day, env);
    if rules == [] {
      return Some([]);
    }
    var dayOverrides := DayOverrides(db.overrides, instructorId, day);
    if Blocked(dayOverrides) {
      return Some([]);
    }
    var window := WindowOf(rules[0], dayOverrides);
    var generated := GenerateSlots(day, window.startTime, window.endTime, SLOT_MINUTES);
    if generated.None? {
      return None;
    }
    var slots := Upcoming(generated.value, env.now);
    slots := Unclashed(slots, BusyBookings(db.bookings, instructorId, day));
    return Some(slots);
  }

  // ---------------------------------------------------------------------------
  // Creation
  // ---------------------------------------------------------------------------

  /** The row `createBooking` inserts: pending, at the requested instant, for
      the service's own duration. */
  function NewBooking(id: Id, data: BookingRequest, studentId: Id, service: Service, now: Instant): Booking
  {
    Booking(id, data.instructorId, studentId, Some(data.serviceId), data.scheduledAt,
            service.durationMinutes, Pending, data.meetingLocation, data.notes, None, now)
  }

  function CreatedAudit(actor: Id, id: Id, data: BookingRequest): AuditEntry
  {
    AuditEntry(Some(actor), "BOOKING_CREATED", "booking", id,
               BookingCreatedPayload(data.instructorId, data.serviceId, data.scheduledAt))
  }

  /** The write-time re-check: the slots offered for the UTC date of the
      requested instant include one that starts exactly then. */
  predicate StillOffered(rules: seq<AvailabilityRule>, overrides: seq<AvailabilityOverride>,
                         bookings: seq<Booking>, data: BookingRequest, env: Env)
  {
    SlotOffered(AvailableSlots(rules, overrides, bookings, data.instructorId, UtcDay(data.scheduledAt), env),
                data.scheduledAt)
  }

  /** The student and service a booking request resolves to. */
  datatype Admission = Admission(student: Student, service: Service)

  /** The checks `createBooking` makes before writing, in its order: the
      caller's student record, an active service with the requested id, and
      the re-check that the slot is still offered, which throws where slot
      generation does. */
  function Admit(students: seq<Student>, services: seq<Service>, rules: seq<AvailabilityRule>,
                 overrides: seq<AvailabilityOverride>, bookings: seq<Booking>,
                 data: BookingRequest, studentProfileId: Id, env: Env): Result<Admission, BookingError>
  {
    match StudentOfProfile(students, studentProfileId)
    case None => Err(StudentProfileNotFound)
    case Some(student) =>
      match ActiveService(services, data.serviceId)
      case None => Err(ServiceNotFound)
      case Some(service) =>
        var slots := AvailableSlots(rules, overrides, bookings, data.instructorId, UtcDay(data.scheduledAt), env);
        if slots.None? then Err(InvalidTimeValue)
        else if SlotOffered(slots, data.scheduledAt) then Ok(Admission(student, service))
        else Err(SlotUnavailable)
  }

  /** `createBooking(data, studentProfileId)`: on admission, a pending booking
      under a fresh key and a `BOOKING_CREATED` audit record by the student;
      otherwise the first failed check, with nothing written. */
  method CreateBooking(db: Db, data: BookingRequest, studentProfileId: Id, env: Env)
    returns (r: Result<BookingWithDetails, BookingError>)
    requires db.Valid()
    modifies db`bookings, db`audit, db`nextId
    ensures db.Valid()
    ensures match Admit(old(db.students), old(db.services), old(db.rules), old(db.overrides), old(db.bookings),
                        data, studentProfileId, env)
            case Err(e) => r == Err(e) && db.bookings == old(db.bookings) && db.audit == old(db.audit)
            case Ok(a) =>
              var booking := NewBooking(old(db.nextId), data, a.student.id, a.service, env.now);
              && db.bookings == old(db.bookings) + [booking]
              && db.audit == old(db.audit) + [CreatedAudit(studentProfileId, booking.id, data)]
              && r == Details(db.bookings, db.services, db.students, db.profiles, booking.id)
              && r.Ok? && r.value.booking == booking
  {
    var admission := Admit(db.students, db.services, db.rules, db.overrides, db.bookings,
                           data, studentProfileId, env);
    if admission.Err? {
      return Err(admission.error);
    }
    var a := admission.value;
    ghost var before := db.bookings;
    var id := db.InsertBooking(NewBooking(0, data, a.student.id, a.service, env.now));
    var booking := NewBooking(id, data, a.student.id, a.service, env.now);
    db.audit := db.audit + [CreatedAudit(studentProfileId, id, data)];
    FreshBookingFound(before, booking);
    r := Details(db.bookings, db.services, db.students, db.profiles, id);
  }

  /** Admission succeeds exactly when the profile has a student record, the
      service exists and is active, and the slot is still offered; each
      failure names the first check that failed, and the re-check fails with
      the generator's error exactly when it throws. */
  lemma AdmitRules(students: seq<Student>, services: seq<Service>, rules: seq<AvailabilityRule>,
                   overrides: seq<AvailabilityOverride>, bookings: seq<Booking>,
                   data: BookingRequest, studentProfileId: Id, env: Env)
    ensures var a := Admit(students, services, rules, overrides, bookings, data, studentProfileId, env);
      && (a.Ok? <==>
            (exists i :: 0 <= i < |students| && students[i].profileId == studentProfileId)
            && (exists j :: 0 <= j < |services| && services[j].id == data.serviceId && services[j].isActive)
            && StillOffered(rules, overrides, bookings, data, env))
      && (a.Ok? ==> a.value.student in students && a.value.student.profileId == studentProfileId
                    && a.value.service in services && a.value.service.id == data.serviceId
                    && a.value.service.isActive)
      && (a == Err(StudentProfileNotFound) <==>
            forall i :: 0 <= i < |students| ==> students[i].profileId != studentProfileId)
      && (a == Err(InvalidTimeValue) <==>
            (exists i :: 0 <= i < |students| && students[i].profileId == studentProfileId)
            && (exists j :: 0 <= j < |services| && services[j].id == data.serviceId && services[j].isActive)
            && AvailableSlots(rules, overrides, bookings, data.instructorId, UtcDay(data.scheduledAt), env).None?)
      && (a == Err(SlotUnavailable) <==>
            (exists i :: 0 <= i < |students| && students[i].profileId == studentProfileId)
            && (exists j :: 0 <= j < |services| && services[j].id == data.serviceId && services[j].isActive)
            && AvailableSlots(rules, overrides, bookings, data.instructorId, UtcDay(data.scheduledAt), env).Some?
            && !StillOffered(rules, overrides, bookings, data, env))
  {
  }

  /** What `createBooking` buys with its re-check: when every booking in the
      store lies within its civil day and no two overlap, no weekly or
      override window runs past midnight, and the service lasts at most one
      slot, the booking it inserts overlaps none of the live ones, and lies
      within its day too. */
  lemma CreatedBookingKeepsNoDoubleBooking(rules: seq<AvailabilityRule>, overrides: seq<AvailabilityOverride>,
                                           bookings: seq<Booking>, data: BookingRequest, studentId: Id,
                                           service: Service, id: Id, env: Env)
    requires StillOffered(rules, overrides, bookings, data, env)
    requires NoDoubleBooking(bookings) && WellPlaced(bookings) && WindowsEndByMidnight(rules, overrides)
    requires 0 < service.durationMinutes <= SLOT_MINUTES
    ensures var after := bookings + [NewBooking(id, data, studentId, service, env.now)];
            NoDoubleBooking(after) && WellPlaced(after)
  {
    BookingOfferedSlotKeepsNoDoubleBooking(rules, overrides, bookings, UtcDay(data.scheduledAt), env,
                                           NewBooking(id, data, studentId, service, env.now));
  }

  /** A booking appended under a key no earlier row uses is the one found by that key. */
  lemma FreshBookingFound(before: seq<Booking>, b: Booking)
    requires forall i :: 0 <= i < |before| ==> before[i].id < b.id
    ensures BookingById(before + [b], b.id) == Some(b)
  {
    var after := before + [b];
    assert forall i :: 0 <= i < |before| ==> after[i].id != b.id;
    assert after[|before|] == b;
  }

  // ---------------------------------------------------------------------------
  // Status updates
  // ---------------------------------------------------------------------------

  /** The bookings with the given one's status and `updatedAt` set. */
  function SetStatus(bookings: seq<Booking>, id: Id, status: BookingStatus, now: Instant): seq<Booking>
  {
    UpdateWhere(bookings, (b: Booking) => b.id == id, (b: Booking) => b.(status := status, updatedAt := now))
  }

  /** The audit action of a status change: `BOOKING_` and the status in capitals. */
  function StatusAction(s: BookingStatus): string
  {
    "BOOKING_" + Upper(StatusName(s))
  }

  /** Why the update is refused, if it is. Only students are restricted: to
      cancelling, and only with 24 hours' notice. */
  function UpdateRefusal(existing: Option<Booking>, newStatus: BookingStatus, role: ActorRole, now: Instant)
    : Option<BookingError>
  {
    if existing.None? then Some(BookingNotFound)
    else if role == StudentActor && newStatus != Cancelled then Some(StudentsOnlyCancel)
    else if role == StudentActor && existing.value.scheduledAt - now < CANCELLATION_NOTICE_MS then Some(CancellationTooLate)
    else None
  }

  /** `updateBookingStatus(bookingId, newStatus, actorProfileId, actorRole)`. */
  method UpdateBookingStatus(db: Db, bookingId: Id, newStatus: BookingStatus, actorProfileId: Id,
                             role: ActorRole, env: Env)
    returns (r: Result<BookingWithDetails, BookingError>)
    requires newStatus == Confirmed || newStatus == Cancelled || newStatus == Completed || newStatus == NoShow
    requires db.Valid()
    modifies db`bookings, db`audit
    ensures db.Valid()
    ensures var existing := BookingById(old(db.bookings), bookingId);
            match UpdateRefusal(existing, newStatus, role, env.now)
            case Some(e) => r == Err(e) && db.bookings == old(db.bookings) && db.audit == old(db.audit)
            case None =>
              && db.bookings == SetStatus(old(db.bookings), bookingId, newStatus, env.now)
              && db.audit == old(db.audit) + [AuditEntry(Some(actorProfileId), StatusAction(newStatus), "booking",
                                                         bookingId, StatusChangePayload(existing.value.status, newStatus))]
              && r == Details(db.bookings, db.services, db.students, db.profiles, bookingId)
              && r.Ok?
  {
    var existing := BookingById(db.bookings, bookingId);
    var refusal := UpdateRefusal(existing, newStatus, role, env.now);
    if refusal.Some? {
      return Err(refusal.value);
    }
    var updated := SetStatus(db.bookings, bookingId, newStatus, env.now);
    SetStatusKeepsKeys(db.bookings, bookingId, newStatus, env.now);
    db.SetBookings(updated);
    db.audit := db.audit + [AuditEntry(Some(actorProfileId), StatusAction(newStatus), "booking",
                                       bookingId, StatusChangePayload(existing.value.status, newStatus))];
    r := Details(db.bookings, db.services, db.students, db.profiles, bookingId);
  }

  /** A status update keeps every key, so the addressed booking is still found. */
  lemma SetStatusKeepsKeys(bookings: seq<Booking>, id: Id, status: BookingStatus, now: Instant)
    ensures var after := SetStatus(bookings, id, status, now);
      && |after| == |bookings|
      && (forall i :: 0 <= i < |bookings| ==> after[i].id == bookings[i].id)
      && (BookingById(bookings, id).Some? ==> BookingById(after, id).Some?)
  {
    var after := SetStatus(bookings, id, status, now);
    if BookingById(bookings, id).Some? {
      var i :| 0 <= i < |bookings| && bookings[i] == BookingById(bookings, id).value && bookings[i].id == id;
      assert after[i].id == id;
    }
  }

  // ---------------------------------------------------------------------------
  // Properties of the rules
  // ---------------------------------------------------------------------------

  /** A student's update goes through exactly when the booking exists, the new
      status is `cancelled`, and the lesson is at least 24 hours away; an
      instructor's goes through whenever the booking exists, whatever its
      current status and whoever it belongs to. */
  lemma UpdateRefusalRules(existing: Option<Booking>, newStatus: BookingStatus, role: ActorRole, now: Instant)
    ensures role == StudentActor ==>
      (UpdateRefusal(existing, newStatus, role, now).None? <==>
         existing.Some? && newStatus == Cancelled && existing.value.scheduledAt >= now + CANCELLATION_NOTICE_MS)
    ensures role == InstructorActor ==> (UpdateRefusal(existing, newStatus, role, now).None? <==> existing.Some?)
  {}

  /** A status update touches only the addressed booking, and of it only the
      status and the update time. */
  lemma SetStatusChangesOnlyTarget(bookings: seq<Booking>, id: Id, status: BookingStatus, now: Instant)
    ensures var after := SetStatus(bookings, id, status, now);
      |after| == |bookings|
      && (forall i :: 0 <= i < |bookings| && bookings[i].id != id ==> after[i] == bookings[i])
      && (forall i :: 0 <= i < |bookings| && bookings[i].id == id ==>
            after[i] == bookings[i].(status := status, updatedAt := now))
  {}

  /** The four audit actions a status update can write. */
  lemma StatusActions()
    ensures StatusAction(Confirmed) == "BOOKING_CONFIRMED"
    ensures StatusAction(Cancelled) == "BOOKING_CANCELLED"
    ensures StatusAction(Completed) == "BOOKING_COMPLETED"
    ensures StatusAction(NoShow) == "BOOKING_NO_SHOW"
  {}

  /** Since the current status is never consulted, an instructor can confirm a
      cancelled booking whose time has meanwhile been taken by another, which
      double-books the instructor. */
  lemma ReconfirmingCanDoubleBook()
    ensures var taken := Booking(1, 7, 2, None, 0, 60, Confirmed, None, None, None, 0);
            var freed := Booking(2, 7, 3, None, 0, 60, Cancelled, None, None, None, 0);
            && NoDoubleBooking([taken, freed])
            && UpdateRefusal(Some(freed), Confirmed, InstructorActor, 0).None?
            && !NoDoubleBooking(SetStatus([taken, freed], 2, Confirmed, 0))
  {
    var taken := Booking(1, 7, 2, None, 0, 60, Confirmed, None, None, None, 0);
    var freed := Booking(2, 7, 3, None, 0, 60, Cancelled, None, None, None, 0);
    var after := SetStatus([taken, freed], 2, Confirmed, 0);
    assert after[0] == taken && after[1] == freed.(status := Confirmed, updatedAt := 0);
    assert BookingEnd(after[0]) > after[1].scheduledAt && BookingEnd(after[1]) > after[0].scheduledAt;
  }
}
