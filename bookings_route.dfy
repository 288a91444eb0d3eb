/** The bookings endpoint: GET lists the caller's own bookings, newest
    first, one page at a time; POST validates a booking request and hands it
    to the booking service, mapping its errors to status codes. */
module BookingsRoute {
  import opened Common
  import opened Time
  import opened Records
  import opened Database
  import opened Http
  import opened Ordering
  import opened BookingService

  const DEFAULT_LIMIT: int := 20
  const MAX_LIMIT: int := 100
  const DEFAULT_OFFSET: int := 0

  /** `Math.min(Number(limit ?? 20), 100)`; the parameter is `None` when absent. */
  function ListLimit(limitParam: Option<int>): int
  {
    Min(limitParam.GetOr(DEFAULT_LIMIT), MAX_LIMIT)
  }

  /** `Number(offset ?? 0)`. */
  function ListOffset(offsetParam: Option<int>): int
  {
    offsetParam.GetOr(DEFAULT_OFFSET)
  }

  /** The page size is the requested one up to 100, and 20 when none is given. */
  lemma ListLimitClamp(limitParam: Option<int>)
    ensures ListLimit(limitParam) <= MAX_LIMIT
    ensures limitParam.None? ==> ListLimit(limitParam) == DEFAULT_LIMIT
    ensures limitParam.Some? ==> ListLimit(limitParam) <= limitParam.value
    ensures limitParam.Some? && limitParam.value <= MAX_LIMIT ==> ListLimit(limitParam) == limitParam.value
    ensures ListOffset(None) == DEFAULT_OFFSET
  {}

  function ProfileOfUser(profiles: seq<Profile>, userId: string): Option<Profile>
  {
    Find(profiles, (p: Profile) => p.clerkUserId == userId)
  }

  function InstructorOfProfile(instructors: seq<Instructor>, profileId: Id): Option<Instructor>
  {
    Find(instructors, (i: Instructor) => i.profileId == profileId)
  }

  function ByInstructor(bookings: seq<Booking>, instructorId: Id): seq<Booking>
  {
    Filter(bookings, (b: Booking) => b.instructorId == instructorId)
  }

  function ByStudent(bookings: seq<Booking>, studentId: Id): seq<Booking>
  {
    Filter(bookings, (b: Booking) => b.studentId == studentId)
  }

  /** `ORDER BY scheduled_at DESC`. */
  function NewestFirst(bookings: seq<Booking>): seq<Booking>
  {
    SortDesc(bookings, (b: Booking) => b.scheduledAt)
  }

  /** The outcome of a GET; a negative limit or offset is refused by the database. */
  datatype ListOutcome = Listed(response: Response<seq<Booking>>) | QueryRefused

  function PageOf(rows: seq<Booking>, limit: int, offset: int): ListOutcome
  {
    match Page(NewestFirst(rows), limit, offset)
    case None => QueryRefused
    case Some(page) => Listed(Success(OK, page))
  }

  /** The GET handler for the signed-in user `userId`. */
  function List(profiles: seq<Profile>, instructors: seq<Instructor>, students: seq<Student>,
                bookings: seq<Booking>, userId: Option<string>,
                limitParam: Option<int>, offsetParam: Option<int>): ListOutcome
  {
    if userId.None? then Listed(Failure(UNAUTHORIZED, "Unauthorized"))
    else match ProfileOfUser(profiles, userId.value)
      case None => Listed(Failure(NOT_FOUND, "Profile not found"))
      case Some(profile) =>
        var limit, offset := ListLimit(limitParam), ListOffset(offsetParam);
        if profile.role == InstructorRole then
          match InstructorOfProfile(instructors, profile.id)
          case None => Listed(Failure(NOT_FOUND, "Instructor not found"))
          case Some(instructor) => PageOf(ByInstructor(bookings, instructor.id), limit, offset)
        else if profile.role == StudentRole then
          match StudentOfProfile(students, profile.id)
          case None => Listed(Failure(NOT_FOUND, "Student not found"))
          case Some(student) => PageOf(ByStudent(bookings, student.id), limit, offset)
        else Listed(Failure(FORBIDDEN, "Forbidden"))
  }

  /** A page of `rows` sorted newest first holds only rows of `rows`, newest
      first, as many as the limit allows after the offset. The first page
      holds the newest rows: a row left off it is no newer than any row on
      it, and when all the rows fit, every one of them is listed. */
  lemma PageOfRows(rows: seq<Booking>, limit: int, offset: int)
    requires PageOf(rows, limit, offset).Listed?
    ensures var page := PageOf(rows, limit, offset).response.value;
      && (forall i :: 0 <= i < |page| ==> page[i] in rows)
      && SortedDesc(page, (b: Booking) => b.scheduledAt)
      && |page| == (if offset >= |rows| then 0 else Min(limit, |rows| - offset))
      && (offset == 0 ==>
            forall b, i :: b in rows && b !in page && 0 <= i < |page| ==> b.scheduledAt <= page[i].scheduledAt)
      && (offset == 0 && |rows| <= limit ==> forall b :: b in rows ==> b in page)
  {
    var sorted := NewestFirst(rows);
    SortDescSorted(rows, (b: Booking) => b.scheduledAt);
    var page := PageOf(rows, limit, offset).response.value;
    forall i | 0 <= i < |page| ensures page[i] in rows {
      assert page[i] == sorted[offset + i];
      assert sorted[offset + i] in multiset(sorted);
    }
    forall i, j | 0 <= i < j < |page| ensures page[i].scheduledAt >= page[j].scheduledAt {
      assert page[i] == sorted[offset + i] && page[j] == sorted[offset + j];
    }
    if offset == 0 {
      forall b, i | b in rows && b !in page && 0 <= i < |page| ensures b.scheduledAt <= page[i].scheduledAt {
        var k := SortedIndex(rows, b);
        assert forall j :: 0 <= j < |page| ==> page[j] == sorted[j];
        assert k >= |page|;
        assert page[i] == sorted[i];
      }
      if |rows| <= limit {
        forall b | b in rows ensures b in page {
          var k := SortedIndex(rows, b);
          assert page[k] == b;
        }
      }
    }
  }

  /** Where a row of `rows` sits once they are sorted newest first. */
  lemma SortedIndex(rows: seq<Booking>, b: Booking) returns (k: int)
    requires b in rows
    ensures 0 <= k < |rows| && NewestFirst(rows)[k] == b
  {
    assert b in multiset(rows);
    assert b in multiset(NewestFirst(rows));
    k :| 0 <= k < |rows| && NewestFirst(rows)[k] == b;
  }

  /** What a successful listing holds: only the caller's own bookings (by
      instructor for an instructor, by student for a student), newest first,
      at most 100. The first page holds the caller's newest bookings, and all
      of them when they fit under the limit. Every other role is refused. */
  lemma ListIsScopedToCaller(profiles: seq<Profile>, instructors: seq<Instructor>, students: seq<Student>,
                             bookings: seq<Booking>, userId: Option<string>,
                             limitParam: Option<int>, offsetParam: Option<int>)
    requires var l := List(profiles, instructors, students, bookings, userId, limitParam, offsetParam);
             l.Listed? && l.response.Success?
    ensures var page := List(profiles, instructors, students, bookings, userId, limitParam, offsetParam).response.value;
            var profile := ProfileOfUser(profiles, userId.value).value;
            var limit, offset := ListLimit(limitParam), ListOffset(offsetParam);
      && (profile.role == InstructorRole || profile.role == StudentRole)
      && (profile.role == InstructorRole ==>
            var id := InstructorOfProfile(instructors, profile.id).value.id;
            && (forall i :: 0 <= i < |page| ==> page[i] in bookings && page[i].instructorId == id)
            && (offset == 0 ==>
                  forall b, i :: b in bookings && b.instructorId == id && b !in page && 0 <= i < |page|
                                 ==> b.scheduledAt <= page[i].scheduledAt)
            && (offset == 0 && |ByInstructor(bookings, id)| <= limit ==>
                  forall b :: b in bookings && b.instructorId == id ==> b in page))
      && (profile.role == StudentRole ==>
            var id := StudentOfProfile(students, profile.id).value.id;
            && (forall i :: 0 <= i < |page| ==> page[i] in bookings && page[i].studentId == id)
            && (offset == 0 ==>
                  forall b, i :: b in bookings && b.studentId == id && b !in page && 0 <= i < |page|
                                 ==> b.scheduledAt <= page[i].scheduledAt)
            && (offset == 0 && |ByStudent(bookings, id)| <= limit ==>
                  forall b :: b in bookings && b.studentId == id ==> b in page))
      && SortedDesc(page, (b: Booking) => b.scheduledAt)
      && |page| <= MAX_LIMIT
  {
    var profile := ProfileOfUser(profiles, userId.value).value;
    var limit, offset := ListLimit(limitParam), ListOffset(offsetParam);
    if profile.role == InstructorRole {
      var id := InstructorOfProfile(instructors, profile.id).value.id;
      var rows := ByInstructor(bookings, id);
      PageOfRows(rows, limit, offset);
      forall b ensures b in rows <==> b in bookings && b.instructorId == id {
        FilterMember(bookings, (b: Booking) => b.instructorId == id, b);
      }
    } else {
      var id := StudentOfProfile(students, profile.id).value.id;
      var rows := ByStudent(bookings, id);
      PageOfRows(rows, limit, offset);
      forall b ensures b in rows <==> b in bookings && b.studentId == id {
        FilterMember(bookings, (b: Booking) => b.studentId == id, b);
      }
    }
  }

  /** Admins and parents are refused, once signed in with a profile. */
  lemma OtherRolesForbidden(profiles: seq<Profile>, instructors: seq<Instructor>, students: seq<Student>,
                            bookings: seq<Booking>, userId: string,
                            limitParam: Option<int>, offsetParam: Option<int>)
    requires ProfileOfUser(profiles, userId).Some?
    requires ProfileOfUser(profiles, userId).value.role in {Admin, Parent}
    ensures List(profiles, instructors, students, bookings, Some(userId), limitParam, offsetParam)
            == Listed(Failure(FORBIDDEN, "Forbidden"))
  {}

  // ---------------------------------------------------------------------------
  // POST
  // ---------------------------------------------------------------------------

  /** A POST body; each field is `None` where it is missing or empty, and
      `scheduledAt` is the instant its string denotes. */
  datatype BookingBody = BookingBody(
    instructorId: Option<Id>, serviceId: Option<Id>, scheduledAt: Option<Instant>,
    notes: Option<string>, meetingLocation: Option<string>)

  predicate Complete(b: BookingBody)
  {
    b.instructorId.Some? && b.serviceId.Some? && b.scheduledAt.Some?
  }

  function RequestOf(b: BookingBody): BookingRequest
    requires Complete(b)
  {
    BookingRequest(b.instructorId.value, b.serviceId.value, b.scheduledAt.value, b.notes, b.meetingLocation)
  }

  /** The status an error message maps to: 409 for a taken slot, 400 otherwise. */
  function StatusFor(message: string): int
  {
    if message == ErrorMessage(SlotUnavailable) then CONFLICT else BAD_REQUEST
  }

  /** Of the booking service's failures only the taken slot is a conflict. */
  lemma ConflictOnlyForTakenSlot(e: BookingError)
    ensures StatusFor(ErrorMessage(e)) == CONFLICT <==> e == SlotUnavailable
    ensures StatusFor(ErrorMessage(e)) != CONFLICT ==> StatusFor(ErrorMessage(e)) == BAD_REQUEST
  {}

  /** Why a POST is refused before the service is called, if it is; the body
      is `None` where it is not JSON. */
  function CreateRefusal(profiles: seq<Profile>, userId: Option<string>, body: Option<BookingBody>)
    : Option<(int, string)>
  {
    if userId.None? then Some((UNAUTHORIZED, "Unauthorized"))
    else if ProfileOfUser(profiles, userId.value).None? then Some((NOT_FOUND, "Profile not found"))
    else if body.None? then Some((BAD_REQUEST, "Invalid JSON"))
    else if !Complete(body.value) then Some((BAD_REQUEST, "instructorId, serviceId and scheduledAt are required"))
    else None
  }

  /** The POST handler. */
  method Create(db: Db, userId: Option<string>, body: Option<BookingBody>, env: Env)
    returns (resp: Response<BookingWithDetails>)
    requires db.Valid()
    modifies db`bookings, db`audit, db`nextId
    ensures db.Valid()
    ensures match CreateRefusal(old(db.profiles), userId, body)
      case Some(f) => resp == Failure(f.0, f.1) && db.bookings == old(db.bookings) && db.audit == old(db.audit)
      case None =>
        var profile := ProfileOfUser(old(db.profiles), userId.value).value;
        var data := RequestOf(body.value);
        match Admit(old(db.students), old(db.services), old(db.rules), old(db.overrides), old(db.bookings),
                    data, profile.id, env)
        case Err(e) =>
          && resp == Failure(StatusFor(ErrorMessage(e)), ErrorMessage(e))
          && db.bookings == old(db.bookings) && db.audit == old(db.audit)
        case Ok(a) =>
          var booking := NewBooking(old(db.nextId), data, a.student.id, a.service, env.now);
          && db.bookings == old(db.bookings) + [booking]
          && db.audit == old(db.audit) + [CreatedAudit(profile.id, booking.id, data)]
          && var details := Details(db.bookings, db.services, db.students, db.profiles, booking.id);
             details.Ok? && details.value.booking == booking
             && resp == Success(CREATED, details.value)
  {
    var refusal := CreateRefusal(db.profiles, userId, body);
    if refusal.Some? {
      return Failure(refusal.value.0, refusal.value.1);
    }
    var profile := ProfileOfUser(db.profiles, userId.value).value;
    var r := CreateBooking(db, RequestOf(body.value), profile.id, env);
    match r
    case Ok(details) =>
      resp := Success(CREATED, details);
    case Err(e) =>
      var message := ErrorMessage(e);
      resp := Failure(StatusFor(message), message);
  }
}
