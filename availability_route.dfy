/** The availability endpoint: the GET that validates a day request and
    returns the resolved slots, and the instructor-only POST that stores a
    weekly rule or a one-off override. */
module AvailabilityRoute {
  import opened Common
  import opened Time
  import opened Records
  import opened Database
  import opened Http
  import opened Slots
  import opened Availability

  /** How far ahead a day may be requested: 56 days, eight weeks. */
  const HORIZON_DAYS: int := 56

  // ---------------------------------------------------------------------------
  // GET ?instructorId=&date=
  // ---------------------------------------------------------------------------

  /** The JSON of a successful GET. */
  datatype DaySlots = DaySlots(date: string, instructorId: Id, slots: seq<TimeSlot>)

  /** The outcome of a GET. A date with the `YYYY-MM-DD` shape whose month
      is not 1 to 12, or whose day is not 1 to 31, is an invalid `Date`; it
      passes the horizon check and reaches the database as a NaN weekday,
      whose reaction is not modelled. When the service throws, the handler
      does not catch it and the framework answers with a 500. */
  datatype GetOutcome = Answered(response: Response<DaySlots>) | InvalidDate | Unhandled

  /** The GET handler. `instructorId` and `date` are the query parameters,
      `None` where a parameter is absent or empty. */
  function Get(rules: seq<AvailabilityRule>, overrides: seq<AvailabilityOverride>, bookings: seq<Booking>,
               instructorId: Option<Id>, date: Option<string>, env: Env): GetOutcome
  {
    if instructorId.None? || date.None? || date.value == [] then
      Answered(Failure(BAD_REQUEST, "instructorId and date are required"))
    else if !IsDateKey(date.value) then
      Answered(Failure(BAD_REQUEST, "date must be YYYY-MM-DD"))
    else if !ParsesAsDate(date.value) then
      InvalidDate
    else if UtcMidnight(DayNumber(date.value)) > env.now + HORIZON_DAYS * DAY_MS then
      Answered(Failure(BAD_REQUEST, "Cannot book more than 8 weeks in advance"))
    else
      match AvailableSlots(rules, overrides, bookings, instructorId.value, DayNumber(date.value), env)
      case None => Unhandled
      case Some(slots) => Answered(Success(OK, DaySlots(date.value, instructorId.value, slots)))
  }

  /** The three rejections, in their order, the invalid date, and the answer
      otherwise: the slots of the requested civil day, exactly as the service
      resolves them, or the unhandled error where the service throws. */
  lemma GetRejectsOrAnswers(rules: seq<AvailabilityRule>, overrides: seq<AvailabilityOverride>,
                            bookings: seq<Booking>, instructorId: Option<Id>, date: Option<string>, env: Env)
    ensures var g := Get(rules, overrides, bookings, instructorId, date, env);
      && ((g == Answered(Failure(BAD_REQUEST, "instructorId and date are required")))
          <==> instructorId.None? || date.None? || date.value == [])
      && ((g == Answered(Failure(BAD_REQUEST, "date must be YYYY-MM-DD")))
          <==> instructorId.Some? && date.Some? && date.value != [] && !IsDateKey(date.value))
      && (g.Answered? && g.response.Success? ==>
            && instructorId.Some? && date.Some? && ParsesAsDate(date.value)
            && g.response.status == OK
            && g.response.value.date == date.value && g.response.value.instructorId == instructorId.value
            && AvailableSlots(rules, overrides, bookings, instructorId.value, DayNumber(date.value), env)
               == Some(g.response.value.slots))
      && (g == InvalidDate <==>
            instructorId.Some? && date.Some? && IsDateKey(date.value) && !ParsesAsDate(date.value))
      && (instructorId.Some? && date.Some? && ParsesAsDate(date.value)
          && UtcMidnight(DayNumber(date.value)) <= env.now + HORIZON_DAYS * DAY_MS
          && AvailableSlots(rules, overrides, bookings, instructorId.value, DayNumber(date.value), env).Some?
          ==> g == Answered(Success(OK, DaySlots(date.value, instructorId.value,
                AvailableSlots(rules, overrides, bookings, instructorId.value, DayNumber(date.value), env).value))))
      && (g == Unhandled <==>
            && instructorId.Some? && date.Some? && ParsesAsDate(date.value)
            && UtcMidnight(DayNumber(date.value)) <= env.now + HORIZON_DAYS * DAY_MS
            && AvailableSlots(rules, overrides, bookings, instructorId.value, DayNumber(date.value), env).None?)
      && (g.Answered? && g.response.Failure? ==> g.response.status == BAD_REQUEST)
  {
    assert !IsDateKey([]);
  }

  /** The horizon admits exactly the dates up to 56 days after the current
      UTC date: `new Date("YYYY-MM-DD")` is that date's UTC midnight, compared
      with the current instant plus 56 days. */
  lemma HorizonIsFiftySixUtcDays(rules: seq<AvailabilityRule>, overrides: seq<AvailabilityOverride>,
                                 bookings: seq<Booking>, instructorId: Id, date: string, env: Env)
    requires ParsesAsDate(date)
    ensures Get(rules, overrides, bookings, Some(instructorId), Some(date), env)
              == Answered(Failure(BAD_REQUEST, "Cannot book more than 8 weeks in advance"))
            <==> DayNumber(date) > UtcDay(env.now) + HORIZON_DAYS
  {
    var d, today := DayNumber(date), UtcDay(env.now);
    assert date != [];
    if d > today + HORIZON_DAYS {
      MulLe(DAY_MS, today + 1, d - HORIZON_DAYS);
      assert (today + 1) * DAY_MS == today * DAY_MS + DAY_MS;
      assert (d - HORIZON_DAYS) * DAY_MS == d * DAY_MS - HORIZON_DAYS * DAY_MS;
    } else {
      MulLe(DAY_MS, d - HORIZON_DAYS, today);
      assert (d - HORIZON_DAYS) * DAY_MS == d * DAY_MS - HORIZON_DAYS * DAY_MS;
    }
  }

  /** Every slot a successful GET returns is an hour long, lies in the future,
      and overlaps no pending or confirmed booking of the instructor that day. */
  lemma GetSlotsAreBookable(rules: seq<AvailabilityRule>, overrides: seq<AvailabilityOverride>,
                            bookings: seq<Booking>, instructorId: Id, date: string, env: Env, s: TimeSlot)
    requires var g := Get(rules, overrides, bookings, Some(instructorId), Some(date), env);
             g.Answered? && g.response.Success? && s in g.response.value.slots
    ensures ParsesAsDate(date)
    ensures s.start > env.now && s.end == s.start + SLOT_MINUTES * MINUTE_MS
    ensures !Clashes(s, BusyBookings(bookings, instructorId, DayNumber(date)))
  {
    GetRejectsOrAnswers(rules, overrides, bookings, Some(instructorId), Some(date), env);
    ReturnedSlot(rules, overrides, bookings, instructorId, DayNumber(date), env, s);
  }

  // ---------------------------------------------------------------------------
  // POST (instructors only)
  // ---------------------------------------------------------------------------

  /** The body of `?action=override`; `date` is the instant its string denotes,
      `None` where it is missing or empty. */
  datatype OverrideBody = OverrideBody(
    date: Option<Instant>, isAvailable: Option<bool>,
    startTime: Option<string>, endTime: Option<string>, reason: Option<string>)

  /** The body of a rule POST; a time is `None` where it is missing or empty. */
  datatype RuleBody = RuleBody(dayOfWeek: Option<int>, startTime: Option<string>, endTime: Option<string>)

  /** A POST: which action the query names, and its body, `None` where the
      body is not JSON. */
  datatype PostRequest = OverridePost(overrideBody: Option<OverrideBody>) | RulePost(ruleBody: Option<RuleBody>)

  datatype Created = CreatedOverride(override: AvailabilityOverride) | CreatedRule(rule: AvailabilityRule)

  /** The instructor record of the signed-in user: joined through the
      profile carrying the user's authentication id. */
  function InstructorOfUser(profiles: seq<Profile>, instructors: seq<Instructor>, userId: string): Option<Instructor>
  {
    Find(instructors, (i: Instructor) => exists p :: p in profiles && p.id == i.profileId && p.clerkUserId == userId)
  }

  predicate RuleIncomplete(b: RuleBody)
  {
    b.dayOfWeek.None? || b.startTime.None? || b.startTime.value == [] || b.endTime.None? || b.endTime.value == []
  }

  /** Why a POST is refused, in the handler's order, if it is. */
  function PostRefusal(profiles: seq<Profile>, instructors: seq<Instructor>, userId: Option<string>,
                       req: PostRequest): Option<(int, string)>
  {
    if userId.None? then Some((UNAUTHORIZED, "Unauthorized"))
    else if InstructorOfUser(profiles, instructors, userId.value).None? then Some((FORBIDDEN, "Forbidden"))
    else match req
      case OverridePost(None) => Some((BAD_REQUEST, "Invalid JSON"))
      case OverridePost(Some(b)) => if b.date.None? then Some((BAD_REQUEST, "date is required")) else None
      case RulePost(None) => Some((BAD_REQUEST, "Invalid JSON"))
      case RulePost(Some(b)) =>
        if RuleIncomplete(b) then Some((BAD_REQUEST, "dayOfWeek, startTime and endTime are required")) else None
  }

  /** The override row stored for the instructor; `isAvailable` takes the
      column default `false` when the body leaves it out. */
  function OverrideRow(instructorId: Id, b: OverrideBody): AvailabilityOverride
    requires b.date.Some?
  {
    AvailabilityOverride(0, instructorId, b.date.value, b.isAvailable.GetOr(false), b.startTime, b.endTime, b.reason)
  }

  /** The rule row stored for the instructor: always active. */
  function RuleRow(instructorId: Id, b: RuleBody): AvailabilityRule
    requires !RuleIncomplete(b)
  {
    AvailabilityRule(0, instructorId, b.dayOfWeek.value, b.startTime.value, b.endTime.value, true)
  }

  /** The POST handler: refused with its status and message and nothing
      stored, or one new row under a fresh key answered with 201. */
  method Post(db: Db, userId: Option<string>, req: PostRequest) returns (resp: Response<Created>)
    requires db.Valid()
    modifies db`rules, db`overrides, db`nextId
    ensures db.Valid()
    ensures match PostRefusal(old(db.profiles), old(db.instructors), userId, req)
            case Some(f) =>
              resp == Failure(f.0, f.1) && db.rules == old(db.rules) && db.overrides == old(db.overrides)
            case None =>
              var instructor := InstructorOfUser(old(db.profiles), old(db.instructors), userId.value).value;
              && resp.Success? && resp.status == CREATED
              && match req
                 case OverridePost(b) =>
                   var row := OverrideRow(instructor.id, b.value).(id := old(db.nextId));
                   resp.value == CreatedOverride(row)
                   && db.overrides == old(db.overrides) + [row] && db.rules == old(db.rules)
                 case RulePost(b) =>
                   var row := RuleRow(instructor.id, b.value).(id := old(db.nextId));
                   resp.value == CreatedRule(row)
                   && db.rules == old(db.rules) + [row] && db.overrides == old(db.overrides)
  {
    var refusal := PostRefusal(db.profiles, db.instructors, userId, req);
    if refusal.Some? {
      return Failure(refusal.value.0, refusal.value.1);
    }
    var instructor := InstructorOfUser(db.profiles, db.instructors, userId.value).value;
    match req
    case OverridePost(b) =>
      var row := OverrideRow(instructor.id, b.value);
      var id := db.InsertOverride(row);
      resp := Success(CREATED, CreatedOverride(row.(id := id)));
    case RulePost(b) =>
      var row := RuleRow(instructor.id, b.value);
      var id := db.InsertRule(row);
      resp := Success(CREATED, CreatedRule(row.(id := id)));
  }

  /** Only a signed-in user with an instructor record gets past the first two
      checks, and a complete body is then always stored: in particular a
      rule whose end is not after its start is accepted. */
  lemma PostRefusalRules(profiles: seq<Profile>, instructors: seq<Instructor>, userId: Option<string>,
                         req: PostRequest)
    ensures var f := PostRefusal(profiles, instructors, userId, req);
      && (userId.None? <==> f == Some((UNAUTHORIZED, "Unauthorized")))
      && (f == Some((FORBIDDEN, "Forbidden")) <==>
            userId.Some? && forall i :: 0 <= i < |instructors| ==>
              !exists p :: p in profiles && p.id == instructors[i].profileId && p.clerkUserId == userId.value)
      && (f.None? <==>
            userId.Some? && InstructorOfUser(profiles, instructors, userId.value).Some?
            && match req
               case OverridePost(b) => b.Some? && b.value.date.Some?
               case RulePost(b) => b.Some? && !RuleIncomplete(b.value))
  {}

  /** A stored rule whose window is shorter than one slot, reversed ones
      included, makes the engine offer nothing on its days. */
  lemma ShortWindowOffersNothing(day: int, startTime: string, endTime: string)
    requires ParseClock(startTime).Some? && ParseClock(endTime).Some?
    requires ParseClock(endTime).value - ParseClock(startTime).value < SLOT_MINUTES
    ensures Generated(day, startTime, endTime, SLOT_MINUTES) == Some([])
  {
    SlotRunCount(day, ParseClock(startTime).value, ParseClock(endTime).value, SLOT_MINUTES);
  }
}
