/** The local-mode booking store: a fixed list of two sample bookings that
    is read but never changed. Creating or updating a booking builds a new
    value and returns it without storing it. The clock is a parameter: its
    reading in milliseconds and the same instant as an ISO string. */
module MockBookings {
  import opened Common

  datatype MockStatus = MockPending | MockConfirmed | MockCancelled | MockCompleted | MockNoShow

  datatype MockBooking = MockBooking(
    id: string, instructorId: string, studentId: string, serviceId: string, scheduledAt: string,
    durationMinutes: int, status: MockStatus, meetingLocation: Option<string>, notes: Option<string>,
    confirmedAt: Option<string>, createdAt: string, updatedAt: string)

  datatype Clock = Clock(ms: int, iso: string)

  /** `CreateBookingRequest`. */
  datatype CreateRequest = CreateRequest(
    instructorId: string, serviceId: string, scheduledAt: string,
    notes: Option<string>, meetingLocation: Option<string>)

  const BASE_MOCK_BOOKINGS: seq<MockBooking> := [
    MockBooking("mock-booking-001", "mock-instructor", "mock-student-1", "mock-service-60",
                "2026-03-02T00:00:00.000Z", 60, MockConfirmed, Some("Canberra Civic"),
                Some("Mock booking generated for local mode."), Some("2026-02-27T00:00:00.000Z"),
                "2026-02-26T22:00:00.000Z", "2026-02-27T00:00:00.000Z"),
    MockBooking("mock-booking-002", "mock-instructor", "mock-student-2", "mock-service-90",
                "2026-03-03T02:00:00.000Z", 90, MockPending, Some("Belconnen"),
                Some("Second local-mode booking."), None,
                "2026-02-27T01:00:00.000Z", "2026-02-27T01:00:00.000Z")
  ]

  const DEFAULT_LIMIT: int := 20
  const DEFAULT_OFFSET: int := 0
  const LONG_SERVICE: string := "mock-service-90"
  const CREATED_STUDENT: string := "mock-student-created"
  const DEFAULT_NOTES: string := "Created in local mock mode."

  // ---------------------------------------------------------------------------
  // Array.prototype.slice
  // ---------------------------------------------------------------------------

  /** A slice bound: a negative one counts back from the end, and either is
      clamped to the array. */
  function SliceBound(i: int, len: nat): (r: nat)
    ensures r <= len
  {
    if i < 0 then (if len + i < 0 then 0 else len + i) else if i > len then len else i
  }

  /** `s.slice(start, end)`. */
  function Slice<T>(s: seq<T>, start: int, end: int): seq<T>
  {
    var from, to := SliceBound(start, |s|), SliceBound(end, |s|);
    if to <= from then [] else s[from..to]
  }

  /** For non-negative bounds the slice holds the elements at positions
      `start` up to, not including, `end`, as far as the array reaches. */
  lemma SliceWindow<T>(s: seq<T>, start: int, end: int)
    requires 0 <= start && 0 <= end
    ensures var r := Slice(s, start, end);
      && |r| == (if end <= start || start >= |s| then 0 else (if end < |s| then end else |s|) - start)
      && forall k :: 0 <= k < |r| ==> r[k] == s[start + k]
  {}

  // ---------------------------------------------------------------------------
  // The four operations
  // ---------------------------------------------------------------------------

  /** `getMockBookings(limit, offset)`. */
  function GetMockBookings(limit: Option<int>, offset: Option<int>): seq<MockBooking>
  {
    var o := offset.GetOr(DEFAULT_OFFSET);
    Slice(BASE_MOCK_BOOKINGS, o, o + limit.GetOr(DEFAULT_LIMIT))
  }

  /** `getMockBookingById(id)`. */
  function GetMockBookingById(id: string): Option<MockBooking>
  {
    Find(BASE_MOCK_BOOKINGS, (b: MockBooking) => b.id == id)
  }

  /** `createMockBooking(input)`: a pending booking stamped with the clock. */
  function CreateMockBooking(input: CreateRequest, clock: Clock): MockBooking
  {
    MockBooking("mock-booking-" + IntToString(clock.ms), input.instructorId, CREATED_STUDENT, input.serviceId,
                input.scheduledAt, if input.serviceId == LONG_SERVICE then 90 else 60, MockPending,
                input.meetingLocation, Some(input.notes.GetOr(DEFAULT_NOTES)), None, clock.iso, clock.iso)
  }

  /** `updateMockBookingStatus(id, { status })`. */
  function UpdateMockBookingStatus(id: string, status: MockStatus, clock: Clock): Option<MockBooking>
  {
    match GetMockBookingById(id)
    case None => None
    case Some(existing) =>
      Some(existing.(status := status,
                     confirmedAt := if status == MockConfirmed then Some(clock.iso) else existing.confirmedAt,
                     updatedAt := clock.iso))
  }

  // ---------------------------------------------------------------------------
  // Properties
  // ---------------------------------------------------------------------------

  /** The list is the sample bookings from `offset` to `offset + limit`; by
      default the first twenty, which is both of them. */
  lemma MockListWindow(limit: Option<int>, offset: Option<int>)
    ensures GetMockBookings(None, None) == BASE_MOCK_BOOKINGS
    ensures var o := offset.GetOr(0); var l := limit.GetOr(20);
      var r := GetMockBookings(limit, offset);
      0 <= o && 0 <= l ==>
        && |r| == (if l == 0 || o >= 2 then 0 else (if o + l < 2 then o + l else 2) - o)
        && forall k :: 0 <= k < |r| ==> r[k] == BASE_MOCK_BOOKINGS[o + k]
  {
    var o := offset.GetOr(0);
    var l := limit.GetOr(20);
    if 0 <= o && 0 <= l {
      SliceWindow(BASE_MOCK_BOOKINGS, o, o + l);
    }
  }

  /** A negative offset counts back from the end of the list. */
  lemma NegativeOffsetCountsFromEnd()
    ensures GetMockBookings(None, Some(-1)) == [BASE_MOCK_BOOKINGS[1]]
  {}

  /** A lookup finds exactly the sample bookings, by their ids. */
  lemma MockLookup(id: string)
    ensures GetMockBookingById(id).Some? <==> id == "mock-booking-001" || id == "mock-booking-002"
    ensures GetMockBookingById(id).Some? ==>
      GetMockBookingById(id).value in BASE_MOCK_BOOKINGS && GetMockBookingById(id).value.id == id
  {}

  /** A created booking is pending and unconfirmed, created and updated at
      the same instant, 90 minutes long exactly for the long service and 60
      otherwise, and carries the request's instructor, service and time. */
  lemma CreatedMockBooking(input: CreateRequest, clock: Clock)
    ensures var b := CreateMockBooking(input, clock);
      && b.status == MockPending && b.confirmedAt.None?
      && b.createdAt == b.updatedAt == clock.iso
      && (b.durationMinutes == 90 <==> input.serviceId == LONG_SERVICE)
      && (b.durationMinutes == 60 <==> input.serviceId != LONG_SERVICE)
      && b.instructorId == input.instructorId && b.serviceId == input.serviceId
      && b.scheduledAt == input.scheduledAt && b.studentId == CREATED_STUDENT
      && b.notes.Some? && (input.notes.Some? ==> b.notes == input.notes)
  {}

  /** The decimal rendering of a positive number never starts with `0`. */
  lemma {:induction false} NoLeadingZero(n: nat)
    ensures NatToString(n)[0] == '0' ==> n == 0
    decreases n
  {
    if n >= 10 {
      NoLeadingZero(n / 10);
      assert NatToString(n)[0] == NatToString(n / 10)[0];
    }
  }

  /** Created bookings are not stored: the id a creation hands out is never
      one a lookup finds. */
  lemma CreatedIsNeverStored(input: CreateRequest, clock: Clock)
    ensures GetMockBookingById(CreateMockBooking(input, clock).id).None?
  {
    var digits := IntToString(clock.ms);
    var id := "mock-booking-" + digits;
    MockLookup(id);
    if id == "mock-booking-001" || id == "mock-booking-002" {
      assert digits == id[13..];
      assert |digits| == 3 && digits[0] == '0';
      NoLeadingZero(clock.ms);
      assert false;
    }
  }

  /** An update finds the booking or returns nothing; it sets the status and
      the update time, sets the confirmation time exactly when the new
      status is `confirmed`, and keeps every other field. */
  lemma UpdatedMockBooking(id: string, status: MockStatus, clock: Clock)
    ensures UpdateMockBookingStatus(id, status, clock).None? <==> GetMockBookingById(id).None?
    ensures UpdateMockBookingStatus(id, status, clock).Some? ==>
      var before := GetMockBookingById(id).value;
      var after := UpdateMockBookingStatus(id, status, clock).value;
      && after.status == status && after.updatedAt == clock.iso
      && (status == MockConfirmed ==> after.confirmedAt == Some(clock.iso))
      && (status != MockConfirmed ==> after.confirmedAt == before.confirmedAt)
      && after.(status := before.status, confirmedAt := before.confirmedAt, updatedAt := before.updatedAt) == before
  {}
}
