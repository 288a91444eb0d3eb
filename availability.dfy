/** Availability resolution (`getAvailableSlots`) as a function of the rows
    it reads: the day's weekly rule, the day's overrides, the hourly slots of
    the chosen window, the clock, and the instructor's bookings that still
    hold their time that day. */
module Availability {
  import opened Common
  import opened Time
  import opened Records
  import opened Slots

  // ---------------------------------------------------------------------------
  // The queries
  // ---------------------------------------------------------------------------

  /** Active weekly rules of the instructor for a weekday, in table order. */
  function ActiveRules(rules: seq<AvailabilityRule>, instructorId: Id, weekday: int): seq<AvailabilityRule>
  {
    Filter(rules, (r: AvailabilityRule) => r.instructorId == instructorId && r.dayOfWeek == weekday && r.isActive)
  }

  /** The rules consulted for civil day `day`: its weekday is read with
      `getDay()` in the server's zone. */
  function RulesFor(rules: seq<AvailabilityRule>, instructorId: Id, day: int, env: Env): seq<AvailabilityRule>
  {
    ActiveRules(rules, instructorId, Weekday(DayStart(day), env.serverOffsetMs))
  }

  /** The instructor's overrides dated within the day, 00:00:00 to 23:59:59 civil time. */
  function DayOverrides(overrides: seq<AvailabilityOverride>, instructorId: Id, day: int): seq<AvailabilityOverride>
  {
    Filter(overrides, (o: AvailabilityOverride) =>
      o.instructorId == instructorId && DayStart(day) <= o.date <= DayEnd(day))
  }

  /** The instructor's pending or confirmed bookings that start within the day. */
  function BusyBookings(bookings: seq<Booking>, instructorId: Id, day: int): seq<Booking>
  {
    Filter(bookings, (b: Booking) =>
      b.instructorId == instructorId && DayStart(day) <= b.scheduledAt <= DayEnd(day) && HoldsSlot(b.status))
  }

  /** Only the first override of the day decides whether the day is blocked. */
  predicate Blocked(dayOverrides: seq<AvailabilityOverride>)
  {
    dayOverrides != [] && !dayOverrides[0].isAvailable
  }

  /** The first override of the day that opens it, if any. */
  function FirstOpening(dayOverrides: seq<AvailabilityOverride>): Option<AvailabilityOverride>
  {
    Find(dayOverrides, (o: AvailabilityOverride) => o.isAvailable)
  }

  datatype Window = Window(startTime: string, endTime: string)

  /** The generation window: each end from the opening override when it sets
      that end, otherwise from the rule (two separate `??`). */
  function WindowOf(rule: AvailabilityRule, dayOverrides: seq<AvailabilityOverride>): Window
  {
    var opening := FirstOpening(dayOverrides);
    Window(
      if opening.Some? && opening.value.startTime.Some? then opening.value.startTime.value else rule.startTime,
      if opening.Some? && opening.value.endTime.Some? then opening.value.endTime.value else rule.endTime)
  }

  /** The half-open overlap test between a slot and a booking. */
  predicate Overlaps(slot: TimeSlot, b: Booking)
  {
    slot.start < BookingEnd(b) && slot.end > b.scheduledAt
  }

  predicate Clashes(slot: TimeSlot, busy: seq<Booking>)
  {
    exists i :: 0 <= i < |busy| && Overlaps(slot, busy[i])
  }

  /** Slots strictly after now. */
  function Upcoming(slots: seq<TimeSlot>, now: Instant): seq<TimeSlot>
  {
    Filter(slots, (s: TimeSlot) => s.start > now)
  }

  /** Slots that overlap none of the busy bookings. */
  function Unclashed(slots: seq<TimeSlot>, busy: seq<Booking>): seq<TimeSlot>
  {
    Filter(slots, (s: TimeSlot) => !Clashes(s, busy))
  }

  lemma UpcomingMember(slots: seq<TimeSlot>, now: Instant, x: TimeSlot)
    ensures x in Upcoming(slots, now) <==> x in slots && x.start > now
  {
    FilterMember(slots, (s: TimeSlot) => s.start > now, x);
  }

  lemma UnclashedMember(slots: seq<TimeSlot>, busy: seq<Booking>, x: TimeSlot)
    ensures x in Unclashed(slots, busy) <==> x in slots && !Clashes(x, busy)
  {
    FilterMember(slots, (s: TimeSlot) => !Clashes(s, busy), x);
  }

  /** What `getAvailableSlots(instructorId, date)` returns for civil day
      `day`; None where slot generation throws. */
  function AvailableSlots(rules: seq<AvailabilityRule>, overrides: seq<AvailabilityOverride>,
                          bookings: seq<Booking>, instructorId: Id, day: int, env: Env): Option<seq<TimeSlot>>
  {
    var active := RulesFor(rules, instructorId, day, env);
    var dayOverrides := DayOverrides(overrides, instructorId, day);
    if active == [] || Blocked(dayOverrides) then Some([])
    else
      var w := WindowOf(active[0], dayOverrides);
      match Generated(day, w.startTime, w.endTime, SLOT_MINUTES)
      case None => None
      case Some(g) => Some(Unclashed(Upcoming(g, env.now), BusyBookings(bookings, instructorId, day)))
  }

  /** `availableSlots.some(slot => slot.start === t)`, for a lookup that returned. */
  predicate SlotOffered(slots: Option<seq<TimeSlot>>, t: Instant)
  {
    slots.Some? && exists i :: 0 <= i < |slots.value| && slots.value[i].start == t
  }

  // ---------------------------------------------------------------------------
  // What the resolution promises
  // ---------------------------------------------------------------------------

  /** The day is closed when no active rule matches its weekday, and blocked
      when its first override is unavailable; an opening override further
      down the list does not reopen it, and without a rule no override opens it. */
  lemma ClosedOrBlockedDayIsEmpty(rules: seq<AvailabilityRule>, overrides: seq<AvailabilityOverride>,
                                  bookings: seq<Booking>, instructorId: Id, day: int, env: Env)
    requires RulesFor(rules, instructorId, day, env) == [] || Blocked(DayOverrides(overrides, instructorId, day))
    ensures AvailableSlots(rules, overrides, bookings, instructorId, day, env) == Some([])
  {}

  /** Minute `m` of the day opens a slot the instructor offers: it is on the
      hourly grid from the window's start, the hour fits before the window's
      end, it starts after now, and it overlaps no busy booking. */
  predicate Offered(day: int, ws: int, we: int, m: int, now: Instant, busy: seq<Booking>)
  {
    ws <= m && (m - ws) % SLOT_MINUTES == 0 && m + SLOT_MINUTES <= we
    && CivilMinute(day, m) > now && !Clashes(SlotAt(day, m, SLOT_MINUTES), busy)
  }

  /** The minute of civil day `day` at which a slot starts. */
  function SlotMinute(day: int, s: TimeSlot): int
  {
    (s.start - DayStart(day)) / MINUTE_MS
  }

  lemma MinuteOfSlotAt(day: int, m: int)
    ensures SlotMinute(day, SlotAt(day, m, SLOT_MINUTES)) == m
  {
    DivUnique(m * MINUTE_MS, MINUTE_MS, m, 0);
  }

  /** On an open day whose window parses to minutes `ws`–`we`, the lookup
      throws exactly when the hourly run reaches a start past 24:00, and
      otherwise the slot at minute `m` is returned exactly when it is offered. */
  lemma {:induction false} AvailableSlotsComplete(
    rules: seq<AvailabilityRule>, overrides: seq<AvailabilityOverride>, bookings: seq<Booking>,
    instructorId: Id, day: int, env: Env, ws: int, we: int, m: int)
    requires var active := RulesFor(rules, instructorId, day, env);
             var dayOverrides := DayOverrides(overrides, instructorId, day);
             active != [] && !Blocked(dayOverrides)
             && ParseClock(WindowOf(active[0], dayOverrides).startTime) == Some(ws)
             && ParseClock(WindowOf(active[0], dayOverrides).endTime) == Some(we)
    ensures AvailableSlots(rules, overrides, bookings, instructorId, day, env).None?
        <==> PassesMidnight(ws, we, SLOT_MINUTES)
    ensures var r := AvailableSlots(rules, overrides, bookings, instructorId, day, env);
      r.Some? ==> (SlotAt(day, m, SLOT_MINUTES) in r.value
                   <==> Offered(day, ws, we, m, env.now, BusyBookings(bookings, instructorId, day)))
  {
    var busy := BusyBookings(bookings, instructorId, day);
    var g := SlotRun(day, ws, we, SLOT_MINUTES);
    var s := SlotAt(day, m, SLOT_MINUTES);
    OpenDayLookup(rules, overrides, bookings, instructorId, day, env, ws, we);
    SlotRunMember(day, ws, we, SLOT_MINUTES, m);
    UpcomingMember(g, env.now, s);
    UnclashedMember(Upcoming(g, env.now), busy, s);
  }

  /** The lookup on an open day whose window parses to minutes `ws`–`we`. */
  lemma OpenDayLookup(
    rules: seq<AvailabilityRule>, overrides: seq<AvailabilityOverride>, bookings: seq<Booking>,
    instructorId: Id, day: int, env: Env, ws: int, we: int)
    requires var active := RulesFor(rules, instructorId, day, env);
             var dayOverrides := DayOverrides(overrides, instructorId, day);
             active != [] && !Blocked(dayOverrides)
             && ParseClock(WindowOf(active[0], dayOverrides).startTime) == Some(ws)
             && ParseClock(WindowOf(active[0], dayOverrides).endTime) == Some(we)
    ensures AvailableSlots(rules, overrides, bookings, instructorId, day, env)
            == if PassesMidnight(ws, we, SLOT_MINUTES) then None
               else Some(Unclashed(Upcoming(SlotRun(day, ws, we, SLOT_MINUTES), env.now),
                                   BusyBookings(bookings, instructorId, day)))
  {}

  /** Everything returned on such a day is an offered hourly slot. */
  lemma {:induction false} AvailableSlotsSound(
    rules: seq<AvailabilityRule>, overrides: seq<AvailabilityOverride>, bookings: seq<Booking>,
    instructorId: Id, day: int, env: Env, ws: int, we: int, s: TimeSlot)
    requires var active := RulesFor(rules, instructorId, day, env);
             var dayOverrides := DayOverrides(overrides, instructorId, day);
             active != [] && !Blocked(dayOverrides)
             && ParseClock(WindowOf(active[0], dayOverrides).startTime) == Some(ws)
             && ParseClock(WindowOf(active[0], dayOverrides).endTime) == Some(we)
    requires var r := AvailableSlots(rules, overrides, bookings, instructorId, day, env);
             r.Some? && s in r.value
    ensures s == SlotAt(day, SlotMinute(day, s), SLOT_MINUTES)
    ensures Offered(day, ws, we, SlotMinute(day, s), env.now, BusyBookings(bookings, instructorId, day))
  {
    var busy := BusyBookings(bookings, instructorId, day);
    var g := SlotRun(day, ws, we, SLOT_MINUTES);
    OpenDayLookup(rules, overrides, bookings, instructorId, day, env, ws, we);
    UnclashedMember(Upcoming(g, env.now), busy, s);
    UpcomingMember(g, env.now, s);
    assert s in g;
    var j :| 0 <= j < |g| && g[j] == s;
    SlotRunIndex(day, ws, we, SLOT_MINUTES, j);
    var m := ws + j * SLOT_MINUTES;
    assert s == SlotAt(day, m, SLOT_MINUTES);
    MinuteOfSlotAt(day, m);
    AvailableSlotsComplete(rules, overrides, bookings, instructorId, day, env, ws, we, m);
  }

  /** A window whose start or end does not parse yields no slots. */
  lemma UnparsableWindowIsEmpty(
    rules: seq<AvailabilityRule>, overrides: seq<AvailabilityOverride>, bookings: seq<Booking>,
    instructorId: Id, day: int, env: Env)
    requires var active := RulesFor(rules, instructorId, day, env);
             var dayOverrides := DayOverrides(overrides, instructorId, day);
             active != [] && !Blocked(dayOverrides)
             && (ParseClock(WindowOf(active[0], dayOverrides).startTime).None?
                 || ParseClock(WindowOf(active[0], dayOverrides).endTime).None?)
    ensures AvailableSlots(rules, overrides, bookings, instructorId, day, env) == Some([])
  {}

  /** Slots in strictly increasing order of start. */
  predicate Chronological(s: seq<TimeSlot>)
  {
    forall i, j :: 0 <= i < j < |s| ==> s[i].start < s[j].start
  }

  lemma {:induction false} FilterKeepsChronological(s: seq<TimeSlot>, p: TimeSlot -> bool)
    requires Chronological(s)
    ensures Chronological(Filter(s, p))
    decreases |s|
  {
    if s != [] {
      FilterKeepsChronological(s[1..], p);
      var rest := Filter(s[1..], p);
      forall k | 0 <= k < |rest|
        ensures s[0].start < rest[k].start
      {
        var j :| 0 <= j < |s[1..]| && s[1..][j] == rest[k];
      }
    }
  }

  lemma SlotRunChronological(day: int, from: int, end: int, dur: int)
    requires dur > 0
    ensures Chronological(SlotRun(day, from, end, dur))
  {
    var r := SlotRun(day, from, end, dur);
    forall i, j | 0 <= i < j < |r|
      ensures r[i].start < r[j].start
    {
      SlotRunIndex(day, from, end, dur, i);
      SlotRunIndex(day, from, end, dur, j);
      MulLe(dur, i + 1, j);
      assert (i + 1) * dur == i * dur + dur;
    }
  }

  /** The returned slots are in chronological order. */
  lemma AvailableSlotsChronological(
    rules: seq<AvailabilityRule>, overrides: seq<AvailabilityOverride>, bookings: seq<Booking>,
    instructorId: Id, day: int, env: Env)
    ensures var r := AvailableSlots(rules, overrides, bookings, instructorId, day, env);
      r.Some? ==> Chronological(r.value)
  {
    var active := RulesFor(rules, instructorId, day, env);
    var dayOverrides := DayOverrides(overrides, instructorId, day);
    if active != [] && !Blocked(dayOverrides)
       && Generated(day, WindowOf(active[0], dayOverrides).startTime, WindowOf(active[0], dayOverrides).endTime,
                    SLOT_MINUTES).Some? {
      var w := WindowOf(active[0], dayOverrides);
      var busy := BusyBookings(bookings, instructorId, day);
      var g := Generated(day, w.startTime, w.endTime, SLOT_MINUTES).value;
      if ParseClock(w.startTime).Some? && ParseClock(w.endTime).Some? {
        SlotRunChronological(day, ParseClock(w.startTime).value, ParseClock(w.endTime).value, SLOT_MINUTES);
      }
      FilterKeepsChronological(g, (s: TimeSlot) => s.start > env.now);
      FilterKeepsChronological(Upcoming(g, env.now), (s: TimeSlot) => !Clashes(s, busy));
    }
  }

  // ---------------------------------------------------------------------------
  // Double booking
  // ---------------------------------------------------------------------------

  lemma BusyMember(bookings: seq<Booking>, instructorId: Id, day: int, b: Booking)
    ensures b in BusyBookings(bookings, instructorId, day)
        <==> b in bookings && b.instructorId == instructorId
             && DayStart(day) <= b.scheduledAt <= DayEnd(day) && HoldsSlot(b.status)
  {
    FilterMember(bookings, (b: Booking) =>
      b.instructorId == instructorId && DayStart(day) <= b.scheduledAt <= DayEnd(day) && HoldsSlot(b.status), b);
  }

  /** Two bookings of one instructor that both hold their time never overlap. */
  predicate NoDoubleBooking(bs: seq<Booking>)
  {
    forall i, j :: 0 <= i < |bs| && 0 <= j < |bs| && i != j
      && HoldsSlot(bs[i].status) && HoldsSlot(bs[j].status) && bs[i].instructorId == bs[j].instructorId
      ==> BookingEnd(bs[i]) <= bs[j].scheduledAt || BookingEnd(bs[j]) <= bs[i].scheduledAt
  }

  /** A booking lasts at least a minute and ends within its own +11:00 civil day. */
  predicate Placed(b: Booking)
  {
    b.durationMinutes > 0 && BookingEnd(b) <= DayStart(CivilDayOf(b.scheduledAt)) + DAY_MS
  }

  /** Every booking that holds its time is placed within its day. */
  predicate WellPlaced(bs: seq<Booking>)
  {
    forall i :: 0 <= i < |bs| && HoldsSlot(bs[i].status) ==> Placed(bs[i])
  }

  /** An "HH:MM" end time that parses is no later than 24:00. */
  predicate EndsByMidnight(t: string)
  {
    ParseClock(t).Some? ==> ParseClock(t).value <= 1440
  }

  predicate WindowsEndByMidnight(rules: seq<AvailabilityRule>, overrides: seq<AvailabilityOverride>)
  {
    (forall i :: 0 <= i < |rules| ==> EndsByMidnight(rules[i].endTime))
    && (forall i :: 0 <= i < |overrides| && overrides[i].endTime.Some? ==> EndsByMidnight(overrides[i].endTime.value))
  }

  /** A returned slot is an hour long, starts strictly after now, and clashes
      with no busy booking. */
  lemma ReturnedSlot(rules: seq<AvailabilityRule>, overrides: seq<AvailabilityOverride>,
                     bookings: seq<Booking>, instructorId: Id, day: int, env: Env, s: TimeSlot)
    requires var r := AvailableSlots(rules, overrides, bookings, instructorId, day, env);
             r.Some? && s in r.value
    ensures s.end == s.start + SLOT_MINUTES * MINUTE_MS
    ensures s.start > env.now
    ensures !Clashes(s, BusyBookings(bookings, instructorId, day))
  {
    var active := RulesFor(rules, instructorId, day, env);
    var dayOverrides := DayOverrides(overrides, instructorId, day);
    var w := WindowOf(active[0], dayOverrides);
    var ws, we := ParseClock(w.startTime), ParseClock(w.endTime);
    if ws.None? || we.None? {
      UnparsableWindowIsEmpty(rules, overrides, bookings, instructorId, day, env);
      assert false;
    }
    AvailableSlotsSound(rules, overrides, bookings, instructorId, day, env, ws.value, we.value, s);
  }

  /** Where the windows end by midnight, a returned slot starts at a minute
      `m` of the day from which a whole hour remains before midnight. */
  lemma OfferedStart(rules: seq<AvailabilityRule>, overrides: seq<AvailabilityOverride>,
                     bookings: seq<Booking>, instructorId: Id, day: int, env: Env, t: Instant)
    returns (m: int)
    requires WindowsEndByMidnight(rules, overrides)
    requires SlotOffered(AvailableSlots(rules, overrides, bookings, instructorId, day, env), t)
    ensures 0 <= m && m + SLOT_MINUTES <= 1440 && t == CivilMinute(day, m)
    ensures !Clashes(SlotAt(day, m, SLOT_MINUTES), BusyBookings(bookings, instructorId, day))
  {
    var r := AvailableSlots(rules, overrides, bookings, instructorId, day, env).value;
    var i :| 0 <= i < |r| && r[i].start == t;
    var active := RulesFor(rules, instructorId, day, env);
    var dayOverrides := DayOverrides(overrides, instructorId, day);
    var w := WindowOf(active[0], dayOverrides);
    var ws, we := ParseClock(w.startTime), ParseClock(w.endTime);
    if ws.None? || we.None? {
      UnparsableWindowIsEmpty(rules, overrides, bookings, instructorId, day, env);
      assert false;
    }
    WindowEndsByMidnight(rules, overrides, instructorId, day, env);
    AvailableSlotsSound(rules, overrides, bookings, instructorId, day, env, ws.value, we.value, r[i]);
    m := SlotMinute(day, r[i]);
  }

  /** Where the windows end by midnight, the window chosen for an open day
      ends by midnight too: its end comes from a row of one of the two tables. */
  lemma WindowEndsByMidnight(rules: seq<AvailabilityRule>, overrides: seq<AvailabilityOverride>,
                             instructorId: Id, day: int, env: Env)
    requires WindowsEndByMidnight(rules, overrides)
    requires RulesFor(rules, instructorId, day, env) != []
    ensures var dayOverrides := DayOverrides(overrides, instructorId, day);
      EndsByMidnight(WindowOf(RulesFor(rules, instructorId, day, env)[0], dayOverrides).endTime)
  {
    var active := RulesFor(rules, instructorId, day, env);
    var dayOverrides := DayOverrides(overrides, instructorId, day);
    var opening := FirstOpening(dayOverrides);
    if opening.Some? && opening.value.endTime.Some? {
      var k :| 0 <= k < |dayOverrides| && dayOverrides[k] == opening.value;
      var k2 :| 0 <= k2 < |overrides| && overrides[k2] == dayOverrides[k];
      assert EndsByMidnight(overrides[k2].endTime.value);
    } else {
      var k :| 0 <= k < |rules| && rules[k] == active[0];
      assert EndsByMidnight(rules[k].endTime);
    }
  }

  /** Where the windows end by midnight, the lookup never throws. */
  lemma MidnightWindowsNeverThrow(rules: seq<AvailabilityRule>, overrides: seq<AvailabilityOverride>,
                                  bookings: seq<Booking>, instructorId: Id, day: int, env: Env)
    requires WindowsEndByMidnight(rules, overrides)
    ensures AvailableSlots(rules, overrides, bookings, instructorId, day, env).Some?
  {
    var active := RulesFor(rules, instructorId, day, env);
    var dayOverrides := DayOverrides(overrides, instructorId, day);
    if active != [] && !Blocked(dayOverrides) {
      var w := WindowOf(active[0], dayOverrides);
      WindowEndsByMidnight(rules, overrides, instructorId, day, env);
      if ParseClock(w.startTime).Some? && ParseClock(w.endTime).Some? {
        EarlyEndNeverPasses(ParseClock(w.startTime).value, ParseClock(w.endTime).value, SLOT_MINUTES);
      }
    }
  }

  /** A new booking placed in an offered slot and no longer than it keeps
      clear of an existing booking of the same instructor that holds its time. */
  lemma ClearOfExisting(bookings: seq<Booking>, b: Booking, nb: Booking, day: int, m: int)
    requires b in bookings && HoldsSlot(b.status) && Placed(b) && b.instructorId == nb.instructorId
    requires 0 <= m && m + SLOT_MINUTES <= 1440 && nb.scheduledAt == CivilMinute(day, m)
    requires 0 < nb.durationMinutes <= SLOT_MINUTES
    requires !Clashes(SlotAt(day, m, SLOT_MINUTES), BusyBookings(bookings, nb.instructorId, day))
    ensures BookingEnd(b) <= nb.scheduledAt || BookingEnd(nb) <= b.scheduledAt
  {
    var d := CivilDayOf(b.scheduledAt);
    if d == day {
      BusyMember(bookings, nb.instructorId, day, b);
      var busy := BusyBookings(bookings, nb.instructorId, day);
      var k :| 0 <= k < |busy| && busy[k] == b;
      assert !Overlaps(SlotAt(day, m, SLOT_MINUTES), busy[k]);
    }
  }

  /** Booking a slot that availability offered, for a service no longer than
      the hour slot, keeps every instructor free of double bookings — as long
      as the bookings that hold their time sit within their civil day and the
      windows end by midnight. The hour-long slots make the length bound
      necessary: a longer lesson runs into the next slot. */
  lemma {:induction false} BookingOfferedSlotKeepsNoDoubleBooking(
    rules: seq<AvailabilityRule>, overrides: seq<AvailabilityOverride>, bookings: seq<Booking>,
    day: int, env: Env, nb: Booking)
    requires NoDoubleBooking(bookings) && WellPlaced(bookings) && WindowsEndByMidnight(rules, overrides)
    requires SlotOffered(AvailableSlots(rules, overrides, bookings, nb.instructorId, day, env), nb.scheduledAt)
    requires 0 < nb.durationMinutes <= SLOT_MINUTES
    ensures NoDoubleBooking(bookings + [nb]) && WellPlaced(bookings + [nb])
  {
    var m := OfferedStart(rules, overrides, bookings, nb.instructorId, day, env, nb.scheduledAt);
    assert CivilDayOf(nb.scheduledAt) == day;
    assert Placed(nb);
    var all := bookings + [nb];
    forall i, j | 0 <= i < |all| && 0 <= j < |all| && i != j
      && HoldsSlot(all[i].status) && HoldsSlot(all[j].status) && all[i].instructorId == all[j].instructorId
      ensures BookingEnd(all[i]) <= all[j].scheduledAt || BookingEnd(all[j]) <= all[i].scheduledAt
    {
      if i == |bookings| {
        ClearOfExisting(bookings, all[j], nb, day, m);
      } else if j == |bookings| {
        ClearOfExisting(bookings, all[i], nb, day, m);
      } else {
        assert all[i] == bookings[i] && all[j] == bookings[j];
      }
    }
    assert WellPlaced(all) by {
      forall i | 0 <= i < |all| && HoldsSlot(all[i].status)
        ensures Placed(all[i])
      {
        if i < |bookings| { assert all[i] == bookings[i]; }
      }
    }
  }

  /** A booking that holds its time takes its slot out of availability for
      the rest of the day's lookups: the write-time re-check then refuses the
      same slot. */
  lemma BookedSlotIsWithdrawn(rules: seq<AvailabilityRule>, overrides: seq<AvailabilityOverride>,
                              bookings: seq<Booking>, day: int, env: Env, nb: Booking)
    requires HoldsSlot(nb.status) && nb.durationMinutes > 0
    requires DayStart(day) <= nb.scheduledAt <= DayEnd(day)
    ensures !SlotOffered(AvailableSlots(rules, overrides, bookings + [nb], nb.instructorId, day, env), nb.scheduledAt)
  {
    var all := bookings + [nb];
    var r := AvailableSlots(rules, overrides, all, nb.instructorId, day, env);
    if SlotOffered(r, nb.scheduledAt) {
      var i :| 0 <= i < |r.value| && r.value[i].start == nb.scheduledAt;
      ReturnedSlot(rules, overrides, all, nb.instructorId, day, env, r.value[i]);
      BusyMember(all, nb.instructorId, day, nb);
      assert false;
    }
  }

  /** With the server's re-check keyed on the UTC date of the requested
      instant, a lesson starting before 11:00 civil time can never be booked:
      that instant belongs to the previous UTC day, and no slot of the
      previous day starts that late. */
  lemma MorningSlotsCannotBeBooked(rules: seq<AvailabilityRule>, overrides: seq<AvailabilityOverride>,
                                   bookings: seq<Booking>, instructorId: Id, env: Env, day: int, m: int)
    requires WindowsEndByMidnight(rules, overrides) && 0 <= m < 660
    ensures !SlotOffered(AvailableSlots(rules, overrides, bookings, instructorId,
                                        UtcDay(CivilMinute(day, m)), env), CivilMinute(day, m))
  {
    var t := CivilMinute(day, m);
    var d := UtcDay(t);
    UtcDayOfCivilMinute(day, m);
    if SlotOffered(AvailableSlots(rules, overrides, bookings, instructorId, d, env), t) {
      var m2 := OfferedStart(rules, overrides, bookings, instructorId, d, env, t);
      assert false;
    }
  }
}
