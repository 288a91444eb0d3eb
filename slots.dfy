/** Slot generation (`generateSlots`): consecutive fixed-length slots laid
    out from the start of a daily "HH:MM" window while they still fit; a
    slot that would start after 24:00 makes the generation throw. */
module Slots {
  import opened Common
  import opened Time

  /** A bookable interval; `start` and `end` are the instants the source
      renders with `toISOString()`. */
  datatype TimeSlot = TimeSlot(start: Instant, end: Instant, available: bool)

  /** The slot length `getAvailableSlots` always asks for. */
  const SLOT_MINUTES: int := 60

  /** The slot that begins at minute `minute` of civil day `day` and lasts `dur` minutes. */
  function SlotAt(day: int, minute: int, dur: int): TimeSlot
  {
    TimeSlot(CivilMinute(day, minute), CivilMinute(day, minute) + dur * MINUTE_MS, true)
  }

  /** The slots the loop emits once its counter has reached minute `from`,
      for a window ending at minute `end`. */
  function SlotRun(day: int, from: int, end: int, dur: int): seq<TimeSlot>
    requires dur > 0
    decreases end - from
  {
    if from + dur <= end then [SlotAt(day, from, dur)] + SlotRun(day, from + dur, end, dur) else []
  }

  /** The latest start minute `new Date("…THH:MM:00+11:00")` accepts: hour 24
      is valid only as 24:00. A later start gives an invalid date, and its
      `toISOString()` throws a `RangeError`. */
  const LAST_START: int := 24 * 60

  /** Whether the loop, counting from minute `from`, reaches a slot that
      starts later than 24:00 before it stops. */
  predicate PassesMidnight(from: int, end: int, dur: int)
    requires dur > 0
    decreases end - from
  {
    from + dur <= end && (from > LAST_START || PassesMidnight(from + dur, end, dur))
  }

  /** What `generateSlots(date, startTime, endTime, dur)` does: None where it
      throws, because a slot would start after 24:00; otherwise nothing when
      either time is not a number (the loop guard compares NaN), and the run
      from the start minute when both are. */
  function Generated(day: int, startTime: string, endTime: string, dur: int): Option<seq<TimeSlot>>
    requires dur > 0
  {
    match (ParseClock(startTime), ParseClock(endTime))
    case (Some(s), Some(e)) => if PassesMidnight(s, e, dur) then None else Some(SlotRun(day, s, e, dur))
    case _ => Some([])
  }

  method GenerateSlots(day: int, startTime: string, endTime: string, dur: int)
    returns (r: Option<seq<TimeSlot>>)
    requires dur > 0
    ensures r == Generated(day, startTime, endTime, dur)
  {
    var startMinute, endMinute := ParseClock(startTime), ParseClock(endTime);
    if startMinute.None? || endMinute.None? {
      return Some([]);
    }
    var slots := [];
    var current, end := startMinute.value, endMinute.value;
    while current + dur <= end
      invariant slots + SlotRun(day, current, end, dur) == SlotRun(day, startMinute.value, end, dur)
      invariant PassesMidnight(startMinute.value, end, dur) == PassesMidnight(current, end, dur)
      decreases end - current
    {
      if current > LAST_START {
        // the start is an invalid date: `toISOString()` throws
        return None;
      }
      assert SlotRun(day, current, end, dur) == [SlotAt(day, current, dur)] + SlotRun(day, current + dur, end, dur);
      slots := slots + [SlotAt(day, current, dur)];
      current := current + dur;
    }
    assert !PassesMidnight(current, end, dur) && SlotRun(day, current, end, dur) == [];
    assert slots == SlotRun(day, startMinute.value, end, dur);
    return Some(slots);
  }

  // ---------------------------------------------------------------------------
  // Properties of the generated run
  // ---------------------------------------------------------------------------

  /** The `i`-th slot starts `i` slot lengths after the window opens and ends
      inside the window. */
  lemma {:induction false} SlotRunIndex(day: int, from: int, end: int, dur: int, i: nat)
    requires dur > 0 && i < |SlotRun(day, from, end, dur)|
    ensures SlotRun(day, from, end, dur)[i] == SlotAt(day, from + i * dur, dur)
    ensures from + (i + 1) * dur <= end
    decreases i
  {
    if i > 0 {
      SlotRunIndex(day, from + dur, end, dur, i - 1);
      assert from + dur + (i - 1) * dur == from + i * dur;
      assert from + dur + i * dur == from + (i + 1) * dur;
    }
  }

  /** The loop emits floor((end - from) / dur) slots, none when the window is
      shorter than one slot, and the part of the window it leaves over is
      shorter than one slot. */
  lemma {:induction false} SlotRunCount(day: int, from: int, end: int, dur: int)
    requires dur > 0
    ensures |SlotRun(day, from, end, dur)| == if from + dur <= end then (end - from) / dur else 0
    ensures from <= end ==> 0 <= end - (from + |SlotRun(day, from, end, dur)| * dur) < dur
    decreases end - from
  {
    if from + dur <= end {
      var n := |SlotRun(day, from + dur, end, dur)|;
      SlotRunCount(day, from + dur, end, dur);
      assert |SlotRun(day, from, end, dur)| == n + 1;
      assert (n + 1) * dur == n * dur + dur;
      var a := end - from;
      DivStep(a - dur, dur);
      if from + 2 * dur > end {
        DivUnique(a - dur, dur, 0, a - dur);
      }
    }
  }

  /** A slot of the grid belongs to the run exactly when it starts a whole
      number of slot lengths after the window opens and fits inside it. */
  lemma {:induction false} SlotRunMember(day: int, from: int, end: int, dur: int, m: int)
    requires dur > 0
    ensures SlotAt(day, m, dur) in SlotRun(day, from, end, dur)
        <==> from <= m && (m - from) % dur == 0 && m + dur <= end
    decreases end - from
  {
    if from + dur <= end {
      SlotRunMember(day, from + dur, end, dur, m);
      assert SlotAt(day, m, dur) == SlotAt(day, from, dur) <==> m == from;
      DivStep(m - from - dur, dur);
      if from < m < from + dur {
        DivUnique(m - from, dur, 0, m - from);
      }
    }
  }

  /** The shape `generateSlots` promises for a window from minute `from` to
      minute `end`: slots that fit wholly inside the window, in order and
      back to back, each exactly `dur` minutes long and marked available. */
  lemma SlotRunShape(day: int, from: int, end: int, dur: int)
    requires dur > 0
    ensures var r := SlotRun(day, from, end, dur);
      && (forall i :: 0 <= i < |r| ==> r[i] == SlotAt(day, from + i * dur, dur))
      && (forall i :: 0 <= i < |r| ==>
            CivilMinute(day, from) <= r[i].start && r[i].end <= CivilMinute(day, end))
      && (forall i :: 0 <= i < |r| ==> r[i].available && r[i].end - r[i].start == dur * MINUTE_MS)
      && (forall i :: 0 <= i < |r| - 1 ==> r[i].end == r[i + 1].start)
  {
    var r := SlotRun(day, from, end, dur);
    forall i | 0 <= i < |r|
      ensures r[i] == SlotAt(day, from + i * dur, dur)
      ensures CivilMinute(day, from) <= r[i].start && r[i].end <= CivilMinute(day, end)
    {
      SlotRunIndex(day, from, end, dur, i);
      assert (from + i * dur + dur) * MINUTE_MS == (from + (i + 1) * dur) * MINUTE_MS;
    }
    forall i | 0 <= i < |r| - 1
      ensures r[i].end == r[i + 1].start
    {
      SlotRunIndex(day, from, end, dur, i);
      SlotRunIndex(day, from, end, dur, i + 1);
      assert from + i * dur + dur == from + (i + 1) * dur;
    }
  }

  /** A slot of the run starts after 24:00 exactly when its minute is past 24:00. */
  predicate StartsPastMidnight(day: int, slot: TimeSlot)
  {
    slot.start > CivilMinute(day, LAST_START)
  }

  /** The generation throws exactly when one of the slots it would emit
      starts later than 24:00. */
  lemma PassesMidnightIff(day: int, from: int, end: int, dur: int)
    requires dur > 0
    ensures PassesMidnight(from, end, dur) <==>
      exists i :: 0 <= i < |SlotRun(day, from, end, dur)| && StartsPastMidnight(day, SlotRun(day, from, end, dur)[i])
  {
    if PassesMidnight(from, end, dur) {
      var i := PassesMidnightWitness(day, from, end, dur);
    }
    if exists i :: 0 <= i < |SlotRun(day, from, end, dur)| && StartsPastMidnight(day, SlotRun(day, from, end, dur)[i]) {
      var i :| 0 <= i < |SlotRun(day, from, end, dur)| && StartsPastMidnight(day, SlotRun(day, from, end, dur)[i]);
      LateSlotPassesMidnight(day, from, end, dur, i);
    }
  }

  lemma {:induction false} PassesMidnightWitness(day: int, from: int, end: int, dur: int) returns (i: nat)
    requires dur > 0 && PassesMidnight(from, end, dur)
    ensures i < |SlotRun(day, from, end, dur)| && StartsPastMidnight(day, SlotRun(day, from, end, dur)[i])
    decreases end - from
  {
    var r := SlotRun(day, from, end, dur);
    assert r == [SlotAt(day, from, dur)] + SlotRun(day, from + dur, end, dur);
    if from > LAST_START {
      assert r[0].start - CivilMinute(day, LAST_START) == (from - LAST_START) * 60000;
      i := 0;
    } else {
      var j := PassesMidnightWitness(day, from + dur, end, dur);
      i := j + 1;
      assert r[i] == SlotRun(day, from + dur, end, dur)[j];
    }
  }

  lemma {:induction false} LateSlotPassesMidnight(day: int, from: int, end: int, dur: int, i: nat)
    requires dur > 0 && i < |SlotRun(day, from, end, dur)| && StartsPastMidnight(day, SlotRun(day, from, end, dur)[i])
    ensures PassesMidnight(from, end, dur)
    decreases i
  {
    var r := SlotRun(day, from, end, dur);
    assert r == [SlotAt(day, from, dur)] + SlotRun(day, from + dur, end, dur);
    if i == 0 {
      assert r[0].start - CivilMinute(day, LAST_START) == (from - LAST_START) * 60000;
    } else {
      assert SlotRun(day, from + dur, end, dur)[i - 1] == r[i];
      LateSlotPassesMidnight(day, from + dur, end, dur, i - 1);
    }
  }

  /** A window that ends no later than one slot after 24:00 never throws. */
  lemma {:induction false} EarlyEndNeverPasses(from: int, end: int, dur: int)
    requires dur > 0 && end <= LAST_START + dur
    ensures !PassesMidnight(from, end, dur)
    decreases end - from
  {
    if from + dur <= end {
      EarlyEndNeverPasses(from + dur, end, dur);
    }
  }

  lemma NineToFiveParses()
    ensures ParseClock("09:00") == Some(540)
    ensures ParseClock("17:00") == Some(1020)
    ensures ParseClock("17:30") == Some(1050)
  {
    TwoDigits(9);
    TwoDigits(0);
    TwoDigits(17);
    TwoDigits(30);
    assert FormatClock(540) == "09:00";
    assert FormatClock(1020) == "17:00";
    assert FormatClock(1050) == "17:30";
    ClockRoundTrip(540);
    ClockRoundTrip(1020);
    ClockRoundTrip(1050);
  }

  /** Worked example: a 09:00–17:00 window yields eight one-hour slots, and so
      does 09:00–17:30, whose last half hour is dropped. */
  lemma EightSlotsInAWorkingDay(day: int)
    ensures Generated(day, "09:00", "17:00", SLOT_MINUTES) == Some(SlotRun(day, 540, 1020, SLOT_MINUTES))
    ensures Generated(day, "09:00", "17:30", SLOT_MINUTES) == Some(SlotRun(day, 540, 1050, SLOT_MINUTES))
    ensures |SlotRun(day, 540, 1020, SLOT_MINUTES)| == 8 && |SlotRun(day, 540, 1050, SLOT_MINUTES)| == 8
  {
    NineToFiveParses();
    EarlyEndNeverPasses(540, 1020, SLOT_MINUTES);
    EarlyEndNeverPasses(540, 1050, SLOT_MINUTES);
    SlotRunCount(day, 540, 1020, SLOT_MINUTES);
    SlotRunCount(day, 540, 1050, SLOT_MINUTES);
  }

  /** Worked example: a window from 09:00 to 26:00 reaches a slot at 25:00,
      so generation throws. */
  lemma LateWindowThrows(day: int)
    ensures Generated(day, "09:00", "26:00", SLOT_MINUTES).None?
  {
    NineToFiveParses();
    LateParses();
    var r := SlotRun(day, 540, 1560, SLOT_MINUTES);
    SlotRunCount(day, 540, 1560, SLOT_MINUTES);
    SlotRunIndex(day, 540, 1560, SLOT_MINUTES, 16);
    assert StartsPastMidnight(day, r[16]);
    LateSlotPassesMidnight(day, 540, 1560, SLOT_MINUTES, 16);
  }

  /** Worked example: a slot may start at 24:00 itself, so a window from
      23:00 to 25:00 gives two slots and does not throw. */
  lemma MidnightStartAllowed(day: int)
    ensures Generated(day, "23:00", "25:00", SLOT_MINUTES)
            == Some([SlotAt(day, 1380, SLOT_MINUTES), SlotAt(day, 1440, SLOT_MINUTES)])
  {
    LateParses();
    assert !PassesMidnight(1500, 1500, SLOT_MINUTES);
    assert !PassesMidnight(1440, 1500, SLOT_MINUTES);
    assert !PassesMidnight(1380, 1500, SLOT_MINUTES);
    assert SlotRun(day, 1500, 1500, SLOT_MINUTES) == [];
    assert SlotRun(day, 1440, 1500, SLOT_MINUTES) == [SlotAt(day, 1440, SLOT_MINUTES)];
    assert SlotRun(day, 1380, 1500, SLOT_MINUTES)
        == [SlotAt(day, 1380, SLOT_MINUTES)] + SlotRun(day, 1440, 1500, SLOT_MINUTES);
    assert Generated(day, "23:00", "25:00", SLOT_MINUTES) == Some(SlotRun(day, 1380, 1500, SLOT_MINUTES));
    assert [SlotAt(day, 1380, SLOT_MINUTES)] + [SlotAt(day, 1440, SLOT_MINUTES)]
        == [SlotAt(day, 1380, SLOT_MINUTES), SlotAt(day, 1440, SLOT_MINUTES)];
  }

  lemma LateParses()
    ensures ParseClock("26:00") == Some(1560)
    ensures ParseClock("23:00") == Some(1380)
    ensures ParseClock("25:00") == Some(1500)
  {
    ParsesTo2600();
    ParsesTo2300();
    ParsesTo2500();
  }

  lemma ParsesTo2600() ensures ParseClock("26:00") == Some(1560) { ClockLiteral('2', '6', '0', '0'); }
  lemma ParsesTo2300() ensures ParseClock("23:00") == Some(1380) { ClockLiteral('2', '3', '0', '0'); }
  lemma ParsesTo2500() ensures ParseClock("25:00") == Some(1500) { ClockLiteral('2', '5', '0', '0'); }

  /** An "HH:MM" literal parses to the value of its digits. */
  lemma ClockLiteral(h1: char, h2: char, m1: char, m2: char)
    requires IsDigit(h1) && IsDigit(h2) && IsDigit(m1) && IsDigit(m2)
    ensures ParseClock([h1, h2, ':', m1, m2])
            == Some((DigitValue(h1) * 10 + DigitValue(h2)) * 60 + DigitValue(m1) * 10 + DigitValue(m2))
  {
    var s := [h1, h2, ':', m1, m2];
    assert s[..2] == [h1, h2] && s[3..] == [m1, m2];
    ParseDigitClock(s);
    TwoDigitValue(s[..2]);
    TwoDigitValue(s[3..]);
  }
}
