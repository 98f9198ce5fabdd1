/** The schedule-slot selector of app.js (`getScheduledTime`).

    Instants are integers counting milliseconds on the local wall-clock time
    line, the unit of a JavaScript `Date`. Day `d` begins at `d * DayMs`, and
    a time of day `hh:mm` on day `d` is the instant `d * DayMs + (60 * hh + mm) * MinuteMs`.
    The selector is written in two layers: `Select` is the generic
    "first slot at or after now, else the last slot" rule over any non-empty
    table, and `GetScheduledTime` applies it to the three fixed daily slots
    placed on the date the wall clock reports (`day`), which is a parameter
    of its own, separate from `now`. */
module Schedule {

  import opened Wrappers

  const MinuteMs: int := 60_000
  const DayMs: int := 24 * 60 * MinuteMs

  /** Minutes since midnight of the wall-clock time `hour:minute`. */
  function ClockTime(hour: nat, minute: nat): (m: nat)
    requires hour < 24 && minute < 60
    ensures m < 24 * 60
    ensures m / 60 == hour && m % 60 == minute
  {
    hour * 60 + minute
  }

  /** The slot table '07:36', '07:52', '08:36', as minutes since midnight. */
  const SlotClock: seq<nat> := [ClockTime(7, 36), ClockTime(7, 52), ClockTime(8, 36)]

  predicate StrictlyAscending(s: seq<int>) {
    forall i, j :: 0 <= i < j < |s| ==> s[i] < s[j]
  }

  /** The instant of time of day `minutes` on day `day`: the `Date` built from
      the day's date string followed by a time of day. Within a day, the
      instant gives back its date and its minute of the day. */
  function At(day: int, minutes: int): (r: int)
    ensures 0 <= minutes < 24 * 60 ==> r / DayMs == day && (r % DayMs) / MinuteMs == minutes
  {
    day * DayMs + minutes * MinuteMs
  }

  /** Places every time of day of `clock` on day `day`: the `map` that turns
      the slot labels into `Date`s. */
  function SlotsOn(day: int, clock: seq<nat>): (times: seq<int>)
    ensures |times| == |clock|
    ensures forall i :: 0 <= i < |clock| ==> times[i] == At(day, clock[i])
  {
    if clock == [] then [] else [At(day, clock[0])] + SlotsOn(day, clock[1..])
  }

  /** The index of the first element of `times` at or after `now` (`find` with
      the test `now <= time`), or None when every element lies before `now`. */
  function FirstAtOrAfter(times: seq<int>, now: int): (r: Option<nat>)
    ensures r.Some? ==> r.value < |times| && now <= times[r.value]
    ensures r.Some? ==> forall j :: 0 <= j < r.value ==> times[j] < now
    ensures r.None? <==> forall j :: 0 <= j < |times| ==> times[j] < now
  {
    if times == [] then None
    else if now <= times[0] then Some(0)
    else match FirstAtOrAfter(times[1..], now)
      case None => None
      case Some(i) => Some(i + 1)
  }

  /** The first element at or after `now`, falling back to the last element
      when there is none. A `Date` object is always truthy, so the `||`
      fallback is taken exactly when `find` yields `undefined`. */
  function Select(times: seq<int>, now: int): (r: int)
    requires |times| > 0
    ensures r in times
  {
    match FirstAtOrAfter(times, now)
    case Some(i) => times[i]
    case None => times[|times| - 1]
  }

  /** The selector itself: today's three slots, then `Select`. */
  function GetScheduledTime(day: int, now: int): (r: int)
    ensures r == At(day, SlotClock[0]) || r == At(day, SlotClock[1]) || r == At(day, SlotClock[2])
    ensures day * DayMs <= r < (day + 1) * DayMs
  {
    Select(SlotsOn(day, SlotClock), now)
  }

  /** Places the i-th time of day of `clock` on day `days[i]`. The date at
      app.js:59 is read from the clock once per label, so the labels may land
      on different dates when the readings straddle midnight. */
  function SlotsOnDays(days: seq<int>, clock: seq<nat>): (times: seq<int>)
    requires |days| == |clock|
    ensures |times| == |clock|
    ensures forall i :: 0 <= i < |clock| ==> times[i] == At(days[i], clock[i])
  {
    if clock == [] then [] else [At(days[0], clock[0])] + SlotsOnDays(days[1..], clock[1..])
  }

  /** The selector with one clock reading per label: `days[i]` is the date
      reported while the i-th label is turned into a `Date`. */
  function ScheduledTimeFromReadings(days: seq<int>, now: int): (r: int)
    requires |days| == |SlotClock|
    ensures r == At(days[0], SlotClock[0]) || r == At(days[1], SlotClock[1]) || r == At(days[2], SlotClock[2])
  {
    Select(SlotsOnDays(days, SlotClock), now)
  }

  // ---------------------------------------------------------------------
  // Properties of the generic rule.

  /** When index `i` is the first whose slot is at or after `now`, that slot
      is the result: `find` returns the first match in table order. */
  lemma SelectFirstMatch(times: seq<int>, now: int, i: nat)
    requires i < |times| && now <= times[i]
    requires forall j :: 0 <= j < i ==> times[j] < now
    ensures Select(times, now) == times[i]
  {
    var k := FirstAtOrAfter(times, now);
    assert k.Some?;
  }

  /** The result is at or after `now` exactly when some slot is: in that case
      the fallback is not taken, otherwise the fallback lies before `now`. */
  lemma SelectAtOrAfterIff(times: seq<int>, now: int)
    requires |times| > 0
    ensures now <= Select(times, now) <==> exists i :: 0 <= i < |times| && now <= times[i]
  {
    var r := Select(times, now);
    if now <= r {
      var i :| 0 <= i < |times| && times[i] == r;
    }
  }

  /** When every slot lies before `now`, the result is the last slot, and it
      is strictly earlier than `now`. */
  lemma SelectFallback(times: seq<int>, now: int)
    requires |times| > 0
    requires forall i :: 0 <= i < |times| ==> times[i] < now
    ensures Select(times, now) == times[|times| - 1]
    ensures Select(times, now) < now
  {
    assert FirstAtOrAfter(times, now).None?;
  }

  /** In an ascending table no slot lies strictly between `now` and a result
      at or after `now`: the result is the nearest upcoming slot. */
  lemma SelectNearest(times: seq<int>, now: int)
    requires |times| > 0 && StrictlyAscending(times)
    ensures forall t :: t in times && now <= t ==> Select(times, now) <= t
  {
    var k := FirstAtOrAfter(times, now);
    forall t | t in times && now <= t
      ensures Select(times, now) <= t
    {
      var j :| 0 <= j < |times| && times[j] == t;
      assert k.Some?;
    }
  }

  /** The boundary is inclusive: a `now` equal to a slot of an ascending
      table selects that slot. */
  lemma SelectInclusive(times: seq<int>, i: nat)
    requires i < |times| && StrictlyAscending(times)
    ensures Select(times, times[i]) == times[i]
  {
    SelectFirstMatch(times, times[i], i);
  }

  /** Over an ascending table, a later `now` never selects an earlier slot. */
  lemma SelectMonotone(times: seq<int>, now1: int, now2: int)
    requires |times| > 0 && StrictlyAscending(times)
    requires now1 <= now2
    ensures Select(times, now1) <= Select(times, now2)
  {
    var k1, k2 := FirstAtOrAfter(times, now1), FirstAtOrAfter(times, now2);
    var j1 :| 0 <= j1 < |times| && times[j1] == Select(times, now1);
    if k2.Some? {
      assert k1.Some?;
      if k2.value < k1.value {
        assert times[k2.value] < now1;
      }
    }
  }

  /** Every slot moved by `d`. */
  function Shift(times: seq<int>, d: int): (r: seq<int>)
    ensures |r| == |times|
    ensures forall i :: 0 <= i < |times| ==> r[i] == times[i] + d
  {
    if times == [] then [] else [times[0] + d] + Shift(times[1..], d)
  }

  /** Moving the table and `now` by the same amount moves the search result's
      index nowhere. */
  lemma {:induction false} FirstAtOrAfterShift(times: seq<int>, now: int, d: int)
    ensures FirstAtOrAfter(Shift(times, d), now + d) == FirstAtOrAfter(times, now)
  {
    if times != [] {
      assert Shift(times, d)[1..] == Shift(times[1..], d);
      FirstAtOrAfterShift(times[1..], now, d);
    }
  }

  /** The selector depends only on the position of `now` relative to the
      slots: moving both by `d` moves the result by `d`. */
  lemma SelectShift(times: seq<int>, now: int, d: int)
    requires |times| > 0
    ensures Select(Shift(times, d), now + d) == Select(times, now) + d
  {
    FirstAtOrAfterShift(times, now, d);
  }

  // ---------------------------------------------------------------------
  // Properties of the concrete three-slot schedule.

  lemma SlotClockAscending()
    ensures StrictlyAscending(SlotClock)
    ensures forall i :: 0 <= i < |SlotClock| ==> SlotClock[i] < 24 * 60
  {
  }

  /** Today's slots are ascending and all fall on day `day`. */
  lemma SlotsOnAscending(day: int, clock: seq<nat>)
    requires StrictlyAscending(clock)
    requires forall i :: 0 <= i < |clock| ==> clock[i] < 24 * 60
    ensures StrictlyAscending(SlotsOn(day, clock))
    ensures forall i :: 0 <= i < |clock| ==> day * DayMs <= SlotsOn(day, clock)[i] < (day + 1) * DayMs
  {
    var times := SlotsOn(day, clock);
    forall i, j | 0 <= i < j < |clock|
      ensures times[i] < times[j]
    {
      assert times[j] - times[i] == (clock[j] - clock[i]) * MinuteMs;
    }
  }

  /** The complete rule for the three fixed slots, case by case: 07:36 up to
      and including 07:36, then 07:52 up to and including 07:52, then 08:36,
      and 08:36 again once every slot has passed. */
  lemma GetScheduledTimeCases(day: int, now: int)
    ensures now <= At(day, SlotClock[0]) ==> GetScheduledTime(day, now) == At(day, SlotClock[0])
    ensures At(day, SlotClock[0]) < now <= At(day, SlotClock[1]) ==> GetScheduledTime(day, now) == At(day, SlotClock[1])
    ensures At(day, SlotClock[1]) < now ==> GetScheduledTime(day, now) == At(day, SlotClock[2])
  {
    var times := SlotsOn(day, SlotClock);
    assert times == [At(day, SlotClock[0]), At(day, SlotClock[1]), At(day, SlotClock[2])];
    if now <= times[0] {
      SelectFirstMatch(times, now, 0);
    } else if now <= times[1] {
      SelectFirstMatch(times, now, 1);
    } else if now <= times[2] {
      SelectFirstMatch(times, now, 2);
    } else {
      SelectFallback(times, now);
    }
  }

  /** Concrete cases: 07:40 gives 07:52, exactly 07:36 gives 07:36 and 09:00
      gives 08:36, on whatever day the wall clock reports. */
  lemma GetScheduledTimeExamples(day: int)
    ensures GetScheduledTime(day, At(day, ClockTime(7, 40))) == At(day, ClockTime(7, 52))
    ensures GetScheduledTime(day, At(day, ClockTime(7, 36))) == At(day, ClockTime(7, 36))
    ensures GetScheduledTime(day, At(day, ClockTime(9, 0))) == At(day, ClockTime(8, 36))
  {
    GetScheduledTimeCases(day, At(day, ClockTime(7, 40)));
    GetScheduledTimeCases(day, At(day, ClockTime(7, 36)));
    GetScheduledTimeCases(day, At(day, ClockTime(9, 0)));
  }

  /** The slots are anchored to the wall clock's date, not to `now`'s: a `now`
      on an earlier date than `day` gets today's 07:36, and a `now` on a
      later date gets today's 08:36, which lies before `now`. */
  lemma GetScheduledTimeOtherDate(day: int, now: int)
    ensures now < day * DayMs ==> GetScheduledTime(day, now) == At(day, SlotClock[0])
    ensures (day + 1) * DayMs <= now ==>
      GetScheduledTime(day, now) == At(day, SlotClock[2]) && GetScheduledTime(day, now) < now
  {
    GetScheduledTimeCases(day, now);
  }

  /** The result is at or after `now` exactly when `now` is not later than
      the last slot; it is then the nearest of today's slots at or after `now`. */
  lemma GetScheduledTimeNearest(day: int, now: int)
    ensures now <= GetScheduledTime(day, now) <==> now <= At(day, SlotClock[2])
    ensures forall t :: t in SlotsOn(day, SlotClock) && now <= t ==> GetScheduledTime(day, now) <= t
  {
    var times := SlotsOn(day, SlotClock);
    SlotClockAscending();
    SlotsOnAscending(day, SlotClock);
    SelectNearest(times, now);
    SelectAtOrAfterIff(times, now);
    if now <= At(day, SlotClock[2]) {
      assert now <= times[2];
    }
  }

  /** Taking "today" one day later and `now` one day later yields the same
      slot one day later: the result depends only on `now` and today's date. */
  lemma GetScheduledTimeNextDay(day: int, now: int)
    ensures GetScheduledTime(day + 1, now + DayMs) == GetScheduledTime(day, now) + DayMs
  {
    var times := SlotsOn(day, SlotClock);
    assert SlotsOn(day + 1, SlotClock) == Shift(times, DayMs);
    SelectShift(times, now, DayMs);
  }

  /** When every reading reports the same date `day`, the per-reading
      selector is the single-date selector `GetScheduledTime(day, now)`. */
  lemma {:induction false} SlotsOnDaysSameDay(day: int, days: seq<int>, clock: seq<nat>)
    requires |days| == |clock|
    requires forall i :: 0 <= i < |days| ==> days[i] == day
    ensures SlotsOnDays(days, clock) == SlotsOn(day, clock)
  {
    if clock != [] {
      SlotsOnDaysSameDay(day, days[1..], clock[1..]);
    }
  }

  lemma ScheduledTimeSameDay(day: int, now: int)
    ensures ScheduledTimeFromReadings([day, day, day], now) == GetScheduledTime(day, now)
  {
    SlotsOnDaysSameDay(day, [day, day, day], SlotClock);
  }

  /** Readings that straddle midnight: with 07:36 placed on day `d` and the
      later labels on day `d + 1`, a press at the last millisecond of day `d`
      selects 07:52 of day `d + 1`, an instant that the single-date selector
      gives for no date at all. */
  lemma ScheduledTimeMidnightStraddle(d: int, now: int)
    requires now == (d + 1) * DayMs - 1
    ensures ScheduledTimeFromReadings([d, d + 1, d + 1], now) == At(d + 1, SlotClock[1])
    ensures forall day :: GetScheduledTime(day, now) != At(d + 1, SlotClock[1])
  {
    var times := SlotsOnDays([d, d + 1, d + 1], SlotClock);
    SelectFirstMatch(times, now, 1);
    forall day
      ensures GetScheduledTime(day, now) != At(d + 1, SlotClock[1])
    {
      GetScheduledTimeCases(day, now);
    }
  }
}
