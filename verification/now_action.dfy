/** The record the "now" button stores: the instant of the press paired with
    the slot the selector computes for it (app.js, click handler and
    `addTimestamp`). Writing the record to the browser's store is not part of
    this model; only the record's contents are. */
module NowAction {

  import opened Schedule

  datatype TimestampRecord = TimestampRecord(timestamp: int, scheduledTime: int)

  /** A record whose scheduled time is the selector's answer for its own
      timestamp, with the slots placed on day `day`. */
  predicate ScheduledFor(rec: TimestampRecord, day: int) {
    rec.scheduledTime == GetScheduledTime(day, rec.timestamp)
  }

  /** The record built for a press at `now` while the wall clock reads day `day`. */
  function RecordNow(day: int, now: int): (rec: TimestampRecord)
    ensures rec.timestamp == now && ScheduledFor(rec, day)
    ensures day * DayMs <= rec.scheduledTime < (day + 1) * DayMs
    ensures rec.timestamp <= rec.scheduledTime <==> now <= At(day, SlotClock[2])
  {
    GetScheduledTimeNearest(day, now);
    TimestampRecord(now, GetScheduledTime(day, now))
  }
}
