/** Calendar events: the raw records the iCalendar parser hands over, their
    normalisation into `CalendarEvent` values, the attendee-acceptance status
    and the date-range test (omnimat.py, classes `CalendarEvent` and
    `CalendarReader`). */
module Events {
  import opened Wrappers
  import opened Civil

  /** One ATTENDEE value: its calendar address and, when the value carries
      them, its parameters (keys as the parser normalises them, e.g. "PARTSTAT"). */
  datatype Attendee = Attendee(address: string, params: Option<map<string, string>>)

  /** The ATTENDEE property of an event as the parser returns it: absent, a
      single value, or a list of values. */
  datatype AttendeeField =
    | NoAttendee
    | OneAttendee(attendee: Attendee)
    | AttendeeList(attendees: seq<Attendee>)

  /** A DTSTART with a time of day is either floating (no zone) or UTC. */
  datatype Zone = Floating | Utc

  /** DTSTART as parsed: a date alone, or a date with a time of day. */
  datatype RawStart =
    | DateOnly(date: Date)
    | DateAndTime(date: Date, time: Time, zone: Zone)

  /** One VEVENT component: SUMMARY and DTSTART may be missing. */
  datatype RawEvent = RawEvent(summary: Option<string>, start: Option<RawStart>, attendee: AttendeeField)

  datatype Status = Accepted | Declined

  /** An event as the reader produces it; its start is a UTC date-time. */
  datatype CalendarEvent = CalendarEvent(summary: Option<string>, start: DateTime, status: Status)

  /** The exceptions reading can raise: `.dt` on a missing DTSTART, and a
      trailing window reaching outside the years 1 to 9999. */
  datatype Error = MissingStart | DateOverflow

  /** The reader's configuration: a day count and the two explicit dates,
      each optional. */
  datatype Selector = Selector(daysBefore: Option<int>, startDate: Option<Date>, endDate: Option<Date>)

  /** The date-range mode a selector activates. */
  datatype Mode = Interval(lo: Instant, hi: Instant) | Window(days: int) | Unbounded

  predicate ValidRawStart(s: RawStart) {
    match s
    case DateOnly(d) => ValidDate(d)
    case DateAndTime(d, t, _) => ValidDateTime(DateTime(d, t))
  }

  predicate ValidRawEvent(r: RawEvent) {
    r.start.Some? ==> ValidRawStart(r.start.value)
  }

  predicate ValidSelector(sel: Selector) {
    && (sel.startDate.Some? ==> ValidDate(sel.startDate.value))
    && (sel.endDate.Some? ==> ValidDate(sel.endDate.value))
  }

  predicate ValidEvent(e: CalendarEvent) {
    ValidDateTime(e.start)
  }

  // ---------------------------------------------------------------------
  // Equality and hashing

  /** Value equality as `CalendarEvent.__eq__` defines it: same summary,
      same start instant, same status. */
  predicate EventEq(a: CalendarEvent, b: CalendarEvent) {
    a.summary == b.summary && ToInstant(a.start) == ToInstant(b.start) && a.status == b.status
  }

  /** On valid events, `__eq__` is exactly structural equality: equal start
      instants mean equal start fields. */
  lemma EventEqIsEquality(a: CalendarEvent, b: CalendarEvent)
    requires ValidEvent(a) && ValidEvent(b)
    ensures EventEq(a, b) <==> a == b
  {
    InstantOrder(a.start, b.start);
  }

  /** The tuple `CalendarEvent.__hash__` hashes; the hash is a function of it. */
  function HashKey(e: CalendarEvent): (Option<string>, Instant, Status) {
    (e.summary, ToInstant(e.start), e.status)
  }

  /** Valid events have the same hashed tuple exactly when they are the
      same value, so equal events hash alike. */
  lemma HashConsistent(a: CalendarEvent, b: CalendarEvent)
    requires ValidEvent(a) && ValidEvent(b)
    ensures HashKey(a) == HashKey(b) <==> a == b
  {
    InstantOrder(a.start, b.start);
  }

  // ---------------------------------------------------------------------
  // Start-time normalisation

  /** A date alone becomes midnight UTC of that date; a date-time without a
      zone is declared UTC with its fields unchanged. */
  function NormalizeStart(s: RawStart): (r: DateTime)
    requires ValidRawStart(s)
    ensures ValidDateTime(r)
    ensures r.date == s.date
    ensures ToInstant(r) / MicrosPerDay == Ordinal(s.date) - 1
    ensures s.DateOnly? ==> ToInstant(r) % MicrosPerDay == 0
    ensures s.DateAndTime? ==> ToInstant(r) % MicrosPerDay == TimeMicros(s.time)
  {
    var r := match s
      case DateOnly(d) => DateTime(d, Midnight)
      case DateAndTime(d, t, _) => DateTime(d, t);
    InstantSplit(r);
    r
  }

  // ---------------------------------------------------------------------
  // Attendee status

  /** An attendee accepts when it carries parameters whose PARTSTAT is
      exactly "ACCEPTED". */
  predicate HasAccepted(a: Attendee) {
    a.params.Some? && "PARTSTAT" in a.params.value && a.params.value["PARTSTAT"] == "ACCEPTED"
  }

  /** The attendees the status loop visits: nothing when the property is
      absent or falsy (an empty list, or a single value with an empty
      address), a single value as a one-element list. */
  function VisitedAttendees(f: AttendeeField): seq<Attendee> {
    match f
    case NoAttendee => []
    case OneAttendee(a) => if a.address == [] then [] else [a]
    case AttendeeList(xs) => xs
  }

  /** The loop over the attendees: stops at the first one that accepts. */
  function FirstAcceptance(xs: seq<Attendee>): (r: Status)
    ensures r == Accepted <==> exists i :: 0 <= i < |xs| && HasAccepted(xs[i])
  {
    if xs == [] then Declined
    else if HasAccepted(xs[0]) then Accepted
    else
      var r := FirstAcceptance(xs[1..]);
      assert forall i :: 1 <= i < |xs| ==> xs[i] == xs[1..][i - 1];
      r
  }

  /** "ACCEPTED" exactly when some visited attendee accepts, "DECLINED"
      otherwise. */
  function AttendeeStatus(f: AttendeeField): (r: Status)
    ensures r == Accepted <==> exists a :: a in VisitedAttendees(f) && HasAccepted(a)
    ensures f.NoAttendee? || f == AttendeeList([]) ==> r == Declined
    ensures f.OneAttendee? ==> (r == Accepted <==> f.attendee.address != [] && HasAccepted(f.attendee))
  {
    FirstAcceptance(VisitedAttendees(f))
  }

  // ---------------------------------------------------------------------
  // Date range

  /** The mode a selector activates: the interval when both dates are
      given, the window when the day count is given and non-zero, and
      otherwise no date filtering at all. */
  function ModeOf(sel: Selector): (m: Mode)
    requires ValidSelector(sel)
    ensures m.Interval? <==> sel.startDate.Some? && sel.endDate.Some?
    ensures m.Window? <==> !m.Interval? && sel.daysBefore.Some? && sel.daysBefore.value != 0
    ensures m.Interval? ==> (m.lo == ToInstant(DateTime(sel.startDate.value, Midnight))
                             && m.hi == ToInstant(DateTime(sel.endDate.value, Midnight)))
    ensures m.Window? ==> m.days == sel.daysBefore.value
  {
    if sel.startDate.Some? && sel.endDate.Some? then
      Interval(ToInstant(DateTime(sel.startDate.value, Midnight)),
               ToInstant(DateTime(sel.endDate.value, Midnight)))
    else if sel.daysBefore.Some? && sel.daysBefore.value != 0 then
      Window(sel.daysBefore.value)
    else
      Unbounded
  }

  /** `now - timedelta(days=days)`, or `None` where Python raises
      OverflowError because the result falls outside the years 1 to 9999
      (which also covers every day count beyond timedelta's own limit). */
  function WindowStart(now: Instant, days: int): (r: Option<Instant>)
    ensures r.Some? <==> ValidInstant(now - days * MicrosPerDay)
    ensures r.Some? ==> r.value + days * MicrosPerDay == now
  {
    var t := now - days * MicrosPerDay;
    if ValidInstant(t) then Some(t) else None
  }

  /** The selector's mode raises for this `now`. */
  predicate Overflows(sel: Selector, now: Instant)
    requires ValidSelector(sel)
  {
    ModeOf(sel).Window? && WindowStart(now, ModeOf(sel).days).None?
  }

  /** `_is_event_in_range`: inclusive at both ends in either bounded mode. */
  function InRange(sel: Selector, now: Instant, t: Instant): (r: Result<bool, Error>)
    requires ValidSelector(sel)
    ensures r.Failure? <==> Overflows(sel, now)
    ensures r.Failure? ==> r.error == DateOverflow
    ensures r.Success? && ModeOf(sel).Unbounded? ==> r.value
    ensures r.Success? && ModeOf(sel).Interval? ==>
              (r.value <==> ModeOf(sel).lo <= t <= ModeOf(sel).hi)
    ensures r.Success? && ModeOf(sel).Window? ==>
              (r.value <==> now - ModeOf(sel).days * MicrosPerDay <= t <= now)
  {
    match ModeOf(sel)
    case Interval(lo, hi) => Success(lo <= t <= hi)
    case Window(days) =>
      (match WindowStart(now, days)
       case None => Failure(DateOverflow)
       case Some(daysAgo) => Success(daysAgo <= t <= now))
    case Unbounded => Success(true)
  }

  /** With both dates given, an event is in range exactly when its date lies
      from the start date up to the day before the end date, or it starts at
      midnight of the end date: the end date stands for its own midnight, so
      later times on that day are outside. */
  lemma IntervalByDate(sel: Selector, now: Instant, dt: DateTime)
    requires ValidSelector(sel) && ValidDateTime(dt)
    requires sel.startDate.Some? && sel.endDate.Some?
    ensures InRange(sel, now, ToInstant(dt)) == Success(
              && !DateBefore(dt.date, sel.startDate.value)
              && (DateBefore(dt.date, sel.endDate.value)
                  || (dt.date == sel.endDate.value && dt.time == Midnight)))
  {
    var lo := DateTime(sel.startDate.value, Midnight);
    var hi := DateTime(sel.endDate.value, Midnight);
    InstantOrder(lo, dt);
    InstantOrder(dt, hi);
  }
}
