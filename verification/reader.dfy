/** `CalendarReader.read_events`: every VEVENT in file order has its start
    normalised and is kept when it is in range and accepted; the kept events
    are then sorted by start. */
module Reader {
  import opened Wrappers
  import opened Civil
  import opened Events
  import opened Sorting

  predicate ValidRaws(raws: seq<RawEvent>) {
    forall i :: 0 <= i < |raws| ==> ValidRawEvent(raws[i])
  }

  predicate AllValid(es: seq<CalendarEvent>) {
    forall i :: 0 <= i < |es| ==> ValidEvent(es[i])
  }

  /** The event a VEVENT with a DTSTART stands for, whether or not it is kept. */
  function Normalize(raw: RawEvent): (e: CalendarEvent)
    requires raw.start.Some? && ValidRawEvent(raw)
    ensures ValidEvent(e)
    ensures e.summary == raw.summary && e.start.date == raw.start.value.date
    ensures e.start.time == if raw.start.value.DateOnly? then Midnight else raw.start.value.time
    ensures e.status == Accepted <==> exists a :: a in VisitedAttendees(raw.attendee) && HasAccepted(a)
  {
    CalendarEvent(raw.summary, NormalizeStart(raw.start.value), AttendeeStatus(raw.attendee))
  }

  /** The retention test: in range and accepted. */
  predicate Admits(sel: Selector, now: Instant, e: CalendarEvent)
    requires ValidSelector(sel)
  {
    InRange(sel, now, Key(e)) == Success(true) && e.status == Accepted
  }

  /** The events of `es` that pass the retention test, in their order. */
  function Retain(sel: Selector, now: Instant, es: seq<CalendarEvent>): (r: seq<CalendarEvent>)
    requires ValidSelector(sel)
    ensures forall e :: e in r <==> e in es && Admits(sel, now, e)
    ensures forall e :: multiset(r)[e] == if Admits(sel, now, e) then multiset(es)[e] else 0
  {
    if es == [] then []
    else
      assert es == [es[0]] + es[1..];
      (if Admits(sel, now, es[0]) then [es[0]] else []) + Retain(sel, now, es[1..])
  }

  function NormalizeAll(raws: seq<RawEvent>): (es: seq<CalendarEvent>)
    requires ValidRaws(raws) && forall i :: 0 <= i < |raws| ==> raws[i].start.Some?
    ensures |es| == |raws| && AllValid(es)
    ensures forall i :: 0 <= i < |raws| ==> es[i] == Normalize(raws[i])
  {
    seq(|raws|, i requires 0 <= i < |raws| => Normalize(raws[i]))
  }

  predicate AllHaveStart(raws: seq<RawEvent>) {
    forall i :: 0 <= i < |raws| ==> raws[i].start.Some?
  }

  /** Reading raises: some VEVENT has no DTSTART, or the trailing window
      overflows (which happens at the first event examined). */
  predicate Fails(raws: seq<RawEvent>, sel: Selector, now: Instant)
    requires ValidSelector(sel)
  {
    !AllHaveStart(raws) || (|raws| > 0 && Overflows(sel, now))
  }

  /** The exception raised first: the first event either has no DTSTART or
      hits the overflow; if the window does not overflow, a later event
      without DTSTART raises. */
  function FirstError(raws: seq<RawEvent>, sel: Selector, now: Instant): Error
    requires ValidSelector(sel) && |raws| > 0
  {
    if raws[0].start.Some? && Overflows(sel, now) then DateOverflow else MissingStart
  }

  /** The loop body for one VEVENT. */
  function ReadOne(raw: RawEvent, sel: Selector, now: Instant): (r: Result<Option<CalendarEvent>, Error>)
    requires ValidRawEvent(raw) && ValidSelector(sel)
    ensures raw.start.None? ==> r == Failure(MissingStart)
    ensures raw.start.Some? ==> (r.Failure? <==> Overflows(sel, now))
    ensures r.Failure? ==> r.error == (if raw.start.None? then MissingStart else DateOverflow)
    ensures r.Success? ==> r.value == (if Admits(sel, now, Normalize(raw)) then Some(Normalize(raw)) else None)
  {
    match raw.start
    case None => Failure(MissingStart)
    case Some(s) =>
      var start := NormalizeStart(s);
      match InRange(sel, now, ToInstant(start))
      case Failure(err) => Failure(err)
      case Success(inRange) =>
        if !inRange then Success(None)
        else
          var status := AttendeeStatus(raw.attendee);
          if status == Accepted then Success(Some(CalendarEvent(raw.summary, start, status)))
          else Success(None)
  }

  /** How failure of the whole loop follows from its first iteration and
      the rest. */
  lemma FailsCons(raws: seq<RawEvent>, sel: Selector, now: Instant)
    requires ValidSelector(sel) && |raws| > 0
    ensures Fails(raws, sel, now) <==>
              raws[0].start.None? || Overflows(sel, now) || Fails(raws[1..], sel, now)
    ensures raws[0].start.Some? && !Overflows(sel, now) && Fails(raws[1..], sel, now) ==>
              FirstError(raws, sel, now) == FirstError(raws[1..], sel, now)
  {
    assert forall i :: 1 <= i < |raws| ==> raws[i] == raws[1..][i - 1];
    if !AllHaveStart(raws) && raws[0].start.Some? {
      var i :| 0 <= i < |raws| && raws[i].start.None?;
      assert raws[1..][i - 1].start.None?;
    }
  }

  /** Retaining the normalised events one VEVENT at a time. */
  lemma RetainNormalizedCons(raws: seq<RawEvent>, sel: Selector, now: Instant)
    requires ValidRaws(raws) && AllHaveStart(raws) && ValidSelector(sel) && |raws| > 0
    ensures ValidRaws(raws[1..]) && AllHaveStart(raws[1..])
    ensures Retain(sel, now, NormalizeAll(raws)) ==
              (if Admits(sel, now, Normalize(raws[0])) then [Normalize(raws[0])] else [])
              + Retain(sel, now, NormalizeAll(raws[1..]))
  {
    assert forall i :: 1 <= i < |raws| ==> raws[i] == raws[1..][i - 1];
    var es := NormalizeAll(raws);
    assert es == [es[0]] + NormalizeAll(raws[1..]);
    RetainCons(sel, now, es[0], NormalizeAll(raws[1..]));
  }

  /** The loop over the VEVENTs in file order, stopping at the first error. */
  function Collect(raws: seq<RawEvent>, sel: Selector, now: Instant): (r: Result<seq<CalendarEvent>, Error>)
    requires ValidRaws(raws) && ValidSelector(sel)
    ensures r.Failure? <==> Fails(raws, sel, now)
    ensures r.Failure? ==> r.error == FirstError(raws, sel, now)
    ensures r.Success? ==> r.value == Retain(sel, now, NormalizeAll(raws))
  {
    if raws == [] then Success([])
    else
      FailsCons(raws, sel, now);
      assert ValidRaws(raws[1..]);
      match ReadOne(raws[0], sel, now)
      case Failure(err) => Failure(err)
      case Success(kept) =>
        match Collect(raws[1..], sel, now)
        case Failure(err) => Failure(err)
        case Success(rest) =>
          RetainNormalizedCons(raws, sel, now);
          Success((if kept.Some? then [kept.value] else []) + rest)
  }

  /** `read_events`: the retained events, sorted by start. */
  function ReadEvents(raws: seq<RawEvent>, sel: Selector, now: Instant): (r: Result<seq<CalendarEvent>, Error>)
    requires ValidRaws(raws) && ValidSelector(sel)
    ensures r.Failure? <==> Fails(raws, sel, now)
    ensures r.Failure? ==> r.error == FirstError(raws, sel, now)
    ensures r.Success? ==> SortedByStart(r.value)
    ensures r.Success? ==> multiset(r.value) == multiset(Retain(sel, now, NormalizeAll(raws)))
    ensures r.Success? ==> forall k :: WithKey(r.value, k) == WithKey(Retain(sel, now, NormalizeAll(raws)), k)
  {
    match Collect(raws, sel, now)
    case Failure(err) => Failure(err)
    case Success(kept) =>
      forall k ensures WithKey(SortByStart(kept), k) == WithKey(kept, k) {
        SortStable(kept, k);
      }
      Success(SortByStart(kept))
  }

  /** An event is returned exactly when some VEVENT normalises to it and it
      is in range and accepted; every returned event is valid, in range and
      carries status "ACCEPTED". */
  lemma ReadEventsMembers(raws: seq<RawEvent>, sel: Selector, now: Instant, e: CalendarEvent)
    requires ValidRaws(raws) && ValidSelector(sel)
    requires ReadEvents(raws, sel, now).Success?
    ensures e in ReadEvents(raws, sel, now).value <==>
              exists i :: 0 <= i < |raws| && Normalize(raws[i]) == e && Admits(sel, now, e)
    ensures e in ReadEvents(raws, sel, now).value ==>
              ValidEvent(e) && e.status == Accepted && InRange(sel, now, Key(e)) == Success(true)
  {
    var r := ReadEvents(raws, sel, now).value;
    var es := NormalizeAll(raws);
    assert e in r <==> e in multiset(r);
    assert e in Retain(sel, now, es) <==> e in multiset(Retain(sel, now, es));
    if e in r {
      var i :| 0 <= i < |es| && es[i] == e;
    }
  }

  lemma RetainCons(sel: Selector, now: Instant, x: CalendarEvent, es: seq<CalendarEvent>)
    requires ValidSelector(sel)
    ensures Retain(sel, now, [x] + es) == (if Admits(sel, now, x) then [x] else []) + Retain(sel, now, es)
  {
    assert ([x] + es)[1..] == es;
  }

  /** Retaining twice retains the same events as retaining once. */
  lemma {:induction false} RetainIdempotent(sel: Selector, now: Instant, es: seq<CalendarEvent>)
    requires ValidSelector(sel)
    ensures Retain(sel, now, Retain(sel, now, es)) == Retain(sel, now, es)
  {
    if es != [] {
      RetainIdempotent(sel, now, es[1..]);
      var rest := Retain(sel, now, es[1..]);
      if Admits(sel, now, es[0]) {
        assert Retain(sel, now, es) == [es[0]] + rest;
        RetainCons(sel, now, es[0], rest);
      } else {
        assert Retain(sel, now, es) == rest;
      }
    }
  }

  /** Filtering the returned events again keeps all of them. */
  lemma {:induction false} RetainResult(raws: seq<RawEvent>, sel: Selector, now: Instant)
    requires ValidRaws(raws) && ValidSelector(sel)
    requires ReadEvents(raws, sel, now).Success?
    ensures Retain(sel, now, ReadEvents(raws, sel, now).value) == ReadEvents(raws, sel, now).value
  {
    var r := ReadEvents(raws, sel, now).value;
    forall i | 0 <= i < |r|
      ensures Admits(sel, now, r[i])
    {
      ReadEventsMembers(raws, sel, now, r[i]);
    }
    RetainAll(sel, now, r);
  }

  lemma {:induction false} RetainAll(sel: Selector, now: Instant, es: seq<CalendarEvent>)
    requires ValidSelector(sel)
    requires forall i :: 0 <= i < |es| ==> Admits(sel, now, es[i])
    ensures Retain(sel, now, es) == es
  {
    if es != [] {
      assert Admits(sel, now, es[0]);
      RetainAll(sel, now, es[1..]);
      assert es == [es[0]] + es[1..];
      RetainCons(sel, now, es[0], es[1..]);
    }
  }
}
