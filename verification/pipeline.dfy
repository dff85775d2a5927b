/** `main` without its command line: read the events, then print them; and
    five worked examples of whole runs. */
module Pipeline {
  import opened Wrappers
  import opened Civil
  import opened Events
  import opened Sorting
  import opened Reader
  import opened Printer

  /** Every returned event is valid, and none is returned exactly when none
      is retained. */
  lemma ReadEventsShape(raws: seq<RawEvent>, sel: Selector, now: Instant)
    requires ValidRaws(raws) && ValidSelector(sel)
    requires ReadEvents(raws, sel, now).Success?
    ensures forall i :: 0 <= i < |ReadEvents(raws, sel, now).value| ==> ValidEvent(ReadEvents(raws, sel, now).value[i])
    ensures ReadEvents(raws, sel, now).value == [] <==> Retain(sel, now, NormalizeAll(raws)) == []
  {
    var events := ReadEvents(raws, sel, now).value;
    forall i | 0 <= i < |events| ensures ValidEvent(events[i]) {
      ReadEventsMembers(raws, sel, now, events[i]);
    }
    assert |events| == |multiset(events)| == |multiset(Retain(sel, now, NormalizeAll(raws)))|;
  }

  /** The text written for a calendar, or the exception that stops the run
      before anything is printed; nothing but the empty text is written when
      no event is retained. */
  function Run(raws: seq<RawEvent>, sel: Selector, now: Instant): (r: Result<string, Error>)
    requires ValidRaws(raws) && ValidSelector(sel)
    ensures r.Failure? <==> Fails(raws, sel, now)
    ensures r.Failure? ==> r.error == FirstError(raws, sel, now)
    ensures r.Success? ==> (r.value == "" <==> Retain(sel, now, NormalizeAll(raws)) == [])
  {
    match ReadEvents(raws, sel, now)
    case Failure(err) => Failure(err)
    case Success(events) =>
      ReadEventsShape(raws, sel, now);
      Success(PrintEvents(events))
  }

  const Everything := Selector(None, None, None)

  function Accepting(): AttendeeField {
    OneAttendee(Attendee("mailto:a@example.com", Some(map["PARTSTAT" := "ACCEPTED"])))
  }

  function Declining(): AttendeeField {
    OneAttendee(Attendee("mailto:a@example.com", Some(map["PARTSTAT" := "DECLINED"])))
  }

  function DayEvent(summary: string, d: Date, attendee: AttendeeField): RawEvent {
    RawEvent(Some(summary), Some(DateOnly(d)), attendee)
  }

  /** The date fields render zero-padded. */
  lemma FormatDateExamples()
    ensures FormatDate(Date(2024, 1, 10)) == "10.01.2024"
    ensures FormatDate(Date(2024, 1, 1)) == "01.01.2024"
    ensures FormatDate(Date(2024, 1, 5)) == "05.01.2024"
  {
    assert Digits(10, 2) == "10";
    assert Digits(1, 2) == "01";
    assert Digits(5, 2) == "05";
    assert Digits(2024, 4) == "2024";
  }

  lemma ReadAccepted(raws: seq<RawEvent>, now: Instant)
    requires ValidRaws(raws) && AllHaveStart(raws)
    requires forall i :: 0 <= i < |raws| ==> Normalize(raws[i]).status == Accepted
    ensures ReadEvents(raws, Everything, now) == Success(SortByStart(NormalizeAll(raws)))
  {
    var es := NormalizeAll(raws);
    RetainAll(Everything, now, es);
  }

  function AcceptedDay(summary: string, d: Date): CalendarEvent {
    CalendarEvent(Some(summary), DateTime(d, Midnight), Accepted)
  }

  lemma FormatExamples()
    ensures FormatEvent(AcceptedDay("Sync", Date(2024, 1, 10))) == "project meeting: Sync_10.01.2024;"
    ensures FormatEvent(AcceptedDay("A", Date(2024, 1, 1))) == "project meeting: A_01.01.2024;"
    ensures FormatEvent(AcceptedDay("B", Date(2024, 1, 5))) == "project meeting: B_05.01.2024;"
  {
    FormatDateExamples();
  }

  lemma PrintTwo(x: CalendarEvent, y: CalendarEvent)
    requires ValidEvent(x) && ValidEvent(y)
    ensures PrintEvents([x, y]) == FormatEvent(x) + Separator + FormatEvent(y)
  {
    assert FormatAll([x, y])[1..] == [FormatEvent(y)];
  }

  /** One accepted all-day event, no date filtering. */
  lemma ScenarioAccepted(now: Instant)
    ensures Run([DayEvent("Sync", Date(2024, 1, 10), Accepting())], Everything, now)
            == Success("project meeting: Sync_10.01.2024;")
  {
    var raw := DayEvent("Sync", Date(2024, 1, 10), Accepting());
    var e := Normalize(raw);
    assert e == AcceptedDay("Sync", Date(2024, 1, 10));
    ReadAccepted([raw], now);
    assert NormalizeAll([raw]) == [e];
    assert SortByStart([e]) == [e];
    FormatExamples();
    assert PrintEvents([e]) == FormatEvent(e);
  }

  /** The same event declined prints nothing. */
  lemma ScenarioDeclined(now: Instant)
    ensures Run([DayEvent("Sync", Date(2024, 1, 10), Declining())], Everything, now) == Success("")
  {
    var raw := DayEvent("Sync", Date(2024, 1, 10), Declining());
    assert ReadOne(raw, Everything, now) == Success(None);
    assert Collect([raw], Everything, now) == Success([]);
  }

  lemma NormalizeDay(summary: string, d: Date)
    requires ValidDate(d)
    ensures ValidRawEvent(DayEvent(summary, d, Accepting()))
    ensures Normalize(DayEvent(summary, d, Accepting())) == AcceptedDay(summary, d)
  {
    assert HasAccepted(Accepting().attendee);
  }

  lemma SortTwo(x: CalendarEvent, y: CalendarEvent)
    requires ValidEvent(x) && ValidEvent(y) && Before(y.start, x.start)
    ensures SortByStart([x, y]) == [y, x]
  {
    InstantOrder(y.start, x.start);
    assert [x, y][1..] == [y];
    assert SortByStart([y]) == [y];
    assert Insert(x, [y]) == [y, x];
  }

  lemma RunTwo(now: Instant)
    ensures Run([DayEvent("B", Date(2024, 1, 5), Accepting()), DayEvent("A", Date(2024, 1, 1), Accepting())],
                Everything, now)
            == Success(PrintEvents([AcceptedDay("A", Date(2024, 1, 1)), AcceptedDay("B", Date(2024, 1, 5))]))
  {
    ReadTwo(now);
  }

  /** Two accepted events, the second earlier, come out swapped. */
  lemma ReadPair(b: RawEvent, a: RawEvent, now: Instant)
    requires ValidRawEvent(b) && ValidRawEvent(a) && b.start.Some? && a.start.Some?
    requires Normalize(b).status == Accepted && Normalize(a).status == Accepted
    requires Before(Normalize(a).start, Normalize(b).start)
    ensures ReadEvents([b, a], Everything, now) == Success([Normalize(a), Normalize(b)])
  {
    ReadAccepted([b, a], now);
    assert NormalizeAll([b, a]) == [Normalize(b), Normalize(a)];
    SortTwo(Normalize(b), Normalize(a));
  }

  lemma ReadTwo(now: Instant)
    ensures ReadEvents([DayEvent("B", Date(2024, 1, 5), Accepting()), DayEvent("A", Date(2024, 1, 1), Accepting())],
                       Everything, now)
            == Success([AcceptedDay("A", Date(2024, 1, 1)), AcceptedDay("B", Date(2024, 1, 5))])
  {
    NormalizeDay("A", Date(2024, 1, 1));
    NormalizeDay("B", Date(2024, 1, 5));
    ReadPair(DayEvent("B", Date(2024, 1, 5), Accepting()), DayEvent("A", Date(2024, 1, 1), Accepting()), now);
  }

  /** Two accepted events come out earliest first. */
  lemma ScenarioOrdered(now: Instant)
    ensures Run([DayEvent("B", Date(2024, 1, 5), Accepting()), DayEvent("A", Date(2024, 1, 1), Accepting())],
                Everything, now)
            == Success("project meeting: A_01.01.2024;" + " \n" + "project meeting: B_05.01.2024;")
  {
    var ea, eb := AcceptedDay("A", Date(2024, 1, 1)), AcceptedDay("B", Date(2024, 1, 5));
    RunTwo(now);
    PrintTwo(ea, eb);
    FormatExamples();
  }

  /** With a seven-day window, an accepted event thirty days back is left out. */
  lemma ScenarioWindow()
    ensures Run([DayEvent("Old", Date(2024, 1, 1), Accepting())],
                Selector(Some(7), None, None),
                ToInstant(DateTime(Date(2024, 1, 31), Midnight)))
            == Success("")
  {
    var raw := DayEvent("Old", Date(2024, 1, 1), Accepting());
    var now := ToInstant(DateTime(Date(2024, 1, 31), Midnight));
    EndpointInstants();
    assert ReadOne(raw, Selector(Some(7), None, None), now) == Success(None);
    assert Collect([raw], Selector(Some(7), None, None), now) == Success([]);
  }

  /** With the interval 01.01.2024 to 31.01.2024, an accepted event on
      01.02.2024 is left out. */
  lemma ScenarioInterval(now: Instant)
    ensures Run([DayEvent("Late", Date(2024, 2, 1), Accepting())],
                Selector(None, Some(Date(2024, 1, 1)), Some(Date(2024, 1, 31))), now)
            == Success("")
  {
    var sel := Selector(None, Some(Date(2024, 1, 1)), Some(Date(2024, 1, 31)));
    var raw := DayEvent("Late", Date(2024, 2, 1), Accepting());
    assert ReadOne(raw, sel, now) == Success(None);
    assert Collect([raw], sel, now) == Success([]);
  }
}
