# Calendar meeting summary, modelled in Dafny

This project models `omnimat.py`, a small batch tool. It reads the VEVENT
entries of an iCalendar file and normalises each DTSTART to a UTC date-time.
It keeps the events whose start lies in the requested date range and whose
attendee list contains an acceptance. It sorts the kept events by start
(stably) and prints one line per event:
`project meeting: {summary}_{DD.MM.YYYY};`. The lines are joined by a space
and a newline.

Modules, one per stage of the program:

- `Wrappers`: `Option` (Python's `None`) and `Result` (a value, or the
  exception that stops the run).
- `Civil`: proleptic Gregorian dates and times and the UTC instant they
  denote. An instant counts microseconds from 0001-01-01T00:00, the range
  of Python's `datetime`. The lemmas show that comparing instants compares
  the fields chronologically, and that equal instants mean equal fields.
  So sorting and range tests on instants agree with the date-times the
  program compares.
- `Events`: the raw VEVENT record, the `CalendarEvent` value with its
  equality and hash tuple, start normalisation, attendee status, and the
  date-range test with its three modes.
- `Sorting`: the stable sort by start, as an insertion sort. It is proved
  sorted, a permutation, and stable: the events with any one start keep
  their order. It is also proved to be the only arrangement with those
  properties.
- `Reader`: `read_events`. It covers the loop over the VEVENTs in file
  order, the exceptions it can raise, the retention test and the final
  sort.
- `Printer`: `print_events`. It covers the zero-padded date, the line
  template, the `" \n"` join, and decoders showing that lines, summaries
  and dates can be read back.
- `Pipeline`: `main` without its command line, plus five worked examples
  as lemmas.

Inputs the program reads from its environment are parameters. The parsed
VEVENTs are a `seq<RawEvent>` in file order. The current time is one
`now: Instant`. The explicit range bounds are already-parsed `Date`s.

Two exceptions of the source are modelled as `Result` failures.
`component.get("dtstart").dt` on a VEVENT without DTSTART is `MissingStart`.
`now - timedelta(days=N)` leaving the years 1 to 9999 is `DateOverflow`.
The model also keeps these behaviours of the source:

- A single ATTENDEE value whose address is empty is falsy, so the event is
  "DECLINED".
- A missing SUMMARY is printed as `None`.
- A negative day count gives an empty window.
- A day count of 0 disables date filtering.
- A single explicit date is ignored. Without a non-zero day count, it
  leaves the dates unfiltered.
- An explicit end date stands for its own midnight. An event later that
  day is outside the interval (`Events.IntervalByDate`).

## Model

| member | source | states |
|---|---|---|
| `Civil.InstantOrder` | omnimat.py:97 | for valid UTC date-times, the sort key order (instants) is chronological field order, and equal instants mean equal fields |
| `Events.EventEqIsEquality` | omnimat.py:32-39 | on valid events, `__eq__` (same summary, same start instant, same status) holds exactly when the two events are the same value |
| `Events.HashConsistent` | omnimat.py:41-42 | two valid events have the same hashed tuple `(summary, start instant, status)` exactly when they are the same value, so equal events hash alike |
| `Events.NormalizeStart` | omnimat.py:80-87 | the normalised start is a valid UTC date-time on the same calendar date; a date-only start lands on midnight (instant divisible by a day), a date-time keeps its time of day |
| `Events.FirstAcceptance` | omnimat.py:115-120 | the early-exit loop over attendees yields "ACCEPTED" iff some attendee has params whose PARTSTAT is exactly "ACCEPTED" |
| `Events.AttendeeStatus` | omnimat.py:109-121 | "ACCEPTED" iff some visited attendee accepts; "DECLINED" when the property is absent or an empty list; a single value counts as a one-element list, and only when its address is non-empty |
| `Events.ModeOf` | omnimat.py:101-107 | the interval applies iff both dates are given, as their midnights; otherwise the window applies iff a non-zero day count is given; otherwise nothing is filtered |
| `Events.WindowStart` | omnimat.py:104-105 | the window start is `now` minus the day count in days, and exists exactly when it is a valid `datetime` (otherwise OverflowError) |
| `Events.InRange` | omnimat.py:99-107 | interval: `lo <= t <= hi`; window: `now - N days <= t <= now`; unbounded: true; fails with DateOverflow exactly when the window start overflows |
| `Events.IntervalByDate` | omnimat.py:101-102 | with both dates given, a start is in range iff its date is from the start date up to the day before the end date, or it is exactly midnight on the end date |
| `Sorting.Insert` | omnimat.py:97 | inserting into a sorted sequence yields a sorted sequence with exactly one more occurrence of the inserted event |
| `Sorting.SortByStart` | omnimat.py:97 | the result is non-decreasing by start instant and a permutation of the input |
| `Sorting.InsertStable` | omnimat.py:97 | insertion puts the event ahead of all events with its start and leaves the order of every equal-start group unchanged |
| `Sorting.SortStable` | omnimat.py:97 | for every instant, the events starting then appear in the same relative order before and after sorting |
| `Sorting.StableSortUnique` | omnimat.py:97 | two sorted sequences with the same equal-start subsequences are identical |
| `Sorting.StableSortCharacterised` | omnimat.py:97 | any sorted arrangement that keeps every equal-start subsequence of the input is exactly the sort's result |
| `Reader.Normalize` | omnimat.py:79-95 | the event built from a VEVENT keeps its summary and start date, starts at midnight when DTSTART is a date and at DTSTART's time of day otherwise, and has status "ACCEPTED" iff an attendee accepts |
| `Reader.Retain` | omnimat.py:88-96 | an event is kept iff it occurs in the input and is in range and accepted, and a kept event occurs exactly as often as in the input (every admitted occurrence is appended) |
| `Reader.ReadOne` | omnimat.py:79-96 | one loop iteration: MissingStart without DTSTART, DateOverflow exactly when the window overflows, otherwise the normalised event when it is in range and accepted and nothing else |
| `Reader.FailsCons` | omnimat.py:77-96 | the loop fails iff its first iteration fails or the rest fails, and a failure after a successful first iteration is the rest's failure |
| `Reader.RetainNormalizedCons` | omnimat.py:88-96 | the retained events of a file are the first VEVENT's event when retained, followed by the retained events of the rest |
| `Reader.Collect` | omnimat.py:74-96 | the loop fails iff some VEVENT lacks DTSTART or (there is a VEVENT and) the window overflows, with the first exception raised; otherwise it returns the retained events in file order |
| `Reader.ReadEvents` | omnimat.py:72-97 | `read_events` fails exactly as the loop does; otherwise its result is sorted by start, a permutation of the retained events, and keeps file order among equal starts |
| `Reader.ReadEventsMembers` | omnimat.py:88-96 | an event is returned iff some VEVENT normalises to it and it is in range and accepted; every returned event has status "ACCEPTED" and is in range |
| `Reader.RetainCons` | omnimat.py:88-90 | retaining from a sequence with a given head keeps that head iff it passes, followed by what is retained from the tail |
| `Reader.RetainIdempotent` | omnimat.py:88-90 | filtering twice retains the same events as filtering once |
| `Reader.RetainResult` | omnimat.py:88-97 | filtering the returned events again keeps every one of them |
| `Reader.RetainAll` | omnimat.py:88-90 | a sequence whose events all pass the filter is retained unchanged |
| `Printer.Digits` | omnimat.py:131 | a field renders as exactly `width` decimal digits |
| `Printer.DigitsRoundTrip` | omnimat.py:131 | a number below `10^width` is read back from its zero-padded rendering |
| `Printer.FormatDate` | omnimat.py:131 | `%d.%m.%Y` renders as ten characters with dots at positions 2 and 5 |
| `Printer.FormatEvent` | omnimat.py:131 | a line is the prefix, the summary text (`SummaryText`: `None` when SUMMARY is missing, as the f-string renders it) and the twelve characters `_DD.MM.YYYY;` |
| `Printer.FormatEventRoundTrip` | omnimat.py:131 | every formatted line parses back into the event's summary text and start date (day and month two digits, year four) |
| `Printer.FormatEventNewlines` | omnimat.py:131 | a formatted line contains a newline iff its summary does |
| `Printer.Join` | omnimat.py:134 | joining no lines gives the empty text, one line gives that line |
| `Printer.JoinLength` | omnimat.py:134 | the joined text has the lines' total length plus n-1 separators |
| `Printer.JoinSnoc` | omnimat.py:134 | joining one more line appends exactly one separator and that line, with no trailing separator |
| `Printer.SplitNoNewline` | omnimat.py:134 | text without a newline splits into itself alone |
| `Printer.SplitAfter` | omnimat.py:134 | text before the first newline becomes the first piece of the split |
| `Printer.JoinRoundTrip` | omnimat.py:134 | lines without newlines are recovered exactly, in order, from their `" \n"` join |
| `Printer.PrintEvents` | omnimat.py:130-134 | the output is empty iff there are no events |
| `Printer.PrintSingleEvent` | omnimat.py:130-134 | one event prints as exactly its line, which parses back to its summary and date |
| `Printer.PrintEventsRoundTrip` | omnimat.py:130-134 | when no summary contains a newline, the output splits into one line per event in input order, each parsing back to that event's summary and date |
| `Pipeline.Run` | omnimat.py:137-146 | a run fails exactly when reading fails, with the same exception, and otherwise prints the empty text iff no event is retained |
| `Pipeline.ScenarioAccepted` | omnimat.py:72-134 | one accepted all-day event on 2024-01-10 named Sync, unfiltered, prints `project meeting: Sync_10.01.2024;` |
| `Pipeline.ScenarioDeclined` | omnimat.py:109-121 | the same event with PARTSTAT=DECLINED prints nothing |
| `Pipeline.ScenarioOrdered` | omnimat.py:97 | accepted events on 2024-01-05 and 2024-01-01 print the 01.01 line first, joined by `" \n"` |
| `Pipeline.ScenarioWindow` | omnimat.py:103-106 | with a 7-day window, an accepted event 30 days before `now` is left out |
| `Pipeline.ScenarioInterval` | omnimat.py:101-102 | with the interval 01.01.2024 to 31.01.2024, an accepted event on 01.02.2024 is left out |

## Left out

- Opening the file and parsing it with `Calendar.from_ical` / `walk()` (omnimat.py:75-78). This is I/O and a third-party library. Its output is a `seq<RawEvent>` of the VEVENT components in walk order. The parser's own errors, and other component types, are not modelled.
- `strptime` parsing of `DD_MM_YYYY` arguments (omnimat.py:57-70). This is library parsing. The bounds are given as valid `Date`s, an absent or empty argument as `None`.
- `datetime.now(timezone.utc)` (omnimat.py:104) is nondeterministic. It is the parameter `now`. The source reads the clock once per event it checks; the model uses one reading for every event. With a clock that advances during a run, an event right at the window's edge could be judged against a slightly later time.
- DTSTART values with a timezone other than UTC. Comparing them would need the timezone database, and `strftime` would render their local date. Only date-only, floating and UTC starts are modelled.
- The command line, usage messages, the integer check and `sys.exit` (omnimat.py:149-166), `print` with its trailing newline (omnimat.py:134), and `__str__` (omnimat.py:30). This is process and I/O plumbing. `Printer.PrintEvents` is the text before `print` adds its newline.
- `Events.HashConsistent`: models the hash as the tuple that is hashed, not Python's hash function on it. Equal tuples hash alike in Python; the numeric hash value itself is not modelled.
- `Printer.FormatDate`: renders the year as four zero-padded digits. Some older Python builds on glibc print years below 1000 without padding.
- Attendee parameter keys: icalendar looks them up case-insensitively. The model takes the key as normalised to upper case by the parser (`"PARTSTAT"`).
