/** `CalendarPrinter.print_events`: each event becomes the line
    `project meeting: {summary}_{DD.MM.YYYY};` and the lines are joined by a
    space followed by a newline. */
module Printer {
  import opened Wrappers
  import opened Civil
  import opened Events

  const Prefix := "project meeting: "
  const Separator := " \n"

  function Pow10(n: nat): nat {
    if n == 0 then 1 else 10 * Pow10(n - 1)
  }

  predicate IsDigit(c: char) {
    '0' <= c <= '9'
  }

  /** The decimal value of a string of digits. */
  function DigitsValue(s: string): nat
    requires forall i :: 0 <= i < |s| ==> IsDigit(s[i])
  {
    if s == [] then 0
    else
      assert IsDigit(s[|s| - 1]);
      DigitsValue(s[..|s| - 1]) * 10 + (s[|s| - 1] as int - '0' as int)
  }

  /** The last `width` decimal digits of `n`, zero-padded on the left, as
      `strftime` renders `%d`, `%m` (width 2) and `%Y` (width 4). */
  function Digits(n: nat, width: nat): (r: string)
    ensures |r| == width
    ensures forall i :: 0 <= i < |r| ==> IsDigit(r[i])
  {
    if width == 0 then []
    else Digits(n / 10, width - 1) + [('0' as int + n % 10) as char]
  }

  /** A number that fits in `width` digits is read back from its rendering. */
  lemma {:induction false} DigitsRoundTrip(n: nat, width: nat)
    requires n < Pow10(width)
    ensures DigitsValue(Digits(n, width)) == n
  {
    if width > 0 {
      DigitsRoundTrip(n / 10, width - 1);
      var r := Digits(n, width);
      assert r[..|r| - 1] == Digits(n / 10, width - 1);
    }
  }

  /** `%d.%m.%Y`. */
  function FormatDate(d: Date): (r: string)
    requires d.year >= 0 && d.month >= 0 && d.day >= 0
    ensures |r| == 10 && r[2] == '.' && r[5] == '.'
  {
    Digits(d.day, 2) + "." + Digits(d.month, 2) + "." + Digits(d.year, 4)
  }

  /** How an f-string renders the summary: `None` when SUMMARY is missing. */
  function SummaryText(s: Option<string>): string {
    match s
    case None => "None"
    case Some(t) => t
  }

  function FormatEvent(e: CalendarEvent): (line: string)
    requires ValidEvent(e)
    ensures |line| == |Prefix| + |SummaryText(e.summary)| + 12
  {
    Prefix + SummaryText(e.summary) + "_" + FormatDate(e.start.date) + ";"
  }

  /** Reads a line of the template back into its summary text and date. */
  function ParseLine(line: string): Option<(string, Date)> {
    var n := |line|;
    if n >= |Prefix| + 12 && line[..|Prefix|] == Prefix
       && line[n - 12] == '_' && line[n - 9] == '.' && line[n - 6] == '.' && line[n - 1] == ';'
       && (forall i :: n - 11 <= i < n - 1 && i != n - 9 && i != n - 6 ==> IsDigit(line[i]))
    then
      Some((line[|Prefix|..n - 12],
            Date(DigitsValue(line[n - 5..n - 1]), DigitsValue(line[n - 8..n - 6]), DigitsValue(line[n - 11..n - 9]))))
    else None
  }

  /** Every formatted line is read back into the event's summary and start
      date: the day and month take two digits, the year four. */
  lemma FormatEventRoundTrip(e: CalendarEvent)
    requires ValidEvent(e)
    ensures ParseLine(FormatEvent(e)) == Some((SummaryText(e.summary), e.start.date))
  {
    var d := e.start.date;
    var line := FormatEvent(e);
    var n := |line|;
    var dd, mm, yyyy := Digits(d.day, 2), Digits(d.month, 2), Digits(d.year, 4);
    assert line == Prefix + SummaryText(e.summary) + "_" + dd + "." + mm + "." + yyyy + ";";
    assert line[..|Prefix|] == Prefix;
    assert line[|Prefix|..n - 12] == SummaryText(e.summary);
    assert line[n - 11..n - 9] == dd;
    assert line[n - 8..n - 6] == mm;
    assert line[n - 5..n - 1] == yyyy;
    DigitsRoundTrip(d.day, 2);
    DigitsRoundTrip(d.month, 2);
    DigitsRoundTrip(d.year, 4);
  }

  /** `sep.join(lines)`. */
  function Join(lines: seq<string>, sep: string): (r: string)
    ensures lines == [] ==> r == []
    ensures |lines| == 1 ==> r == lines[0]
  {
    if lines == [] then []
    else if |lines| == 1 then lines[0]
    else lines[0] + sep + Join(lines[1..], sep)
  }

  function TotalLength(lines: seq<string>): nat {
    if lines == [] then 0 else |lines[0]| + TotalLength(lines[1..])
  }

  /** The joined text holds every line and one separator between each two
      neighbours, and nothing else. */
  lemma {:induction false} JoinLength(lines: seq<string>, sep: string)
    requires lines != []
    ensures |Join(lines, sep)| == TotalLength(lines) + (|lines| - 1) * |sep|
  {
    if |lines| > 1 {
      JoinLength(lines[1..], sep);
    }
  }

  /** Joining a longer list appends one separator and the new last line. */
  lemma {:induction false} JoinSnoc(lines: seq<string>, last: string, sep: string)
    requires lines != []
    ensures Join(lines + [last], sep) == Join(lines, sep) + sep + last
  {
    if |lines| == 1 {
      assert (lines + [last])[1..] == [last];
    } else {
      JoinSnoc(lines[1..], last, sep);
      assert (lines + [last])[1..] == lines[1..] + [last];
    }
  }

  /** The text between newlines, as `str.split("\n")` returns it. */
  function SplitLines(s: string): (parts: seq<string>)
    ensures |parts| >= 1
  {
    if s == [] then [[]]
    else
      var rest := SplitLines(s[1..]);
      if s[0] == '\n' then [[]] + rest else [[s[0]] + rest[0]] + rest[1..]
  }

  lemma {:induction false} SplitNoNewline(x: string)
    requires '\n' !in x
    ensures SplitLines(x) == [x]
  {
    if x != [] {
      SplitNoNewline(x[1..]);
      assert [x[0]] + x[1..] == x;
    }
  }

  lemma {:induction false} SplitAfter(x: string, y: string)
    requires '\n' !in x
    ensures SplitLines(x + "\n" + y) == [x] + SplitLines(y)
  {
    if x == [] {
      assert x + "\n" + y == "\n" + y;
      assert ("\n" + y)[1..] == y;
    } else {
      assert (x + "\n" + y)[1..] == x[1..] + "\n" + y;
      SplitAfter(x[1..], y);
      assert [x[0]] + x[1..] == x;
    }
  }

  /** Drops the space each separator leaves at the end of every line but
      the last. */
  function DropSeparatorSpace(parts: seq<string>): seq<string>
    requires parts != []
  {
    if |parts| == 1 then parts
    else
      var p := parts[0];
      [if p != [] && p[|p| - 1] == ' ' then p[..|p| - 1] else p] + DropSeparatorSpace(parts[1..])
  }

  /** Recovers the lines from joined output. */
  function Unjoin(s: string): seq<string> {
    DropSeparatorSpace(SplitLines(s))
  }

  /** When no line contains a newline, the joined text splits back into
      exactly the lines it was made of, in order. */
  lemma {:induction false} JoinRoundTrip(lines: seq<string>)
    requires lines != []
    requires forall i :: 0 <= i < |lines| ==> '\n' !in lines[i]
    ensures Unjoin(Join(lines, Separator)) == lines
  {
    if |lines| == 1 {
      SplitNoNewline(lines[0]);
    } else {
      var x := lines[0];
      var rest := Join(lines[1..], Separator);
      assert Join(lines, Separator) == (x + " ") + "\n" + rest;
      assert '\n' !in x + " ";
      SplitAfter(x + " ", rest);
      JoinRoundTrip(lines[1..]);
      assert (x + " ")[..|x|] == x;
      assert lines == [x] + lines[1..];
    }
  }

  function FormatAll(events: seq<CalendarEvent>): (lines: seq<string>)
    requires forall i :: 0 <= i < |events| ==> ValidEvent(events[i])
    ensures |lines| == |events|
    ensures forall i :: 0 <= i < |events| ==> lines[i] == FormatEvent(events[i])
  {
    seq(|events|, i requires 0 <= i < |events| => FormatEvent(events[i]))
  }

  /** The text `print_events` writes (before `print` adds its newline). */
  function PrintEvents(events: seq<CalendarEvent>): (out: string)
    requires forall i :: 0 <= i < |events| ==> ValidEvent(events[i])
    ensures out == "" <==> events == []
  {
    Join(FormatAll(events), Separator)
  }

  /** A single event prints as its one line, which reads back as its
      summary and start date. */
  lemma PrintSingleEvent(e: CalendarEvent)
    requires ValidEvent(e)
    ensures PrintEvents([e]) == FormatEvent(e)
    ensures ParseLine(PrintEvents([e])) == Some((SummaryText(e.summary), e.start.date))
  {
    FormatEventRoundTrip(e);
  }

  /** A formatted line holds a newline only where its summary does. */
  lemma FormatEventNewlines(e: CalendarEvent)
    requires ValidEvent(e)
    ensures '\n' in FormatEvent(e) <==> '\n' in SummaryText(e.summary)
  {
    var date := FormatDate(e.start.date);
    assert FormatEvent(e) == Prefix + SummaryText(e.summary) + "_" + date + ";";
    assert forall i :: 0 <= i < |date| ==> date[i] != '\n';
  }

  /** When no summary contains a newline, the output splits into one line
      per event, in order, and each line reads back as that event's summary
      and start date. */
  lemma PrintEventsRoundTrip(events: seq<CalendarEvent>)
    requires events != []
    requires forall i :: 0 <= i < |events| ==> ValidEvent(events[i])
    requires forall i :: 0 <= i < |events| ==> '\n' !in SummaryText(events[i].summary)
    ensures Unjoin(PrintEvents(events)) == FormatAll(events)
    ensures forall i :: 0 <= i < |events| ==>
              ParseLine(Unjoin(PrintEvents(events))[i]) == Some((SummaryText(events[i].summary), events[i].start.date))
  {
    var lines := FormatAll(events);
    forall i | 0 <= i < |lines|
      ensures '\n' !in lines[i]
    {
      FormatEventNewlines(events[i]);
    }
    JoinRoundTrip(lines);
    forall i | 0 <= i < |events|
      ensures ParseLine(lines[i]) == Some((SummaryText(events[i].summary), events[i].start.date))
    {
      FormatEventRoundTrip(events[i]);
    }
  }
}
