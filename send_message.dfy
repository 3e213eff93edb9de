/**
 * The scheduled reminder handler: scan the calendar table, keep in scan
 * order the records dated today (the first record whose date does not parse
 * ends the scan, keeping what was found before it), then send one reminder
 * per kept record and log one line per attempt.
 */
module SendMessage {
  import opened Wrappers
  import opened Calendar
  import opened Text

  // ---------------------------------------------------------------------------
  // Selecting today's records
  // ---------------------------------------------------------------------------

  /** The record's date parses to today's date. */
  predicate IsToday(e: CalendarEvent, today: Date)
    ensures IsToday(e, today) ==> ValidDate(today) && |e.date| == 10
  {
    ParseDate(e.date) == Some(today)
  }

  /** Position of the first record whose date does not parse, or |items| when every date parses. */
  function FirstUnparsable(items: seq<CalendarEvent>): (k: int)
    ensures 0 <= k <= |items|
    ensures forall j :: 0 <= j < k ==> ParseDate(items[j].date).Some?
    ensures k < |items| ==> ParseDate(items[k].date).None?
  {
    if |items| == 0 then 0
    else if ParseDate(items[0].date).None? then 0
    else 1 + FirstUnparsable(items[1..])
  }

  /** A record matches exactly when its date is the dd-MM-yyyy text of today. */
  lemma TodayIffSameText(e: CalendarEvent, today: Date)
    requires ValidDate(today) && today.year <= 9999
    ensures IsToday(e, today) <==> e.date == FormatDate(today)
  {
    ParseFormat(today);
    if IsToday(e, today) {
      FormatParse(e.date);
    }
  }

  /** The records dated today, in their order. */
  function Filter(items: seq<CalendarEvent>, today: Date): (r: seq<CalendarEvent>)
    ensures |r| <= |items|
    ensures forall i :: 0 <= i < |r| ==> IsToday(r[i], today)
  {
    if |items| == 0 then []
    else
      var last := items[|items| - 1];
      Filter(items[..|items| - 1], today) + (if IsToday(last, today) then [last] else [])
  }

  /** Filtering a concatenation filters each part and keeps their order. */
  lemma {:induction false} FilterAppend(a: seq<CalendarEvent>, b: seq<CalendarEvent>, today: Date)
    ensures Filter(a + b, today) == Filter(a, today) + Filter(b, today)
    decreases |b|
  {
    if |b| > 0 {
      var init := b[..|b| - 1];
      assert (a + b)[..|a + b| - 1] == a + init;
      FilterAppend(a, init, today);
    } else {
      assert a + b == a;
    }
  }

  /** Every record dated today is kept. */
  lemma {:induction false} FilterComplete(items: seq<CalendarEvent>, today: Date, i: int)
    requires 0 <= i < |items| && IsToday(items[i], today)
    ensures items[i] in Filter(items, today)
  {
    if i < |items| - 1 {
      var init := items[..|items| - 1];
      assert init[i] == items[i];
      FilterComplete(init, today, i);
    }
  }

  /** What the scan returns: the records dated today among those before the first unparsable date. */
  function TodaysEvents(items: seq<CalendarEvent>, today: Date): (r: seq<CalendarEvent>)
    ensures |r| <= FirstUnparsable(items)
    ensures forall i :: 0 <= i < |r| ==> IsToday(r[i], today)
  {
    Filter(items[..FirstUnparsable(items)], today)
  }

  /** When every date parses, the scan keeps exactly the records dated today. */
  lemma AllParse(items: seq<CalendarEvent>, today: Date)
    requires forall i :: 0 <= i < |items| ==> ParseDate(items[i].date).Some?
    ensures TodaysEvents(items, today) == Filter(items, today)
  {
    assert items[..FirstUnparsable(items)] == items;
  }

  /**
   * When record k is the first whose date does not parse, the result is the
   * matches before k, and no record after k is looked at.
   */
  lemma AbortAtUnparsable(items: seq<CalendarEvent>, k: int, later: seq<CalendarEvent>, today: Date)
    requires 0 <= k < |items|
    requires forall j :: 0 <= j < k ==> ParseDate(items[j].date).Some?
    requires ParseDate(items[k].date).None?
    ensures TodaysEvents(items, today) == Filter(items[..k], today)
    ensures TodaysEvents(items[..k + 1] + later, today) == TodaysEvents(items, today)
  {
    var other := items[..k + 1] + later;
    assert forall j :: 0 <= j <= k ==> other[j] == items[j];
    assert other[..k] == items[..k];
  }

  /** The scan loop: stop at the first date that fails to parse, keeping the matches found so far. */
  method CheckForTodaysCalendarEvents(items: seq<CalendarEvent>, today: Date) returns (selected: seq<CalendarEvent>)
    ensures selected == TodaysEvents(items, today)
  {
    selected := [];
    var i := 0;
    var scanFailed := false;
    while i < |items| && !scanFailed
      invariant 0 <= i <= FirstUnparsable(items)
      invariant scanFailed ==> i == FirstUnparsable(items)
      invariant selected == Filter(items[..i], today)
      decreases |items| - i, !scanFailed
    {
      var eventDate := ParseDate(items[i].date);
      if eventDate.None? {
        scanFailed := true;
      } else {
        assert items[..i + 1][..i] == items[..i];
        assert Filter(items[..i + 1], today)
            == Filter(items[..i], today) + (if IsToday(items[i], today) then [items[i]] else []);
        if eventDate.value == today {
          selected := selected + [items[i]];
        }
        i := i + 1;
      }
    }
  }

  // ---------------------------------------------------------------------------
  // Sending reminders and building the log
  // ---------------------------------------------------------------------------

  /** The reminder text names the event. */
  function ReminderBody(eventName: string): (r: string)
    ensures |r| == |eventName| + 30
    ensures r[..10] == "Reminder: " && r[10..10 + |eventName|] == eventName
  {
    "Reminder: " + eventName + " is happening today!"
  }

  const SuccessPrefix: string := "Message sent with SID: "
  const FailurePrefix: string := "Failed to send message for: "

  /** The log line of one send: the provider's message id on success, the event name on failure. */
  function LogLine(e: CalendarEvent, outcome: Option<string>): (l: string)
    ensures |l| > 0 && l[|l| - 1] == '\n'
  {
    match outcome
    case Some(sid) => SuccessPrefix + sid + "\n"
    case None => FailurePrefix + e.eventName + "\n"
  }

  function LogLines(events: seq<CalendarEvent>, outcomes: seq<Option<string>>): (lines: seq<string>)
    requires |outcomes| == |events|
    ensures |lines| == |events|
  {
    seq(|events|, i requires 0 <= i < |events| => LogLine(events[i], outcomes[i]))
  }

  /** The lines written one after another. */
  function Concat(lines: seq<string>): string {
    if |lines| == 0 then "" else lines[0] + Concat(lines[1..])
  }

  lemma {:induction false} ConcatSnoc(lines: seq<string>, line: string)
    ensures Concat(lines + [line]) == Concat(lines) + line
  {
    if |lines| == 0 {
      assert lines + [line] == [line];
    } else {
      assert (lines + [line])[1..] == lines[1..] + [line];
      ConcatSnoc(lines[1..], line);
    }
  }

  /** The log of the first i + 1 events is that of the first i followed by line i. */
  lemma LogPrefixStep(events: seq<CalendarEvent>, outcomes: seq<Option<string>>, i: int)
    requires |outcomes| == |events| && 0 <= i < |events|
    ensures Concat(LogLines(events, outcomes)[..i + 1])
         == Concat(LogLines(events, outcomes)[..i]) + LogLine(events[i], outcomes[i])
  {
    var lines := LogLines(events, outcomes);
    assert lines[..i + 1] == lines[..i] + [lines[i]];
    ConcatSnoc(lines[..i], lines[i]);
  }

  /**
   * The send loop: one reminder per event, in order, whose outcome is the
   * provider's message id or None when the send threw; a failure is logged
   * and the loop goes on.
   */
  method SendReminders(events: seq<CalendarEvent>, outcomes: seq<Option<string>>)
    returns (messageLog: string, bodies: seq<string>)
    requires |outcomes| == |events|
    ensures |bodies| == |events|
    ensures forall i :: 0 <= i < |events| ==> bodies[i] == ReminderBody(events[i].eventName)
    ensures messageLog == Concat(LogLines(events, outcomes))
  {
    messageLog := "";
    bodies := [];
    var i := 0;
    while i < |events|
      invariant 0 <= i <= |events|
      invariant |bodies| == i
      invariant forall j :: 0 <= j < i ==> bodies[j] == ReminderBody(events[j].eventName)
      invariant messageLog == Concat(LogLines(events, outcomes)[..i])
    {
      var messageBody := ReminderBody(events[i].eventName);
      bodies := bodies + [messageBody];
      var line: string;
      match outcomes[i] {
        case Some(sid) => line := SuccessPrefix + sid + "\n";
        case None => line := FailurePrefix + events[i].eventName + "\n";
      }
      assert line == LogLine(events[i], outcomes[i]);
      LogPrefixStep(events, outcomes, i);
      messageLog := messageLog + line;
      i := i + 1;
    }
    assert LogLines(events, outcomes)[..i] == LogLines(events, outcomes);
  }

  /** The whole run: select today's records, then send and log. */
  method HandleRequest(items: seq<CalendarEvent>, today: Date, outcomes: seq<Option<string>>)
    returns (messageLog: string, bodies: seq<string>)
    requires |outcomes| == |TodaysEvents(items, today)|
    ensures var events := TodaysEvents(items, today);
      |bodies| == |events|
      && (forall i :: 0 <= i < |events| ==> bodies[i] == ReminderBody(events[i].eventName))
      && messageLog == Concat(LogLines(events, outcomes))
    ensures TodaysEvents(items, today) == [] ==> messageLog == "" && bodies == []
  {
    var calendarEventsToday := CheckForTodaysCalendarEvents(items, today);
    messageLog, bodies := SendReminders(calendarEventsToday, outcomes);
  }

  // ---------------------------------------------------------------------------
  // Reading the log back
  // ---------------------------------------------------------------------------

  /** The log cut after each newline; text after the last newline forms a last line. */
  function SplitLines(s: string): seq<string>
    decreases |s|
  {
    var i := IndexOf(s, '\n');
    if i < 0 then (if s == "" then [] else [s])
    else [s[..i + 1]] + SplitLines(s[i + 1..])
  }

  /** A line: text without newlines followed by one newline. */
  predicate IsLine(l: string) {
    |l| > 0 && l[|l| - 1] == '\n' && '\n' !in l[..|l| - 1]
  }

  /** Lines written one after another are read back as the same lines. */
  lemma {:induction false} SplitConcat(lines: seq<string>)
    requires forall i :: 0 <= i < |lines| ==> IsLine(lines[i])
    ensures SplitLines(Concat(lines)) == lines
  {
    if |lines| > 0 {
      var l := lines[0];
      var body := l[..|l| - 1];
      var rest := Concat(lines[1..]);
      assert l == body + ['\n'];
      IndexOfAfter(body, '\n', rest);
      assert Concat(lines) == body + ['\n'] + rest;
      assert (body + ['\n'] + rest)[..|body| + 1] == l;
      assert (body + ['\n'] + rest)[|body| + 1..] == rest;
      SplitConcat(lines[1..]);
    }
  }

  lemma LogLineIsLine(e: CalendarEvent, outcome: Option<string>)
    requires '\n' !in e.eventName
    requires outcome.Some? ==> '\n' !in outcome.value
    ensures IsLine(LogLine(e, outcome))
  {
    var l := LogLine(e, outcome);
    match outcome
    case Some(sid) =>
      assert l[..|l| - 1] == SuccessPrefix + sid;
    case None =>
      assert l[..|l| - 1] == FailurePrefix + e.eventName;
  }

  /**
   * When no event name and no message id holds a newline, the log reads
   * back as exactly one line per event, in event order: the success line
   * with the id, or the failure line with the event name.
   */
  lemma OneLinePerEvent(events: seq<CalendarEvent>, outcomes: seq<Option<string>>)
    requires |outcomes| == |events|
    requires forall i :: 0 <= i < |events| ==> '\n' !in events[i].eventName
    requires forall i :: 0 <= i < |outcomes| && outcomes[i].Some? ==> '\n' !in outcomes[i].value
    ensures var lines := SplitLines(Concat(LogLines(events, outcomes)));
      |lines| == |events|
      && forall i :: 0 <= i < |events| ==>
           lines[i] == (if outcomes[i].Some? then SuccessPrefix + outcomes[i].value + "\n"
                        else FailurePrefix + events[i].eventName + "\n")
  {
    var lines := LogLines(events, outcomes);
    forall i | 0 <= i < |lines| ensures IsLine(lines[i]) {
      LogLineIsLine(events[i], outcomes[i]);
    }
    SplitConcat(lines);
  }

  // ---------------------------------------------------------------------------
  // Counting successes and failures
  // ---------------------------------------------------------------------------

  predicate HasPrefix(s: string, p: string) {
    |p| <= |s| && s[..|p|] == p
  }

  function CountPrefix(lines: seq<string>, p: string): (n: nat)
    ensures n <= |lines|
  {
    if |lines| == 0 then 0
    else CountPrefix(lines[..|lines| - 1], p) + (if HasPrefix(lines[|lines| - 1], p) then 1 else 0)
  }

  function CountSent(outcomes: seq<Option<string>>): (n: nat)
    ensures n <= |outcomes|
  {
    if |outcomes| == 0 then 0
    else CountSent(outcomes[..|outcomes| - 1]) + (if outcomes[|outcomes| - 1].Some? then 1 else 0)
  }

  lemma LineKind(e: CalendarEvent, outcome: Option<string>)
    ensures HasPrefix(LogLine(e, outcome), SuccessPrefix) <==> outcome.Some?
    ensures HasPrefix(LogLine(e, outcome), FailurePrefix) <==> outcome.None?
  {
    var l := LogLine(e, outcome);
    assert SuccessPrefix[0] == 'M';
    assert FailurePrefix[0] == 'F';
    if outcome.Some? {
      assert l[..|SuccessPrefix|] == SuccessPrefix;
      assert |FailurePrefix| <= |l| ==> l[..|FailurePrefix|][0] == 'M';
    } else {
      assert l[..|FailurePrefix|] == FailurePrefix;
      assert |SuccessPrefix| <= |l| ==> l[..|SuccessPrefix|][0] == 'F';
    }
  }

  /**
   * The log holds as many success lines as sends that returned an id and as
   * many failure lines as sends that threw; together, one per event.
   */
  lemma {:induction false} SuccessesAndFailures(events: seq<CalendarEvent>, outcomes: seq<Option<string>>)
    requires |outcomes| == |events|
    ensures CountPrefix(LogLines(events, outcomes), SuccessPrefix) == CountSent(outcomes)
    ensures CountPrefix(LogLines(events, outcomes), FailurePrefix) == |events| - CountSent(outcomes)
  {
    if |events| > 0 {
      var n := |events| - 1;
      var lines := LogLines(events, outcomes);
      assert lines[..n] == LogLines(events[..n], outcomes[..n]);
      SuccessesAndFailures(events[..n], outcomes[..n]);
      LineKind(events[n], outcomes[n]);
    }
  }

  lemma FormattedIsToday(d: Date, today: Date, name: string)
    requires ValidDate(d) && d.year <= 9999
    ensures ParseDate(FormatDate(d)).Some?
    ensures IsToday(CalendarEvent(FormatDate(d), name), today) <==> d == today
  {
    ParseFormat(d);
  }

  lemma OneOfThreeToday(x: CalendarEvent, y: CalendarEvent, z: CalendarEvent, today: Date)
    requires ParseDate(y.date).Some? && ParseDate(z.date).Some?
    requires IsToday(x, today) && !IsToday(y, today) && !IsToday(z, today)
    ensures TodaysEvents([x, y, z], today) == [x]
  {
    assert Filter([x], today) == [x] by { assert [x][..0] == []; }
    assert Filter([y], today) == [] by { assert [y][..0] == []; }
    assert Filter([z], today) == [] by { assert [z][..0] == []; }
    FilterAppend([x], [y], today);
    assert [x] + [y] == [x, y];
    FilterAppend([x, y], [z], today);
    assert [x, y] + [z] == [x, y, z];
    AllParse([x, y, z], today);
  }

  /**
   * Records dated yesterday, today and tomorrow: exactly the one dated today
   * is selected, so exactly one reminder is sent, for it.
   */
  lemma OnlyTodaysRecordSelected(yesterday: Date, today: Date, tomorrow: Date,
                                 a: string, b: string, c: string)
    requires ValidDate(yesterday) && ValidDate(today) && ValidDate(tomorrow)
    requires tomorrow.year <= 9999
    requires Before(yesterday, today) && Before(today, tomorrow)
    ensures var items := [CalendarEvent(FormatDate(today), a), CalendarEvent(FormatDate(tomorrow), b),
                          CalendarEvent(FormatDate(yesterday), c)];
      TodaysEvents(items, today) == [CalendarEvent(FormatDate(today), a)]
  {
    FormattedIsToday(today, today, a);
    FormattedIsToday(tomorrow, today, b);
    FormattedIsToday(yesterday, today, c);
    OneOfThreeToday(CalendarEvent(FormatDate(today), a), CalendarEvent(FormatDate(tomorrow), b),
                    CalendarEvent(FormatDate(yesterday), c), today);
  }

  // ---------------------------------------------------------------------------
  // Event names holding a newline
  // ---------------------------------------------------------------------------

  /**
   * As written, the log is not one line per event: the inbound handler
   * splits only at a space, so a name may hold a newline, and a failed send
   * of such an event writes two lines.
   */
  lemma NewlineNameSplitsLog()
    ensures var e := CalendarEvent("01-01-2099", "a\nb");
      |SplitLines(Concat(LogLines([e], [None])))| == 2
  {
    var e := CalendarEvent("01-01-2099", "a\nb");
    var line := FailurePrefix + "a" + "\n" + "b" + "\n";
    assert "a\nb" == "a" + "\n" + "b";
    assert LogLine(e, None) == line;
    assert LogLines([e], [None]) == [line];
    assert Concat([line]) == line;
    TwoLines(FailurePrefix + "a", "b");
  }

  /** A text with one newline inside and one at its end reads back as two lines. */
  lemma TwoLines(x: string, y: string)
    requires '\n' !in x && '\n' !in y
    ensures |SplitLines(x + "\n" + y + "\n")| == 2
  {
    var s := x + "\n" + y + "\n";
    var rest := y + "\n";
    assert s == x + ['\n'] + rest;
    IndexOfAfter(x, '\n', rest);
    assert s[|x| + 1..] == rest;
    assert SplitLines(s) == [s[..|x| + 1]] + SplitLines(rest);
    IndexOfAfter(y, '\n', "");
    assert rest == y + ['\n'] + "";
    assert rest[|y| + 1..] == "";
    assert SplitLines("") == [];
    assert SplitLines(rest) == [rest[..|y| + 1]];
  }

  /** A text with each newline replaced by a space. */
  function OneLine(s: string): (r: string)
    ensures |r| == |s| && '\n' !in r
    ensures forall i :: 0 <= i < |s| && s[i] != '\n' ==> r[i] == s[i]
  {
    seq(|s|, i requires 0 <= i < |s| => if s[i] == '\n' then ' ' else s[i])
  }

  /** The log lines with newlines in event names and message ids replaced by spaces. */
  function CorrectedLogLines(events: seq<CalendarEvent>, outcomes: seq<Option<string>>): (lines: seq<string>)
    requires |outcomes| == |events|
    ensures |lines| == |events|
  {
    var cleanEvents := seq(|events|, i requires 0 <= i < |events| =>
                         CalendarEvent(events[i].date, OneLine(events[i].eventName)));
    var cleanOutcomes := seq(|outcomes|, i requires 0 <= i < |outcomes| =>
                           if outcomes[i].Some? then Some(OneLine(outcomes[i].value)) else None);
    LogLines(cleanEvents, cleanOutcomes)
  }

  /** With the corrected lines the log reads back as one line per event for every input. */
  lemma CorrectedOneLinePerEvent(events: seq<CalendarEvent>, outcomes: seq<Option<string>>)
    requires |outcomes| == |events|
    ensures SplitLines(Concat(CorrectedLogLines(events, outcomes))) == CorrectedLogLines(events, outcomes)
    ensures |SplitLines(Concat(CorrectedLogLines(events, outcomes)))| == |events|
  {
    var lines := CorrectedLogLines(events, outcomes);
    forall i | 0 <= i < |lines| ensures IsLine(lines[i]) {
      var outcome := if outcomes[i].Some? then Some(OneLine(outcomes[i].value)) else None;
      LogLineIsLine(CalendarEvent(events[i].date, OneLine(events[i].eventName)), outcome);
    }
    SplitConcat(lines);
  }
}
