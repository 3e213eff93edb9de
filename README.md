# calendar-sms in Dafny

A model of the two request handlers of calendar-sms, a small SMS calendar.
They share one table of `(Date, eventName)` records.

- **ReceiveMessage** (`receive_message.dfy`) handles an inbound SMS. It folds the
  decoded form pairs into a field map, with the last pair for a name winning.
  It takes field `Body`, or the text `"No message text!"` when the field is
  absent. It splits the text at the first space into a date token and an event
  name, and checks the token as a strict `dd-MM-yyyy` Gregorian date that is
  strictly after today. It then picks one of three replies, always with status 200
  and `Content-Type: text/xml`. Only a successful request yields the record
  `{Date, eventName}` to store. A store write that throws
  `AmazonDynamoDBException` is caught and still gets the success reply; any
  other exception escapes the handler with no reply (see "Left out").
- **SendMessage** (`send_message.dfy`) is the scheduled reminder run. It scans
  the records in order and keeps those whose date is today. Its `try` encloses
  the whole loop, so the first date that does not parse ends the scan, and the
  matches found before it are kept. It sends one reminder per kept record and
  appends one log line per attempt: `Message sent with SID: <sid>` on success,
  `Failed to send message for: <eventName>` on failure. A failed send does not
  stop the later ones.
- **Calendar** (`calendar.dfy`) holds what both handlers share: dates, the
  leap-year rule, strict parsing and formatting of `dd-MM-yyyy`, and the date
  ordering. That ordering is proved equal to an independent count of days
  since 1 January of year 1.
- **Text** (`text.dfy`) finds the first occurrence of a character. **Wrappers**
  (`wrappers.dfy`) holds `Option`.

The clock is a parameter: `today` is a `Date`. The send results are a parameter
too: one `Option<sid>` per send, where `None` means the SMS client threw. The
store write is the `stored` field of the inbound outcome. The table scan is the
input sequence of records.

Three behaviours of the code worth noting:

- A missing `Body` field becomes `"No message text!"`. That text contains a
  space, so it gets the date-error reply, not the parse-failure reply
  (`MissingBodyReply`).
- `split(" ", 2)` gives two parts whenever the text contains a space, even when
  a part is empty. The parse-failure reply is therefore returned exactly when
  the text has no space (`Respond`). A text such as `" party"` gets the
  date-error reply.
- The reminder scan stops at the first record whose date does not parse. It
  does not skip that record (`AbortAtUnparsable`).

## Model

| member | source | states |
|---|---|---|
| `Calendar.Before` | receive-message/src/main/java/com/ben/ReceiveMessage.java:84 | an earlier date differs from the later one and has a year no later than it |
| `Calendar.BeforeStrictTotal` | receive-message/src/main/java/com/ben/ReceiveMessage.java:84 | the date ordering is irreflexive, asymmetric, transitive and total on distinct dates |
| `ReceiveMessage.ParamMap` | receive-message/src/main/java/com/ben/ReceiveMessage.java:35-38 | every pair's name is a key, and the last pair's value is kept for its name |
| `ReceiveMessage.MessageText` | receive-message/src/main/java/com/ben/ReceiveMessage.java:40 | the `Body` value when the field is present, otherwise `"No message text!"` |
| `ReceiveMessage.IsFutureDate` | receive-message/src/main/java/com/ben/ReceiveMessage.java:75-89 | an accepted token is well formed, parses, and its date is neither today nor before today |
| `ReceiveMessage.SuccessReply` | receive-message/src/main/java/com/ben/ReceiveMessage.java:69 | the reply starts with `Event '`, then quotes the name, then gives the date, with 44 fixed characters in all |
| `ReceiveMessage.CreateResponse` | receive-message/src/main/java/com/ben/ReceiveMessage.java:91-101 | the reply carries the given status and text and the single header `Content-Type: text/xml` |
| `ReceiveMessage.NewlineInNameStored` | receive-message/src/main/java/com/ben/ReceiveMessage.java:43-70 | the body `01-01-2099 a\nb` on an earlier day stores the name `a\nb`, newline included |
| `ReceiveMessage.BuildParamMap` | receive-message/src/main/java/com/ben/ReceiveMessage.java:35-38 | the loop's map is the in-order fold of the pairs, each put overwriting the last |
| `ReceiveMessage.ParamMapDomain` | receive-message/src/main/java/com/ben/ReceiveMessage.java:35-38 | a name is a key of the map exactly when some pair carries that name |
| `ReceiveMessage.ParamMapLastWins` | receive-message/src/main/java/com/ben/ReceiveMessage.java:35-38 | the value kept for a name is that of the last pair with the name |
| `Text.IndexOf` | receive-message/src/main/java/com/ben/ReceiveMessage.java:43 | the index returned holds the character and no earlier position does; -1 exactly when the character is absent |
| `Text.IndexOfAfter` | receive-message/src/main/java/com/ben/ReceiveMessage.java:43 | in `a + c + b` with no `c` in `a`, the first `c` is at `|a|` |
| `ReceiveMessage.SplitAtFirstSpace` | receive-message/src/main/java/com/ben/ReceiveMessage.java:43-49 | two parts exactly when the text holds a space; the date part holds no space and `date + " " + name` is the text |
| `ReceiveMessage.SplitJoin` | receive-message/src/main/java/com/ben/ReceiveMessage.java:43-49 | a space-free token and any name (empty or with spaces), joined by one space, split back into the same pair |
| `Calendar.DaysInMonth` | receive-message/src/main/java/com/ben/ReceiveMessage.java:76-77 | months have 28 to 31 days; February has 29 exactly in leap years; other months have at least 30 |
| `Calendar.ParseDate` | receive-message/src/main/java/com/ben/ReceiveMessage.java:76-87 | an accepted token is ten characters long and denotes an existing date with a four-digit year |
| `Calendar.FormatDate` | receive-message/src/main/java/com/ben/ReceiveMessage.java:76 | the text of a date has the dd-MM-yyyy shape |
| `Calendar.ParseFormat` | receive-message/src/main/java/com/ben/ReceiveMessage.java:76-80 | parsing the dd-MM-yyyy text of a real date gives that date back |
| `Calendar.FormatParse` | receive-message/src/main/java/com/ben/ReceiveMessage.java:76-80 | an accepted token is exactly the text of its date, so each date has one spelling |
| `Calendar.NoRollover` | receive-message/src/main/java/com/ben/ReceiveMessage.java:76-80 | non-lenient parsing: a written day/month/year is accepted exactly when that date exists, with no rollover |
| `Calendar.LeapDay` | receive-message/src/main/java/com/ben/ReceiveMessage.java:76-80 | 29 February is accepted exactly in Gregorian leap years |
| `Calendar.ImpossibleDatesRejected` | receive-message/src/main/java/com/ben/ReceiveMessage.java:76-87 | 31-02, 32-01, 31-04, day 00, month 13, year 0000 and 29-02-1900 are rejected; 29-02-2000 is accepted |
| `Calendar.BeforeIffEarlierDay` | receive-message/src/main/java/com/ben/ReceiveMessage.java:80-84 | comparing dates field by field agrees with comparing their day counts from 1 January of year 1 |
| `Calendar.AfterNowIffAfterToday` | receive-message/src/main/java/com/ben/ReceiveMessage.java:80-84 | a date's midnight is after an instant during today exactly when the date is strictly after today |
| `ReceiveMessage.FutureDateIff` | receive-message/src/main/java/com/ben/ReceiveMessage.java:75-89 | a formatted date passes the check exactly when it is after today; today's own date fails |
| `ReceiveMessage.RepliesDistinct` | receive-message/src/main/java/com/ben/ReceiveMessage.java:44-70 | the success, date-error and parse-failure replies are pairwise different texts |
| `ReceiveMessage.Respond` | receive-message/src/main/java/com/ben/ReceiveMessage.java:40-70 | status 200 and text/xml on every path that returns a reply; parse-failure reply exactly when the text has no space; a stored record is the split of the text with a future date and gets the success reply; otherwise nothing is stored and an error reply is given |
| `ReceiveMessage.RespondAccepts` | receive-message/src/main/java/com/ben/ReceiveMessage.java:48-70 | a space-free future date, a space and a name store exactly `{date, name}` and give the "has been added" reply |
| `ReceiveMessage.RespondRejectsDate` | receive-message/src/main/java/com/ben/ReceiveMessage.java:48-55 | a split text whose token is not a future date gets the date-error reply and stores nothing |
| `ReceiveMessage.MissingBodyReply` | receive-message/src/main/java/com/ben/ReceiveMessage.java:40-54 | without a `Body` field the placeholder text gets the date-error reply and nothing is stored |
| `ReceiveMessage.HandleRequest` | receive-message/src/main/java/com/ben/ReceiveMessage.java:27-71 | the handler's outcome is the reply decision on the map built from the pairs |
| `SendMessage.IsToday` | send-message/src/main/java/com/ben/SendMessage.java:89-92 | a matching record has a ten-character date, and today is a real date |
| `SendMessage.TodayIffSameText` | send-message/src/main/java/com/ben/SendMessage.java:89-92 | a record matches exactly when its date text is today's dd-MM-yyyy text |
| `SendMessage.TodaysEvents` | send-message/src/main/java/com/ben/SendMessage.java:62-102 | every selected record is dated today, and no more are selected than records before the first unparsable date |
| `SendMessage.ReminderBody` | send-message/src/main/java/com/ben/SendMessage.java:43 | the body starts with `Reminder: `, then the event name, with 30 fixed characters in all |
| `SendMessage.LogLine` | send-message/src/main/java/com/ben/SendMessage.java:52-56 | every log line is non-empty and ends in a newline |
| `SendMessage.FirstUnparsable` | send-message/src/main/java/com/ben/SendMessage.java:84-91 | every date before the returned position parses, and the date at it does not |
| `SendMessage.Filter` | send-message/src/main/java/com/ben/SendMessage.java:92-94 | every selected record's date parses to today |
| `SendMessage.FilterAppend` | send-message/src/main/java/com/ben/SendMessage.java:84-95 | selection keeps scan order: selecting from `a + b` is selecting from `a`, then from `b` |
| `SendMessage.FilterComplete` | send-message/src/main/java/com/ben/SendMessage.java:92-94 | every record dated today is selected |
| `SendMessage.AllParse` | send-message/src/main/java/com/ben/SendMessage.java:73-95 | when every date parses, the result is exactly the order-preserving filter by date equals today |
| `SendMessage.AbortAtUnparsable` | send-message/src/main/java/com/ben/SendMessage.java:84-101 | at the first unparsable record the result is the matches before it, and records after it change nothing |
| `SendMessage.CheckForTodaysCalendarEvents` | send-message/src/main/java/com/ben/SendMessage.java:62-102 | the scan loop returns the records dated today that come before the first unparsable date |
| `SendMessage.FormattedIsToday` | send-message/src/main/java/com/ben/SendMessage.java:89-92 | a record carrying the text of a real date matches exactly when that date is today |
| `SendMessage.OneOfThreeToday` | send-message/src/main/java/com/ben/SendMessage.java:84-95 | of three parseable records with only the first dated today, only the first is selected |
| `SendMessage.OnlyTodaysRecordSelected` | send-message/src/main/java/com/ben/SendMessage.java:84-95 | of records dated today, tomorrow and yesterday, only today's is selected |
| `SendMessage.LogLines` | send-message/src/main/java/com/ben/SendMessage.java:40-57 | one log line per event |
| `SendMessage.ConcatSnoc` | send-message/src/main/java/com/ben/SendMessage.java:52-56 | appending a line to the builder appends its text to the log |
| `SendMessage.SendReminders` | send-message/src/main/java/com/ben/SendMessage.java:38-59 | one reminder per event in order, with body "Reminder: <name> is happening today!"; the log is the event lines in order, whatever each send's outcome |
| `SendMessage.HandleRequest` | send-message/src/main/java/com/ben/SendMessage.java:32-60 | reminders and log are built from the records the scan selects; with none selected the log is the empty string |
| `SendMessage.SplitConcat` | send-message/src/main/java/com/ben/SendMessage.java:52-56 | newline-terminated lines, written one after another, read back as the same lines |
| `SendMessage.LogLineIsLine` | send-message/src/main/java/com/ben/SendMessage.java:52-56 | each log line ends in its only newline when the name and the SID hold none |
| `SendMessage.OneLinePerEvent` | send-message/src/main/java/com/ben/SendMessage.java:40-57 | when no event name and no SID contains a newline, the log reads back as exactly one line per event, in order: the SID line on success, the event-name line on failure |
| `SendMessage.NewlineNameSplitsLog` | send-message/src/main/java/com/ben/SendMessage.java:52-56 | one failed send for the stored name `a\nb` leaves a log that reads back as two lines, not one |
| `SendMessage.TwoLines` | send-message/src/main/java/com/ben/SendMessage.java:52-56 | two newline-free texts, each ended by a newline, read back as two lines |
| `SendMessage.OneLine` | send-message/src/main/java/com/ben/SendMessage.java:52-56 | the text with each newline replaced by a space: same length, no newline, other characters unchanged |
| `SendMessage.CorrectedLogLines` | send-message/src/main/java/com/ben/SendMessage.java:52-56 | one line per event, built from names and SIDs with their newlines replaced |
| `SendMessage.CorrectedOneLinePerEvent` | send-message/src/main/java/com/ben/SendMessage.java:40-57 | for any names and SIDs, the corrected log reads back as exactly its lines, one per event |
| `SendMessage.LineKind` | send-message/src/main/java/com/ben/SendMessage.java:52-56 | a line starts with the success prefix exactly for a sent message, and with the failure prefix exactly for a failed one |
| `SendMessage.SuccessesAndFailures` | send-message/src/main/java/com/ben/SendMessage.java:40-57 | success lines number the sends that returned an SID; failure lines number the rest; together, one per event |

## Left out

- Runtime plumbing is not modelled: the Lambda and API Gateway request and response types, and the logger. The model starts from decoded `(name, value)` pairs.
- URL percent-decoding of the form body is library code, so the pairs arrive decoded.
- The reply is modelled as status, headers and message text. The TwiML XML serialisation of that text is library code.
- The DynamoDB client is left out. `putItem` becomes the `stored` record of the outcome. The handler catches only `AmazonDynamoDBException` from it, prints the stack trace and still sends the success reply. The `scan` call becomes the input sequence, and pagination is the SDK's.
- ReceiveMessage.Respond: assumes the store write either succeeds or throws `AmazonDynamoDBException`. Any other exception from `putItem`, such as an `SdkClientException`, escapes `handleRequest` and no reply is sent. It also assumes every decoded form value is a string. A pair without `=` decodes to a null value; if that pair is `Body`, `getOrDefault` returns null and `split` throws.
- Whether a second record with the same date replaces the first depends on the table's key schema. That schema is not in the code, so this is not modelled.
- The Twilio client, `Twilio.init` and the phone numbers from environment variables are left out. Each send becomes a given outcome: `Some(sid)` or `None` for an exception. `SendMessage.SendReminders` takes one outcome per event.
- `SendMessage.SendReminders` does not model what the failure branch writes to the logger. The model keeps the returned log only.
- Reading the clock is replaced by a `today` date parameter. Time zones are not modelled. `Calendar.AfterNowIffAfterToday` shows that comparing a date's midnight with any instant during today gives the same answer as comparing dates.
- Each Java date parser has quirks beyond the intended strict two-digit day, two-digit month, four-digit year, and `Calendar.ParseDate` models only that intent.
  - `SimpleDateFormat.parse` also accepts one-digit fields, years of other widths, and trailing text after the date.
  - It uses the Julian calendar before October 1582. Such dates are never in the future, so no outcome changes.
  - `LocalDate.parse` with the default SMART resolver reads a day 29 to 31 past the end of its month as that month's last day.
  - One `Calendar.ParseDate` stands for both parsers, so an effect across the two handlers is not captured. A token such as `1-1-2030` or `01-01-2030x` passes `SimpleDateFormat` (receive-message/src/main/java/com/ben/ReceiveMessage.java:76-80) and is stored as written. `LocalDate.parse` (send-message/src/main/java/com/ben/SendMessage.java:89) rejects it, so every later reminder scan stops at that record (send-message/src/main/java/com/ben/SendMessage.java:96).
- A record without a `Date` or `eventName` attribute is not modelled. In the source, a null date ends the scan like an unparsable one.

## Findings

| source | as written | input that shows it | evidently intended | confidence | as-written member | corrected member |
|---|---|---|---|---|---|---|
| send-message/src/main/java/com/ben/SendMessage.java:52-56 | the event name and the SID are appended to the log verbatim, and a stored name may hold a newline, because receive-message/src/main/java/com/ben/ReceiveMessage.java:43 splits at a space only | the SMS body `01-01-2099 a\nb` is stored with name `a\nb` (`ReceiveMessage.NewlineInNameStored`); on 1 January 2099 a failed send logs `Failed to send message for: a\nb\n`, which reads back as two lines | one log line per event | not executed | `SendMessage.NewlineNameSplitsLog` | `SendMessage.CorrectedOneLinePerEvent` |

`SendMessage.SendReminders` still models the log as written. `SendMessage.CorrectedLogLines` gives the intended log, with one line per event for any names and SIDs.
