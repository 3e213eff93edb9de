/**
 * The inbound SMS handler: fold the decoded form pairs into a field map,
 * take the message text, split it at the first space into a date token and
 * an event name, check the date strictly and for being in the future, and
 * choose the reply. The store write is the `stored` record of the outcome;
 * a write that fails with the store's own exception, which the handler
 * catches, does not change the reply.
 */
module ReceiveMessage {
  import opened Wrappers
  import opened Calendar
  import opened Text

  /** One decoded `name=value` pair of the form-encoded request body. */
  datatype Param = Param(name: string, value: string)

  /** The HTTP reply: status, headers, and the text of the single message of the reply envelope. */
  datatype Response = Response(statusCode: int, headers: map<string, string>, message: string)

  /** What one request produces: the reply, and the record written to the calendar table, if any. */
  datatype Outcome = Outcome(response: Response, stored: Option<CalendarEvent>)

  const NoMessageText: string := "No message text!"
  // The two fixed replies are written in pieces so that the verifier can read their first characters.
  const ParseFailureReply: string := "Failed to parse message. " + "Use format DD-MM-YYYY event name."
  const DateErrorReply: string :=
    "The provided event date " + "is not in the correct format " + "or not a future date. " + "Use format DD-MM-YYYY."

  /** The success reply quotes the event name and then gives the date. */
  function SuccessReply(eventName: string, eventDate: string): (r: string)
    ensures |r| == |eventName| + |eventDate| + 44
    ensures r[..7] == "Event '" && r[7..7 + |eventName|] == eventName
    ensures r[|eventName| + 12..|eventName| + 12 + |eventDate|] == eventDate
  {
    "Event '" + eventName + "' on " + eventDate + " has been added to the calendar."
  }

  const XmlHeaders: map<string, string> := map["Content-Type" := "text/xml"]

  // ---------------------------------------------------------------------------
  // The parameter map
  // ---------------------------------------------------------------------------

  /** The map after putting every pair in order, each put overwriting the previous value. */
  function ParamMap(ps: seq<Param>): (r: map<string, string>)
    ensures forall i :: 0 <= i < |ps| ==> ps[i].name in r
    ensures |ps| > 0 ==> r[ps[|ps| - 1].name] == ps[|ps| - 1].value
  {
    if |ps| == 0 then map[]
    else ParamMap(ps[..|ps| - 1])[ps[|ps| - 1].name := ps[|ps| - 1].value]
  }

  /** Every name that occurs among the pairs, and no other, is a key of the map. */
  lemma {:induction false} ParamMapDomain(ps: seq<Param>, k: string)
    ensures k in ParamMap(ps) <==> exists i :: 0 <= i < |ps| && ps[i].name == k
  {
    if |ps| > 0 {
      var init := ps[..|ps| - 1];
      ParamMapDomain(init, k);
      if exists i :: 0 <= i < |init| && init[i].name == k {
        var i :| 0 <= i < |init| && init[i].name == k;
        assert ps[i].name == k;
      }
      if exists i :: 0 <= i < |ps| && ps[i].name == k {
        var i :| 0 <= i < |ps| && ps[i].name == k;
        if i < |init| {
          assert init[i].name == k;
        }
      }
    }
  }

  /** The value kept for a name is the value of the last pair with that name. */
  lemma {:induction false} ParamMapLastWins(ps: seq<Param>, i: int)
    requires 0 <= i < |ps|
    requires forall j :: i < j < |ps| ==> ps[j].name != ps[i].name
    ensures ps[i].name in ParamMap(ps) && ParamMap(ps)[ps[i].name] == ps[i].value
  {
    if i < |ps| - 1 {
      var init := ps[..|ps| - 1];
      assert init[i] == ps[i];
      ParamMapLastWins(init, i);
    }
  }

  /** The loop that puts each decoded pair into a fresh hash map. */
  method BuildParamMap(params: seq<Param>) returns (m: map<string, string>)
    ensures m == ParamMap(params)
  {
    m := map[];
    var i := 0;
    while i < |params|
      invariant 0 <= i <= |params|
      invariant m == ParamMap(params[..i])
    {
      assert params[..i + 1][..i] == params[..i];
      m := m[params[i].name := params[i].value];
      i := i + 1;
    }
    assert params[..i] == params;
  }

  // ---------------------------------------------------------------------------
  // Splitting the message text
  // ---------------------------------------------------------------------------

  /**
   * Splitting with limit 2 at the first space: two parts exactly when the
   * text holds a space; either part may be empty, and the second may hold
   * further spaces.
   */
  function SplitAtFirstSpace(text: string): (r: Option<(string, string)>)
    ensures r.None? <==> ' ' !in text
    ensures r.Some? ==> ' ' !in r.value.0 && r.value.0 + " " + r.value.1 == text
  {
    var i := IndexOf(text, ' ');
    if i < 0 then None
    else
      assert text == text[..i] + " " + text[i + 1..];
      Some((text[..i], text[i + 1..]))
  }

  /** Joining a space-free date token and any name with one space, then splitting, gives both back. */
  lemma SplitJoin(date: string, name: string)
    requires ' ' !in date
    ensures SplitAtFirstSpace(date + " " + name) == Some((date, name))
  {
    var s := date + " " + name;
    IndexOfAfter(date, ' ', name);
    assert s[..|date|] == date;
    assert s[|date| + 1..] == name;
  }

  // ---------------------------------------------------------------------------
  // Date check and reply choice
  // ---------------------------------------------------------------------------

  /** The date token parses strictly and its date is after today. */
  predicate IsFutureDate(token: string, today: Date)
    ensures IsFutureDate(token, today) ==>
              WellFormed(token) && ParseDate(token).Some? && ParseDate(token).value != today && !Before(ParseDate(token).value, today)
  {
    match ParseDate(token)
    case None => false
    case Some(d) => Before(today, d)
  }

  /** A date written in the format is accepted exactly when it is strictly after today; today itself is not. */
  lemma FutureDateIff(d: Date, today: Date)
    requires ValidDate(d) && d.year <= 9999
    ensures IsFutureDate(FormatDate(d), today) <==> Before(today, d)
    ensures !IsFutureDate(FormatDate(d), d)
  {
    ParseFormat(d);
  }

  /** Value of field `Body`, or the placeholder text when the field is absent. */
  function MessageText(m: map<string, string>): (text: string)
    ensures "Body" in m ==> text == m["Body"]
    ensures "Body" !in m ==> text == NoMessageText
  {
    if "Body" in m then m["Body"] else NoMessageText
  }

  /** Every reply carries the given status, the single header `Content-Type: text/xml` and the reply text. */
  function CreateResponse(reply: string, statusCode: int): (r: Response)
    ensures r.statusCode == statusCode && r.message == reply
    ensures r.headers == map["Content-Type" := "text/xml"]
  {
    Response(statusCode, XmlHeaders, reply)
  }

  lemma RepliesDistinct(eventName: string, eventDate: string)
    ensures SuccessReply(eventName, eventDate) != ParseFailureReply
    ensures SuccessReply(eventName, eventDate) != DateErrorReply
    ensures DateErrorReply != ParseFailureReply
  {
    var reply := SuccessReply(eventName, eventDate);
    assert reply[0] == 'E';
    assert ParseFailureReply[0] == 'F';
    assert DateErrorReply[0] == 'T';
  }

  /** The reply decision of the handler, from the field map onward. */
  function Respond(m: map<string, string>, today: Date): (r: Outcome)
    ensures r.response.statusCode == 200 && r.response.headers == map["Content-Type" := "text/xml"]
    ensures r.response.message == ParseFailureReply <==> ' ' !in MessageText(m)
    ensures r.stored.Some? ==>
              var e := r.stored.value;
              ' ' !in e.date && e.date + " " + e.eventName == MessageText(m)
              && IsFutureDate(e.date, today)
              && r.response.message == SuccessReply(e.eventName, e.date)
    ensures r.stored.None? ==> r.response.message == ParseFailureReply || r.response.message == DateErrorReply
  {
    var parts := SplitAtFirstSpace(MessageText(m));
    if parts.None? then
      Outcome(CreateResponse(ParseFailureReply, 200), None)
    else
      var eventDate := parts.value.0;
      var eventName := parts.value.1;
      RepliesDistinct(eventName, eventDate);
      if !IsFutureDate(eventDate, today) then
        Outcome(CreateResponse(DateErrorReply, 200), None)
      else
        Outcome(CreateResponse(SuccessReply(eventName, eventDate), 200), Some(CalendarEvent(eventDate, eventName)))
  }

  /** A text of a space-free future date, a space and a name is stored as exactly that record. */
  lemma RespondAccepts(m: map<string, string>, today: Date, eventDate: string, eventName: string)
    requires ' ' !in eventDate && eventDate + " " + eventName == MessageText(m)
    requires IsFutureDate(eventDate, today)
    ensures Respond(m, today).stored == Some(CalendarEvent(eventDate, eventName))
    ensures Respond(m, today).response.message == SuccessReply(eventName, eventDate)
  {
    SplitJoin(eventDate, eventName);
  }

  /** With a space but a token that is not a future date, the date-error reply is given and nothing is stored. */
  lemma RespondRejectsDate(m: map<string, string>, today: Date, eventDate: string, eventName: string)
    requires ' ' !in eventDate && eventDate + " " + eventName == MessageText(m)
    requires !IsFutureDate(eventDate, today)
    ensures Respond(m, today).stored == None
    ensures Respond(m, today).response.message == DateErrorReply
  {
    SplitJoin(eventDate, eventName);
  }

  /**
   * Without a `Body` field the placeholder text splits into "No" and
   * "message text!", and "No" is not a date: the date-error reply, not the
   * parse-failure reply.
   */
  lemma MissingBodyReply(m: map<string, string>, today: Date)
    requires "Body" !in m
    ensures Respond(m, today).stored == None
    ensures Respond(m, today).response.message == DateErrorReply
  {
    assert NoMessageText == "No" + " " + "message text!";
    RespondRejectsDate(m, today, "No", "message text!");
  }

  /** The whole handler on decoded pairs: build the field map, then decide. */
  method HandleRequest(params: seq<Param>, today: Date) returns (r: Outcome)
    ensures r == Respond(ParamMap(params), today)
  {
    var paramMap := BuildParamMap(params);
    r := Respond(paramMap, today);
  }

  /** The split is at a space only: a name holding a newline is stored as it is. */
  lemma NewlineInNameStored(m: map<string, string>, today: Date)
    requires MessageText(m) == "01-01-2099 a\nb"
    requires Before(today, Date(1, 1, 2099))
    ensures Respond(m, today).stored == Some(CalendarEvent("01-01-2099", "a\nb"))
  {
    assert Fields("01-01-2099") == Date(1, 1, 2099);
    assert "01-01-2099 a\nb" == "01-01-2099" + " " + "a\nb";
    RespondAccepts(m, today, "01-01-2099", "a\nb");
  }
}
