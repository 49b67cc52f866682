/**
 The event stream: src/modules/events/sse.ts on the server, and a client that reads it by section 9.2.6 of the
 WHATWG HTML Living Standard. JSON.stringify is abstract: an event carries its JSON text.
 */
module EventStream {
  import opened Options
  import opened Strings

  datatype Sent = Sent(event: string, data: string, id: Option<string>)

  function FormatSseEvent(e: Sent): string {
    (if e.id.None? then "" else "id: " + e.id.value + "\n") + "event: " + e.event + "\ndata: " + e.data + "\n\n"
  }

  const PING := Sent("ping", "{}", None)

  function Stream(events: seq<Sent>): string {
    if events == [] then "" else FormatSseEvent(events[0]) + Stream(events[1..])
  }

  predicate OneLine(t: string) {
    '\n' !in t && '\r' !in t
  }

  predicate IsSendable(e: Sent) {
    OneLine(e.event) && OneLine(e.data) && (e.id.Some? ==> OneLine(e.id.value))
  }

  // ---- The client ----

  datatype Message = Message(kind: string, data: string, lastEventId: string)

  /** The buffers of the event source and the last event id string it has published. */
  datatype Client = Client(kind: string, data: string, idBuffer: string, lastEventId: string)

  /** The next line and what follows its end; None when the text has no complete line. */
  function NextLine(t: string): (r: Option<(string, string)>)
    ensures r.Some? ==> |r.value.1| < |t|
  {
    if t == "" then None
    else if t[0] == '\n' then Some(("", t[1..]))
    else if t[0] == '\r' then Some(("", if |t| > 1 && t[1] == '\n' then t[2..] else t[1..]))
    else
      var more := NextLine(t[1..]);
      if more.None? then None else Some(([t[0]] + more.value.0, more.value.1))
  }

  /** The text before the first colon; the whole line when there is none. */
  function FieldName(line: string): (name: string)
    ensures name <= line
  {
    if line == "" || line[0] == ':' then "" else [line[0]] + FieldName(line[1..])
  }

  function FieldValue(line: string): string {
    var after := line[|FieldName(line)|..];
    if after == "" then "" else if |after| > 1 && after[1] == ' ' then after[2..] else after[1..]
  }

  function AfterField(c: Client, name: string, value: string): Client {
    if name == "event" then c.(kind := value)
    else if name == "data" then c.(data := c.data + value + "\n")
    else if name == "id" && '\0' !in value then c.(idBuffer := value)
    else c
  }

  function AfterLine(c: Client, line: string): Client
    requires line != ""
  {
    if line[0] == ':' then c else AfterField(c, FieldName(line), FieldValue(line))
  }

  /** A blank line: publish the id, and the event unless it has no data. */
  function Dispatched(c: Client): Client {
    Client("", "", c.idBuffer, c.idBuffer)
  }

  function Messages(c: Client): seq<Message> {
    if c.data == "" then []
    else [Message(if c.kind == "" then "message" else c.kind, c.data[..|c.data| - 1], c.idBuffer)]
  }

  /** The messages a text makes the client dispatch, and the client after it. */
  function Receive(c: Client, t: string): (seq<Message>, Client)
    decreases |t|
  {
    var next := NextLine(t);
    if next.None? then ([], c)
    else if next.value.0 == "" then
      var (messages, last) := Receive(Dispatched(c), next.value.1);
      (Messages(c) + messages, last)
    else Receive(AfterLine(c, next.value.0), next.value.1)
  }

  // ---- What the client should see ----

  function LastId(e: Sent, before: string): string {
    if e.id.Some? && '\0' !in e.id.value then e.id.value else before
  }

  function LastIdOf(events: seq<Sent>, before: string): string {
    if events == [] then before else LastIdOf(events[1..], LastId(events[0], before))
  }

  function Seen(events: seq<Sent>, before: string): seq<Message> {
    if events == [] then []
    else
      var id := LastId(events[0], before);
      [Message(if events[0].event == "" then "message" else events[0].event, events[0].data, id)] + Seen(events[1..], id)
  }

  function Idle(id: string): Client {
    Client("", "", id, id)
  }

  // ---- Reading lines and fields ----

  lemma {:induction false} ReadsOneLine(line: string, rest: string)
    requires OneLine(line)
    ensures NextLine(line + "\n" + rest) == Some((line, rest))
  {
    var t := line + "\n" + rest;
    if line == "" {
      assert t == "\n" + rest && t[1..] == rest;
    } else {
      ReadsOneLine(line[1..], rest);
      assert t[1..] == line[1..] + "\n" + rest;
      assert [line[0]] + line[1..] == line;
    }
  }

  lemma {:induction false} NameIsRead(name: string, value: string)
    requires ':' !in name
    ensures FieldName(name + ": " + value) == name
  {
    var line := name + ": " + value;
    if name != "" {
      NameIsRead(name[1..], value);
      assert line[1..] == name[1..] + ": " + value;
      assert [name[0]] + name[1..] == name;
    }
  }

  lemma FieldIsRead(name: string, value: string)
    requires ':' !in name
    ensures FieldName(name + ": " + value) == name && FieldValue(name + ": " + value) == value
  {
    NameIsRead(name, value);
    var line := name + ": " + value;
    assert line[|name|..] == ": " + value;
    assert (": " + value)[2..] == value;
  }

  /** One formatted field line is one field for the client. */
  lemma ReceivesField(c: Client, name: string, value: string, rest: string)
    requires name != "" && ':' !in name && OneLine(name) && OneLine(value)
    ensures Receive(c, (name + ": " + value) + "\n" + rest) == Receive(AfterField(c, name, value), rest)
  {
    var line := name + ": " + value;
    ReadsOneLine(line, rest);
    FieldIsRead(name, value);
    assert line[0] == name[0];
  }

  lemma ReceivesBlank(c: Client, rest: string)
    ensures Receive(c, "\n" + rest) ==
            (Messages(c) + Receive(Dispatched(c), rest).0, Receive(Dispatched(c), rest).1)
  {
    assert ("\n" + rest)[1..] == rest;
  }

  // ---- One event ----

  lemma FormatIsLines(e: Sent, rest: string)
    ensures var tail := ("event" + ": " + e.event) + "\n" + (("data" + ": " + e.data) + "\n" + ("\n" + rest));
            FormatSseEvent(e) + rest ==
            if e.id.None? then tail else ("id" + ": " + e.id.value) + "\n" + tail
  {
    EventLines(e.event, e.data, rest);
    var body := "event: " + e.event + "\ndata: " + e.data + "\n\n";
    if e.id.None? {
      assert FormatSseEvent(e) == body;
    } else {
      var first := "id: " + e.id.value + "\n";
      assert FormatSseEvent(e) == first + body;
      ConcatAssociates(first, body, rest);
      assert "id" + ": " + e.id.value == "id: " + e.id.value;
    }
  }

  lemma EventLines(event: string, data: string, rest: string)
    ensures ("event: " + event + "\ndata: " + data + "\n\n") + rest ==
            ("event" + ": " + event) + "\n" + (("data" + ": " + data) + "\n" + ("\n" + rest))
  {
    var a, b := "event: " + event, "data: " + data;
    assert "event: " + event + "\ndata: " + data + "\n\n" == a + ("\n" + (b + ("\n" + "\n")));
    assert (a + ("\n" + (b + ("\n" + "\n")))) + rest == a + "\n" + (b + "\n" + ("\n" + rest));
    assert "event" + ": " + event == a && "data" + ": " + data == b;
  }

  /** Every formatted event is one message, whatever follows it. */
  lemma ReceivesEvent(e: Sent, before: string, rest: string)
    requires IsSendable(e)
    ensures var id := LastId(e, before);
            Receive(Idle(before), FormatSseEvent(e) + rest) ==
            ([Message(if e.event == "" then "message" else e.event, e.data, id)] + Receive(Idle(id), rest).0,
             Receive(Idle(id), rest).1)
  {
    var id := LastId(e, before);
    FormatIsLines(e, rest);
    var last := "\n" + rest;
    var dataOn := ("data" + ": " + e.data) + "\n" + last;
    var eventOn := ("event" + ": " + e.event) + "\n" + dataOn;
    var started := Client("", "", id, before);
    if e.id.Some? {
      ReceivesField(Idle(before), "id", e.id.value, eventOn);
    }
    ReceivesField(started, "event", e.event, dataOn);
    ReceivesField(started.(kind := e.event), "data", e.data, last);
    FullMessage(e, id, before, rest);
  }

  lemma FullMessage(e: Sent, id: string, before: string, rest: string)
    ensures Receive(Client(e.event, "" + e.data + "\n", id, before), "\n" + rest) ==
            ([Message(if e.event == "" then "message" else e.event, e.data, id)] + Receive(Idle(id), rest).0,
             Receive(Idle(id), rest).1)
  {
    var c := Client(e.event, "" + e.data + "\n", id, before);
    ReceivesBlank(c, rest);
    assert c.data[..|c.data| - 1] == e.data;
  }

  // ---- Whole streams ----

  /** Any stream of one-line events reads back as the same events, each with the id of the last one that carried one. */
  lemma {:induction false} StreamReadsBack(events: seq<Sent>, before: string)
    requires forall i :: 0 <= i < |events| ==> IsSendable(events[i])
    ensures Receive(Idle(before), Stream(events)) == (Seen(events, before), Idle(LastIdOf(events, before)))
  {
    if events != [] {
      ReceivesEvent(events[0], before, Stream(events[1..]));
      StreamReadsBack(events[1..], LastId(events[0], before));
    }
  }

  function Carrying(events: seq<Sent>): seq<Sent> {
    if events == [] then []
    else (if events[0].id.Some? then [events[0]] else []) + Carrying(events[1..])
  }

  /** Events without an id, pings among them, never change where the client will resume. */
  lemma {:induction false} OnlyIdsMoveTheResumePoint(events: seq<Sent>, before: string)
    ensures LastIdOf(events, before) == LastIdOf(Carrying(events), before)
    ensures Carrying([PING] + events) == Carrying(events)
  {
    assert ([PING] + events)[1..] == events;
    if events != [] {
      OnlyIdsMoveTheResumePoint(events[1..], LastId(events[0], before));
      if events[0].id.Some? {
        assert Carrying(events)[1..] == Carrying(events[1..]);
      } else {
        assert Carrying(events) == Carrying(events[1..]);
      }
    }
  }

  // ---- Resuming ----

  predicate IsDigit(c: char) {
    '0' <= c <= '9'
  }

  predicate AllDigits(t: string) {
    forall i :: 0 <= i < |t| ==> IsDigit(t[i])
  }

  /** EVENT_ID_PATTERN. */
  predicate IsEventId(t: string) {
    1 <= |t| <= 18 && AllDigits(t)
  }

  function TrimStart(t: string): string {
    if t != "" && IsSpace(t[0]) then TrimStart(t[1..]) else t
  }

  function TrimEnd(t: string): string {
    if t != "" && IsSpace(t[|t| - 1]) then TrimEnd(t[..|t| - 1]) else t
  }

  function Trim(t: string): string {
    TrimEnd(TrimStart(t))
  }

  /** BigInt(t). */
  function Value(t: string): nat
    requires AllDigits(t)
  {
    if t == "" then 0 else Value(t[..|t| - 1]) * 10 + (t[|t| - 1] - '0') as nat
  }

  predicate Resolves(candidate: Option<string>) {
    candidate.Some? && IsEventId(Trim(candidate.value))
  }

  function Resolved(candidates: seq<Option<string>>): Option<string> {
    if candidates == [] then None
    else if Resolves(candidates[0]) then Some(Decimal(Value(Trim(candidates[0].value))))
    else Resolved(candidates[1..])
  }

  /** A candidate that is not a string is None. */
  method ResolveLastEventId(header: Option<string>, query: Option<string>) returns (id: Option<string>)
    ensures id == Resolved([header, query])
    ensures id.Some? ==> IsEventId(id.value) && (id.value[0] == '0' ==> id.value == "0")
    ensures id.Some? <==> Resolves(header) || Resolves(query)
    ensures id.Some? ==> Value(id.value) == Value(Trim(if Resolves(header) then header.value else query.value))
    ensures id.Some? ==> Value(id.value) < 0x8000_0000_0000_0000
  {
    var candidates := [header, query];
    for i := 0 to |candidates|
      invariant Resolved(candidates) == Resolved(candidates[i..])
      invariant forall k :: 0 <= k < i ==> !Resolves(candidates[k])
    {
      var candidate := candidates[i];
      if Resolves(candidate) {
        var t := Trim(candidate.value);
        ValueIsSmall(t);
        DecimalIsEventId(Value(t));
        DecimalIsCanonical(Value(t));
        ValueOfDecimal(Value(t));
        return Some(Decimal(Value(t)));
      }
      assert candidates[i..][1..] == candidates[i + 1..];
    }
    return None;
  }

  function Pow10(k: nat): nat {
    if k == 0 then 1 else 10 * Pow10(k - 1)
  }

  lemma {:induction false} ValueIsBelow(t: string)
    requires AllDigits(t)
    ensures Value(t) < Pow10(|t|)
  {
    if t != "" {
      ValueIsBelow(t[..|t| - 1]);
    }
  }

  lemma {:induction false} Pow10Grows(j: nat, k: nat)
    requires j <= k
    ensures Pow10(j) <= Pow10(k)
  {
    if j < k {
      Pow10Grows(j, k - 1);
    }
  }

  const LIMIT: nat := 1_000_000_000_000_000_000

  lemma LimitIsPow10()
    ensures Pow10(18) == LIMIT
  {
    assert Pow10(6) == 1_000_000;
    assert Pow10(12) == 1_000_000_000_000;
  }

  lemma ValueIsSmall(t: string)
    requires IsEventId(t)
    ensures Value(t) < LIMIT
  {
    ValueIsBelow(t);
    Pow10Grows(|t|, 18);
    LimitIsPow10();
  }

  lemma {:induction false} ValueOfDecimal(n: nat)
    ensures AllDigits(Decimal(n)) && Value(Decimal(n)) == n
  {
    if n < 10 {
      assert Decimal(n)[..0] == "";
    } else {
      ValueOfDecimal(n / 10);
      assert Decimal(n)[..|Decimal(n)| - 1] == Decimal(n / 10);
    }
  }

  lemma {:induction false} DecimalIsCanonical(n: nat)
    ensures Decimal(n)[0] == '0' <==> n == 0
    ensures n == 0 ==> Decimal(n) == "0"
  {
    if n >= 10 {
      DecimalIsCanonical(n / 10);
    }
  }

  lemma {:induction false} DecimalLength(n: nat, k: nat)
    requires k > 0
    ensures |Decimal(n)| <= k <==> n < Pow10(k)
    decreases k
  {
    if k == 1 {
      assert Pow10(1) == 10;
      if n >= 10 {
        assert |Decimal(n)| == |Decimal(n / 10)| + 1;
      }
    } else {
      if n >= 10 {
        DecimalLength(n / 10, k - 1);
        assert n < 10 * Pow10(k - 1) <==> n / 10 < Pow10(k - 1);
      } else {
        Pow10Grows(1, k);
        assert Pow10(1) == 10;
      }
    }
  }

  /** A number's text is accepted as an event id exactly below 10^18: larger sequence numbers do not resume. */
  lemma DecimalIsEventId(n: nat)
    ensures IsEventId(Decimal(n)) <==> n < LIMIT
  {
    DecimalLength(n, 18);
    LimitIsPow10();
    ValueOfDecimal(n);
  }

  lemma DigitsAreTrimmed(t: string)
    requires AllDigits(t)
    ensures Trim(t) == t
  {
    if t != "" {
      assert IsDigit(t[0]) && IsDigit(t[|t| - 1]);
    }
  }

  /** Resolving what was resolved changes nothing. */
  lemma ResolvingTwiceIsOnce(header: Option<string>, query: Option<string>, other: Option<string>)
    ensures Resolved([header, query]).Some? ==>
              Resolved([Resolved([header, query]), other]) == Resolved([header, query])
  {
    if Resolves(header) || Resolves(query) {
      var t := Trim(if Resolves(header) then header.value else query.value);
      ResolvedPair(header, query);
      ValueIsSmall(t);
      NumberResolvesToItself(Value(t), other);
    } else {
      ResolvedPair(header, query);
    }
  }

  lemma ResolvedPair(header: Option<string>, query: Option<string>)
    ensures Resolved([header, query]) ==
            if Resolves(header) then Some(Decimal(Value(Trim(header.value))))
            else if Resolves(query) then Some(Decimal(Value(Trim(query.value))))
            else None
  {
    var last := [query];
    assert last[1..] == [];
    assert Resolved(last) == if Resolves(query) then Some(Decimal(Value(Trim(query.value)))) else None;
    var both := [header, query];
    assert both[1..] == last;
  }

  lemma NumberResolvesToItself(n: nat, other: Option<string>)
    requires n < LIMIT
    ensures Resolved([Some(Decimal(n)), other]) == Some(Decimal(n))
  {
    DecimalIsEventId(n);
    ValueOfDecimal(n);
    DigitsAreTrimmed(Decimal(n));
    ResolvedPair(Some(Decimal(n)), other);
  }

  /** After any stream whose ids are sequence numbers, the client resumes from the last one, if it is below 10^18. */
  lemma ReconnectResumesExactlyWhen(events: seq<Sent>, n: nat)
    requires forall i :: 0 <= i < |events| ==> IsSendable(events[i])
    requires LastIdOf(events, "") == Decimal(n)
    ensures var client := Receive(Idle(""), Stream(events)).1;
            Resolved([Some(client.lastEventId), None]) == Some(Decimal(n)) <==> n < LIMIT
  {
    StreamReadsBack(events, "");
    if n < LIMIT {
      NumberResolvesToItself(n, None);
    } else {
      LargeNumberIsIgnored(n);
    }
  }

  /** One event numbered 10^18 or more: the client remembers its id, and the server ignores it on reconnection. */
  lemma LargeIdDoesNotResume(n: nat)
    requires LIMIT <= n
    ensures IsSendable(Sent("notification", "{}", Some(Decimal(n))))
    ensures var client := Receive(Idle(""), Stream([Sent("notification", "{}", Some(Decimal(n)))])).1;
            client.lastEventId == Decimal(n) && Resolved([Some(client.lastEventId), None]) == None
  {
    ValueOfDecimal(n);
    DigitsAreOneLine(Decimal(n));
    OneEventId(Decimal(n));
    LargeNumberIsIgnored(n);
  }

  lemma DigitsAreOneLine(t: string)
    requires AllDigits(t)
    ensures OneLine(t) && '\0' !in t
  {
    assert forall c :: c in t ==> IsDigit(c);
  }

  lemma LargeNumberIsIgnored(n: nat)
    requires LIMIT <= n
    ensures Resolved([Some(Decimal(n)), None]) == None
  {
    DecimalIsEventId(n);
    ValueOfDecimal(n);
    DigitsAreTrimmed(Decimal(n));
    ResolvedPair(Some(Decimal(n)), None);
  }

  lemma OneEventId(id: string)
    requires OneLine(id) && '\0' !in id
    ensures Receive(Idle(""), Stream([Sent("notification", "{}", Some(id))])).1.lastEventId == id
  {
    var e := Sent("notification", "{}", Some(id));
    StreamReadsBack([e], "");
    assert [e][1..] == [];
    assert LastIdOf([e], "") == LastIdOf([], id);
  }

  // ---- The client reads other streams too ----

  /** A line ends where a line feed or a carriage return stands, and both together end one line. */
  lemma {:induction false} LineEnds(line: string, end: string, rest: string)
    requires OneLine(line) && (end == "\n" || end == "\r\n" || (end == "\r" && !("\n" <= rest)))
    ensures NextLine(line + (end + rest)) == Some((line, rest))
  {
    var t := line + (end + rest);
    if line == "" {
      assert t == end + rest;
      assert (end + rest)[|end|..] == rest;
    } else {
      LineEnds(line[1..], end, rest);
      assert t[1..] == line[1..] + (end + rest);
      assert [line[0]] + line[1..] == line;
    }
  }

  /** A line that does not end is not read. */
  lemma {:induction false} UnendedLine(line: string)
    requires OneLine(line)
    ensures NextLine(line) == None
  {
    if line != "" {
      UnendedLine(line[1..]);
    }
  }

  /** A field's value starts after the colon, and after one space if there is one. */
  lemma ValueStarts(name: string, value: string)
    requires ':' !in name
    ensures FieldName(name + ":" + value) == name
    ensures FieldValue(name + ": " + value) == value
    ensures !(" " <= value) ==> FieldValue(name + ":" + value) == value
  {
    NameEnds(name, ":" + value);
    NameEnds(name, ": " + value);
    assert name + ":" + value == name + (":" + value) && name + ": " + value == name + (": " + value);
    assert (name + (":" + value))[|name|..] == ":" + value && (name + (": " + value))[|name|..] == ": " + value;
    assert value == "" || (":" + value)[1] == value[0];
  }

  lemma {:induction false} NameEnds(name: string, rest: string)
    requires ':' !in name && rest != "" && rest[0] == ':'
    ensures FieldName(name + rest) == name
  {
    if name != "" {
      NameEnds(name[1..], rest);
      assert (name + rest)[1..] == name[1..] + rest;
    } else {
      assert name + rest == rest;
    }
  }
}
