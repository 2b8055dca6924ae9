/** server/server.c: serving one connection, from the bytes received to the bytes sent. */
module Server {
  import opened CStrings
  import opened JsonText
  import opened JsonBuffers
  import opened Http
  import opened Tables
  import SqlParser
  import opened SqlGrammar
  import opened SqlExecutor
  import opened JsonReader
  import opened Api

  const JSON_TYPE := "application/json; charset=utf-8"

  function HttpErrorName(status: int): (name: string)
    ensures NulFree(name)
  {
    match status
    case 404 => "not_found"
    case 405 => "method_not_allowed"
    case 408 => "request_timeout"
    case 413 => "payload_too_large"
    case 500 => "internal_error"
    case 503 => "queue_full"
    case _ => "bad_request"
  }

  method BuildErrorBody(status: string, message: string) returns (body: array<char>)
    requires NulFree(status) && NulFree(message)
    ensures fresh(body) && HoldsText(body, Print(FailureJson(status, message)))
  {
    var buffer := new JsonBuffer(128);
    AppendStatus(buffer, status);
    AppendMessage(buffer, message);
    FailureResponse(status, message);
    assert "" + (STATUS_KEY + JsonString(status)) == STATUS_KEY + JsonString(status);
    body := Finish(buffer);
  }

  /** The response to what was read from a connection. */
  function Reaction(people: seq<Person>, request: Request, wording: SqlParser.Message -> string): Response {
    match request
    case Refused(status, message) =>
      Response(status, Print(FailureJson(HttpErrorName(status), if message == "" then "Bad request" else message)))
    case Body(text) => Respond(people, Parse(CString(text)), wording)
  }

  function PeopleAfterRequest(people: seq<Person>, request: Request): seq<Person> {
    if request.Body? then PeopleAfterText(people, Parse(CString(request.text))) else people
  }

  function Sent(r: Response): string {
    ResponseBytes(r.httpStatus, JSON_TYPE, r.text)
  }

  /** What the header parser says is a C string. */
  ghost predicate PlainRefusals(parse: string -> HeaderOutcome) {
    forall h :: parse(h).Refuse? ==> NulFree(parse(h).message)
  }

  /** Computes the response to a request. */
  method React(table: Table, request: Request, raw: array?<char>, wording: SqlParser.Message -> string,
               ghost people: seq<Person>)
    returns (httpStatus: int, body: array<char>)
    requires Serves(table, people) && PlainWording(wording)
    requires request.Refused? ==> NulFree(request.message)
    requires request.Body? ==> raw != null && Terminated(raw, request.text)
    modifies table, table.owned
    ensures forall o :: o in table.owned ==> o in old(table.owned) || fresh(o)
    ensures Serves(table, PeopleAfterRequest(people, request))
    ensures var r := Reaction(people, request, wording); httpStatus == r.httpStatus && HoldsText(body, r.text)
  {
    if request.Refused? {
      httpStatus := request.status;
      body := BuildErrorBody(HttpErrorName(request.status), if request.message == "" then "Bad request" else request.message);
    } else {
      var sql := ReadCString(raw, request.text);
      httpStatus, body := HandleQuery(table, sql, wording, people);
    }
  }

  /** The peer got the whole response, or a proper prefix of it that only a fault can have cut off. */
  predicate Arrived(before: string, r: Response, now: string, harmless: bool) {
    || now == before + Sent(r)
    || (IsProperPrefix(before, Sent(r), now) && !(harmless && |Head(r.httpStatus, JSON_TYPE, |r.text|)| < 512))
  }

  /** Sends a response. */
  method Deliver(sink: Sink, httpStatus: int, body: array<char>, ghost text: string)
    requires HoldsText(body, text)
    modifies sink
    ensures Arrived(old(sink.sent), Response(httpStatus, text), sink.sent, old(Harmless(sink.events)))
  {
    var bodyText := ReadCString(body, text);
    assert text[..|text|] == text;
    CStringUnique(text, |text|);
    var ok := SendResponse(sink, httpStatus, JSON_TYPE, bodyText);
  }

  /** Tells a client whose connection the pool did not accept. */
  method TurnAway(sink: Sink)
    modifies sink
    ensures Arrived(old(sink.sent), Response(503, Print(FailureJson(BUSY_STATUS, BUSY_MESSAGE))), sink.sent,
                    old(Harmless(sink.events)))
  {
    BusyPlain();
    var body := BuildErrorBody(BUSY_STATUS, BUSY_MESSAGE);
    Deliver(sink, 503, body, Print(FailureJson(BUSY_STATUS, BUSY_MESSAGE)));
  }

  const BUSY_STATUS := "queue_full"
  const BUSY_MESSAGE := "Server is busy"

  lemma BusyPlain()
    ensures NulFree(BUSY_STATUS) && NulFree(BUSY_MESSAGE)
  {
  }

  method Receive(source: Source, parse: string -> HeaderOutcome) returns (request: Request, raw: array?<char>)
    requires source.Valid() && PlainRefusals(parse)
    modifies source
    ensures Faithful(request, old(source.Rest()), parse, old(Harmless(source.events)))
    ensures request.Refused? ==> NulFree(request.message)
    ensures request.Body? ==> raw != null && fresh(raw) && Terminated(raw, request.text)
  {
    request, raw := ReadRequest(source, parse);
    RefusalsPlain(request, old(source.Rest()), parse);
  }

  /** Reads a request and computes the response. */
  method ReadAndReact(source: Source, table: Table, parse: string -> HeaderOutcome, wording: SqlParser.Message -> string,
                ghost people: seq<Person>)
    returns (httpStatus: int, body: array<char>, ghost request: Request)
    requires source.Valid() && Serves(table, people) && PlainRefusals(parse) && PlainWording(wording)
    requires source !in table.owned
    modifies source, table, table.owned
    ensures forall o :: o in table.owned ==> o in old(table.owned) || fresh(o)
    ensures Faithful(request, old(source.Rest()), parse, old(Harmless(source.events)))
    ensures Serves(table, PeopleAfterRequest(people, request))
    ensures var r := Reaction(people, request, wording); httpStatus == r.httpStatus && HoldsText(body, r.text)
  {
    var read, raw := Receive(source, parse);
    request := read;
    httpStatus, body := React(table, read, raw, wording, people);
  }

  /**
   * Serves one connection. Without faults the bytes sent are a function of the rows and of the bytes
   * received, in whatever pieces both travel, and the table changes accordingly. With faults the
   * request handled is the right one or refused, and what is sent is a prefix of its response.
   */
  method HandleClient(source: Source, sink: Sink, table: Table, parse: string -> HeaderOutcome,
                      wording: SqlParser.Message -> string, ghost people: seq<Person>)
    returns (ghost request: Request)
    requires source.Valid() && Serves(table, people) && PlainRefusals(parse) && PlainWording(wording)
    requires source !in table.owned && sink !in table.owned
    modifies source, sink, table, table.owned
    ensures forall o :: o in table.owned ==> o in old(table.owned) || fresh(o)
    ensures Faithful(request, old(source.Rest()), parse, old(Harmless(source.events)))
    ensures Serves(table, PeopleAfterRequest(people, request))
    ensures Arrived(old(sink.sent), Reaction(people, request, wording), sink.sent, old(Harmless(sink.events)))
  {
    var httpStatus, body;
    httpStatus, body, request := ReadAndReact(source, table, parse, wording, people);
    Deliver(sink, httpStatus, body, Reaction(people, request, wording).text);
  }

  lemma RefusalsPlain(request: Request, stream: string, parse: string -> HeaderOutcome)
    requires PlainRefusals(parse) && (request == RequestIn(stream, parse) || IsFault(request))
    ensures request.Refused? ==> NulFree(request.message)
  {
    FaultsPlain();
    OversizePlain();
  }

  lemma FaultsPlain()
    ensures NulFree(TIMED_OUT.message) && NulFree(MALFORMED.message)
  {
  }

  lemma OversizePlain()
    ensures NulFree(UNREADABLE.message) && NulFree(INCOMPLETE.message) && NulFree(TOO_LARGE.message)
  {
  }

  lemma TypeOneLine()
    ensures OneLine(JSON_TYPE)
  {
  }
}
