/**
 * From end to end: what a client reads, with readers of its own, in answer to the bytes it sent. All
 * names and numbers are spelled out here as they go over the wire.
 */
module Clients {
  import opened Records
  import opened Decimals
  import opened CStrings
  import opened JsonReader
  import opened Http
  import opened HttpReader
  import opened SqlParser
  import opened SqlGrammar
  import opened SqlExecutor
  import opened QueryTexts
  import opened Api
  import opened Server

  // ---------------------------------------------------------------- one exchange

  /** A request body with its header: the header ends at its first blank line and announces the body. */
  predicate Posts(h: string, b: string, parse: string -> HeaderOutcome) {
    NoBlankLine(h) && |h| + 4 <= 8192 && parse(h) == Length(|b|) && |b| <= 4096
  }

  /** What serving a connection without faults guarantees; the length of a response fits 64 bits. */
  ghost predicate Served(people: seq<Person>, stream: string, parse: string -> HeaderOutcome,
                         wording: Message -> string, request: Request, sent: string) {
    var r := Reaction(people, request, wording);
    Faithful(request, stream, parse, true) && Arrived("", r, sent, true) && |r.text| < 0x1_0000_0000_0000_0000
  }

  /** The client gets a response with this status line and this JSON value in its body, and nothing else. */
  predicate Gets(sent: string, status: int, reason: string, j: Json) {
    var r := ReadResponse(sent);
    && r.Read? && r.rest == "" && r.value.status == status && r.value.reason == reason
    && r.value.headers != [] && r.value.headers[0] == "Content-Type: " + "application/json; charset=utf-8"
    && ReadValue(r.value.body) == Read(j, "")
  }

  function Tens(k: nat): nat {
    if k == 0 then 1 else 10 * Tens(k - 1)
  }

  lemma {:induction false} NatTextShort(n: nat, k: nat)
    requires k >= 1 && n < Tens(k)
    ensures |NatText(n)| <= k
  {
    if n >= 10 {
      NatTextShort(n / 10, k - 1);
    }
  }

  lemma IntTextShort(n: int)
    requires -0x1_0000_0000_0000_0000 < n < 0x1_0000_0000_0000_0000
    ensures |IntText(n)| <= 21
  {
    assert Tens(2) == 100;
    assert Tens(4) == 10_000;
    assert Tens(6) == 1_000_000;
    assert Tens(8) == 100_000_000;
    assert Tens(10) == 10_000_000_000;
    assert Tens(12) == 1_000_000_000_000;
    assert Tens(14) == 100_000_000_000_000;
    assert Tens(16) == 10_000_000_000_000_000;
    assert Tens(18) == 1_000_000_000_000_000_000;
    assert Tens(20) == 100_000_000_000_000_000_000;
    NatTextShort(if n < 0 then -n else n, 20);
  }

  /** The head of a response fits the buffer it is formatted in. */
  lemma HeadFits(status: int, length: nat)
    requires -0x8000_0000 <= status <= 0x7fff_ffff && length < 0x1_0000_0000_0000_0000
    ensures |Head(status, JSON_TYPE, length)| < 512
  {
    IntTextShort(status);
    IntTextShort(length);
    assert |StatusReason(status)| <= 21;
    assert |TYPE_KEY + JSON_TYPE| == 45 && |PROTOCOL| == 9 && |LENGTH_KEY| == 16 && |CLOSE_LINE| == 17;
  }

  /** Without faults the whole response arrives. */
  lemma WholeArrives(r: Response, sent: string)
    requires Arrived("", r, sent, true)
    requires -0x8000_0000 <= r.httpStatus <= 0x7fff_ffff && |r.text| < 0x1_0000_0000_0000_0000
    ensures sent == Sent(r)
  {
    HeadFits(r.httpStatus, |r.text|);
    assert "" + Sent(r) == Sent(r);
  }

  lemma ReplyArrives(r: Response, sent: string, j: Json)
    requires sent == Sent(r) && ReadValue(r.text) == Read(j, "")
    ensures Gets(sent, r.httpStatus, StatusReason(r.httpStatus), j)
  {
    TypeOneLine();
    ResponseIsRead(r.httpStatus, JSON_TYPE, r.text, "");
    assert Sent(r) + "" == Sent(r);
  }

  /** The client gets what the body of its request is answered with. */
  lemma ExchangeIs(people: seq<Person>, h: string, b: string, rest: string, parse: string -> HeaderOutcome,
                   wording: Message -> string, request: Request, sent: string,
                   j: Json)
    requires Posts(h, b, parse) && Served(people, h + "\r\n\r\n" + b + rest, parse, wording, request, sent)
    requires ReadValue(Respond(people, Parse(CString(b)), wording).text) == Read(j, "")
    ensures var status := Respond(people, Parse(CString(b)), wording).httpStatus;
      Gets(sent, status, StatusReason(status), j)
    ensures request == Body(b)
  {
    BodyIsRead(request, h, b, rest, parse);
    var r := Reaction(people, request, wording);
    WholeArrives(r, sent);
    ReplyArrives(r, sent, j);
  }

  /** Statements that are executed or refused are answered with status 200. */
  lemma ExchangeIsOk(people: seq<Person>, h: string, b: string, rest: string, parse: string -> HeaderOutcome,
                     wording: Message -> string, request: Request, sent: string, j: Json)
    requires Posts(h, b, parse) && Served(people, h + "\r\n\r\n" + b + rest, parse, wording, request, sent)
    requires var r := Respond(people, Parse(CString(b)), wording); r.httpStatus == 200 && ReadValue(r.text) == Read(j, "")
    ensures Gets(sent, 200, "OK", j) && request == Body(b)
  {
    ExchangeIs(people, h, b, rest, parse, wording, request, sent, j);
    OkReason();
  }

  lemma OkReason()
    ensures StatusReason(200) == "OK"
  {
  }

  // ---------------------------------------------------------------- SELECT

  /** The client gets a row list with exactly these rows, in this order. */
  ghost predicate GetsRows(sent: string, items: Items, rows: seq<Record>) {
    && Gets(sent, 200, "OK", Object(
         Member("ok", Bool(true),
         Member("action", Str("select"),
         Member("row_count", Num(|rows|),
         Member("rows", List(items), NoMembers))))))
    && Says(items, rows)
  }

  /** Some of the stored rows, once each, in ascending id order. */
  ghost predicate Chosen(people: seq<Person>, rows: seq<Record>) {
    && (forall r :: r in rows ==> r in Listing(people))
    && (forall i, j :: 0 <= i < j < |rows| ==> rows[i].id < rows[j].id)
  }

  /** Whoever sends a SELECT gets the rows it returns. */
  lemma ClientGetsRows(people: seq<Person>, h: string, b: string, rest: string, parse: string -> HeaderOutcome,
                       wording: Message -> string, request: Request, sent: string)
    returns (items: Items)
    requires Posts(h, b, parse) && Served(people, h + "\r\n\r\n" + b + rest, parse, wording, request, sent)
    requires Parse(CString(b)).Parsed? && IsSelect(Parse(CString(b)).command.kind)
    ensures GetsRows(sent, items, TextAnswer(people, Parse(CString(b))).records)
    ensures PeopleAfterRequest(people, request) == people
  {
    var rows := TextAnswer(people, Parse(CString(b))).records;
    items := ClientLearnsRows(people, CString(b), wording);
    ExchangeIsOk(people, h, b, rest, parse, wording, request, sent, Object(
      Member("ok", Bool(true),
      Member("action", Str("select"),
      Member("row_count", Num(|rows|),
      Member("rows", List(items), NoMembers))))));
  }

  /** All rows, numbered from one in the order they were stored. */
  lemma ClientGetsAll(people: seq<Person>, h: string, b: string, rest: string, parse: string -> HeaderOutcome,
                      wording: Message -> string, request: Request, sent: string,
                      y: Style)
    returns (items: Items)
    requires Posts(h, b, parse) && Served(people, h + "\r\n\r\n" + b + rest, parse, wording, request, sent)
    requires StyleOk(y) && CString(b) == SelectAllText(y)
    ensures GetsRows(sent, items, Listing(people)) && PeopleAfterRequest(people, request) == people
  {
    SelectAllIsParsed(y);
    SelectAllAnswers(people, y);
    items := ClientGetsRows(people, h, b, rest, parse, wording, request, sent);
  }

  /** The rows whose age compares so to the number in the statement. */
  lemma ClientGetsAges(people: seq<Person>, h: string, b: string, rest: string, parse: string -> HeaderOutcome,
                       wording: Message -> string, request: Request, sent: string,
                       y: Style, sign: string, n: int)
    returns (items: Items, rows: seq<Record>)
    requires Posts(h, b, parse) && Served(people, h + "\r\n\r\n" + b + rest, parse, wording, request, sent)
    requires StyleOk(y) && Spelled(y.column, "AGE", "age") && IsSign(sign) && -0x8000_0000 <= n <= 0x7fff_ffff
    requires CString(b) == WhereText(y, sign, IntText(n))
    ensures GetsRows(sent, items, rows) && Chosen(people, rows) && PeopleAfterRequest(people, request) == people
    ensures forall r :: r in Listing(people) ==>
              && (sign == "=" ==> (r in rows <==> r.age == n))
              && (sign == "<" ==> (r in rows <==> r.age < n))
              && (sign == "<=" ==> (r in rows <==> r.age <= n))
              && (sign == ">" ==> (r in rows <==> r.age > n))
              && (sign == ">=" ==> (r in rows <==> r.age >= n))
  {
    AgeConditionAnswers(people, y, sign, n);
    SelectionMade(people, CString(b));
    rows := TextAnswer(people, Parse(CString(b))).records;
    items := ClientGetsRows(people, h, b, rest, parse, wording, request, sent);
  }

  /** The rows whose id compares so to the number in the statement. */
  lemma ClientGetsIds(people: seq<Person>, h: string, b: string, rest: string, parse: string -> HeaderOutcome,
                      wording: Message -> string, request: Request, sent: string,
                      y: Style, sign: string, n: int)
    returns (items: Items, rows: seq<Record>)
    requires Posts(h, b, parse) && Served(people, h + "\r\n\r\n" + b + rest, parse, wording, request, sent)
    requires StyleOk(y) && Spelled(y.column, "ID", "id") && IsSign(sign) && -0x8000_0000 <= n <= 0x7fff_ffff
    requires CString(b) == WhereText(y, sign, IntText(n))
    ensures GetsRows(sent, items, rows) && Chosen(people, rows) && PeopleAfterRequest(people, request) == people
    ensures forall r :: r in Listing(people) ==>
              && (sign == "=" ==> (r in rows <==> r.id == n))
              && (sign == "<" ==> (r in rows <==> r.id < n))
              && (sign == "<=" ==> (r in rows <==> r.id <= n))
              && (sign == ">" ==> (r in rows <==> r.id > n))
              && (sign == ">=" ==> (r in rows <==> r.id >= n))
  {
    IdConditionAnswers(people, y, sign, n);
    SelectionMade(people, CString(b));
    rows := TextAnswer(people, Parse(CString(b))).records;
    items := ClientGetsRows(people, h, b, rest, parse, wording, request, sent);
  }

  /** The rows with the name in the statement. */
  lemma ClientGetsNames(people: seq<Person>, h: string, b: string, rest: string, parse: string -> HeaderOutcome,
                        wording: Message -> string, request: Request, sent: string,
                        y: Style, name: string)
    returns (items: Items, rows: seq<Record>)
    requires Posts(h, b, parse) && Served(people, h + "\r\n\r\n" + b + rest, parse, wording, request, sent)
    requires StyleOk(y) && Spelled(y.column, "NAME", "name") && |name| <= 63 && '\'' !in name
    requires CString(b) == WhereText(y, "=", "'" + (name + "'"))
    ensures GetsRows(sent, items, rows) && Chosen(people, rows) && PeopleAfterRequest(people, request) == people
    ensures forall r :: r in Listing(people) ==> (r in rows <==> r.name == name)
  {
    NameConditionAnswers(people, y, name);
    SelectionMade(people, CString(b));
    rows := TextAnswer(people, Parse(CString(b))).records;
    items := ClientGetsRows(people, h, b, rest, parse, wording, request, sent);
  }

  /** Only a SELECT is answered by a selection. */
  lemma SelectionMade(people: seq<Person>, s: string)
    requires IsSelection(people, TextAnswer(people, Parse(s)))
    ensures Parse(s).Parsed? && IsSelect(Parse(s).command.kind) && Chosen(people, TextAnswer(people, Parse(s)).records)
  {
  }

  // ---------------------------------------------------------------- INSERT

  /** Whoever sends an INSERT gets the next id, and from then on the row is in the table under it. */
  lemma ClientGetsId(people: seq<Person>, h: string, b: string, rest: string, parse: string -> HeaderOutcome,
                     wording: Message -> string, request: Request, sent: string,
                     y: InsertStyle, name: string, n: int)
    requires Posts(h, b, parse) && Served(people, h + "\r\n\r\n" + b + rest, parse, wording, request, sent)
    requires InsertStyleOk(y) && |name| <= 63 && '\'' !in name && -0x8000_0000 <= n <= 0x7fff_ffff
    requires CString(b) == InsertTextOf(y, name, IntText(n))
    ensures Gets(sent, 200, "OK", Object(
              Member("ok", Bool(true),
              Member("action", Str("insert"),
              Member("inserted_id", Num(|people| + 1),
              Member("row_count", Num(1), NoMembers))))))
    ensures PeopleAfterRequest(people, request) == people + [Person(name, n)]
    ensures Listing(PeopleAfterRequest(people, request)) == Listing(people) + [Record(|people| + 1, name, n)]
  {
    InsertIsParsed(y, name, n);
    InsertAnswers(people, y, name, n);
    ClientLearnsId(people, CString(b), wording);
    ExchangeIsOk(people, h, b, rest, parse, wording, request, sent, Object(
      Member("ok", Bool(true),
      Member("action", Str("insert"),
      Member("inserted_id", Num(|people| + 1),
      Member("row_count", Num(1), NoMembers))))));
  }

  // ---------------------------------------------------------------- errors

  /** EXIT and QUIT do not stop the server. */
  lemma ClientGetsNoExit(people: seq<Person>, h: string, b: string, rest: string, parse: string -> HeaderOutcome,
                         wording: Message -> string, request: Request, sent: string,
                         g1: string, word: string, g2: string, semicolon: bool, g3: string)
    requires Posts(h, b, parse) && Served(people, h + "\r\n\r\n" + b + rest, parse, wording, request, sent)
    requires Blank(g1) && Blank(g2) && Blank(g3) && (!semicolon ==> g3 == "")
    requires Spelled(word, "EXIT", "exit") || Spelled(word, "QUIT", "quit")
    requires CString(b) == g1 + (word + EndText(g2, semicolon, g3))
    ensures Gets(sent, 400, "Bad Request", Object(
              Member("ok", Bool(false),
              Member("status", Str("exit_not_supported"),
              Member("message", Str("EXIT and QUIT are not supported over HTTP"), NoMembers)))))
    ensures PeopleAfterRequest(people, request) == people
  {
    ExitAnswers(people, g1, word, g2, semicolon, g3);
    ClientLearnsExit(people, CString(b), wording);
    ExchangeIs(people, h, b, rest, parse, wording, request, sent, Object(
      Member("ok", Bool(false),
      Member("status", Str("exit_not_supported"),
      Member("message", Str("EXIT and QUIT are not supported over HTTP"), NoMembers)))));
  }

  /** An error of SQL, with its numbers in MySQL. */
  predicate GetsError(sent: string, status: string, code: int, state: string, message: string) {
    Gets(sent, 200, "OK", Object(
      Member("ok", Bool(false),
      Member("status", Str(status),
      Member("error_code", Num(code),
      Member("sql_state", Str(state),
      Member("message", Str(if message == "" then "Unknown SQL error" else message), NoMembers)))))))
  }

  /** A refused statement changes nothing, and the client learns which of the two errors it is. */
  lemma ClientGetsError(people: seq<Person>, h: string, b: string, rest: string, parse: string -> HeaderOutcome,
                        wording: Message -> string, request: Request, sent: string)
    requires Posts(h, b, parse) && Served(people, h + "\r\n\r\n" + b + rest, parse, wording, request, sent)
    requires !Parse(CString(b)).Parsed?
    ensures PeopleAfterRequest(people, request) == people
    ensures match Parse(CString(b))
            case SyntaxError(near) => GetsError(sent, "syntax_error", 1064, "42000", wording(NearText(near)))
            case UnknownColumn(column, clause) => GetsError(sent, "query_error", 1054, "42S22", wording(NoColumn(column, clause)))
            case _ => false
  {
    ParseIsTotal(CString(b));
    match Parse(CString(b))
    case SyntaxError(near) =>
      ClientLearnsSyntaxError(people, CString(b), wording);
      var m := wording(NearText(near));
      ExchangeIsOk(people, h, b, rest, parse, wording, request, sent, Object(
        Member("ok", Bool(false),
        Member("status", Str("syntax_error"),
        Member("error_code", Num(1064),
        Member("sql_state", Str("42000"),
        Member("message", Str(if m == "" then "Unknown SQL error" else m), NoMembers)))))));
    case UnknownColumn(column, clause) =>
      ClientLearnsUnknownColumn(people, CString(b), wording);
      var m := wording(NoColumn(column, clause));
      ExchangeIsOk(people, h, b, rest, parse, wording, request, sent, Object(
        Member("ok", Bool(false),
        Member("status", Str("query_error"),
        Member("error_code", Num(1054),
        Member("sql_state", Str("42S22"),
        Member("message", Str(if m == "" then "Unknown SQL error" else m), NoMembers)))))));
  }

  /** What stands in the status line and in the body for each status of a refusal. */
  predicate RefusalNames(status: int, reason: string, name: string) {
    match status
    case 400 => reason == "Bad Request" && name == "bad_request"
    case 404 => reason == "Not Found" && name == "not_found"
    case 405 => reason == "Method Not Allowed" && name == "method_not_allowed"
    case 408 => reason == "Request Timeout" && name == "request_timeout"
    case 413 => reason == "Payload Too Large" && name == "payload_too_large"
    case 500 => reason == "Internal Server Error" && name == "internal_error"
    case 503 => reason == "Service Unavailable" && name == "queue_full"
    case _ => reason == "OK" && name == "bad_request"
  }

  predicate GetsRefusal(sent: string, status: int, reason: string, name: string, message: string) {
    && RefusalNames(status, reason, name)
    && Gets(sent, status, reason, Object(
         Member("ok", Bool(false),
         Member("status", Str(name),
         Member("message", Str(message), NoMembers)))))
  }

  lemma NamesOfRefusal(status: int)
    ensures RefusalNames(status, StatusReason(status), HttpErrorName(status))
  {
  }

  /** Whoever sends a request that is refused learns why, and nothing changes. */
  lemma ClientGetsRefusal(people: seq<Person>, stream: string, parse: string -> HeaderOutcome,
                          wording: Message -> string, request: Request, sent: string)
    returns (reason: string, name: string)
    requires Served(people, stream, parse, wording, request, sent)
    requires request.Refused? && -0x8000_0000 <= request.status <= 0x7fff_ffff
    ensures GetsRefusal(sent, request.status, reason, name, if request.message == "" then "Bad request" else request.message)
    ensures PeopleAfterRequest(people, request) == people
  {
    reason, name := StatusReason(request.status), HttpErrorName(request.status);
    NamesOfRefusal(request.status);
    var r := Reaction(people, request, wording);
    ReadWhole(FailureJson(name, if request.message == "" then "Bad request" else request.message));
    WholeArrives(r, sent);
    ReplyArrives(r, sent, FailureJson(name, if request.message == "" then "Bad request" else request.message));
  }

  /** A body that is announced as longer than 4096 bytes is refused before it is read. */
  lemma ClientGetsTooLarge(people: seq<Person>, h: string, rest: string, parse: string -> HeaderOutcome,
                           wording: Message -> string, request: Request, sent: string)
    requires NoBlankLine(h) && |h| + 4 <= 8192 && parse(h).Length? && parse(h).value > 4096
    requires Served(people, h + "\r\n\r\n" + rest, parse, wording, request, sent)
    ensures GetsRefusal(sent, 413, "Payload Too Large", "payload_too_large", "Request body is too large")
    ensures PeopleAfterRequest(people, request) == people
  {
    HeadedRequest(request, h, rest, parse);
    var reason, name := ClientGetsRefusal(people, h + "\r\n\r\n" + rest, parse, wording, request, sent);
  }

  /** A client that the pool has no place for is told so. */
  lemma ClientGetsBusy(sent: string)
    requires Arrived("", Response(503, Print(FailureJson(BUSY_STATUS, BUSY_MESSAGE))), sent, true)
    ensures GetsRefusal(sent, 503, "Service Unavailable", "queue_full", "Server is busy")
  {
    var j := FailureJson(BUSY_STATUS, BUSY_MESSAGE);
    BusyIsShort();
    ReadWhole(j);
    NamesOfRefusal(503);
    WholeArrives(Response(503, Print(j)), sent);
    ReplyArrives(Response(503, Print(j)), sent, j);
  }

  lemma BusyIsShort()
    ensures |Print(FailureJson(BUSY_STATUS, BUSY_MESSAGE))| < 1000
  {
    BusyUnescaped();
    ShortFailure(BUSY_STATUS, BUSY_MESSAGE);
  }

  lemma BusyUnescaped()
    ensures Plain(BUSY_STATUS) && Plain(BUSY_MESSAGE)
  {
  }

  lemma ShortFailure(status: string, message: string)
    requires Plain(status) && Plain(message) && |status| + |message| < 100
    ensures |Print(FailureJson(status, message))| < 1000
  {
    PlainFailure(status, message);
    assert |STATUS_KEY| < 100 && |MESSAGE_KEY| < 100;
  }
}
