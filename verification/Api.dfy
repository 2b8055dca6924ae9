/** server/api.c: builds the responses in a growable buffer and answers one query. */
module Api {
  import opened Records
  import opened Rows
  import opened Decimals
  import opened CStrings
  import opened JsonText
  import opened JsonReader
  import opened JsonBuffers
  import opened Tables
  import opened SqlGrammar
  import opened SqlParser
  import opened SqlExecutor

  // ---------------------------------------------------------------- what the responses say

  function RowJson(r: Record): Json {
    Object(Member("id", Num(r.id), Member("name", Str(r.name), Member("age", Num(r.age), NoMembers))))
  }

  /** The rows from index `i` on. */
  function RowsJson(rows: seq<Record>, i: nat): Items
    requires i <= |rows|
    decreases |rows| - i
  {
    if i == |rows| then NoItems else Item(RowJson(rows[i]), RowsJson(rows, i + 1))
  }

  function InsertJson(id: int, count: int): Json {
    Object(Member("ok", Bool(true), Member("action", Str("insert"),
      Member("inserted_id", Num(id), Member("row_count", Num(count), NoMembers)))))
  }

  function SelectJson(action: string, count: int, rows: seq<Record>): Json {
    Object(Member("ok", Bool(true), Member("action", Str(action),
      Member("row_count", Num(count), Member("rows", List(RowsJson(rows, 0)), NoMembers)))))
  }

  function ErrorJson(status: string, code: int, state: string, message: string): Json {
    Object(Member("ok", Bool(false), Member("status", Str(status), Member("error_code", Num(code),
      Member("sql_state", Str(state), Member("message", Str(message), NoMembers))))))
  }

  /** An error that is none of SQL. */
  function FailureJson(status: string, message: string): Json {
    Object(Member("ok", Bool(false), Member("status", Str(status), Member("message", Str(message), NoMembers))))
  }

  // ---------------------------------------------------------------- the pieces they are built from

  /** A member name as it is written in a format string. */
  function Literal(name: string): string {
    "\"" + name + "\":"
  }

  const ID_KEY := "{" + Literal("id")
  const NAME_KEY := "," + Literal("name")
  const AGE_KEY := "," + Literal("age")
  const ACTION_KEY := "{" + (Literal("ok") + ("true" + ("," + Literal("action"))))
  const INSERTED_KEY := "," + Literal("inserted_id")
  const COUNT_KEY := "," + Literal("row_count")
  const ROWS_KEY := "," + (Literal("rows") + "[")
  const STATUS_KEY := "{" + (Literal("ok") + ("false" + ("," + Literal("status"))))
  const CODE_KEY := "," + Literal("error_code")
  const STATE_KEY := "," + Literal("sql_state")
  const MESSAGE_KEY := "," + Literal("message")

  predicate Plain(s: string) {
    forall i :: 0 <= i < |s| ==> s[i] >= ' ' && s[i] != '"' && s[i] != '\\'
  }

  /** A name without special characters is written as it is. */
  lemma {:induction false} PlainEscape(s: string)
    requires Plain(s)
    ensures Escape(s) == s
  {
    if s != "" {
      PlainEscape(s[1..]);
      assert s == [s[0]] + s[1..];
    }
  }

  /** The text before the value of a member. */
  function Key(name: string): string {
    JsonString(name) + ":"
  }

  lemma KeyText(name: string)
    requires Plain(name)
    ensures Key(name) == Literal(name) && NulFree(Literal(name))
  {
    PlainEscape(name);
  }

  lemma RowKeys()
    ensures ID_KEY == "{" + Key("id") && NAME_KEY == "," + Key("name") && AGE_KEY == "," + Key("age")
  {
    KeyText("id");
    KeyText("name");
    KeyText("age");
  }

  lemma ActionKeys()
    ensures ACTION_KEY == "{" + (Key("ok") + ("true" + ("," + Key("action"))))
  {
    KeyText("ok");
    KeyText("action");
  }

  lemma InsertedKey()
    ensures INSERTED_KEY == "," + Key("inserted_id")
  {
    KeyText("inserted_id");
  }

  lemma CountKey()
    ensures COUNT_KEY == "," + Key("row_count")
  {
    KeyText("row_count");
  }

  lemma RowsKey()
    ensures ROWS_KEY == "," + (Key("rows") + "[")
  {
    KeyText("rows");
  }

  lemma StatusKey()
    ensures STATUS_KEY == "{" + (Key("ok") + ("false" + ("," + Key("status"))))
  {
    KeyText("ok");
    KeyText("status");
  }

  lemma CodeKey()
    ensures CODE_KEY == "," + Key("error_code")
  {
    KeyText("error_code");
  }

  lemma StateKey()
    ensures STATE_KEY == "," + Key("sql_state")
  {
    KeyText("sql_state");
  }

  lemma MessageKey()
    ensures MESSAGE_KEY == "," + Key("message")
  {
    KeyText("message");
  }

  lemma MemberText(name: string, value: Json, more: Members)
    ensures PrintMembers(Member(name, value, more)) == Key(name) + (Print(value) + MoreMembers(more))
  {
    Assoc(JsonString(name), ":", Print(value) + MoreMembers(more));
  }

  lemma RowText(r: Record)
    ensures (ID_KEY + IntText(r.id) + NAME_KEY) + JsonString(r.name) + (AGE_KEY + IntText(r.age) + "}") == Print(RowJson(r))
  {
    var m3 := Member("age", Num(r.age), NoMembers);
    var m2 := Member("name", Str(r.name), m3);
    RowKeys();
    MemberText("id", Num(r.id), m2);
    MemberText("name", Str(r.name), m3);
    MemberText("age", Num(r.age), NoMembers);
    FlatRow("{", Key("id"), IntText(r.id), ",", Key("name"), JsonString(r.name), Key("age"), IntText(r.age), "}");
  }

  lemma FlatRow(o: string, a: string, i: string, c: string, b: string, n: string, d: string, e: string, z: string)
    ensures ((o + a) + i + (c + b)) + n + ((c + d) + e + z) == o + ((a + (i + (c + (b + (n + (c + (d + (e + "")))))))) + z)
  {
  }

  /** How every success starts. */
  lemma SuccessHead(action: string, more: Members)
    ensures (ACTION_KEY + JsonString(action)) + (MoreMembers(more) + "}") ==
              Print(Object(Member("ok", Bool(true), Member("action", Str(action), more))))
  {
    ActionKeys();
    MemberText("ok", Bool(true), Member("action", Str(action), more));
    MemberText("action", Str(action), more);
    FlatHead("{", Key("ok"), "true", ",", Key("action"), JsonString(action), MoreMembers(more), "}");
  }

  /** How every failure starts. */
  lemma FailureHead(status: string, more: Members)
    ensures (STATUS_KEY + JsonString(status)) + (MoreMembers(more) + "}") ==
              Print(Object(Member("ok", Bool(false), Member("status", Str(status), more))))
  {
    StatusKey();
    MemberText("ok", Bool(false), Member("status", Str(status), more));
    MemberText("status", Str(status), more);
    FlatHead("{", Key("ok"), "false", ",", Key("status"), JsonString(status), MoreMembers(more), "}");
  }

  lemma FlatHead(o: string, k: string, t: string, c: string, a: string, n: string, m: string, z: string)
    ensures ((o + (k + (t + (c + a)))) + n) + (m + z) == o + ((k + (t + (c + (a + (n + m))))) + z)
  {
  }

  function InsertedText(id: int, count: int): string {
    INSERTED_KEY + IntText(id) + (COUNT_KEY + IntText(count) + "}")
  }

  lemma InsertedMembers(id: int, count: int)
    ensures InsertedText(id, count) ==
              MoreMembers(Member("inserted_id", Num(id), Member("row_count", Num(count), NoMembers))) + "}"
  {
    InsertedKey();
    CountKey();
    MemberText("inserted_id", Num(id), Member("row_count", Num(count), NoMembers));
    MemberText("row_count", Num(count), NoMembers);
    FlatInserted(",", Key("inserted_id"), IntText(id), Key("row_count"), IntText(count), "}");
  }

  lemma FlatInserted(c: string, a: string, i: string, b: string, n: string, z: string)
    ensures (c + a) + i + ((c + b) + n + z) == (c + (a + (i + (c + (b + (n + "")))))) + z
  {
  }

  function CountText(count: int): string {
    COUNT_KEY + IntText(count) + ROWS_KEY
  }

  lemma SelectedMembers(count: int, items: Items)
    ensures CountText(count) + PrintItems(items) + "]}" ==
              MoreMembers(Member("row_count", Num(count), Member("rows", List(items), NoMembers))) + "}"
  {
    CountKey();
    RowsKey();
    MemberText("row_count", Num(count), Member("rows", List(items), NoMembers));
    MemberText("rows", List(items), NoMembers);
    assert "]}" == "]" + "}";
    FlatSelected(",", Key("row_count"), IntText(count), Key("rows"), "[", PrintItems(items), "]", "}");
  }

  lemma FlatSelected(c: string, a: string, n: string, b: string, o: string, i: string, e: string, z: string)
    ensures ((c + a) + n + (c + (b + o))) + i + (e + z) == (c + (a + (n + (c + (b + ((o + (i + e)) + "")))))) + z
  {
  }

  function CodeText(code: int): string {
    CODE_KEY + IntText(code) + STATE_KEY
  }

  lemma CodeMembers(code: int, state: string, more: Members)
    ensures CodeText(code) + JsonString(state) + MoreMembers(more) ==
              MoreMembers(Member("error_code", Num(code), Member("sql_state", Str(state), more)))
  {
    CodeKey();
    StateKey();
    MemberText("error_code", Num(code), Member("sql_state", Str(state), more));
    MemberText("sql_state", Str(state), more);
    FlatCode(",", Key("error_code"), IntText(code), Key("sql_state"), JsonString(state), MoreMembers(more));
  }

  lemma FlatCode(c: string, a: string, n: string, b: string, s: string, m: string)
    ensures ((c + a) + n + (c + b)) + s + m == c + (a + (n + (c + (b + (s + m)))))
  {
  }

  function MessageText(message: string): string {
    MESSAGE_KEY + JsonString(message) + "}"
  }

  lemma MessageMembers(message: string)
    ensures MessageText(message) == MoreMembers(Member("message", Str(message), NoMembers)) + "}"
  {
    MessageKey();
    MemberText("message", Str(message), NoMembers);
    FlatMessage(",", Key("message"), JsonString(message), "}");
  }

  lemma FlatMessage(c: string, a: string, m: string, z: string)
    ensures (c + a) + m + z == (c + (a + (m + ""))) + z
  {
  }

  // ---------------------------------------------------------------- whole responses

  lemma InsertResponse(id: int, count: int)
    ensures (ACTION_KEY + JsonString("insert")) + InsertedText(id, count) == Print(InsertJson(id, count))
  {
    InsertedMembers(id, count);
    SuccessHead("insert", Member("inserted_id", Num(id), Member("row_count", Num(count), NoMembers)));
  }

  lemma SelectResponse(action: string, count: int, rows: seq<Record>)
    ensures (ACTION_KEY + JsonString(action)) + (CountText(count) + PrintItems(RowsJson(rows, 0)) + "]}") ==
              Print(SelectJson(action, count, rows))
  {
    SelectedMembers(count, RowsJson(rows, 0));
    SuccessHead(action, Member("row_count", Num(count), Member("rows", List(RowsJson(rows, 0)), NoMembers)));
  }

  lemma ErrorResponse(status: string, code: int, state: string, message: string)
    ensures (STATUS_KEY + JsonString(status)) + (CodeText(code) + JsonString(state) + MessageText(message)) ==
              Print(ErrorJson(status, code, state, message))
  {
    var m := Member("message", Str(message), NoMembers);
    MessageMembers(message);
    CodeMembers(code, state, m);
    Assoc(CodeText(code) + JsonString(state), MoreMembers(m), "}");
    FailureHead(status, Member("error_code", Num(code), Member("sql_state", Str(state), m)));
  }

  lemma FailureResponse(status: string, message: string)
    ensures (STATUS_KEY + JsonString(status)) + MessageText(message) == Print(FailureJson(status, message))
  {
    MessageMembers(message);
    FailureHead(status, Member("message", Str(message), NoMembers));
  }

  // ---------------------------------------------------------------- building them

  const UNKNOWN_ERROR := "Unknown SQL error"

  function ActionName(action: Action): (name: string)
    ensures NulFree(name)
  {
    match action
    case INSERTED => "insert"
    case SELECTED => "select"
    case NO_ACTION => "none"
  }

  function StatusName(status: Status): (name: string)
    ensures NulFree(name)
  {
    match status
    case SYNTAX_ERROR => "syntax_error"
    case QUERY_ERROR => "query_error"
    case NOT_FOUND => "not_found"
    case ERROR => "internal_error"
    case EXITED => "exit_not_supported"
    case OK => "ok"
  }

  /** The names in these rows are C strings. */
  ghost predicate CNames(rows: seq<Record>) {
    forall i :: 0 <= i < |rows| ==> NulFree(rows[i].name)
  }

  method AppendRecord(buffer: JsonBuffer, record: Record)
    requires buffer.Valid() && NulFree(record.name)
    modifies buffer, buffer.data
    ensures buffer.Valid() && buffer.data != null && (buffer.data == old(buffer.data) || fresh(buffer.data))
    ensures buffer.Text() == old(buffer.Text()) + Print(RowJson(record))
  {
    ghost var before := buffer.Text();
    RowKeysPlain();
    IntTextPlain(record.id);
    IntTextPlain(record.age);
    var head := ID_KEY + IntText(record.id) + NAME_KEY;
    buffer.Append(head);
    buffer.AppendJsonString(record.name);
    var tail := AGE_KEY + IntText(record.age) + "}";
    buffer.Append(tail);
    RowText(record);
    Joined(before, head, JsonString(record.name), tail);
  }

  lemma RowKeysPlain()
    ensures NulFree(ID_KEY) && NulFree(NAME_KEY) && NulFree(AGE_KEY)
  {
    KeyText("id");
    KeyText("name");
    KeyText("age");
  }

  lemma Joined(before: string, a: string, b: string, c: string)
    ensures before + a + b + c == before + (a + b + c)
  {
  }

  lemma IntTextPlain(n: int)
    ensures NulFree(IntText(n))
  {
    NatTextValue(if n < 0 then -n else n);
  }

  /** What is still to be written of a list: a comma comes before each row but the first of all. */
  ghost function RowsLeft(rows: seq<Record>, i: nat): string
    requires i <= |rows|
  {
    if i == 0 then PrintItems(RowsJson(rows, 0)) else MoreItems(RowsJson(rows, i))
  }

  /** The next row of a list. */
  method AppendRow(buffer: JsonBuffer, rows: seq<Record>, index: nat)
    requires buffer.Valid() && CNames(rows) && index < |rows|
    modifies buffer, buffer.data
    ensures buffer.Valid() && buffer.data != null && (buffer.data == old(buffer.data) || fresh(buffer.data))
    ensures buffer.Text() + RowsLeft(rows, index + 1) == old(buffer.Text()) + RowsLeft(rows, index)
  {
    ghost var before := buffer.Text();
    ghost var comma := if index > 0 then "," else "";
    if index > 0 {
      buffer.Append(",");
    }
    assert buffer.Text() == before + comma;
    AppendRecord(buffer, rows[index]);
    RowsStep(before, comma, rows, index);
  }

  lemma RowsStep(before: string, comma: string, rows: seq<Record>, i: nat)
    requires i < |rows| && comma == if i > 0 then "," else ""
    ensures before + comma + Print(RowJson(rows[i])) + RowsLeft(rows, i + 1) == before + RowsLeft(rows, i)
  {
    var items := RowsJson(rows, i);
    assert items == Item(RowJson(rows[i]), RowsJson(rows, i + 1));
    assert PrintItems(items) == Print(RowJson(rows[i])) + RowsLeft(rows, i + 1);
    assert RowsLeft(rows, i) == comma + PrintItems(items);
    Assoc(comma, Print(RowJson(rows[i])), RowsLeft(rows, i + 1));
    Joined(before, comma, Print(RowJson(rows[i])), RowsLeft(rows, i + 1));
  }

  /** The row list of a SELECT response. */
  method AppendRows(buffer: JsonBuffer, rows: seq<Record>)
    requires buffer.Valid() && buffer.data != null && CNames(rows)
    modifies buffer, buffer.data
    ensures buffer.Valid() && buffer.data != null && (buffer.data == old(buffer.data) || fresh(buffer.data))
    ensures buffer.Text() == old(buffer.Text()) + PrintItems(RowsJson(rows, 0))
  {
    for index := 0 to |rows|
      invariant buffer.Valid() && buffer.data != null && (buffer.data == old(buffer.data) || fresh(buffer.data))
      invariant buffer.Text() + RowsLeft(rows, index) == old(buffer.Text()) + RowsLeft(rows, 0)
    {
      AppendRow(buffer, rows, index);
    }
    assert buffer.Text() + RowsLeft(rows, |rows|) == buffer.Text();
  }

  /** What a successful result is rendered as. */
  function SuccessJson(r: SqlResult): Json {
    if r.action == INSERTED then InsertJson(r.insertedId, r.rowCount)
    else SelectJson(ActionName(r.action), r.rowCount, r.records)
  }

  method AppendField(buffer: JsonBuffer, key: string, text: string)
    requires buffer.Valid() && NulFree(key) && NulFree(text)
    modifies buffer, buffer.data
    ensures buffer.Valid() && buffer.data != null && (buffer.data == old(buffer.data) || fresh(buffer.data))
    ensures buffer.Text() == old(buffer.Text()) + (key + JsonString(text))
  {
    ghost var before := buffer.Text();
    buffer.Append(key);
    buffer.AppendJsonString(text);
    Assoc(before, key, JsonString(text));
  }

  method BuildSuccessResponse(buffer: JsonBuffer, result: SqlResult)
    requires buffer.Valid() && CNames(result.records) && (result.action != INSERTED ==> |result.records| == result.rowCount)
    modifies buffer, buffer.data
    ensures buffer.Valid() && buffer.data != null && (buffer.data == old(buffer.data) || fresh(buffer.data))
    ensures buffer.Text() == old(buffer.Text()) + Print(SuccessJson(result))
  {
    ghost var before := buffer.Text();
    ActionKeyPlain();
    AppendField(buffer, ACTION_KEY, ActionName(result.action));
    ghost var head := ACTION_KEY + JsonString(ActionName(result.action));
    if result.action == INSERTED {
      InsertedPlain(result.insertedId, result.rowCount);
      var counts := InsertedText(result.insertedId, result.rowCount);
      buffer.Append(counts);
      InsertResponse(result.insertedId, result.rowCount);
      Assoc(before, head, counts);
    } else {
      AppendSelection(buffer, result.rowCount, result.records);
      SelectResponse(ActionName(result.action), result.rowCount, result.records);
      Assoc(before, head, CountText(result.rowCount) + PrintItems(RowsJson(result.records, 0)) + "]}");
    }
  }

  lemma ActionKeyPlain()
    ensures NulFree(ACTION_KEY)
  {
    KeyText("ok");
    KeyText("action");
  }

  /** A key behind a comma is a C string. */
  lemma CommaKeyPlain(name: string)
    requires Plain(name)
    ensures NulFree("," + Literal(name))
  {
    KeyText(name);
  }

  lemma CountKeyPlain()
    ensures NulFree(COUNT_KEY)
  {
    CommaKeyPlain("row_count");
  }

  lemma InsertedPlain(id: int, count: int)
    ensures NulFree(InsertedText(id, count))
  {
    CommaKeyPlain("inserted_id");
    CountKeyPlain();
    IntTextPlain(id);
    IntTextPlain(count);
    JoinPlain(INSERTED_KEY, IntText(id), COUNT_KEY + IntText(count) + "}");
    JoinPlain(COUNT_KEY, IntText(count), "}");
  }

  lemma CountPlain(count: int)
    ensures NulFree(CountText(count))
  {
    CountKeyPlain();
    IntTextPlain(count);
    RowsKeyPlain();
    JoinPlain(COUNT_KEY, IntText(count), ROWS_KEY);
  }

  lemma RowsKeyPlain()
    ensures NulFree(ROWS_KEY)
  {
    KeyText("rows");
  }

  lemma JoinPlain(a: string, b: string, c: string)
    requires NulFree(a) && NulFree(b) && NulFree(c)
    ensures NulFree(a + b + c)
  {
  }

  method AppendSelection(buffer: JsonBuffer, count: nat, rows: seq<Record>)
    requires buffer.Valid() && CNames(rows)
    modifies buffer, buffer.data
    ensures buffer.Valid() && buffer.data != null && (buffer.data == old(buffer.data) || fresh(buffer.data))
    ensures buffer.Text() == old(buffer.Text()) + (CountText(count) + PrintItems(RowsJson(rows, 0)) + "]}")
  {
    ghost var before := buffer.Text();
    CountPlain(count);
    var head := CountText(count);
    buffer.Append(head);
    AppendRows(buffer, rows);
    buffer.Append("]}");
    Joined(before, head, PrintItems(RowsJson(rows, 0)), "]}");
  }

  /** An error response; an empty message is replaced. */
  method BuildErrorResponse(buffer: JsonBuffer, result: SqlResult, message: string)
    requires buffer.Valid() && NulFree(result.sqlState) && NulFree(message)
    modifies buffer, buffer.data
    ensures buffer.Valid() && buffer.data != null && (buffer.data == old(buffer.data) || fresh(buffer.data))
    ensures buffer.Text() == old(buffer.Text()) + Print(RefusalJson(result, message))
  {
    ghost var before := buffer.Text();
    var text := if message == "" then UNKNOWN_ERROR else message;
    UnknownPlain();
    AppendStatus(buffer, StatusName(result.status));
    CodePlain(result.errorCode);
    AppendField(buffer, CodeText(result.errorCode), result.sqlState);
    AppendMessage(buffer, text);
    ErrorResponse(StatusName(result.status), result.errorCode, result.sqlState, text);
    Joined4(before, STATUS_KEY + JsonString(StatusName(result.status)),
            CodeText(result.errorCode) + JsonString(result.sqlState), MessageText(text));
  }

  lemma Joined4(before: string, a: string, b: string, c: string)
    ensures before + a + b + c == before + (a + (b + c))
  {
  }

  lemma UnknownPlain()
    ensures NulFree(UNKNOWN_ERROR)
  {
  }

  lemma CodePlain(code: int)
    ensures NulFree(CodeText(code))
  {
    CodeKeyPlain();
    CommaKeyPlain("sql_state");
    IntTextPlain(code);
    JoinPlain(CODE_KEY, IntText(code), STATE_KEY);
  }

  lemma CodeKeyPlain()
    ensures NulFree(CODE_KEY)
  {
    CommaKeyPlain("error_code");
  }

  /** The start of every failure. */
  method AppendStatus(buffer: JsonBuffer, status: string)
    requires buffer.Valid() && NulFree(status)
    modifies buffer, buffer.data
    ensures buffer.Valid() && buffer.data != null && (buffer.data == old(buffer.data) || fresh(buffer.data))
    ensures buffer.Text() == old(buffer.Text()) + (STATUS_KEY + JsonString(status))
  {
    StatusKeyPlain();
    AppendField(buffer, STATUS_KEY, status);
  }

  /** The end of every failure. */
  method AppendMessage(buffer: JsonBuffer, text: string)
    requires buffer.Valid() && NulFree(text)
    modifies buffer, buffer.data
    ensures buffer.Valid() && buffer.data != null && (buffer.data == old(buffer.data) || fresh(buffer.data))
    ensures buffer.Text() == old(buffer.Text()) + MessageText(text)
  {
    ghost var before := buffer.Text();
    MessageKeyPlain();
    AppendField(buffer, MESSAGE_KEY, text);
    buffer.Append("}");
    Assoc(before, MESSAGE_KEY + JsonString(text), "}");
  }

  /** What a refused statement is rendered as. */
  function RefusalJson(r: SqlResult, message: string): Json {
    ErrorJson(StatusName(r.status), r.errorCode, r.sqlState, if message == "" then UNKNOWN_ERROR else message)
  }

  // ---------------------------------------------------------------- answering

  datatype Response = Response(httpStatus: int, text: string)

  const EXIT_STATUS := "exit_not_supported"
  const EXIT_MESSAGE := "EXIT and QUIT are not supported over HTTP"

  /** The response to EXIT and QUIT, in one literal. */
  const EXIT_TEXT := (STATUS_KEY + ("\"" + EXIT_STATUS + "\"")) + (MESSAGE_KEY + ("\"" + EXIT_MESSAGE + "\"") + "}")

  lemma ExitResponse()
    ensures NulFree(EXIT_TEXT) && EXIT_TEXT == Print(FailureJson(EXIT_STATUS, EXIT_MESSAGE))
  {
    ExitPlain();
    PlainFailure(EXIT_STATUS, EXIT_MESSAGE);
  }

  /** Plain texts need no encoder. */
  lemma PlainFailure(status: string, message: string)
    requires Plain(status) && Plain(message)
    ensures var t := (STATUS_KEY + ("\"" + status + "\"")) + (MESSAGE_KEY + ("\"" + message + "\"") + "}");
      NulFree(t) && t == Print(FailureJson(status, message))
  {
    PlainEscape(status);
    PlainEscape(message);
    FailureResponse(status, message);
    StatusKeyPlain();
    MessageKeyPlain();
    StringPlain(status);
    StringPlain(message);
    PlainParts(STATUS_KEY, JsonString(status), MESSAGE_KEY, JsonString(message), "}");
  }

  lemma StringPlain(s: string)
    ensures NulFree(JsonString(s))
  {
    EscapeIsClean(s);
  }

  lemma PlainParts(a: string, b: string, c: string, d: string, e: string)
    requires NulFree(a) && NulFree(b) && NulFree(c) && NulFree(d) && NulFree(e)
    ensures NulFree((a + b) + (c + d + e))
  {
  }

  lemma MessageKeyPlain()
    ensures NulFree(MESSAGE_KEY)
  {
    CommaKeyPlain("message");
  }

  lemma ExitPlain()
    ensures Plain(EXIT_STATUS) && Plain(EXIT_MESSAGE)
  {
  }

  lemma StatusKeyPlain()
    ensures NulFree(STATUS_KEY)
  {
    KeyText("ok");
    KeyText("status");
  }

  /** The response to a query, given the wording of error messages. */
  function Respond(people: seq<Person>, o: Outcome, wording: Message -> string): Response {
    if o.Parsed? && o.command.kind == EXIT then Response(400, Print(FailureJson(EXIT_STATUS, EXIT_MESSAGE)))
    else
      var answer := TextAnswer(people, o);
      Response(200, if o.Parsed? then Print(SuccessJson(answer)) else Print(RefusalJson(answer, wording(answer.errorMessage))))
  }

  /** Error messages are C strings. */
  ghost predicate PlainWording(wording: Message -> string) {
    forall m :: NulFree(wording(m))
  }

  ghost predicate CPeople(people: seq<Person>) {
    forall i :: 0 <= i < |people| ==> NulFree(people[i].name)
  }

  /** The table is in the state the reference is in, and the names in it are C strings. */
  ghost predicate Serves(table: Table, people: seq<Person>)
    reads table, table.owned
  {
    Mirrors(table, people) && CPeople(people)
  }

  /** Hands the text of a buffer over as a response body. */
  method Finish(buffer: JsonBuffer) returns (body: array<char>)
    requires buffer.Valid() && buffer.data != null
    modifies buffer
    ensures body == old(buffer.data) && HoldsText(body, old(buffer.Text()))
  {
    ghost var length;
    var text;
    text, length := buffer.Detach();
    body := text;
  }

  method Constant(text: string) returns (body: array<char>)
    requires NulFree(text)
    ensures fresh(body) && HoldsText(body, text)
  {
    var buffer := new JsonBuffer(256);
    buffer.Append(text);
    body := Finish(buffer);
  }

  method RefuseExit() returns (body: array<char>)
    ensures fresh(body) && HoldsText(body, Print(FailureJson(EXIT_STATUS, EXIT_MESSAGE)))
  {
    ExitResponse();
    body := Constant(EXIT_TEXT);
  }

  lemma RefusalPlain(people: seq<Person>, o: Outcome)
    requires !o.Parsed?
    ensures NulFree(TextAnswer(people, o).sqlState)
  {
  }

  method RenderRefusal(refusal: SqlResult, message: string) returns (body: array<char>)
    requires NulFree(refusal.sqlState) && NulFree(message)
    ensures fresh(body) && HoldsText(body, Print(RefusalJson(refusal, message)))
  {
    var buffer := new JsonBuffer(256);
    BuildErrorResponse(buffer, refusal, message);
    body := Finish(buffer);
  }

  method RenderAnswer(result: SqlResult) returns (body: array<char>)
    requires CNames(result.records) && (result.action != INSERTED ==> |result.records| == result.rowCount)
    ensures fresh(body) && HoldsText(body, Print(SuccessJson(result)))
  {
    var buffer := new JsonBuffer(256);
    BuildSuccessResponse(buffer, result);
    body := Finish(buffer);
  }

  method RunCommand(table: Table, ghost sql: string, command: Command, ghost people: seq<Person>)
    returns (body: array<char>)
    requires Mirrors(table, people) && CPeople(people) && Parse(sql) == Parsed(command) && command.kind != EXIT
    requires |command.name| < RECORD_NAME_SIZE
    modifies table, table.owned
    ensures forall o :: o in table.owned ==> o in old(table.owned) || fresh(o)
    ensures Mirrors(table, PeopleAfter(people, command)) && HoldsText(body, Print(SuccessJson(Answer(people, command))))
  {
    var result := ExecutePlan(table, command, people);
    AnswerPlain(people, sql, command);
    body := RenderAnswer(result);
  }

  /** Parses, executes and renders one query. */
  method HandleQuery(table: Table, sql: string, wording: Message -> string, ghost people: seq<Person>)
    returns (httpStatus: int, body: array<char>)
    requires Serves(table, people) && NulFree(sql) && PlainWording(wording)
    modifies table, table.owned
    ensures forall o :: o in table.owned ==> o in old(table.owned) || fresh(o)
    ensures Serves(table, PeopleAfterText(people, Parse(sql)))
    ensures var r := Respond(people, Parse(sql), wording); httpStatus == r.httpStatus && HoldsText(body, r.text)
  {
    var ok, command, refusal := ParseText(sql);
    NamesStayPlain(people, sql);
    if !ok {
      httpStatus := 200;
      RefusalPlain(people, Parse(sql));
      body := RenderRefusal(refusal, wording(refusal.errorMessage));
    } else if command.kind == EXIT {
      httpStatus := 400;
      body := RefuseExit();
    } else {
      httpStatus := 200;
      body := RunCommand(table, sql, command, people);
    }
  }

  lemma NamesStayPlain(people: seq<Person>, sql: string)
    requires NulFree(sql) && CPeople(people)
    ensures CPeople(PeopleAfterText(people, Parse(sql)))
  {
    if Parse(sql).Parsed? {
      NamePlain(sql);
    }
  }

  /** The name a statement gives is part of its text. */
  lemma NamePlain(sql: string)
    requires NulFree(sql) && Parse(sql).Parsed?
    ensures NulFree(Parse(sql).command.name)
  {
    var t := ParsedIsPrinted(sql);
    if t.InsertText? {
      forall i | 0 <= i < |t.row.name|
        ensures t.row.name[i] in sql
      {
        assert t.row.name[i] in RowString(t.row);
      }
    }
  }

  lemma AnswerPlain(people: seq<Person>, sql: string, command: Command)
    requires CPeople(people) && Parse(sql) == Parsed(command) && command.kind != EXIT
    ensures CNames(Answer(people, command).records)
    ensures var a := Answer(people, command); a.action != INSERTED ==> |a.records| == a.rowCount
  {
    var rows := Listing(people);
    FilterMembers(rows, ConditionOf(command));
    var kept := Filter(rows, ConditionOf(command));
    forall i | 0 <= i < |kept|
      ensures NulFree(kept[i].name)
    {
      assert kept[i] in rows;
    }
  }

  // ---------------------------------------------------------------- what a client learns

  /** Some items are the rows: an object each, in order. */
  ghost predicate Says(items: Items, rows: seq<Record>) {
    && |Elements(items)| == |rows|
    && forall i :: 0 <= i < |rows| ==>
         Elements(items)[i] == Object(
           Member("id", Num(rows[i].id),
           Member("name", Str(rows[i].name),
           Member("age", Num(rows[i].age), NoMembers))))
  }

  lemma {:induction false} RowsSaid(rows: seq<Record>, i: nat)
    requires i <= |rows|
    ensures Says(RowsJson(rows, i), rows[i..])
    decreases |rows| - i
  {
    if i < |rows| {
      RowsSaid(rows, i + 1);
    }
  }

  /** A client reads out of the response to a SELECT exactly the rows it returns. */
  lemma ClientLearnsRows(people: seq<Person>, sql: string, wording: Message -> string) returns (items: Items)
    requires Parse(sql).Parsed? && IsSelect(Parse(sql).command.kind)
    ensures var r, rows := Respond(people, Parse(sql), wording), TextAnswer(people, Parse(sql)).records;
      && r.httpStatus == 200 && Says(items, rows)
      && ReadValue(r.text) == Read(Object(
           Member("ok", Bool(true),
           Member("action", Str("select"),
           Member("row_count", Num(|rows|),
           Member("rows", List(items), NoMembers))))), "")
  {
    var rows := TextAnswer(people, Parse(sql)).records;
    items := RowsJson(rows, 0);
    RowsSaid(rows, 0);
    assert rows[0..] == rows;
    ReadWhole(SelectJson("select", |rows|, rows));
  }

  lemma ReadWhole(j: Json)
    ensures ReadValue(Print(j)) == Read(j, "")
  {
    ReadValueAt(j, "");
    assert Print(j) + "" == Print(j);
  }

  /** A client reads the new id out of the response to an INSERT. */
  lemma ClientLearnsId(people: seq<Person>, sql: string, wording: Message -> string)
    requires Parse(sql).Parsed? && Parse(sql).command.kind == INSERT
    ensures var r := Respond(people, Parse(sql), wording);
      && r.httpStatus == 200
      && ReadValue(r.text) == Read(Object(
           Member("ok", Bool(true),
           Member("action", Str("insert"),
           Member("inserted_id", Num(|people| + 1),
           Member("row_count", Num(1), NoMembers))))), "")
  {
    ReadWhole(InsertJson(|people| + 1, 1));
  }

  lemma StatusNames()
    ensures StatusName(SYNTAX_ERROR) == "syntax_error" && StatusName(QUERY_ERROR) == "query_error"
  {
  }

  lemma ErrorIsRead(r: SqlResult, m: string, status: string, code: int, state: string)
    requires StatusName(r.status) == status && r.errorCode == code && r.sqlState == state
    ensures ReadValue(Print(RefusalJson(r, m))) == Read(Object(
              Member("ok", Bool(false),
              Member("status", Str(status),
              Member("error_code", Num(code),
              Member("sql_state", Str(state),
              Member("message", Str(if m == "" then "Unknown SQL error" else m), NoMembers)))))), "")
  {
    ReadWhole(RefusalJson(r, m));
  }

  /** A text that is no statement is answered by a syntax error, in MySQL's numbers. */
  lemma ClientLearnsSyntaxError(people: seq<Person>, sql: string, wording: Message -> string)
    requires Parse(sql).SyntaxError?
    ensures var r, m := Respond(people, Parse(sql), wording), wording(NearText(Parse(sql).near));
      && r.httpStatus == 200
      && ReadValue(r.text) == Read(Object(
           Member("ok", Bool(false),
           Member("status", Str("syntax_error"),
           Member("error_code", Num(1064),
           Member("sql_state", Str("42000"),
           Member("message", Str(if m == "" then "Unknown SQL error" else m), NoMembers)))))), "")
  {
    var answer := TextAnswer(people, Parse(sql));
    StatusNames();
    ErrorIsRead(answer, wording(answer.errorMessage), "syntax_error", 1064, "42000");
  }

  /** A statement about a column that is none is answered by the error for that. */
  lemma ClientLearnsUnknownColumn(people: seq<Person>, sql: string, wording: Message -> string)
    requires Parse(sql).UnknownColumn?
    ensures var r, m := Respond(people, Parse(sql), wording), wording(NoColumn(Parse(sql).column, Parse(sql).clause));
      && r.httpStatus == 200
      && ReadValue(r.text) == Read(Object(
           Member("ok", Bool(false),
           Member("status", Str("query_error"),
           Member("error_code", Num(1054),
           Member("sql_state", Str("42S22"),
           Member("message", Str(if m == "" then "Unknown SQL error" else m), NoMembers)))))), "")
  {
    var answer := TextAnswer(people, Parse(sql));
    StatusNames();
    ErrorIsRead(answer, wording(answer.errorMessage), "query_error", 1054, "42S22");
  }

  /** EXIT and QUIT are answered by an error of their own. */
  lemma ClientLearnsExit(people: seq<Person>, sql: string, wording: Message -> string)
    requires Parse(sql).Parsed? && Parse(sql).command.kind == EXIT
    ensures var r := Respond(people, Parse(sql), wording);
      && r.httpStatus == 400
      && ReadValue(r.text) == Read(Object(
           Member("ok", Bool(false),
           Member("status", Str("exit_not_supported"),
           Member("message", Str("EXIT and QUIT are not supported over HTTP"), NoMembers)))), "")
  {
    ReadWhole(FailureJson(EXIT_STATUS, EXIT_MESSAGE));
  }
}
