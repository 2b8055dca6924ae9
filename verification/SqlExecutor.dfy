/**
 * sql_processor/sql.c, execution. The reference is a plain list of (name, age) pairs in which the
 * id of a pair is its position; every run of statements over the real table answers as it does.
 */
module SqlExecutor {
  import opened Wrappers
  import opened Records
  import opened Rows
  import opened Tables
  import opened SqlGrammar
  import opened SqlParser

  datatype Action = NO_ACTION | INSERTED | SELECTED

  datatype SqlResult = SqlResult(
    status: Status,
    action: Action,
    record: Pointer,
    records: seq<Record>,
    insertedId: int,
    rowCount: nat,
    errorCode: int,
    sqlState: string,
    errorMessage: Message)

  function MakeResult(status: Status, action: Action): SqlResult {
    SqlResult(status, action, None, [], 0, 0, 0, "", NoMessage)
  }

  // ---------------------------------------------------------------- the reference

  datatype Person = Person(name: string, age: int)

  /** The rows a list of people stands for: ids are positions, counted from one. */
  function Listing(people: seq<Person>): (rows: seq<Record>)
    ensures |rows| == |people|
    ensures forall i :: 0 <= i < |people| ==> rows[i] == Record(i + 1, people[i].name, people[i].age)
  {
    seq(|people|, i requires 0 <= i < |people| => Record(i + 1, people[i].name, people[i].age))
  }

  /** The condition a SELECT command asks for. */
  function ConditionOf(c: Command): Condition {
    match c.kind
    case SELECT_BY_ID => IdIs(c.comparison, c.intValue)
    case SELECT_BY_NAME => NameIs(c.textValue)
    case SELECT_BY_AGE => AgeIs(c.comparison, c.intValue)
    case _ => All
  }

  predicate IsSelect(kind: CommandType) {
    kind == SELECT_ALL || kind == SELECT_BY_ID || kind == SELECT_BY_NAME || kind == SELECT_BY_AGE
  }

  function PeopleAfter(people: seq<Person>, c: Command): seq<Person> {
    if c.kind == INSERT then people + [Person(c.name, c.intValue)] else people
  }

  /** What the reference answers: the new row, or the selected ones, the first of them apart. */
  function Answer(people: seq<Person>, c: Command): SqlResult {
    if c.kind == INSERT then
      var id := |people| + 1;
      MakeResult(OK, INSERTED).(record := Some(Record(id, c.name, c.intValue)), insertedId := id, rowCount := 1)
    else if IsSelect(c.kind) then
      var rows := Filter(Listing(people), ConditionOf(c));
      MakeResult(if rows == [] then NOT_FOUND else OK, SELECTED).(
        records := rows,
        record := if rows == [] then None else Some(rows[0]),
        rowCount := |rows|)
    else
      MakeResult(if c.kind == EXIT then EXITED else ERROR, NO_ACTION)
  }

  /** The answer to a text: that to its command, or the error it was refused with. */
  function TextAnswer(people: seq<Person>, o: Outcome): SqlResult {
    match o
    case NotMine => MakeResult(ERROR, NO_ACTION)
    case Parsed(c) => Answer(people, c)
    case SyntaxError(near) =>
      MakeResult(SYNTAX_ERROR, NO_ACTION).(errorCode := 1064, sqlState := "42000", errorMessage := NearText(near))
    case UnknownColumn(column, clause) =>
      MakeResult(QUERY_ERROR, NO_ACTION).(errorCode := 1054, sqlState := "42S22", errorMessage := NoColumn(column, clause))
  }

  function PeopleAfterText(people: seq<Person>, o: Outcome): seq<Person> {
    if o.Parsed? then PeopleAfter(people, o.command) else people
  }

  function PeopleAfterAll(people: seq<Person>, inputs: seq<string>): seq<Person> {
    if inputs == [] then people
    else PeopleAfterText(PeopleAfterAll(people, inputs[..|inputs| - 1]), Parse(inputs[|inputs| - 1]))
  }

  /** The answers of the reference to a whole run of texts. */
  function Answers(people: seq<Person>, inputs: seq<string>): (r: seq<SqlResult>)
    ensures |r| == |inputs|
  {
    if inputs == [] then []
    else
      var init, last := inputs[..|inputs| - 1], inputs[|inputs| - 1];
      Answers(people, init) + [TextAnswer(PeopleAfterAll(people, init), Parse(last))]
  }

  /** The table is in the state the reference is in. */
  ghost predicate Mirrors(table: Table, people: seq<Person>)
    reads table, table.owned
  {
    table.Valid() && table.log == Listing(people)
  }

  // ---------------------------------------------------------------- execution

  method ExecuteInsertPlan(table: Table, command: Command, ghost people: seq<Person>) returns (result: SqlResult)
    requires Mirrors(table, people) && command.kind == INSERT && |command.name| < RECORD_NAME_SIZE
    modifies table, table.owned
    ensures forall o :: o in table.owned ==> o in old(table.owned) || fresh(o)
    ensures Mirrors(table, PeopleAfter(people, command)) && result == Answer(people, command)
  {
    result := MakeResult(ERROR, NO_ACTION);
    var record := table.Insert(command.name, command.intValue);
    if record == None {
      return;
    }
    result := MakeResult(OK, INSERTED).(record := record, insertedId := record.value.id, rowCount := 1);
    ListingGrows(people, command);
  }

  lemma ListingGrows(people: seq<Person>, c: Command)
    requires c.kind == INSERT
    ensures Listing(PeopleAfter(people, c)) == Listing(people) + [Record(|people| + 1, c.name, c.intValue)]
  {
  }

  method ExecuteSelectPlan(table: Table, command: Command, ghost people: seq<Person>) returns (result: SqlResult)
    requires Mirrors(table, people) && IsSelect(command.kind)
    ensures result == Answer(people, command)
    ensures result.action == SELECTED && result.rowCount == |result.records|
    ensures result.status == if |result.records| == 0 then NOT_FOUND else OK
    ensures result.record == if |result.records| == 0 then None else Some(result.records[0])
  {
    var rows;
    match command.kind {
      case SELECT_ALL =>
        rows := table.CollectAll();
        FilterAll(table.log);
      case SELECT_BY_ID => rows := table.FindByIdCondition(command.comparison, command.intValue);
      case SELECT_BY_NAME => rows := table.FindByName(command.textValue);
      case SELECT_BY_AGE => rows := table.FindByAge(command.comparison, command.intValue);
    }
    result := MakeResult(if |rows| == 0 then NOT_FOUND else OK, SELECTED).(
      records := rows,
      record := if |rows| > 0 then Some(rows[0]) else None,
      rowCount := |rows|);
  }

  lemma {:induction false} FilterAll(rows: seq<Record>)
    ensures Filter(rows, All) == rows
  {
    if rows != [] {
      FilterAll(rows[..|rows| - 1]);
    }
  }

  /** Executes a parsed command. */
  method ExecutePlan(table: Table, command: Command, ghost people: seq<Person>) returns (result: SqlResult)
    requires Mirrors(table, people) && |command.name| < RECORD_NAME_SIZE
    modifies table, table.owned
    ensures forall o :: o in table.owned ==> o in old(table.owned) || fresh(o)
    ensures Mirrors(table, PeopleAfter(people, command)) && result == Answer(people, command)
  {
    if command.kind == INSERT {
      result := ExecuteInsertPlan(table, command, people);
    } else if IsSelect(command.kind) {
      result := ExecuteSelectPlan(table, command, people);
    } else if command.kind == EXIT {
      result := MakeResult(EXITED, NO_ACTION);
    } else {
      result := MakeResult(ERROR, NO_ACTION);
    }
  }

  /** Parses one text: its command, or the result it is refused with. */
  method ParseText(input: string) returns (ok: bool, command: Command, refusal: SqlResult)
    ensures ok ==> Parse(input) == Parsed(command) && |command.name| < RECORD_NAME_SIZE
    ensures !ok ==> !Parse(input).Parsed? && forall people :: refusal == TextAnswer(people, Parse(input))
  {
    var parseResult := new SqlParseResult();
    ok := parseResult.Parse(input);
    ParseIsTotal(input);
    command := parseResult.command;
    refusal := MakeResult(parseResult.status, NO_ACTION).(
      errorCode := parseResult.errorCode,
      sqlState := parseResult.sqlState,
      errorMessage := parseResult.errorMessage);
  }

  /** Parses one statement and executes it. */
  method Execute(table: Table, input: string, ghost people: seq<Person>) returns (result: SqlResult)
    requires Mirrors(table, people)
    modifies table, table.owned
    ensures forall o :: o in table.owned ==> o in old(table.owned) || fresh(o)
    ensures Mirrors(table, PeopleAfterText(people, Parse(input)))
    ensures result == TextAnswer(people, Parse(input))
  {
    var ok, command, refusal := ParseText(input);
    if !ok {
      return refusal;
    }
    result := ExecutePlan(table, command, people);
    if command.kind == EXIT {
      result := result.(status := EXITED);
    }
  }

  /** Any run of statements gives the answers of the plain list. */
  method ExecuteAll(table: Table, inputs: seq<string>, ghost people: seq<Person>) returns (results: seq<SqlResult>)
    requires Mirrors(table, people)
    modifies table, table.owned
    ensures Mirrors(table, PeopleAfterAll(people, inputs)) && results == Answers(people, inputs)
  {
    results := [];
    for i := 0 to |inputs|
      invariant Mirrors(table, PeopleAfterAll(people, inputs[..i]))
      invariant forall o :: o in table.owned ==> o in old(table.owned) || fresh(o)
      invariant results == Answers(people, inputs[..i])
    {
      assert inputs[..i + 1][..i] == inputs[..i];
      var result := Execute(table, inputs[i], PeopleAfterAll(people, inputs[..i]));
      results := results + [result];
    }
    assert inputs[..|inputs|] == inputs;
  }
}
