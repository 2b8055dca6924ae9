/**
 * What the statements of sql_processor/sql.c mean to whoever types them: from the text alone, in any
 * spelling and spacing, to the rows it returns or stores.
 */
module QueryTexts {
  import opened Wrappers
  import opened Records
  import opened Rows
  import opened Decimals
  import SqlText
  import opened SqlGrammar
  import opened SqlParser
  import opened SqlExecutor

  // ---------------------------------------------------------------- how statements are written

  predicate Blank(g: string) {
    forall i :: 0 <= i < |g| ==> g[i] == ' ' || g[i] as int in {9, 10, 11, 12, 13}
  }

  /** A word, each letter in upper or lower case. */
  predicate Spelled(k: string, upper: string, lower: string) {
    |k| == |upper| == |lower| && forall i :: 0 <= i < |k| ==> k[i] == upper[i] || k[i] == lower[i]
  }

  /** Spelling and spacing of a SELECT, up to the table name and from there on. */
  datatype Style = Style(select: string, g1: string, g2: string, from: string, g3: string, table: string,
                         g4: string, wher: string, g5: string, column: string, g6: string, g7: string,
                         g8: string, semicolon: bool, g9: string)

  predicate StyleOk(y: Style) {
    && Spelled(y.select, "SELECT", "select") && Spelled(y.from, "FROM", "from") && Spelled(y.table, "USERS", "users")
    && Spelled(y.wher, "WHERE", "where")
    && Blank(y.g1) && Blank(y.g2) && Blank(y.g3) && Blank(y.g4) && Blank(y.g5) && Blank(y.g6) && Blank(y.g7)
    && Blank(y.g8) && Blank(y.g9) && y.g3 != "" && y.g4 != "" && y.g5 != "" && (!y.semicolon ==> y.g9 == "")
  }

  function EndText(g: string, semicolon: bool, h: string): string {
    g + ((if semicolon then ";" else "") + h)
  }

  function SelectAllText(y: Style): string {
    y.select + (y.g1 + ("*" + (y.g2 + (y.from + (y.g3 + (y.table + EndText(y.g8, y.semicolon, y.g9)))))))
  }

  function WhereText(y: Style, sign: string, literal: string): string {
    y.select + (y.g1 + ("*" + (y.g2 + (y.from + (y.g3 + (y.table + (y.g4 + (y.wher + (y.g5 + (y.column + (y.g6 +
      (sign + (y.g7 + (literal + EndText(y.g8, y.semicolon, y.g9)))))))))))))))
  }

  lemma SpelledFolds(k: string, upper: string, lower: string)
    requires Spelled(k, upper, lower) && forall i :: 0 <= i < |upper| ==> 'A' <= upper[i] <= 'Z'
    requires |lower| == |upper| && forall i :: 0 <= i < |upper| ==> lower[i] == upper[i] - 'A' + 'a'
    ensures SqlText.EqualFold(k, upper) && SqlText.EqualFold(k, lower)
  {
  }

  lemma StyleFolds(y: Style)
    requires StyleOk(y)
    ensures SqlText.EqualFold(y.select, "SELECT") && SqlText.EqualFold(y.from, "FROM")
    ensures SqlText.EqualFold(y.wher, "WHERE") && IsTable(y.table)
  {
    SpelledFolds(y.select, "SELECT", "select");
    SpelledFolds(y.from, "FROM", "from");
    SpelledFolds(y.wher, "WHERE", "where");
    SpelledFolds(y.table, "USERS", "users");
  }

  // ---------------------------------------------------------------- SELECT

  /** An answer to a SELECT: some of the stored rows, once each, in ascending id order. */
  ghost predicate IsSelection(people: seq<Person>, answer: SqlResult) {
    && answer.action == SELECTED
    && (forall r :: r in answer.records ==> r in Listing(people))
    && (forall i, j :: 0 <= i < j < |answer.records| ==> answer.records[i].id < answer.records[j].id)
    && answer.rowCount == |answer.records|
    && (if answer.records == [] then answer.status == NOT_FOUND && answer.record == None
        else answer.status == OK && answer.record == Some(answer.records[0]))
  }

  /** A parsed SELECT returns the rows that match its condition. */
  lemma SelectAnswers(people: seq<Person>, s: string, command: Command, c: Condition)
    requires Parse(s) == Parsed(command) && IsSelect(command.kind) && c == ConditionOf(command)
    ensures IsSelection(people, TextAnswer(people, Parse(s)))
    ensures forall r :: r in TextAnswer(people, Parse(s)).records <==> r in Listing(people) && c.Matches(r)
  {
    FilterAscending(Listing(people), c);
    FilterMembers(Listing(people), c);
  }

  /** What the five signs mean. */
  lemma SignMeans(sign: string, a: int, b: int, holds: bool)
    requires IsSign(sign) && (holds <==> Compare(a, SignOf(sign), b))
    ensures sign == "=" ==> (holds <==> a == b)
    ensures sign == "<" ==> (holds <==> a < b)
    ensures sign == "<=" ==> (holds <==> a <= b)
    ensures sign == ">" ==> (holds <==> a > b)
    ensures sign == ">=" ==> (holds <==> a >= b)
  {
  }

  lemma SelectAllIsParsed(y: Style)
    requires StyleOk(y)
    ensures Parse(SelectAllText(y)) == Parsed(BLANK.(kind := SELECT_ALL, tableName := y.table))
  {
    StyleFolds(y);
    var t := SelectText(y.select, y.g1, y.g2, y.from, y.g3, y.table, Nothing(SqlText.Tail(y.g8, y.semicolon, y.g9)));
    assert StatementString(t) == SelectAllText(y);
    PrintedIsParsed(t);
  }

  lemma SelectAllAnswers(people: seq<Person>, y: Style)
    requires StyleOk(y)
    ensures var answer := TextAnswer(people, Parse(SelectAllText(y)));
      IsSelection(people, answer) && answer.records == Listing(people)
  {
    SelectAllIsParsed(y);
    FilterAll(Listing(people));
    SelectAnswers(people, SelectAllText(y), Parse(SelectAllText(y)).command, All);
  }

  /** The statement in the grammar that has this text. */
  function StatementFor(y: Style, c: Comparison, l: Literal): Statement {
    SelectText(y.select, y.g1, y.g2, y.from, y.g3, y.table,
               Where(SqlText.Tail(y.g4, false, ""), y.wher, y.g5, y.column, y.g6, c, y.g7, l,
                     SqlText.Tail(y.g8, y.semicolon, y.g9)))
  }

  lemma LiteralText(l: Literal, literal: string, end: string)
    requires literal == match l case Quoted(text) => "'" + (text + "'") case Number(digits) => digits
    ensures LiteralString(l, end) == literal + end
  {
  }

  lemma StatementText(y: Style, c: Comparison, l: Literal, sign: string, literal: string)
    requires sign == SqlText.ComparisonText(c)
    requires literal == match l case Quoted(text) => "'" + (text + "'") case Number(digits) => digits
    ensures StatementString(StatementFor(y, c, l)) == WhereText(y, sign, literal)
  {
    var end := EndText(y.g8, y.semicolon, y.g9);
    LiteralText(l, literal, end);
    var s := y.wher + (y.g5 + (y.column + (y.g6 + (sign + (y.g7 + (literal + end))))));
    assert "" + ("" + s) == s;
  }

  function SignOf(sign: string): Comparison {
    if sign == "=" then EQ else if sign == "<" then LT else if sign == "<=" then LE else if sign == ">" then GT else GE
  }

  predicate IsSign(sign: string) {
    sign == "=" || sign == "<" || sign == "<=" || sign == ">" || sign == ">="
  }

  lemma WhereStatementOk(y: Style, c: Comparison, l: Literal)
    requires StyleOk(y) && SqlText.IsWord(y.column) && ConditionOk(y.column, c, l)
    ensures StatementOk(StatementFor(y, c, l))
  {
    StyleFolds(y);
  }

  lemma WhereIsParsed(y: Style, sign: string, l: Literal, literal: string)
    requires StyleOk(y) && IsSign(sign)
    requires literal == match l case Quoted(text) => "'" + (text + "'") case Number(digits) => digits
    requires SqlText.IsWord(y.column) && ConditionOk(y.column, SignOf(sign), l)
    ensures StatementOk(StatementFor(y, SignOf(sign), l))
    ensures Parse(WhereText(y, sign, literal)) == Parsed(Meaning(StatementFor(y, SignOf(sign), l)))
  {
    WhereStatementOk(y, SignOf(sign), l);
    StatementText(y, SignOf(sign), l, sign, literal);
    PrintedIsParsed(StatementFor(y, SignOf(sign), l));
  }

  lemma AgeSelected(people: seq<Person>, s: string, command: Command, sign: string, n: int)
    requires Parse(s) == Parsed(command) && IsSign(sign)
    requires command.kind == SELECT_BY_AGE && command.comparison == SignOf(sign) && command.intValue == n
    ensures var answer := TextAnswer(people, Parse(s));
      && IsSelection(people, answer)
      && forall r :: r in Listing(people) ==>
        && (sign == "=" ==> (r in answer.records <==> r.age == n))
        && (sign == "<" ==> (r in answer.records <==> r.age < n))
        && (sign == "<=" ==> (r in answer.records <==> r.age <= n))
        && (sign == ">" ==> (r in answer.records <==> r.age > n))
        && (sign == ">=" ==> (r in answer.records <==> r.age >= n))
  {
    SelectAnswers(people, s, command, AgeIs(SignOf(sign), n));
    var rows := TextAnswer(people, Parse(s)).records;
    forall r | r in Listing(people)
      ensures && (sign == "=" ==> (r in rows <==> r.age == n))
              && (sign == "<" ==> (r in rows <==> r.age < n))
              && (sign == "<=" ==> (r in rows <==> r.age <= n))
              && (sign == ">" ==> (r in rows <==> r.age > n))
              && (sign == ">=" ==> (r in rows <==> r.age >= n))
    {
      SignMeans(sign, r.age, n, r in rows);
    }
  }

  /** The rows a comparison of ages returns, for each of the five signs. */
  lemma AgeConditionAnswers(people: seq<Person>, y: Style, sign: string, n: int)
    requires StyleOk(y) && Spelled(y.column, "AGE", "age") && IsSign(sign) && -0x8000_0000 <= n <= 0x7fff_ffff
    ensures var answer := TextAnswer(people, Parse(WhereText(y, sign, IntText(n))));
      && IsSelection(people, answer)
      && forall r :: r in Listing(people) ==>
        && (sign == "=" ==> (r in answer.records <==> r.age == n))
        && (sign == "<" ==> (r in answer.records <==> r.age < n))
        && (sign == "<=" ==> (r in answer.records <==> r.age <= n))
        && (sign == ">" ==> (r in answer.records <==> r.age > n))
        && (sign == ">=" ==> (r in answer.records <==> r.age >= n))
  {
    SpelledFolds(y.column, "AGE", "age");
    ColumnIsWord(y.column, "age");
    NumberIsParsed(y, sign, n, SELECT_BY_AGE);
    var text := WhereText(y, sign, IntText(n));
    AgeSelected(people, text, Parse(text).command, sign, n);
  }

  lemma IdSelected(people: seq<Person>, s: string, command: Command, sign: string, n: int)
    requires Parse(s) == Parsed(command) && IsSign(sign)
    requires command.kind == SELECT_BY_ID && command.comparison == SignOf(sign) && command.intValue == n
    ensures var answer := TextAnswer(people, Parse(s));
      && IsSelection(people, answer)
      && forall r :: r in Listing(people) ==>
        && (sign == "=" ==> (r in answer.records <==> r.id == n))
        && (sign == "<" ==> (r in answer.records <==> r.id < n))
        && (sign == "<=" ==> (r in answer.records <==> r.id <= n))
        && (sign == ">" ==> (r in answer.records <==> r.id > n))
        && (sign == ">=" ==> (r in answer.records <==> r.id >= n))
  {
    SelectAnswers(people, s, command, IdIs(SignOf(sign), n));
    var rows := TextAnswer(people, Parse(s)).records;
    forall r | r in Listing(people)
      ensures && (sign == "=" ==> (r in rows <==> r.id == n))
              && (sign == "<" ==> (r in rows <==> r.id < n))
              && (sign == "<=" ==> (r in rows <==> r.id <= n))
              && (sign == ">" ==> (r in rows <==> r.id > n))
              && (sign == ">=" ==> (r in rows <==> r.id >= n))
    {
      SignMeans(sign, r.id, n, r in rows);
    }
  }

  /** The rows a comparison of ids returns, for each of the five signs. */
  lemma IdConditionAnswers(people: seq<Person>, y: Style, sign: string, n: int)
    requires StyleOk(y) && Spelled(y.column, "ID", "id") && IsSign(sign) && -0x8000_0000 <= n <= 0x7fff_ffff
    ensures var answer := TextAnswer(people, Parse(WhereText(y, sign, IntText(n))));
      && IsSelection(people, answer)
      && forall r :: r in Listing(people) ==>
        && (sign == "=" ==> (r in answer.records <==> r.id == n))
        && (sign == "<" ==> (r in answer.records <==> r.id < n))
        && (sign == "<=" ==> (r in answer.records <==> r.id <= n))
        && (sign == ">" ==> (r in answer.records <==> r.id > n))
        && (sign == ">=" ==> (r in answer.records <==> r.id >= n))
  {
    SpelledFolds(y.column, "ID", "id");
    ColumnIsWord(y.column, "id");
    NumberIsParsed(y, sign, n, SELECT_BY_ID);
    var text := WhereText(y, sign, IntText(n));
    IdSelected(people, text, Parse(text).command, sign, n);
  }

  lemma NumberIsParsed(y: Style, sign: string, n: int, kind: CommandType)
    requires StyleOk(y) && IsSign(sign) && -0x8000_0000 <= n <= 0x7fff_ffff && SqlText.IsWord(y.column)
    requires match kind
      case SELECT_BY_ID => SqlText.EqualFold(y.column, "id")
      case SELECT_BY_AGE => SqlText.EqualFold(y.column, "age")
      case _ => false
    ensures Parse(WhereText(y, sign, IntText(n))) ==
      Parsed(BLANK.(kind := kind, comparison := SignOf(sign), tableName := y.table, whereColumn := y.column,
                    hasWhere := true, intValue := n))
  {
    IntTextValue(n);
    WhereIsParsed(y, sign, Number(IntText(n)), IntText(n));
  }

  /** The rows a comparison of names returns. */
  lemma NameConditionAnswers(people: seq<Person>, y: Style, name: string)
    requires StyleOk(y) && Spelled(y.column, "NAME", "name") && |name| <= 63 && '\'' !in name
    ensures var answer := TextAnswer(people, Parse(WhereText(y, "=", "'" + (name + "'"))));
      && IsSelection(people, answer)
      && forall r :: r in Listing(people) ==> (r in answer.records <==> r.name == name)
  {
    SpelledFolds(y.column, "NAME", "name");
    ColumnIsWord(y.column, "name");
    NameIsParsed(y, name);
    var text := WhereText(y, "=", "'" + (name + "'"));
    SelectAnswers(people, text, Parse(text).command, NameIs(name));
  }

  lemma NameIsParsed(y: Style, name: string)
    requires StyleOk(y) && |name| <= 63 && '\'' !in name
    requires SqlText.IsWord(y.column) && SqlText.EqualFold(y.column, "name")
    ensures Parse(WhereText(y, "=", "'" + (name + "'"))) ==
      Parsed(BLANK.(kind := SELECT_BY_NAME, tableName := y.table, whereColumn := y.column, hasWhere := true,
                    textValue := name))
  {
    WhereIsParsed(y, "=", Quoted(name), "'" + (name + "'"));
  }

  // ---------------------------------------------------------------- INSERT

  /** Spelling and spacing of an INSERT. */
  datatype InsertStyle = InsertStyle(insert: string, g1: string, into: string, g2: string, table: string, g3: string,
                                     values: string, g4: string, g5: string, g6: string, g7: string, g8: string,
                                     g9: string, semicolon: bool, g10: string)

  predicate InsertStyleOk(y: InsertStyle) {
    && Spelled(y.insert, "INSERT", "insert") && Spelled(y.into, "INTO", "into") && Spelled(y.table, "USERS", "users")
    && Spelled(y.values, "VALUES", "values")
    && Blank(y.g1) && Blank(y.g2) && Blank(y.g3) && Blank(y.g4) && Blank(y.g5) && Blank(y.g6) && Blank(y.g7)
    && Blank(y.g8) && Blank(y.g9) && Blank(y.g10)
    && y.g1 != "" && y.g2 != "" && y.g3 != "" && (!y.semicolon ==> y.g10 == "")
  }

  function InsertTextOf(y: InsertStyle, name: string, number: string): string {
    y.insert + (y.g1 + (y.into + (y.g2 + (y.table + (y.g3 + (y.values + RowTextOf(y, name, number)))))))
  }

  function RowTextOf(y: InsertStyle, name: string, number: string): string {
    y.g4 + ("(" + (y.g5 + ("'" + (name + ("'" + (y.g6 + ("," + (y.g7 + (number + (y.g8 + (")" +
      EndText(y.g9, y.semicolon, y.g10))))))))))))
  }

  lemma InsertFolds(y: InsertStyle)
    requires InsertStyleOk(y)
    ensures SqlText.EqualFold(y.insert, "INSERT") && SqlText.EqualFold(y.into, "INTO")
    ensures SqlText.EqualFold(y.values, "VALUES") && IsTable(y.table)
  {
    SpelledFolds(y.insert, "INSERT", "insert");
    SpelledFolds(y.into, "INTO", "into");
    SpelledFolds(y.values, "VALUES", "values");
    SpelledFolds(y.table, "USERS", "users");
  }

  lemma InsertIsParsed(y: InsertStyle, name: string, n: int)
    requires InsertStyleOk(y) && |name| <= 63 && '\'' !in name && -0x8000_0000 <= n <= 0x7fff_ffff
    ensures Parse(InsertTextOf(y, name, IntText(n))) ==
      Parsed(BLANK.(kind := INSERT, tableName := y.table, name := name, intValue := n))
  {
    InsertFolds(y);
    IntTextValue(n);
    var row := RowText(y.g4, y.g5, name, y.g6, y.g7, IntText(n), y.g8, SqlText.Tail(y.g9, y.semicolon, y.g10));
    assert RowString(row) == RowTextOf(y, name, IntText(n));
    PrintedIsParsed(InsertText(y.insert, y.g1, y.into, y.g2, y.table, y.g3, y.values, row));
  }

  /** An INSERT stores the name and the age as they stand in the text, under the next id. */
  lemma InsertAnswers(people: seq<Person>, y: InsertStyle, name: string, n: int)
    requires InsertStyleOk(y) && |name| <= 63 && '\'' !in name && -0x8000_0000 <= n <= 0x7fff_ffff
    ensures var o := Parse(InsertTextOf(y, name, IntText(n)));
            var answer, row := TextAnswer(people, o), Record(|people| + 1, name, n);
      && PeopleAfterText(people, o) == people + [Person(name, n)]
      && Listing(PeopleAfterText(people, o)) == Listing(people) + [row]
      && answer.status == OK && answer.action == INSERTED && answer.record == Some(row)
      && answer.insertedId == |people| + 1 && answer.rowCount == 1
  {
    InsertIsParsed(y, name, n);
    ListingGrows(people, Parse(InsertTextOf(y, name, IntText(n))).command);
  }

  // ---------------------------------------------------------------- what changes nothing

  /** EXIT and QUIT, in any spelling, behind any space, are told apart from an error and store nothing. */
  lemma ExitAnswers(people: seq<Person>, g1: string, word: string, g2: string, semicolon: bool, g3: string)
    requires Blank(g1) && Blank(g2) && Blank(g3) && (!semicolon ==> g3 == "")
    requires Spelled(word, "EXIT", "exit") || Spelled(word, "QUIT", "quit")
    ensures var o := Parse(g1 + (word + EndText(g2, semicolon, g3)));
      && o == Parsed(BLANK.(kind := EXIT))
      && PeopleAfterText(people, o) == people && TextAnswer(people, o).status == EXITED
  {
    if Spelled(word, "EXIT", "exit") {
      SpelledFolds(word, "EXIT", "exit");
    } else {
      SpelledFolds(word, "QUIT", "quit");
    }
    PrintedIsParsed(ExitText(g1, word, SqlText.Tail(g2, semicolon, g3)));
  }

  /** A name of more than 63 characters is refused, whatever follows, and nothing is stored. */
  lemma LongNameRefused(people: seq<Person>, y: InsertStyle, name: string, rest: string)
    requires InsertStyleOk(y) && |name| >= 64 && '\'' !in name
    ensures var s := y.insert + (y.g1 + (y.into + (y.g2 + (y.table + (y.g3 + (y.values + (y.g4 + ("(" + (y.g5 + ("'" +
                       (name + rest)))))))))));
      Parse(s).SyntaxError? && PeopleAfterText(people, Parse(s)) == people
  {
    InsertFolds(y);
    var s2 := "'" + (name + rest);
    var s1 := "(" + (y.g5 + s2);
    NoWord(y.g4, s1);
    InsertPrefix(y.insert, y.g1, y.into, y.g2, y.table, y.g3, y.values, y.g4 + s1);
    SqlText.CharAt(y.g4, y.g5 + s2, '(');
    SqlText.SkipGap(y.g5, s2);
    assert s2[1..] == name + rest;
    SqlText.QuotedTooLong(name, rest, 63);
    var s := y.g1 + (y.into + (y.g2 + (y.table + (y.g3 + (y.values + (y.g4 + s1))))));
    OnlyKeyword(y.insert, "INSERT", s);
  }

  lemma FoldsSpelled(k: string, upper: string, lower: string)
    requires SqlText.EqualFold(k, upper) && forall i :: 0 <= i < |upper| ==> 'A' <= upper[i] <= 'Z'
    requires |lower| == |upper| && forall i :: 0 <= i < |upper| ==> lower[i] == upper[i] - 'A' + 'a'
    ensures Spelled(k, upper, lower)
  {
  }

  lemma InsertSpelled(insert: string, into: string, table: string, values: string)
    requires SqlText.EqualFold(insert, "INSERT") && SqlText.EqualFold(into, "INTO")
    requires SqlText.EqualFold(values, "VALUES") && IsTable(table)
    ensures Spelled(insert, "INSERT", "insert") && Spelled(into, "INTO", "into")
    ensures Spelled(values, "VALUES", "values") && Spelled(table, "USERS", "users")
  {
    FoldsSpelled(insert, "INSERT", "insert");
    FoldsSpelled(into, "INTO", "into");
    FoldsSpelled(values, "VALUES", "values");
    TableFolds(table);
    FoldsSpelled(table, "USERS", "users");
  }

  lemma TableFolds(table: string)
    requires IsTable(table)
    ensures SqlText.EqualFold(table, "USERS")
  {
  }

  /** A text that stores anything is an INSERT of that name, written as above. */
  lemma OnlyInsertsStore(people: seq<Person>, s: string) returns (y: InsertStyle, name: string, number: string, n: int)
    requires PeopleAfterText(people, Parse(s)) != people
    ensures InsertStyleOk(y) && s == InsertTextOf(y, name, number) && |name| <= 63 && '\'' !in name
    ensures PeopleAfterText(people, Parse(s)) == people + [Person(name, n)]
  {
    var t := ParsedIsPrinted(s);
    var r := t.row;
    y := InsertStyle(t.insert, t.g1, t.into, t.g2, t.table, t.g3, t.values, r.g1, r.g2, r.g3, r.g4, r.g5,
                     r.tail.before, r.tail.semicolon, r.tail.after);
    name, number, n := r.name, r.number, Parse(s).command.intValue;
    InsertSpelled(t.insert, t.into, t.table, t.values);
    assert RowString(r) == RowTextOf(y, name, number);
  }
}
