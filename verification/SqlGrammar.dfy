/**
 * The statements of sql_processor/sql.c: the parser as a function on text, the grammar as a
 * printer, and the proof that the parser accepts exactly the printed statements.
 */
module SqlGrammar {
  import opened Rows
  import opened SqlText
  import opened Decimals

  const NAME_SIZE := RECORD_NAME_SIZE
  const IDENTIFIER_SIZE := 32

  datatype CommandType = NONE | INSERT | SELECT_ALL | SELECT_BY_ID | SELECT_BY_NAME | SELECT_BY_AGE | EXIT

  datatype Command = Command(
    kind: CommandType,
    comparison: Comparison,
    tableName: string,
    name: string,
    whereColumn: string,
    textValue: string,
    intValue: int,
    hasWhere: bool)

  const BLANK := Command(NONE, EQ, "", "", "", "", 0, false)

  /**
   * What a statement parser finds. A syntax error tells the text it points at, `NotMine` that the
   * first keyword is another one.
   */
  datatype Outcome =
    | NotMine
    | Parsed(command: Command)
    | SyntaxError(near: string)
    | UnknownColumn(column: string, clause: string)

  // ---------------------------------------------------------------- the parser

  /** The part of an INSERT after VALUES. */
  function ParseRow(table: string, s: string): Outcome {
    var open := MatchChar(s, '(');
    if !open.ok then SyntaxError(open.rest) else
    var name := ParseString(open.rest, NAME_SIZE);
    if !name.ok then SyntaxError(name.rest) else
    var comma := MatchChar(name.rest, ',');
    if !comma.ok then SyntaxError(comma.rest) else
    var age := ParseInt(comma.rest);
    if !age.ok then SyntaxError(age.rest) else
    var close := MatchChar(age.rest, ')');
    if !close.ok then SyntaxError(close.rest) else
    var end := MatchStatementEnd(close.rest);
    if !end.ok then SyntaxError(end.rest) else
    Parsed(BLANK.(kind := INSERT, tableName := table, name := name.value, intValue := age.value))
  }

  function ParseInsert(s: string): Outcome {
    var insert := MatchKeyword(s, "INSERT");
    if !insert.ok then NotMine else
    var into := MatchKeyword(SkipSpaces(insert.rest), "INTO");
    if !into.ok then SyntaxError(into.rest) else
    var table := ParseIdentifier(into.rest, IDENTIFIER_SIZE);
    if !table.ok then SyntaxError(table.rest) else
    if !EqualFold(table.value, "users") then SyntaxError(table.value) else
    var values := MatchKeyword(SkipSpaces(table.rest), "VALUES");
    if !values.ok then SyntaxError(values.rest) else
    ParseRow(table.value, values.rest)
  }

  function IntCondition(command: Command, s: string): Outcome {
    var value := ParseInt(s);
    if !value.ok then SyntaxError(value.rest) else
    var end := MatchStatementEnd(value.rest);
    if !end.ok then SyntaxError(end.rest) else
    Parsed(command.(intValue := value.value))
  }

  function TextCondition(command: Command, s: string): Outcome {
    var value := ParseString(s, NAME_SIZE);
    if !value.ok then SyntaxError(value.rest) else
    var end := MatchStatementEnd(value.rest);
    if !end.ok then SyntaxError(end.rest) else
    Parsed(command.(textValue := value.value))
  }

  /** The part of a SELECT after WHERE. */
  function ParseWhere(table: string, s: string): Outcome {
    var column := ParseIdentifier(s, IDENTIFIER_SIZE);
    if !column.ok then SyntaxError(column.rest) else
    var comparison := ParseComparison(column.rest);
    if !comparison.ok then SyntaxError(comparison.rest) else
    var command := BLANK.(comparison := comparison.value, tableName := table, whereColumn := column.value, hasWhere := true);
    if EqualFold(column.value, "id") then
      IntCondition(command.(kind := SELECT_BY_ID), comparison.rest)
    else if EqualFold(column.value, "name") then
      if comparison.value != EQ then SyntaxError(column.rest)
      else TextCondition(command.(kind := SELECT_BY_NAME), comparison.rest)
    else if EqualFold(column.value, "age") then
      IntCondition(command.(kind := SELECT_BY_AGE), comparison.rest)
    else
      UnknownColumn(column.value, "where clause")
  }

  /** The part of a SELECT after the table name. A semicolon before WHERE is swallowed. */
  function ParseAfterTable(table: string, s: string): Outcome {
    var end := MatchStatementEnd(SkipSpaces(s));
    if end.ok then Parsed(BLANK.(kind := SELECT_ALL, tableName := table)) else
    var wher := MatchKeyword(end.rest, "WHERE");
    if !wher.ok then SyntaxError(wher.rest) else
    ParseWhere(table, wher.rest)
  }

  /** The part of a SELECT after the asterisk. */
  function ParseFrom(s: string): Outcome {
    var from := MatchKeyword(SkipSpaces(s), "FROM");
    if !from.ok then SyntaxError(from.rest) else
    var table := ParseIdentifier(from.rest, IDENTIFIER_SIZE);
    if !table.ok then SyntaxError(table.rest) else
    if !EqualFold(table.value, "users") then SyntaxError(table.value) else
    ParseAfterTable(table.value, table.rest)
  }

  predicate IsKnownColumn(column: string) {
    EqualFold(column, "id") || EqualFold(column, "name") || EqualFold(column, "age")
  }

  function ParseSelect(s: string): Outcome {
    var select := MatchKeyword(s, "SELECT");
    if !select.ok then NotMine else
    var star := MatchChar(SkipSpaces(select.rest), '*');
    if star.ok then ParseFrom(star.rest) else
    var column := ParseIdentifier(star.rest, IDENTIFIER_SIZE);
    if !column.ok then SyntaxError(column.rest) else
    if !IsKnownColumn(column.value) then UnknownColumn(column.value, "field list")
    else SyntaxError(column.rest)
  }

  function ParseExit(s: string): Outcome {
    var exit, quit := MatchKeyword(s, "EXIT"), MatchKeyword(s, "QUIT");
    if !exit.ok && !quit.ok then NotMine else
    var end := MatchStatementEnd(if exit.ok then exit.rest else quit.rest);
    if end.ok then Parsed(BLANK.(kind := EXIT)) else SyntaxError(end.rest)
  }

  /** Leading space is skipped for EXIT and QUIT only. */
  function Parse(s: string): Outcome {
    var exit := ParseExit(SkipSpaces(s));
    if exit != NotMine then exit else
    var insert := ParseInsert(s);
    if insert != NotMine then insert else
    var select := ParseSelect(s);
    if select != NotMine then select else
    SyntaxError(SkipSpaces(s))
  }

  // ---------------------------------------------------------------- the grammar

  /** The pieces of a parenthesised row, with every gap a writer may choose. */
  datatype RowText = RowText(
    g1: string, g2: string, name: string, g3: string, g4: string, number: string, g5: string, tail: Tail)

  datatype Literal = Quoted(text: string) | Number(digits: string)

  datatype Filler = Nothing(tail: Tail) | Where(mid: Tail, wher: string, g1: string, column: string,
                                                g2: string, comparison: Comparison, g3: string, literal: Literal,
                                                tail: Tail)

  datatype Statement =
    | InsertText(insert: string, g1: string, into: string, g2: string, table: string, g3: string, values: string,
                 row: RowText)
    | SelectText(select: string, g1: string, g2: string, from: string, g3: string, table: string, filler: Filler)
    | ExitText(g1: string, word: string, tail: Tail)

  function RowString(r: RowText): string {
    r.g1 + (['('] + (r.g2 + (['\''] + (r.name + (['\''] + (r.g3 + ([','] +
      (r.g4 + (r.number + (r.g5 + ([')'] + TailText(r.tail))))))))))))
  }

  predicate RowOk(r: RowText) {
    && Gap(r.g1) && Gap(r.g2) && Gap(r.g3) && Gap(r.g4) && Gap(r.g5) && TailOk(r.tail)
    && IsName(r.name) && |r.name| < NAME_SIZE && IsNumber(r.number)
  }

  function LiteralString(l: Literal, s: string): string {
    match l
    case Quoted(text) => ['\''] + (text + (['\''] + s))
    case Number(digits) => digits + s
  }

  /** Which literal and comparison a column takes. */
  predicate ConditionOk(column: string, comparison: Comparison, l: Literal) {
    if EqualFold(column, "name") then comparison == EQ && l.Quoted? && IsName(l.text) && |l.text| < NAME_SIZE
    else (EqualFold(column, "id") || EqualFold(column, "age")) && l.Number? && IsNumber(l.digits)
  }

  function FillerString(f: Filler): string {
    match f
    case Nothing(tail) => TailText(tail)
    case Where(mid, wher, g1, column, g2, comparison, g3, literal, tail) =>
      mid.before + ((if mid.semicolon then ";" else "") + (mid.after + (wher + (g1 + (column + (g2 +
        (ComparisonText(comparison) + (g3 + LiteralString(literal, TailText(tail))))))))))
  }

  predicate FillerOk(f: Filler) {
    match f
    case Nothing(tail) => TailOk(tail)
    case Where(mid, wher, g1, column, g2, comparison, g3, literal, tail) =>
      && TailOk(mid) && (mid.semicolon || mid.before != "")
      && EqualFold(wher, "WHERE") && Gap(g1) && g1 != "" && IsWord(column)
      && Gap(g2) && Gap(g3) && ConditionOk(column, comparison, literal) && TailOk(tail)
  }

  function StatementString(t: Statement): string {
    match t
    case InsertText(insert, g1, into, g2, table, g3, values, row) =>
      insert + (g1 + (into + (g2 + (table + (g3 + (values + RowString(row)))))))
    case SelectText(select, g1, g2, from, g3, table, filler) =>
      select + (g1 + (['*'] + (g2 + (from + (g3 + (table + FillerString(filler)))))))
    case ExitText(g1, word, tail) =>
      g1 + (word + TailText(tail))
  }

  predicate IsTable(table: string) {
    IsWord(table) && EqualFold(table, "users")
  }

  predicate StatementOk(t: Statement) {
    match t
    case InsertText(insert, g1, into, g2, table, g3, values, row) =>
      && EqualFold(insert, "INSERT") && EqualFold(into, "INTO") && EqualFold(values, "VALUES")
      && Gap(g1) && g1 != "" && Gap(g2) && g2 != "" && Gap(g3) && g3 != "" && IsTable(table) && RowOk(row)
    case SelectText(select, g1, g2, from, g3, table, filler) =>
      && EqualFold(select, "SELECT") && EqualFold(from, "FROM")
      && Gap(g1) && Gap(g2) && Gap(g3) && g3 != "" && IsTable(table) && FillerOk(filler)
    case ExitText(g1, word, tail) =>
      Gap(g1) && (EqualFold(word, "EXIT") || EqualFold(word, "QUIT")) && TailOk(tail)
  }

  function FillerMeaning(table: string, f: Filler): Command
    requires FillerOk(f)
  {
    match f
    case Nothing(_) => BLANK.(kind := SELECT_ALL, tableName := table)
    case Where(_, _, _, column, _, comparison, _, literal, _) =>
      var command := BLANK.(comparison := comparison, tableName := table, whereColumn := column, hasWhere := true);
      if EqualFold(column, "name") then command.(kind := SELECT_BY_NAME, textValue := literal.text)
      else command.(kind := if EqualFold(column, "id") then SELECT_BY_ID else SELECT_BY_AGE,
                    intValue := LongToInt(NumberValue(literal.digits)))
  }

  function Meaning(t: Statement): Command
    requires StatementOk(t)
  {
    match t
    case InsertText(_, _, _, _, table, _, _, row) =>
      BLANK.(kind := INSERT, tableName := table, name := row.name, intValue := LongToInt(NumberValue(row.number)))
    case SelectText(_, _, _, _, _, table, filler) => FillerMeaning(table, filler)
    case ExitText(_, _, _) => BLANK.(kind := EXIT)
  }

  // ---------------------------------------------------------------- print, then parse

  lemma RowAt(table: string, r: RowText)
    requires RowOk(r)
    ensures ParseRow(table, RowString(r)) ==
              Parsed(BLANK.(kind := INSERT, tableName := table, name := r.name, intValue := LongToInt(NumberValue(r.number))))
  {
    var s5 := [')'] + TailText(r.tail);
    var s4 := r.g5 + s5;
    var s3 := [','] + (r.g4 + (r.number + s4));
    var s2 := r.g3 + s3;
    CharAt(r.g1, r.g2 + (['\''] + (r.name + (['\''] + s2))), '(');
    StringAt(r.g2, r.name, s2, NAME_SIZE);
    CharAt(r.g3, r.g4 + (r.number + s4), ',');
    assert !IsDigit(s4[0]);
    IntAt(r.g4, r.number, s4);
    CharAt(r.g5, TailText(r.tail), ')');
    EndAt(r.tail);
  }

  /** A gap that is not empty, or text that starts with no word character, ends a word. */
  lemma NoWord(g: string, s: string)
    requires Gap(g) && (g != "" || !StartsWord(s))
    ensures !StartsWord(g + s)
  {
    if g == "" {
      assert g + s == s;
    }
  }

  lemma FoldStarts(k: string, word: string, s: string)
    requires EqualFold(k, word) && word != "" && IsAlpha(word[0])
    ensures !Spaced(k + s) && StartsWord(k + s) && ToLower((k + s)[0]) == ToLower(word[0])
  {
  }

  /** The part of an INSERT up to VALUES. */
  lemma InsertPrefix(insert: string, g1: string, into: string, g2: string, table: string, g3: string, values: string,
                     s: string)
    requires EqualFold(insert, "INSERT") && EqualFold(into, "INTO") && EqualFold(values, "VALUES") && IsTable(table)
    requires Gap(g1) && g1 != "" && Gap(g2) && g2 != "" && Gap(g3) && g3 != "" && !StartsWord(s)
    ensures ParseInsert(insert + (g1 + (into + (g2 + (table + (g3 + (values + s))))))) == ParseRow(table, s)
  {
    var s3 := values + s;
    var s2 := g2 + (table + (g3 + s3));
    var s1 := into + s2;
    NoWord(g1, s1);
    KeywordAt(insert, g1 + s1, "INSERT");
    FoldStarts(into, "INTO", s2);
    SkipGap(g1, s1);
    NoWord(g2, table + (g3 + s3));
    KeywordAt(into, s2, "INTO");
    NoWord(g3, s3);
    IdentifierAt(g2, table, g3 + s3, IDENTIFIER_SIZE);
    FoldStarts(values, "VALUES", s);
    SkipGap(g3, s3);
    KeywordAt(values, s, "VALUES");
  }

  lemma InsertAt(t: Statement)
    requires StatementOk(t) && t.InsertText?
    ensures ParseInsert(StatementString(t)) == Parsed(Meaning(t))
  {
    var row := RowString(t.row);
    NoWord(t.row.g1, row[|t.row.g1|..]);
    assert row == t.row.g1 + row[|t.row.g1|..];
    InsertPrefix(t.insert, t.g1, t.into, t.g2, t.table, t.g3, t.values, row);
    RowAt(t.table, t.row);
  }

  lemma LiteralStarts(l: Literal, s: string)
    requires l.Number? ==> IsNumber(l.digits)
    ensures LiteralString(l, s) != "" && LiteralString(l, s)[0] != '='
  {
  }

  /** The literal of a condition and the end of the statement. */
  lemma ConditionAt(command: Command, g: string, l: Literal, tail: Tail)
    requires Gap(g) && TailOk(tail)
    requires match l case Quoted(text) => IsName(text) && |text| < NAME_SIZE case Number(digits) => IsNumber(digits)
    ensures l.Quoted? ==>
              TextCondition(command, g + LiteralString(l, TailText(tail))) == Parsed(command.(textValue := l.text))
    ensures l.Number? ==>
              IntCondition(command, g + LiteralString(l, TailText(tail))) ==
              Parsed(command.(intValue := LongToInt(NumberValue(l.digits))))
  {
    EndAt(tail);
    match l
    case Quoted(text) => StringAt(g, text, TailText(tail), NAME_SIZE);
    case Number(digits) =>
      TailStarts(tail);
      IntAt(g, digits, TailText(tail));
  }

  lemma TailStarts(tail: Tail)
    requires TailOk(tail)
    ensures TailText(tail) == "" || IsSpace(TailText(tail)[0]) || TailText(tail)[0] == ';'
    ensures !StartsWord(TailText(tail))
  {
  }

  lemma WhereAt(table: string, f: Filler)
    requires f.Where? && FillerOk(f)
    ensures ParseWhere(table, f.g1 + (f.column + (f.g2 +
              (ComparisonText(f.comparison) + (f.g3 + LiteralString(f.literal, TailText(f.tail))))))) ==
            Parsed(FillerMeaning(table, f))
    requires |f.column| < IDENTIFIER_SIZE
  {
    var s2 := f.g3 + LiteralString(f.literal, TailText(f.tail));
    var s1 := ComparisonText(f.comparison) + s2;
    NoWord(f.g2, s1);
    IdentifierAt(f.g1, f.column, f.g2 + s1, IDENTIFIER_SIZE);
    LiteralStarts(f.literal, TailText(f.tail));
    assert s2 != "" && s2[0] != '=';
    ComparisonAt(f.g2, f.comparison, s2);
    var command := BLANK.(comparison := f.comparison, tableName := table, whereColumn := f.column, hasWhere := true);
    ConditionAt(command.(kind := FillerMeaning(table, f).kind), f.g3, f.literal, f.tail);
  }

  /** Column names that a condition may use are short. */
  lemma ColumnShort(column: string, comparison: Comparison, l: Literal)
    requires ConditionOk(column, comparison, l)
    ensures |column| < IDENTIFIER_SIZE
  {
  }

  lemma StartsAfter(before: string, semicolon: bool, after: string, s: string)
    requires Gap(before) && Gap(after) && !Spaced(s) && (!semicolon ==> after == "")
    requires !(s != "" && s[0] == ';')
    ensures MatchStatementEnd(SkipSpaces(before + ((if semicolon then ";" else "") + (after + s)))) ==
              Token(s == "", s, ())
  {
    SkipGap(after, s);
    if semicolon {
      SkipGap(before, ";" + (after + s));
      SkipGap("", ";" + (after + s));
      assert "" + (";" + (after + s)) == ";" + (after + s);
      assert (";" + (after + s))[1..] == after + s;
    } else {
      assert "" + (after + s) == s;
      SkipGap(before, s);
      SkipGap("", s);
      assert "" + s == s;
    }
  }

  /** The part of a SELECT between the table name and what follows WHERE. */
  lemma WherePrefix(table: string, mid: Tail, wher: string, s1: string)
    requires TailOk(mid) && EqualFold(wher, "WHERE") && !StartsWord(s1)
    ensures ParseAfterTable(table, mid.before + ((if mid.semicolon then ";" else "") + (mid.after + (wher + s1)))) ==
              ParseWhere(table, s1)
  {
    FoldStarts(wher, "WHERE", s1);
    StartsAfter(mid.before, mid.semicolon, mid.after, wher + s1);
    KeywordAt(wher, s1, "WHERE");
  }

  lemma FillerAt(table: string, f: Filler)
    requires FillerOk(f)
    ensures ParseAfterTable(table, FillerString(f)) == Parsed(FillerMeaning(table, f))
  {
    match f
    case Nothing(tail) =>
      StartsAfter(tail.before, tail.semicolon, tail.after, "");
      assert tail.after + "" == tail.after;
    case Where(mid, wher, g1, column, g2, comparison, g3, literal, tail) =>
      var s1 := g1 + (column + (g2 + (ComparisonText(comparison) + (g3 + LiteralString(literal, TailText(tail))))));
      NoWord(g1, s1[|g1|..]);
      assert s1 == g1 + s1[|g1|..];
      WherePrefix(table, mid, wher, s1);
      ColumnShort(column, comparison, literal);
      WhereAt(table, f);
  }

  lemma FillerStarts(f: Filler)
    requires FillerOk(f)
    ensures !StartsWord(FillerString(f))
  {
    if f.Nothing? {
      TailStarts(f.tail);
    }
  }

  /** The part of a SELECT up to the table name. */
  lemma SelectPrefix(select: string, g1: string, g2: string, from: string, g3: string, table: string, s: string)
    requires EqualFold(select, "SELECT") && EqualFold(from, "FROM") && IsTable(table) && !StartsWord(s)
    requires Gap(g1) && Gap(g2) && Gap(g3) && g3 != ""
    ensures ParseSelect(select + (g1 + (['*'] + (g2 + (from + (g3 + (table + s))))))) == ParseAfterTable(table, s)
  {
    var s3 := table + s;
    var s2 := from + (g3 + s3);
    var s1 := ['*'] + (g2 + s2);
    NoWord(g1, s1);
    KeywordAt(select, g1 + s1, "SELECT");
    SkipGap(g1, s1);
    assert "" + s1 == s1;
    CharAt("", g2 + s2, '*');
    FoldStarts(from, "FROM", g3 + s3);
    SkipGap(g2, s2);
    NoWord(g3, s3);
    KeywordAt(from, g3 + s3, "FROM");
    IdentifierAt(g3, table, s, IDENTIFIER_SIZE);
  }

  lemma SelectAt(t: Statement)
    requires StatementOk(t) && t.SelectText?
    ensures ParseSelect(StatementString(t)) == Parsed(Meaning(t))
  {
    FillerStarts(t.filler);
    SelectPrefix(t.select, t.g1, t.g2, t.from, t.g3, t.table, FillerString(t.filler));
    FillerAt(t.table, t.filler);
  }

  lemma ExitAt(t: Statement)
    requires StatementOk(t) && t.ExitText?
    ensures ParseExit(SkipSpaces(StatementString(t))) == Parsed(Meaning(t))
  {
    var s1 := TailText(t.tail);
    TailStarts(t.tail);
    EndAt(t.tail);
    if EqualFold(t.word, "EXIT") {
      FoldStarts(t.word, "EXIT", s1);
      SkipGap(t.g1, t.word + s1);
      KeywordAt(t.word, s1, "EXIT");
    } else {
      FoldStarts(t.word, "QUIT", s1);
      SkipGap(t.g1, t.word + s1);
      KeywordAt(t.word, s1, "QUIT");
      OtherKeyword(t.word + s1, "EXIT", 'q');
    }
  }

  /** Text starting with another letter is not this keyword. */
  lemma OtherKeyword(s: string, word: string, c: char)
    requires s != "" && word != "" && ToLower(s[0]) == c && c != ToLower(word[0])
    ensures !MatchKeyword(s, word).ok
  {
    if |word| <= |s| {
      assert s[..|word|][0] == s[0];
    }
  }

  /** A keyword of `word` at the start of the text rules out the other statements. */
  lemma OnlyKeyword(k: string, word: string, s: string)
    requires EqualFold(k, word) && word in {"INSERT", "SELECT"}
    ensures ParseExit(SkipSpaces(k + s)) == NotMine
    ensures word == "SELECT" ==> ParseInsert(k + s) == NotMine
  {
    FoldStarts(k, word, s);
    var c := ToLower(word[0]);
    OtherKeyword(k + s, "EXIT", c);
    OtherKeyword(k + s, "QUIT", c);
    if word == "SELECT" {
      OtherKeyword(k + s, "INSERT", c);
    }
  }

  lemma StatementStarts(t: Statement) returns (k: string, s: string)
    requires !t.ExitText?
    ensures StatementString(t) == k + s && k == if t.InsertText? then t.insert else t.select
  {
    k := if t.InsertText? then t.insert else t.select;
    s := StatementString(t)[|k|..];
    assert StatementString(t)[..|k|] == k;
  }

  /** Every statement, printed in any style, is parsed back to what it means. */
  lemma PrintedIsParsed(t: Statement)
    requires StatementOk(t)
    ensures Parse(StatementString(t)) == Parsed(Meaning(t))
  {
    if t.ExitText? {
      ExitAt(t);
    } else {
      var k, s := StatementStarts(t);
      OnlyKeyword(k, if t.InsertText? then "INSERT" else "SELECT", s);
      if t.InsertText? {
        InsertAt(t);
      } else {
        SelectAt(t);
      }
    }
  }

  // ---------------------------------------------------------------- parsed, hence printed

  lemma RowWas(table: string, s: string) returns (r: RowText)
    requires ParseRow(table, s).Parsed?
    ensures RowOk(r) && s == RowString(r)
  {
    var g1 := CharWas(s, '(');
    var s1 := MatchChar(s, '(').rest;
    var g2 := StringWas(s1, NAME_SIZE);
    var name := ParseString(s1, NAME_SIZE);
    var g3 := CharWas(name.rest, ',');
    var s3 := MatchChar(name.rest, ',').rest;
    var g4, number := IntWas(s3);
    var s4 := ParseInt(s3).rest;
    var g5 := CharWas(s4, ')');
    var s5 := MatchChar(s4, ')').rest;
    var tail := EndWas(s5);
    assert tail.after + "" == tail.after;
    r := RowText(g1, g2, name.value, g3, g4, number, g5, tail);
  }

  /** A gap in front of a word that ends the word before it is not empty. */
  lemma GapNeeded(g: string, s: string)
    requires Gap(g) && !StartsWord(g + s) && StartsWord(s)
    ensures g != ""
  {
    assert g == "" ==> g + s == s;
  }

  lemma NoGap(g: string, s: string)
    requires Gap(g) && !Spaced(g + s)
    ensures g == ""
  {
  }

  lemma InsertWas(s: string) returns (t: Statement)
    requires ParseInsert(s).Parsed?
    ensures t.InsertText? && StatementOk(t) && s == StatementString(t)
  {
    var insert := KeywordWas(s, "INSERT");
    var s1 := MatchKeyword(s, "INSERT").rest;
    var g1 := GapBefore(s1);
    var into := KeywordWas(SkipSpaces(s1), "INTO");
    var s2 := MatchKeyword(SkipSpaces(s1), "INTO").rest;
    FoldStarts(into, "INTO", s2);
    GapNeeded(g1, SkipSpaces(s1));
    var g2 := IdentifierWas(s2, IDENTIFIER_SIZE);
    var table := ParseIdentifier(s2, IDENTIFIER_SIZE);
    GapNeeded(g2, table.value + table.rest);
    var g3 := GapBefore(table.rest);
    var values := KeywordWas(SkipSpaces(table.rest), "VALUES");
    var s3 := MatchKeyword(SkipSpaces(table.rest), "VALUES").rest;
    FoldStarts(values, "VALUES", s3);
    GapNeeded(g3, SkipSpaces(table.rest));
    var row := RowWas(table.value, s3);
    t := InsertText(insert, g1, into, g2, table.value, g3, values, row);
  }

  lemma IntConditionWas(command: Command, s: string) returns (g: string, l: Literal, tail: Tail)
    requires IntCondition(command, s).Parsed?
    ensures Gap(g) && l.Number? && IsNumber(l.digits) && TailOk(tail) && s == g + LiteralString(l, TailText(tail))
  {
    var number;
    g, number := IntWas(s);
    l := Number(number);
    tail := EndWas(ParseInt(s).rest);
    assert tail.after + "" == tail.after;
  }

  lemma TextConditionWas(command: Command, s: string) returns (g: string, l: Literal, tail: Tail)
    requires TextCondition(command, s).Parsed?
    ensures Gap(g) && l.Quoted? && IsName(l.text) && |l.text| < NAME_SIZE && TailOk(tail)
    ensures s == g + LiteralString(l, TailText(tail))
  {
    g := StringWas(s, NAME_SIZE);
    l := Quoted(ParseString(s, NAME_SIZE).value);
    tail := EndWas(ParseString(s, NAME_SIZE).rest);
    assert tail.after + "" == tail.after;
  }

  lemma WhereWas(table: string, s: string, mid: Tail, wher: string) returns (f: Filler)
    requires ParseWhere(table, s).Parsed? && !StartsWord(s)
    requires TailOk(mid) && (mid.semicolon || mid.before != "") && EqualFold(wher, "WHERE")
    ensures f.Where? && FillerOk(f) && f.mid == mid && f.wher == wher
    ensures s == f.g1 + (f.column + (f.g2 + (ComparisonText(f.comparison) + (f.g3 + LiteralString(f.literal, TailText(f.tail))))))
  {
    var column := ParseIdentifier(s, IDENTIFIER_SIZE);
    var g1 := IdentifierWas(s, IDENTIFIER_SIZE);
    GapNeeded(g1, column.value + column.rest);
    var comparison := ParseComparison(column.rest);
    var g2 := ComparisonWas(column.rest);
    var g3, l, tail;
    if EqualFold(column.value, "name") {
      g3, l, tail := TextConditionWas(BLANK, comparison.rest);
    } else {
      g3, l, tail := IntConditionWas(BLANK, comparison.rest);
    }
    f := Where(mid, wher, g1, column.value, g2, comparison.value, g3, l, tail);
  }

  /** What lies between the table name and the end, or WHERE. */
  lemma MidWas(s: string) returns (mid: Tail)
    ensures var v := MatchStatementEnd(SkipSpaces(s)).rest;
      && TailOk(mid) && !Spaced(v)
      && s == mid.before + ((if mid.semicolon then ";" else "") + (mid.after + v))
  {
    var g := GapBefore(s);
    var u := SkipSpaces(s);
    var end := EndWas(u);
    NoGap(end.before, (if end.semicolon then ";" else "") + (end.after + MatchStatementEnd(u).rest));
    mid := end.(before := g);
  }

  lemma FillerWas(table: string, s: string) returns (f: Filler)
    requires ParseAfterTable(table, s).Parsed? && !StartsWord(s)
    ensures FillerOk(f) && s == FillerString(f)
  {
    var v := MatchStatementEnd(SkipSpaces(s)).rest;
    var mid := MidWas(s);
    if MatchStatementEnd(SkipSpaces(s)).ok {
      assert mid.after + v == mid.after;
      f := Nothing(mid);
    } else {
      var wher := KeywordWas(v, "WHERE");
      var w := MatchKeyword(v, "WHERE").rest;
      FoldStarts(wher, "WHERE", w);
      if !mid.semicolon {
        assert "" + ("" + v) == v;
        GapNeeded(mid.before, v);
      }
      f := WhereWas(table, w, mid, wher);
    }
  }

  lemma SelectWas(s: string) returns (t: Statement)
    requires ParseSelect(s).Parsed?
    ensures t.SelectText? && StatementOk(t) && s == StatementString(t)
  {
    var select := KeywordWas(s, "SELECT");
    var s1 := MatchKeyword(s, "SELECT").rest;
    var g1 := GapBefore(s1);
    var g0 := CharWas(SkipSpaces(s1), '*');
    NoGap(g0, ['*'] + MatchChar(SkipSpaces(s1), '*').rest);
    var s2 := MatchChar(SkipSpaces(s1), '*').rest;
    assert SkipSpaces(s1) == ['*'] + s2;
    var g2 := GapBefore(s2);
    var from := KeywordWas(SkipSpaces(s2), "FROM");
    var s3 := MatchKeyword(SkipSpaces(s2), "FROM").rest;
    var g3 := IdentifierWas(s3, IDENTIFIER_SIZE);
    var table := ParseIdentifier(s3, IDENTIFIER_SIZE);
    GapNeeded(g3, table.value + table.rest);
    var filler := FillerWas(table.value, table.rest);
    t := SelectText(select, g1, g2, from, g3, table.value, filler);
  }

  lemma ExitWas(s: string) returns (t: Statement)
    requires ParseExit(SkipSpaces(s)).Parsed?
    ensures t.ExitText? && StatementOk(t) && s == StatementString(t)
  {
    var g1 := GapBefore(s);
    var u := SkipSpaces(s);
    var word := if MatchKeyword(u, "EXIT").ok then "EXIT" else "QUIT";
    var k := KeywordWas(u, word);
    var tail := EndWas(MatchKeyword(u, word).rest);
    assert tail.after + "" == tail.after;
    t := ExitText(g1, k, tail);
  }

  /** Whatever is accepted is a printed statement, and the command is what that statement means. */
  lemma ParsedIsPrinted(s: string) returns (t: Statement)
    requires Parse(s).Parsed?
    ensures StatementOk(t) && s == StatementString(t) && Parse(s) == Parsed(Meaning(t))
  {
    if ParseExit(SkipSpaces(s)) != NotMine {
      t := ExitWas(s);
    } else if ParseInsert(s) != NotMine {
      t := InsertWas(s);
    } else {
      t := SelectWas(s);
    }
    PrintedIsParsed(t);
  }

  ghost predicate Printable(s: string, command: Command) {
    exists t: Statement :: StatementOk(t) && StatementString(t) == s && Meaning(t) == command
  }

  /** The parser accepts exactly the printed statements, each as what it means. */
  lemma ParserMeetsGrammar(s: string, command: Command)
    ensures Parse(s) == Parsed(command) <==> Printable(s, command)
  {
    if Parse(s) == Parsed(command) {
      var t := ParsedIsPrinted(s);
      assert Meaning(t) == command;
    }
    if Printable(s, command) {
      var t: Statement :| StatementOk(t) && StatementString(t) == s && Meaning(t) == command;
      PrintedIsParsed(t);
    }
  }

  // ---------------------------------------------------------------- unknown columns

  /** A SELECT up to and including the comparison sign, with every gap a writer may choose. */
  datatype WhereHead = WhereHead(select: string, g1: string, g2: string, from: string, g3: string, table: string,
                                 mid: Tail, wher: string, g4: string, column: string, g5: string, comparison: Comparison)

  function WhereHeadString(h: WhereHead, rest: string): string {
    h.select + (h.g1 + (['*'] + (h.g2 + (h.from + (h.g3 + (h.table + (h.mid.before + ((if h.mid.semicolon then ";" else "") +
      (h.mid.after + (h.wher + ConditionString(h, rest)))))))))))
  }

  function ConditionString(h: WhereHead, rest: string): string {
    h.g4 + (h.column + (h.g5 + (ComparisonText(h.comparison) + rest)))
  }

  predicate WhereHeadOk(h: WhereHead, rest: string) {
    && EqualFold(h.select, "SELECT") && EqualFold(h.from, "FROM") && EqualFold(h.wher, "WHERE") && IsTable(h.table)
    && Gap(h.g1) && Gap(h.g2) && Gap(h.g3) && h.g3 != "" && TailOk(h.mid) && (h.mid.semicolon || h.mid.before != "")
    && Gap(h.g4) && h.g4 != "" && IsWord(h.column) && |h.column| < 32 && Gap(h.g5)
    && (h.comparison == LT || h.comparison == GT ==> !(rest != "" && rest[0] == '='))
  }

  /** The parser reaches the condition with the table name in hand. */
  lemma ConditionReached(h: WhereHead, rest: string)
    requires WhereHeadOk(h, rest)
    ensures ParseSelect(WhereHeadString(h, rest)) == ParseWhere(h.table, ConditionString(h, rest))
  {
    var s1 := ConditionString(h, rest);
    NoWord(h.g4, s1[|h.g4|..]);
    assert s1 == h.g4 + s1[|h.g4|..];
    WherePrefix(h.table, h.mid, h.wher, s1);
    SelectPrefix(h.select, h.g1, h.g2, h.from, h.g3, h.table, AfterTable(h, rest));
  }

  function AfterTable(h: WhereHead, rest: string): (s: string)
    requires WhereHeadOk(h, rest)
    ensures !StartsWord(s)
  {
    h.mid.before + ((if h.mid.semicolon then ";" else "") + (h.mid.after + (h.wher + ConditionString(h, rest))))
  }

  /** Column and comparison sign are read; what is done with them depends on the column. */
  lemma ConditionTokens(h: WhereHead, rest: string)
    requires WhereHeadOk(h, rest)
    ensures var s := ConditionString(h, rest);
            var column := ParseIdentifier(s, IDENTIFIER_SIZE);
      && column.ok && column.value == h.column
      && ParseComparison(column.rest) == Token(true, rest, h.comparison)
  {
    var s1 := ComparisonText(h.comparison) + rest;
    NoWord(h.g5, s1);
    IdentifierAt(h.g4, h.column, h.g5 + s1, IDENTIFIER_SIZE);
    ComparisonAt(h.g5, h.comparison, rest);
  }

  lemma SelectOnly(k: string, s: string)
    requires EqualFold(k, "SELECT") && ParseSelect(k + s) != NotMine
    ensures Parse(k + s) == ParseSelect(k + s)
  {
    OnlyKeyword(k, "SELECT", s);
  }

  /** The statement asks for one column instead of all, and it is none of the table's. */
  ghost predicate NamesUnknownField(s: string, column: string) {
    exists select: string, g: string, rest: string {:trigger select + (g + (column + rest))} ::
      && s == select + (g + (column + rest))
      && EqualFold(select, "SELECT") && Gap(g) && g != "" && !StartsWord(rest)
      && IsWord(column) && |column| < 32 && !IsTableColumn(column)
  }

  /** The statement has a complete comparison of a column that is none of the table's. */
  ghost predicate ComparesUnknown(s: string, column: string) {
    exists h: WhereHead, rest: string ::
      WhereHeadOk(h, rest) && s == WhereHeadString(h, rest) && h.column == column && !IsTableColumn(column)
  }

  predicate IsTableColumn(column: string) {
    EqualFold(column, "id") || EqualFold(column, "age") || EqualFold(column, "name")
  }

  lemma FieldAt(select: string, g: string, column: string, rest: string)
    requires EqualFold(select, "SELECT") && Gap(g) && g != "" && !StartsWord(rest)
    requires IsWord(column) && |column| < 32 && !IsTableColumn(column)
    ensures Parse(select + (g + (column + rest))) == UnknownColumn(column, "field list")
  {
    var u := column + rest;
    NoWord(g, u);
    KeywordAt(select, g + u, "SELECT");
    assert u[0] == column[0];
    SkipGap(g, u);
    assert "" + u == u;
    SkipGap("", u);
    IdentifierAt("", column, rest, IDENTIFIER_SIZE);
    SelectOnly(select, g + u);
  }

  lemma ComparedAt(h: WhereHead, rest: string)
    requires WhereHeadOk(h, rest) && !IsTableColumn(h.column)
    ensures Parse(WhereHeadString(h, rest)) == UnknownColumn(h.column, "where clause")
  {
    ConditionReached(h, rest);
    ConditionTokens(h, rest);
    var s := WhereHeadString(h, rest);
    assert s == h.select + s[|h.select|..];
    SelectOnly(h.select, s[|h.select|..]);
  }

  /** A name can only be compared for equality; every other sign is a syntax error. */
  lemma NameTakesEquality(h: WhereHead, rest: string)
    requires WhereHeadOk(h, rest) && EqualFold(h.column, "name") && h.comparison != EQ
    ensures Parse(WhereHeadString(h, rest)).SyntaxError?
  {
    ConditionReached(h, rest);
    ConditionTokens(h, rest);
    var s := WhereHeadString(h, rest);
    assert s == h.select + s[|h.select|..];
    SelectOnly(h.select, s[|h.select|..]);
  }

  lemma FieldWas(s: string)
    requires ParseSelect(s).UnknownColumn? && !MatchChar(SkipSpaces(MatchKeyword(s, "SELECT").rest), '*').ok
    ensures ParseSelect(s).clause == "field list" && NamesUnknownField(s, ParseSelect(s).column)
  {
    var select := KeywordWas(s, "SELECT");
    var s1 := MatchKeyword(s, "SELECT").rest;
    var g := GapBefore(s1);
    var u := SkipSpaces(s1);
    SkipGap("", u);
    assert "" + u == u;
    var g0 := IdentifierWas(u, IDENTIFIER_SIZE);
    var column := ParseIdentifier(u, IDENTIFIER_SIZE);
    NoGap(g0, column.value + column.rest);
    GapNeeded(g, u);
    assert s == select + (g + (column.value + column.rest));
  }

  lemma ComparedWas(s: string)
    requires ParseSelect(s).UnknownColumn? && MatchChar(SkipSpaces(MatchKeyword(s, "SELECT").rest), '*').ok
    ensures ParseSelect(s).clause == "where clause" && ComparesUnknown(s, ParseSelect(s).column)
  {
    var select := KeywordWas(s, "SELECT");
    var s1 := MatchKeyword(s, "SELECT").rest;
    var g1 := GapBefore(s1);
    var g0 := CharWas(SkipSpaces(s1), '*');
    NoGap(g0, ['*'] + MatchChar(SkipSpaces(s1), '*').rest);
    var s2 := MatchChar(SkipSpaces(s1), '*').rest;
    var g2 := GapBefore(s2);
    var from := KeywordWas(SkipSpaces(s2), "FROM");
    var s3 := MatchKeyword(SkipSpaces(s2), "FROM").rest;
    var g3 := IdentifierWas(s3, IDENTIFIER_SIZE);
    var table := ParseIdentifier(s3, IDENTIFIER_SIZE);
    GapNeeded(g3, table.value + table.rest);
    var h0 := WhereHead(select, g1, g2, from, g3, table.value, Tail("", false, ""), "", "", "", "", EQ);
    var h, rest := ConditionWas(h0, table.rest);
    assert SkipSpaces(s1) == ['*'] + s2;
    assert s == WhereHeadString(h, rest);
  }

  /** What a WHERE clause that is refused for its column starts with. */
  lemma ComparisonHeadWas(table: string, w: string)
    returns (g4: string, column: string, g5: string, comparison: Comparison, rest: string)
    requires ParseWhere(table, w).UnknownColumn? && !StartsWord(w)
    ensures Gap(g4) && g4 != "" && IsWord(column) && |column| < 32 && Gap(g5) && !IsTableColumn(column)
    ensures comparison == LT || comparison == GT ==> !(rest != "" && rest[0] == '=')
    ensures w == g4 + (column + (g5 + (ComparisonText(comparison) + rest)))
    ensures ParseWhere(table, w) == UnknownColumn(column, "where clause")
  {
    var name := ParseIdentifier(w, IDENTIFIER_SIZE);
    g4 := IdentifierWas(w, IDENTIFIER_SIZE);
    GapNeeded(g4, name.value + name.rest);
    var sign := ParseComparison(name.rest);
    g5 := ComparisonWas(name.rest);
    column, comparison, rest := name.value, sign.value, sign.rest;
  }

  lemma ConditionWas(h0: WhereHead, s: string) returns (h: WhereHead, rest: string)
    requires ParseAfterTable(h0.table, s).UnknownColumn? && !StartsWord(s)
    requires EqualFold(h0.select, "SELECT") && EqualFold(h0.from, "FROM") && IsTable(h0.table)
    requires Gap(h0.g1) && Gap(h0.g2) && Gap(h0.g3) && h0.g3 != ""
    ensures h == h0.(mid := h.mid, wher := h.wher, g4 := h.g4, column := h.column, g5 := h.g5, comparison := h.comparison)
    ensures WhereHeadOk(h, rest) && s == AfterTable(h, rest) && !IsTableColumn(h.column)
    ensures ParseAfterTable(h0.table, s) == UnknownColumn(h.column, "where clause")
  {
    var v := MatchStatementEnd(SkipSpaces(s)).rest;
    var mid := MidWas(s);
    var wher := KeywordWas(v, "WHERE");
    var w := MatchKeyword(v, "WHERE").rest;
    FoldStarts(wher, "WHERE", w);
    if !mid.semicolon {
      assert "" + ("" + v) == v;
      GapNeeded(mid.before, v);
    }
    var g4, column, g5, comparison;
    g4, column, g5, comparison, rest := ComparisonHeadWas(h0.table, w);
    h := h0.(mid := mid, wher := wher, g4 := g4, column := column, g5 := g5, comparison := comparison);
  }

  /** Exactly which texts are refused for an unknown column, which column, and in which clause. */
  lemma UnknownColumnExactly(s: string, column: string, clause: string)
    ensures Parse(s) == UnknownColumn(column, clause) <==>
              || (clause == "field list" && NamesUnknownField(s, column))
              || (clause == "where clause" && ComparesUnknown(s, column))
  {
    if Parse(s) == UnknownColumn(column, clause) {
      if MatchChar(SkipSpaces(MatchKeyword(s, "SELECT").rest), '*').ok {
        ComparedWas(s);
      } else {
        FieldWas(s);
      }
    }
    if NamesUnknownField(s, column) {
      var select: string, g: string, rest: string :|
        && s == select + (g + (column + rest))
        && EqualFold(select, "SELECT") && Gap(g) && g != "" && !StartsWord(rest)
        && IsWord(column) && |column| < 32 && !IsTableColumn(column);
      FieldAt(select, g, column, rest);
    }
    if ComparesUnknown(s, column) {
      var h: WhereHead, rest: string :|
        WhereHeadOk(h, rest) && s == WhereHeadString(h, rest) && h.column == column && !IsTableColumn(column);
      ComparedAt(h, rest);
    }
  }

  // ---------------------------------------------------------------- which commands can be written

  predicate Is32Bit(n: int) { INT32_MIN <= n <= INT32_MAX }

  /** A command with the fields of its kind set to what the language has room for, and no other. */
  predicate Sensible(c: Command) {
    match c.kind
    case NONE => false
    case EXIT => c == BLANK.(kind := EXIT)
    case INSERT =>
      && c == BLANK.(kind := INSERT, tableName := c.tableName, name := c.name, intValue := c.intValue)
      && IsTable(c.tableName) && IsName(c.name) && |c.name| < NAME_SIZE && Is32Bit(c.intValue)
    case SELECT_ALL => c == BLANK.(kind := SELECT_ALL, tableName := c.tableName) && IsTable(c.tableName)
    case SELECT_BY_NAME =>
      && c == BLANK.(kind := SELECT_BY_NAME, tableName := c.tableName, whereColumn := c.whereColumn, hasWhere := true,
                     textValue := c.textValue)
      && IsTable(c.tableName) && EqualFold(c.whereColumn, "name") && IsName(c.textValue) && |c.textValue| < NAME_SIZE
    case _ =>
      && c == BLANK.(kind := c.kind, tableName := c.tableName, whereColumn := c.whereColumn, hasWhere := true,
                     comparison := c.comparison, intValue := c.intValue)
      && IsTable(c.tableName) && EqualFold(c.whereColumn, if c.kind == SELECT_BY_ID then "id" else "age")
      && Is32Bit(c.intValue)
  }

  /** Every sensible command can be written. */
  lemma SensibleIsWritten(c: Command) returns (t: Statement)
    requires Sensible(c)
    ensures StatementOk(t) && Meaning(t) == c
  {
    var tail := Tail("", false, "");
    IntTextValue(c.intValue);
    match c.kind
    case EXIT => t := ExitText("", "EXIT", tail);
    case INSERT =>
      t := InsertText("INSERT", " ", "INTO", " ", c.tableName, " ", "VALUES",
                      RowText(" ", "", c.name, "", " ", IntText(c.intValue), "", tail));
    case SELECT_ALL => t := SelectText("SELECT", " ", " ", "FROM", " ", c.tableName, Nothing(tail));
    case _ =>
      var literal := if c.kind == SELECT_BY_NAME then Quoted(c.textValue) else Number(IntText(c.intValue));
      ColumnIsWord(c.whereColumn, if c.kind == SELECT_BY_NAME then "name" else if c.kind == SELECT_BY_ID then "id" else "age");
      t := SelectText("SELECT", " ", " ", "FROM", " ", c.tableName,
                      Where(Tail(" ", false, ""), "WHERE", " ", c.whereColumn, " ", c.comparison, " ", literal, tail));
  }

  lemma ColumnIsWord(column: string, name: string)
    requires EqualFold(column, name) && name in {"id", "name", "age"}
    ensures IsWord(column)
    ensures forall other :: other in {"id", "name", "age"} && EqualFold(column, other) ==> other == name
  {
  }

  lemma WrittenIsSensible(t: Statement)
    requires StatementOk(t)
    ensures Sensible(Meaning(t))
  {
  }

  ghost predicate CanBeWritten(c: Command) {
    exists s: string :: Parse(s) == Parsed(c)
  }

  /** The commands texts are parsed to are exactly the sensible ones. */
  lemma CommandsExactly(c: Command)
    ensures CanBeWritten(c) <==> Sensible(c)
  {
    if CanBeWritten(c) {
      var s: string :| Parse(s) == Parsed(c);
      var t := ParsedIsPrinted(s);
      WrittenIsSensible(t);
    }
    if Sensible(c) {
      var t := SensibleIsWritten(c);
      PrintedIsParsed(t);
    }
  }

  // ---------------------------------------------------------------- consequences

  /** Every input is accepted with a real command type or refused with a message. */
  lemma ParseIsTotal(s: string)
    ensures Parse(s).Parsed? || Parse(s).SyntaxError? || Parse(s).UnknownColumn?
    ensures Parse(s).Parsed? ==> Parse(s).command.kind != NONE && |Parse(s).command.name| < NAME_SIZE
    ensures Parse(s).Parsed? ==> INT32_MIN <= Parse(s).command.intValue <= INT32_MAX
  {
    if Parse(s).Parsed? {
      var t := ParsedIsPrinted(s);
    }
  }

  /** Text that starts with a space can only be EXIT or QUIT. */
  lemma LeadingSpaceOnlyExits(s: string)
    requires Spaced(s) && Parse(s).Parsed?
    ensures Parse(s).command.kind == EXIT
  {
    var t := ParsedIsPrinted(s);
    if !t.ExitText? {
      var k, u := StatementStarts(t);
      FoldStarts(k, if t.InsertText? then "INSERT" else "SELECT", u);
    }
  }

  /** A semicolon between the table name and WHERE does not end the statement: it changes nothing. */
  lemma SemicolonBeforeWhere(t: Statement, mid: Tail)
    requires StatementOk(t) && t.SelectText? && t.filler.Where? && TailOk(mid) && mid.semicolon
    ensures Parse(StatementString(t.(filler := t.filler.(mid := mid)))) == Parse(StatementString(t))
  {
    PrintedIsParsed(t);
    PrintedIsParsed(t.(filler := t.filler.(mid := mid)));
  }
}
