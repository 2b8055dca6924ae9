/**
 * sql_processor/sql.c, parsing: routines that move a cursor over the input and fill a parse
 * result in place. Each is proved to read what the function of the same name in `SqlText` or
 * `SqlGrammar` reads from the text behind the cursor.
 */
module SqlParser {
  import opened Rows
  import SqlText
  import opened SqlGrammar

  // ---------------------------------------------------------------- tokens

  method SkipSpaces(input: string, cursor: nat) returns (next: nat)
    requires cursor <= |input|
    ensures cursor <= next <= |input| && input[next..] == SqlText.SkipSpaces(input[cursor..])
  {
    next := cursor;
    while next < |input| && SqlText.IsSpace(input[next])
      invariant cursor <= next <= |input|
      invariant SqlText.SkipSpaces(input[cursor..]) == SqlText.SkipSpaces(input[next..])
    {
      assert input[next..][1..] == input[next + 1..];
      next := next + 1;
    }
  }

  method MatchKeyword(input: string, cursor: nat, keyword: string) returns (ok: bool, next: nat)
    requires cursor <= |input|
    ensures cursor <= next <= |input|
    ensures SqlText.Token(ok, input[next..], ()) == SqlText.MatchKeyword(input[cursor..], keyword)
  {
    var start := cursor;
    ghost var s := input[cursor..];
    for word := 0 to |keyword|
      invariant start == cursor + word <= |input|
      invariant forall i :: 0 <= i < word ==> SqlText.ToLower(s[i]) == SqlText.ToLower(keyword[i])
    {
      if start == |input| || SqlText.ToLower(input[start]) != SqlText.ToLower(keyword[word]) {
        assert |keyword| <= |s| ==> s[..|keyword|][word] == s[word];
        return false, cursor;
      }
      start := start + 1;
    }
    assert SqlText.EqualFold(s[..|keyword|], keyword);
    assert s[|keyword|..] == input[start..];
    if start < |input| && SqlText.IsWordChar(input[start]) {
      return false, cursor;
    }
    return true, start;
  }

  method MatchChar(input: string, cursor: nat, expected: char) returns (ok: bool, next: nat)
    requires cursor <= |input|
    ensures cursor <= next <= |input|
    ensures SqlText.Token(ok, input[next..], ()) == SqlText.MatchChar(input[cursor..], expected)
  {
    next := SkipSpaces(input, cursor);
    ok := next < |input| && input[next] == expected;
    if ok {
      assert input[next..][1..] == input[next + 1..];
      next := next + 1;
    }
  }

  method ParseIdentifier(input: string, cursor: nat, size: nat) returns (ok: bool, next: nat, word: string)
    requires cursor <= |input| && size > 0
    ensures cursor <= next <= |input|
    ensures var r := SqlText.ParseIdentifier(input[cursor..], size);
      ok == r.ok && input[next..] == r.rest && (ok ==> word == r.value)
  {
    word := "";
    next := SkipSpaces(input, cursor);
    if next == |input| || !(SqlText.IsAlpha(input[next]) || input[next] == '_') {
      return false, next, word;
    }
    ghost var start, t := next, input[next..];
    WordEnds(t, 0);
    while next < |input| && SqlText.IsWordChar(input[next]) && |word| + 1 < size
      invariant start <= next <= |input| && next == start + |word| && |word| < size
      invariant |word| <= SqlText.WordLength(t) && word == t[..|word|]
    {
      WordEnds(t, |word|);
      word := word + [input[next]];
      next := next + 1;
    }
    var length := |word|;
    while next < |input| && SqlText.IsWordChar(input[next])
      invariant start <= next <= |input| && next == start + length
      invariant |word| <= length <= SqlText.WordLength(t)
      invariant length > |word| ==> length >= size
    {
      WordEnds(t, length);
      next := next + 1;
      length := length + 1;
    }
    WordEnds(t, length);
    assert input[next..] == t[length..];
    ok := length < size;
  }

  /** A position inside a word is followed by a word character exactly when the word goes on. */
  lemma {:induction false} WordEnds(t: string, i: nat)
    requires i <= SqlText.WordLength(t)
    ensures i < SqlText.WordLength(t) <==> i < |t| && SqlText.IsWordChar(t[i])
  {
    if i > 0 {
      WordEnds(t[1..], i - 1);
    }
  }

  /** `whole` is what reading finds that has come to `s` with `text` read. */
  ghost predicate ComesTo(whole: SqlText.Token<string>, s: string, text: string, size: nat) {
    && |text| < size
    && var r := SqlText.ReadQuoted(s, size - 1 - |text|);
      whole.ok == r.ok && whole.rest == r.rest && whole.value == text + r.value
  }

  lemma ComesFurther(whole: SqlText.Token<string>, s: string, text: string, size: nat)
    requires ComesTo(whole, s, text, size) && s != "" && s[0] != '\'' && |text| + 1 < size
    ensures ComesTo(whole, s[1..], text + [s[0]], size)
  {
    var t := SqlText.ReadQuoted(s[1..], size - 1 - |text| - 1);
    assert text + ([s[0]] + t.value) == (text + [s[0]]) + t.value;
  }

  lemma ComesToEnd(whole: SqlText.Token<string>, s: string, text: string, size: nat)
    requires ComesTo(whole, s, text, size) && (s == "" || s[0] == '\'' || |text| + 1 == size)
    ensures whole == if s != "" && s[0] == '\'' then SqlText.Token(true, s[1..], text)
                     else SqlText.Token(false, s, whole.value)
  {
    assert text + "" == text;
  }

  /** The copying loop, behind the opening quote. */
  method ReadQuoted(input: string, start: nat, size: nat) returns (ok: bool, next: nat, text: string)
    requires start <= |input| && size > 0
    ensures start <= next <= |input|
    ensures var r := SqlText.ReadQuoted(input[start..], size - 1);
      ok == r.ok && input[next..] == r.rest && (ok ==> text == r.value)
  {
    next, text := start, "";
    ghost var whole := SqlText.ReadQuoted(input[start..], size - 1);
    assert "" + whole.value == whole.value;
    while next < |input| && input[next] != '\''
      invariant start <= next <= |input|
      invariant ComesTo(whole, input[next..], text, size)
    {
      if |text| + 1 >= size {
        ComesToEnd(whole, input[next..], text, size);
        return false, next, text;
      }
      ComesFurther(whole, input[next..], text, size);
      assert input[next..][1..] == input[next + 1..];
      text := text + [input[next]];
      next := next + 1;
    }
    ComesToEnd(whole, input[next..], text, size);
    if next == |input| {
      return false, next, text;
    }
    assert input[next..][1..] == input[next + 1..];
    return true, next + 1, text;
  }

  method ParseString(input: string, cursor: nat, size: nat) returns (ok: bool, next: nat, text: string)
    requires cursor <= |input| && size > 0
    ensures cursor <= next <= |input|
    ensures var r := SqlText.ParseString(input[cursor..], size);
      ok == r.ok && input[next..] == r.rest && (ok ==> text == r.value)
  {
    next := SkipSpaces(input, cursor);
    if next == |input| || input[next] != '\'' {
      return false, next, "";
    }
    assert input[next..][1..] == input[next + 1..];
    ok, next, text := ReadQuoted(input, next + 1, size);
  }

  /** The digit loop of strtol. */
  method ReadDigits(input: string, start: nat) returns (end: nat, value: int)
    requires start <= |input|
    ensures start <= end <= |input| && end - start == SqlText.DigitCount(input[start..])
    ensures value == SqlText.DigitsValue(input[start..][..end - start])
  {
    end, value := start, 0;
    ghost var d := input[start..];
    DigitsGoOn(d, 0);
    while end < |input| && SqlText.IsDigit(input[end])
      invariant start <= end <= |input| && end - start <= SqlText.DigitCount(d)
      invariant value == SqlText.DigitsValue(d[..end - start])
    {
      DigitsGoOn(d, end - start);
      assert d[..end + 1 - start][..end - start] == d[..end - start];
      value := value * 10 + (input[end] as int - '0' as int);
      end := end + 1;
    }
    DigitsGoOn(d, end - start);
  }

  method ParseInt(input: string, cursor: nat) returns (ok: bool, next: nat, value: int)
    requires cursor <= |input|
    ensures cursor <= next <= |input|
    ensures var r := SqlText.ParseInt(input[cursor..]);
      ok == r.ok && input[next..] == r.rest && (ok ==> value == r.value)
  {
    next := SkipSpaces(input, cursor);
    if next == |input| || !(SqlText.IsDigit(input[next]) || input[next] == '-') {
      return false, next, 0;
    }
    var start := if input[next] == '-' then next + 1 else next;
    assert start == next + 1 ==> input[next..][1..] == input[start..];
    var end, digits := ReadDigits(input, start);
    if end == start {
      return false, next, 0;
    }
    assert input[end..] == input[start..][end - start..];
    return true, end, SqlText.LongToInt(if input[next] == '-' then -digits else digits);
  }

  lemma {:induction false} DigitsGoOn(d: string, i: nat)
    requires i <= SqlText.DigitCount(d)
    ensures i < SqlText.DigitCount(d) <==> i < |d| && SqlText.IsDigit(d[i])
  {
    if i > 0 {
      DigitsGoOn(d[1..], i - 1);
    }
  }

  method ParseComparison(input: string, cursor: nat) returns (ok: bool, next: nat, comparison: Comparison)
    requires cursor <= |input|
    ensures cursor <= next <= |input|
    ensures SqlText.Token(ok, input[next..], comparison) == SqlText.ParseComparison(input[cursor..])
  {
    next := SkipSpaces(input, cursor);
    ghost var t := input[next..];
    assert |t| >= 1 ==> t[1..] == input[next + 1..];
    assert |t| >= 2 ==> t[2..] == input[next + 2..];
    if next + 1 < |input| && input[next] == '>' && input[next + 1] == '=' {
      return true, next + 2, GE;
    }
    if next + 1 < |input| && input[next] == '<' && input[next + 1] == '=' {
      return true, next + 2, LE;
    }
    if next < |input| && input[next] == '>' {
      return true, next + 1, GT;
    }
    if next < |input| && input[next] == '<' {
      return true, next + 1, LT;
    }
    if next < |input| && input[next] == '=' {
      return true, next + 1, EQ;
    }
    return false, next, EQ;
  }

  method MatchStatementEnd(input: string, cursor: nat) returns (ok: bool, next: nat)
    requires cursor <= |input|
    ensures cursor <= next <= |input|
    ensures SqlText.Token(ok, input[next..], ()) == SqlText.MatchStatementEnd(input[cursor..])
  {
    next := SkipSpaces(input, cursor);
    if next < |input| && input[next] == ';' {
      assert input[next..][1..] == input[next + 1..];
      next := next + 1;
    }
    next := SkipSpaces(input, next);
    ok := next == |input|;
  }

  // ---------------------------------------------------------------- statements

  datatype Status = OK | NOT_FOUND | SYNTAX_ERROR | QUERY_ERROR | EXITED | ERROR

  /** What a message says; its wording is not modelled. */
  datatype Message = NoMessage | NearText(text: string) | NoColumn(column: string, clause: string) | InternalError

  /** The parse result a caller passes in; the parsing routines fill it in place. */
  class SqlParseResult {
    var parsed: bool
    var command: Command
    var status: Status
    var errorCode: int
    var sqlState: string
    var errorMessage: Message

    constructor () {
      parsed, command, status := false, BLANK, SYNTAX_ERROR;
      errorCode, sqlState, errorMessage := 0, "", NoMessage;
    }

    /** Nothing was found yet. */
    ghost predicate Untouched()
      reads this
    {
      !parsed && command == BLANK && status == SYNTAX_ERROR && errorMessage == NoMessage
    }

    /** The fields report an outcome. A refused statement never leaves a command type behind. */
    ghost predicate Shows(o: Outcome)
      reads this
    {
      match o
      case NotMine => Untouched()
      case Parsed(c) => parsed && command == c && status == (if c.kind == EXIT then EXITED else OK) && errorMessage == NoMessage
      case SyntaxError(near) =>
        && !parsed && command.kind == NONE && status == SYNTAX_ERROR
        && errorCode == 1064 && sqlState == "42000" && errorMessage == NearText(near)
      case UnknownColumn(column, clause) =>
        && !parsed && command.kind == NONE && status == QUERY_ERROR
        && errorCode == 1054 && sqlState == "42S22" && errorMessage == NoColumn(column, clause)
    }

    method Init()
      modifies this
      ensures Untouched() && errorCode == 0 && sqlState == ""
    {
      parsed, command, status := false, BLANK, SYNTAX_ERROR;
      errorCode, sqlState, errorMessage := 0, "", NoMessage;
    }

    method SetError(status: Status, errorCode: int, sqlState: string, message: Message)
      modifies this
      ensures !parsed && command.kind == NONE && this.status == status
      ensures this.errorCode == errorCode && this.sqlState == sqlState && errorMessage == message
    {
      parsed := false;
      command := command.(kind := NONE);
      this.status, this.errorCode, this.sqlState, errorMessage := status, errorCode, sqlState, message;
    }

    method SetSyntaxError(near: string)
      modifies this
      ensures Shows(SyntaxError(near))
    {
      SetError(SYNTAX_ERROR, 1064, "42000", NearText(near));
    }

    method SetUnknownColumn(column: string, clause: string)
      modifies this
      ensures Shows(UnknownColumn(column, clause))
    {
      SetError(QUERY_ERROR, 1054, "42S22", NoColumn(column, clause));
    }

    method Accept(kind: CommandType)
      requires errorMessage == NoMessage && kind != EXIT
      modifies this`parsed, this`command, this`status
      ensures Shows(Parsed(old(command).(kind := kind)))
    {
      command := command.(kind := kind);
      parsed := true;
      status := OK;
    }

    // -------------------------------------------------------------- INSERT

    method ParseRow(input: string, start: nat, tableName: string)
      requires start <= |input| && Untouched()
      modifies this
      ensures Shows(SqlGrammar.ParseRow(tableName, input[start..]))
    {
      var ok, cursor := MatchChar(input, start, '(');
      if !ok {
        SetSyntaxError(input[cursor..]);
        return;
      }
      var text;
      ok, cursor, text := ParseString(input, cursor, NAME_SIZE);
      if !ok {
        SetSyntaxError(input[cursor..]);
        return;
      }
      command := command.(name := text);
      ok, cursor := MatchChar(input, cursor, ',');
      if !ok {
        SetSyntaxError(input[cursor..]);
        return;
      }
      var value;
      ok, cursor, value := ParseInt(input, cursor);
      if !ok {
        SetSyntaxError(input[cursor..]);
        return;
      }
      command := command.(intValue := value);
      ok, cursor := MatchChar(input, cursor, ')');
      if !ok {
        SetSyntaxError(input[cursor..]);
        return;
      }
      ok, cursor := MatchStatementEnd(input, cursor);
      if !ok {
        SetSyntaxError(input[cursor..]);
        return;
      }
      command := command.(tableName := tableName);
      Accept(INSERT);
    }

    method ParseInsert(input: string)
      requires Untouched()
      modifies this
      ensures Shows(SqlGrammar.ParseInsert(input))
    {
      assert input[0..] == input;
      var ok, cursor := MatchKeyword(input, 0, "INSERT");
      if !ok {
        return;
      }
      cursor := SkipSpaces(input, cursor);
      ok, cursor := MatchKeyword(input, cursor, "INTO");
      if !ok {
        SetSyntaxError(input[cursor..]);
        return;
      }
      var tableName;
      ok, cursor, tableName := ParseIdentifier(input, cursor, IDENTIFIER_SIZE);
      if !ok {
        SetSyntaxError(input[cursor..]);
        return;
      }
      if !SqlText.EqualFold(tableName, "users") {
        SetSyntaxError(tableName);
        return;
      }
      cursor := SkipSpaces(input, cursor);
      ok, cursor := MatchKeyword(input, cursor, "VALUES");
      if !ok {
        SetSyntaxError(input[cursor..]);
        return;
      }
      ParseRow(input, cursor, tableName);
    }

    // -------------------------------------------------------------- SELECT

    method ParseIntCondition(input: string, start: nat, kind: CommandType)
      requires start <= |input| && errorMessage == NoMessage && kind != EXIT
      modifies this
      ensures Shows(SqlGrammar.IntCondition(old(command).(kind := kind), input[start..]))
    {
      var ok, cursor, value := ParseInt(input, start);
      if ok {
        command := command.(intValue := value);
        ok, cursor := MatchStatementEnd(input, cursor);
      }
      if !ok {
        SetSyntaxError(input[cursor..]);
        return;
      }
      Accept(kind);
    }

    method ParseTextCondition(input: string, start: nat, kind: CommandType)
      requires start <= |input| && errorMessage == NoMessage && kind != EXIT
      modifies this
      ensures Shows(SqlGrammar.TextCondition(old(command).(kind := kind), input[start..]))
    {
      var ok, cursor, text := ParseString(input, start, NAME_SIZE);
      if ok {
        command := command.(textValue := text);
        ok, cursor := MatchStatementEnd(input, cursor);
      }
      if !ok {
        SetSyntaxError(input[cursor..]);
        return;
      }
      Accept(kind);
    }

    method ParseWhere(input: string, start: nat, tableName: string)
      requires start <= |input| && Untouched()
      modifies this
      ensures Shows(SqlGrammar.ParseWhere(tableName, input[start..]))
    {
      var ok, cursor, column := ParseIdentifier(input, start, IDENTIFIER_SIZE);
      if !ok {
        SetSyntaxError(input[cursor..]);
        return;
      }
      var comparisonCursor := cursor;
      var comparison;
      ok, cursor, comparison := ParseComparison(input, cursor);
      if !ok {
        SetSyntaxError(input[cursor..]);
        return;
      }
      command := command.(comparison := comparison);
      command := command.(tableName := tableName, whereColumn := column, hasWhere := true);
      if SqlText.EqualFold(column, "id") {
        ParseIntCondition(input, cursor, SELECT_BY_ID);
      } else if SqlText.EqualFold(column, "name") {
        if comparison != EQ {
          SetSyntaxError(input[comparisonCursor..]);
          return;
        }
        ParseTextCondition(input, cursor, SELECT_BY_NAME);
      } else if SqlText.EqualFold(column, "age") {
        ParseIntCondition(input, cursor, SELECT_BY_AGE);
      } else {
        SetUnknownColumn(column, "where clause");
      }
    }

    method ParseFrom(input: string, start: nat)
      requires start <= |input| && Untouched()
      modifies this
      ensures Shows(SqlGrammar.ParseFrom(input[start..]))
    {
      var cursor := SkipSpaces(input, start);
      var ok;
      ok, cursor := MatchKeyword(input, cursor, "FROM");
      if !ok {
        SetSyntaxError(input[cursor..]);
        return;
      }
      var tableName;
      ok, cursor, tableName := ParseIdentifier(input, cursor, IDENTIFIER_SIZE);
      if !ok {
        SetSyntaxError(input[cursor..]);
        return;
      }
      if !SqlText.EqualFold(tableName, "users") {
        SetSyntaxError(tableName);
        return;
      }
      cursor := SkipSpaces(input, cursor);
      ok, cursor := MatchStatementEnd(input, cursor);
      if ok {
        command := command.(tableName := tableName);
        Accept(SELECT_ALL);
        return;
      }
      ok, cursor := MatchKeyword(input, cursor, "WHERE");
      if !ok {
        SetSyntaxError(input[cursor..]);
        return;
      }
      ParseWhere(input, cursor, tableName);
    }

    method ParseSelect(input: string)
      requires Untouched()
      modifies this
      ensures Shows(SqlGrammar.ParseSelect(input))
    {
      assert input[0..] == input;
      var ok, cursor := MatchKeyword(input, 0, "SELECT");
      if !ok {
        return;
      }
      cursor := SkipSpaces(input, cursor);
      ok, cursor := MatchChar(input, cursor, '*');
      if ok {
        ParseFrom(input, cursor);
        return;
      }
      var column;
      ok, cursor, column := ParseIdentifier(input, cursor, IDENTIFIER_SIZE);
      if !ok {
        SetSyntaxError(input[cursor..]);
        return;
      }
      if !IsKnownColumn(column) {
        SetUnknownColumn(column, "field list");
        return;
      }
      SetSyntaxError(input[cursor..]);
    }

    // -------------------------------------------------------------- any statement

    /**
     * Parses one statement. The result reports what `SqlGrammar.Parse` finds: a command exactly
     * when the input is a printed statement, and otherwise no command type and a message.
     */
    method Parse(input: string) returns (ok: bool)
      modifies this
      ensures Shows(SqlGrammar.Parse(input)) && ok == parsed
      ensures ok <==> exists c :: Printable(input, c)
      ensures ok ==> Printable(input, command) && command.kind != NONE
      ensures !ok ==> command.kind == NONE && errorMessage != NoMessage
    {
      Init();
      ParseInto(input);
      ok := parsed;
      ParseIsTotal(input);
      ParserMeetsGrammar(input, command);
      forall c | Printable(input, c)
        ensures SqlGrammar.Parse(input) == Parsed(c)
      {
        ParserMeetsGrammar(input, c);
      }
    }

    method ParseInto(input: string)
      requires Untouched()
      modifies this
      ensures Shows(SqlGrammar.Parse(input))
    {
      assert input[0..] == input;
      var start := SkipSpaces(input, 0);
      var ok, cursor := MatchKeyword(input, start, "EXIT");
      if !ok {
        ok, cursor := MatchKeyword(input, start, "QUIT");
      }
      if ok {
        ok, cursor := MatchStatementEnd(input, cursor);
        if ok {
          command := command.(kind := EXIT);
          parsed := true;
          status := EXITED;
        } else {
          SetSyntaxError(input[cursor..]);
        }
        return;
      }
      ParseInsert(input);
      if parsed || errorMessage != NoMessage {
        return;
      }
      ParseSelect(input);
      if parsed || errorMessage != NoMessage {
        return;
      }
      SetSyntaxError(input[start..]);
    }
  }
}
