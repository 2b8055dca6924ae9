/**
 * The lexical level of sql_processor/sql.c as functions on the text still to be read. A token
 * function tells whether the token was there, what text is left, and the value read; text may be
 * consumed even when the token is not there, exactly as the cursor of the source moves.
 */
module SqlText {
  import opened Rows

  // ---------------------------------------------------------------- characters (the "C" locale)

  predicate IsSpace(c: char) { c == ' ' || '\t' <= c <= '\r' }
  predicate IsDigit(c: char) { '0' <= c <= '9' }
  predicate IsAlpha(c: char) { 'a' <= c <= 'z' || 'A' <= c <= 'Z' }
  predicate IsWordChar(c: char) { IsAlpha(c) || IsDigit(c) || c == '_' }

  function ToLower(c: char): char {
    if 'A' <= c <= 'Z' then c - 'A' + 'a' else c
  }

  /** Equality up to the case of letters. */
  predicate EqualFold(a: string, b: string) {
    |a| == |b| && forall i :: 0 <= i < |a| ==> ToLower(a[i]) == ToLower(b[i])
  }

  // ---------------------------------------------------------------- tokens

  datatype Token<T> = Token(ok: bool, rest: string, value: T)

  function SkipSpaces(s: string): (rest: string)
    ensures |rest| <= |s|
  {
    if s != "" && IsSpace(s[0]) then SkipSpaces(s[1..]) else s
  }

  predicate StartsWord(s: string) { s != "" && IsWordChar(s[0]) }

  /** A keyword in any case, not followed by another word character. */
  function MatchKeyword(s: string, word: string): Token<()> {
    if |word| <= |s| && EqualFold(s[..|word|], word) && !StartsWord(s[|word|..])
    then Token(true, s[|word|..], ())
    else Token(false, s, ())
  }

  function MatchChar(s: string, c: char): Token<()> {
    var t := SkipSpaces(s);
    if t != "" && t[0] == c then Token(true, t[1..], ()) else Token(false, t, ())
  }

  /** How many leading characters are word characters. */
  function WordLength(s: string): (n: nat)
    ensures n <= |s|
  {
    if StartsWord(s) then 1 + WordLength(s[1..]) else 0
  }

  function ParseIdentifier(s: string, size: nat): Token<string> {
    var t := SkipSpaces(s);
    if t == "" || !(IsAlpha(t[0]) || t[0] == '_') then Token(false, t, "")
    else Token(WordLength(t) < size, t[WordLength(t)..], t[..WordLength(t)])
  }

  /** Reads up to the closing quote; `room` more characters fit the buffer. */
  function ReadQuoted(s: string, room: nat): Token<string> {
    if s == "" then Token(false, s, "")
    else if s[0] == '\'' then Token(true, s[1..], "")
    else if room == 0 then Token(false, s, "")
    else
      var r := ReadQuoted(s[1..], room - 1);
      Token(r.ok, r.rest, [s[0]] + r.value)
  }

  function ParseString(s: string, size: nat): Token<string>
    requires size > 0
  {
    var t := SkipSpaces(s);
    if t == "" || t[0] != '\'' then Token(false, t, "") else ReadQuoted(t[1..], size - 1)
  }

  function DigitCount(s: string): (n: nat)
    ensures n <= |s| && forall i :: 0 <= i < n ==> IsDigit(s[i])
  {
    if s != "" && IsDigit(s[0]) then 1 + DigitCount(s[1..]) else 0
  }

  function DigitsValue(s: string): nat
    requires forall i :: 0 <= i < |s| ==> IsDigit(s[i])
  {
    if s == "" then 0
    else
      assert IsDigit(s[|s| - 1]);
      DigitsValue(s[..|s| - 1]) * 10 + (s[|s| - 1] as int - '0' as int)
  }

  const INT32_MIN := -0x8000_0000
  const INT32_MAX := 0x7fff_ffff
  const INT64_MIN := -0x8000_0000_0000_0000
  const INT64_MAX := 0x7fff_ffff_ffff_ffff

  /** strtol clamps to the range of long, and the assignment to int keeps the low 32 bits. */
  function LongToInt(v: int): (r: int)
    ensures -0x8000_0000 <= v <= 0x7fff_ffff ==> r == v
    ensures -0x8000_0000 <= r <= 0x7fff_ffff
  {
    var long := if v < INT64_MIN then INT64_MIN else if v > INT64_MAX then INT64_MAX else v;
    var low := long % 0x1_0000_0000;
    if low > INT32_MAX then low - 0x1_0000_0000 else low
  }

  /** Together with the range of the result, this says which integer comes out, for every literal. */
  lemma LongToIntIs(v: int)
    ensures -0x8000_0000_0000_0000 <= v <= 0x7fff_ffff_ffff_ffff ==> (v - LongToInt(v)) % 0x1_0000_0000 == 0
    ensures v > 0x7fff_ffff_ffff_ffff ==> LongToInt(v) == -1
    ensures v < -0x8000_0000_0000_0000 ==> LongToInt(v) == 0
  {
  }

  function ParseInt(s: string): Token<int> {
    IntToken(SkipSpaces(s))
  }

  function IntToken(t: string): Token<int> {
    if t == "" || !(IsDigit(t[0]) || t[0] == '-') then Token(false, t, 0)
    else
      var d := if t[0] == '-' then t[1..] else t;
      var n := DigitCount(d);
      if n == 0 then Token(false, t, 0)
      else Token(true, d[n..], LongToInt(if t[0] == '-' then 0 - DigitsValue(d[..n]) else DigitsValue(d[..n])))
  }

  function ParseComparison(s: string): Token<Comparison> {
    var t := SkipSpaces(s);
    if |t| >= 2 && t[0] == '>' && t[1] == '=' then Token(true, t[2..], GE)
    else if |t| >= 2 && t[0] == '<' && t[1] == '=' then Token(true, t[2..], LE)
    else if t != "" && t[0] == '>' then Token(true, t[1..], GT)
    else if t != "" && t[0] == '<' then Token(true, t[1..], LT)
    else if t != "" && t[0] == '=' then Token(true, t[1..], EQ)
    else Token(false, t, EQ)
  }

  /** An optional semicolon, then nothing but space. The semicolon is consumed in any case. */
  function MatchStatementEnd(s: string): Token<()> {
    var t := SkipSpaces(s);
    var u := SkipSpaces(if t != "" && t[0] == ';' then t[1..] else t);
    Token(u == "", u, ())
  }

  // ---------------------------------------------------------------- printing tokens

  predicate Gap(g: string) { forall i :: 0 <= i < |g| ==> IsSpace(g[i]) }
  predicate Spaced(s: string) { s != "" && IsSpace(s[0]) }

  lemma {:induction false} SkipGap(g: string, s: string)
    requires Gap(g) && !Spaced(s)
    ensures SkipSpaces(g + s) == s
  {
    if g == "" {
      assert g + s == s;
    } else {
      SkipGap(g[1..], s);
      assert (g + s)[1..] == g[1..] + s;
    }
  }

  /** Text splits into a gap and the text left after skipping it. */
  lemma {:induction false} GapBefore(s: string) returns (g: string)
    ensures Gap(g) && s == g + SkipSpaces(s) && !Spaced(SkipSpaces(s))
  {
    if Spaced(s) {
      var h := GapBefore(s[1..]);
      g := [s[0]] + h;
      assert s == [s[0]] + s[1..];
    } else {
      g := "";
    }
  }

  lemma KeywordAt(k: string, s: string, word: string)
    requires EqualFold(k, word) && !StartsWord(s)
    ensures MatchKeyword(k + s, word) == Token(true, s, ())
  {
    assert (k + s)[..|word|] == k && (k + s)[|word|..] == s;
  }

  lemma CharAt(g: string, s: string, c: char)
    requires Gap(g) && !IsSpace(c)
    ensures MatchChar(g + ([c] + s), c) == Token(true, s, ())
  {
    SkipGap(g, [c] + s);
  }

  predicate IsWord(w: string) {
    w != "" && (IsAlpha(w[0]) || w[0] == '_') && forall i :: 0 <= i < |w| ==> IsWordChar(w[i])
  }

  lemma {:induction false} WordLengthAt(w: string, s: string)
    requires (forall i :: 0 <= i < |w| ==> IsWordChar(w[i])) && !StartsWord(s)
    ensures WordLength(w + s) == |w|
  {
    if w == "" {
      assert w + s == s;
    } else {
      WordLengthAt(w[1..], s);
      assert (w + s)[1..] == w[1..] + s;
    }
  }

  lemma IdentifierAt(g: string, w: string, s: string, size: nat)
    requires Gap(g) && IsWord(w) && |w| < size && !StartsWord(s)
    ensures ParseIdentifier(g + (w + s), size) == Token(true, s, w)
  {
    assert (w + s)[0] == w[0];
    SkipGap(g, w + s);
    WordLengthAt(w, s);
    assert (w + s)[|w|..] == s && (w + s)[..|w|] == w;
  }

  predicate IsName(name: string) { forall i :: 0 <= i < |name| ==> name[i] != '\'' }

  lemma {:induction false} QuotedAt(name: string, s: string, room: nat)
    requires IsName(name) && |name| <= room
    ensures ReadQuoted(name + (['\''] + s), room) == Token(true, s, name)
  {
    var t := name + (['\''] + s);
    if name == "" {
      assert t == ['\''] + s;
    } else {
      QuotedAt(name[1..], s, room - 1);
      assert t[1..] == name[1..] + (['\''] + s);
      assert t[0] == name[0] && name == [name[0]] + name[1..];
    }
  }

  /** More quote-free characters than there is room for are refused. */
  lemma {:induction false} QuotedTooLong(name: string, s: string, room: nat)
    requires IsName(name) && |name| > room
    ensures !ReadQuoted(name + s, room).ok
  {
    if room > 0 {
      QuotedTooLong(name[1..], s, room - 1);
      assert (name + s)[1..] == name[1..] + s;
    }
  }

  lemma StringAt(g: string, name: string, s: string, size: nat)
    requires Gap(g) && IsName(name) && |name| < size
    ensures ParseString(g + (['\''] + (name + (['\''] + s))), size) == Token(true, s, name)
  {
    var t := ['\''] + (name + (['\''] + s));
    SkipGap(g, t);
    assert t[1..] == name + (['\''] + s);
    QuotedAt(name, s, size - 1);
  }

  predicate AllDigits(d: string) { forall i :: 0 <= i < |d| ==> IsDigit(d[i]) }

  /** A decimal literal with an optional minus sign. */
  predicate IsNumber(n: string) {
    n != "" && AllDigits(n[1..]) && (IsDigit(n[0]) || (n[0] == '-' && |n| > 1))
  }

  function NumberValue(n: string): int
    requires IsNumber(n)
  {
    if n[0] == '-' then 0 - DigitsValue(n[1..]) else DigitsValue(n)
  }

  lemma {:induction false} DigitCountAt(d: string, s: string)
    requires AllDigits(d) && !(s != "" && IsDigit(s[0]))
    ensures DigitCount(d + s) == |d|
  {
    if d == "" {
      assert d + s == s;
    } else {
      DigitCountAt(d[1..], s);
      assert (d + s)[1..] == d[1..] + s;
    }
  }

  lemma IntAt(g: string, n: string, s: string)
    requires Gap(g) && IsNumber(n) && !(s != "" && IsDigit(s[0]))
    ensures ParseInt(g + (n + s)) == Token(true, s, LongToInt(NumberValue(n)))
  {
    assert (n + s)[0] == n[0];
    SkipGap(g, n + s);
    var d := if n[0] == '-' then n[1..] else n;
    assert (if n[0] == '-' then (n + s)[1..] else n + s) == d + s;
    DigitCountAt(d, s);
    assert (d + s)[|d|..] == s && (d + s)[..|d|] == d;
  }

  function ComparisonText(c: Comparison): string {
    match c
    case EQ => "="
    case LT => "<"
    case LE => "<="
    case GT => ">"
    case GE => ">="
  }

  lemma ComparisonAt(g: string, c: Comparison, s: string)
    requires Gap(g) && (c == LT || c == GT ==> !(s != "" && s[0] == '='))
    ensures ParseComparison(g + (ComparisonText(c) + s)) == Token(true, s, c)
  {
    var t := ComparisonText(c) + s;
    SkipGap(g, t);
    assert t[|ComparisonText(c)|..] == s;
  }

  /** What may follow a complete statement. */
  datatype Tail = Tail(before: string, semicolon: bool, after: string)

  predicate TailOk(t: Tail) { Gap(t.before) && Gap(t.after) && (!t.semicolon ==> t.after == "") }

  function TailText(t: Tail): string {
    t.before + ((if t.semicolon then ";" else "") + t.after)
  }

  lemma EndAt(t: Tail)
    requires TailOk(t)
    ensures MatchStatementEnd(TailText(t)) == Token(true, "", ())
  {
    SkipGap(t.after, "");
    assert t.after + "" == t.after;
    if t.semicolon {
      SkipGap(t.before, ";" + t.after);
      assert (";" + t.after)[1..] == t.after;
    } else {
      SkipGap(t.before, "");
      assert TailText(t) == t.before + "";
    }
  }

  // ---------------------------------------------------------------- what a token that was there looked like

  lemma KeywordWas(s: string, word: string) returns (k: string)
    requires MatchKeyword(s, word).ok
    ensures s == k + MatchKeyword(s, word).rest && EqualFold(k, word) && !StartsWord(MatchKeyword(s, word).rest)
  {
    k := s[..|word|];
  }

  lemma CharWas(s: string, c: char) returns (g: string)
    requires MatchChar(s, c).ok
    ensures Gap(g) && s == g + ([c] + MatchChar(s, c).rest)
  {
    g := GapBefore(s);
    var t := SkipSpaces(s);
    assert t == [t[0]] + t[1..];
  }

  lemma {:induction false} WordWas(s: string)
    ensures forall i :: 0 <= i < WordLength(s) ==> IsWordChar(s[i])
    ensures !StartsWord(s[WordLength(s)..])
  {
    if StartsWord(s) {
      WordWas(s[1..]);
      assert s[WordLength(s)..] == s[1..][WordLength(s[1..])..];
      assert forall i :: 1 <= i < WordLength(s) ==> s[i] == s[1..][i - 1];
    }
  }

  lemma IdentifierWas(s: string, size: nat) returns (g: string)
    requires ParseIdentifier(s, size).ok
    ensures var r := ParseIdentifier(s, size);
      && Gap(g) && s == g + (r.value + r.rest)
      && IsWord(r.value) && |r.value| < size && !StartsWord(r.rest)
  {
    g := GapBefore(s);
    var t := SkipSpaces(s);
    WordWas(t);
    assert t == t[..WordLength(t)] + t[WordLength(t)..];
  }

  lemma {:induction false} QuotedWas(s: string, room: nat)
    requires ReadQuoted(s, room).ok
    ensures var r := ReadQuoted(s, room);
      IsName(r.value) && |r.value| <= room && s == r.value + (['\''] + r.rest)
  {
    if s[0] == '\'' {
      assert s == ['\''] + s[1..];
    } else {
      QuotedWas(s[1..], room - 1);
      assert s == [s[0]] + s[1..];
    }
  }

  lemma StringWas(s: string, size: nat) returns (g: string)
    requires size > 0 && ParseString(s, size).ok
    ensures var r := ParseString(s, size);
      && Gap(g) && s == g + (['\''] + (r.value + (['\''] + r.rest)))
      && IsName(r.value) && |r.value| < size
  {
    g := GapBefore(s);
    var t := SkipSpaces(s);
    QuotedWas(t[1..], size - 1);
    assert t == ['\''] + t[1..];
  }

  lemma {:induction false} DigitsEnd(s: string)
    ensures var r := s[DigitCount(s)..]; r == "" || !IsDigit(r[0])
  {
    if s != "" && IsDigit(s[0]) {
      DigitsEnd(s[1..]);
      assert s[DigitCount(s)..] == s[1..][DigitCount(s[1..])..];
    }
  }

  lemma DigitsWere(d: string) returns (n: string)
    requires DigitCount(d) > 0
    ensures n != "" && AllDigits(n) && n == d[..DigitCount(d)] && d == n + d[DigitCount(d)..]
    ensures var r := d[DigitCount(d)..]; !(r != "" && IsDigit(r[0]))
  {
    n := d[..DigitCount(d)];
    DigitsEnd(d);
  }

  lemma UnsignedWas(d: string) returns (n: string)
    requires DigitCount(d) > 0
    ensures IsNumber(n) && n[0] != '-' && d == n + d[DigitCount(d)..] && NumberValue(n) == DigitsValue(d[..DigitCount(d)])
    ensures var r := d[DigitCount(d)..]; !(r != "" && IsDigit(r[0]))
  {
    n := DigitsWere(d);
    assert IsDigit(n[0]);
  }

  lemma NegativeWas(d: string) returns (n: string)
    requires DigitCount(d) > 0
    ensures IsNumber(n) && ['-'] + d == n + d[DigitCount(d)..] && NumberValue(n) == 0 - DigitsValue(d[..DigitCount(d)])
    ensures var r := d[DigitCount(d)..]; !(r != "" && IsDigit(r[0]))
  {
    var digits := DigitsWere(d);
    n := ['-'] + digits;
    assert n[1..] == digits;
    assert ['-'] + (digits + d[DigitCount(d)..]) == n + d[DigitCount(d)..];
  }

  lemma NumberWas(t: string) returns (n: string)
    requires IntToken(t).ok
    ensures var r := IntToken(t);
      && IsNumber(n) && t == n + r.rest
      && r.value == LongToInt(NumberValue(n)) && !(r.rest != "" && IsDigit(r.rest[0]))
  {
    if t[0] == '-' {
      n := NegativeWas(t[1..]);
      assert t == ['-'] + t[1..];
    } else {
      n := UnsignedWas(t);
    }
  }

  lemma IntWas(s: string) returns (g: string, n: string)
    requires ParseInt(s).ok
    ensures var r := ParseInt(s);
      && Gap(g) && IsNumber(n) && s == g + (n + r.rest)
      && r.value == LongToInt(NumberValue(n)) && !(r.rest != "" && IsDigit(r.rest[0]))
  {
    g := GapBefore(s);
    n := NumberWas(SkipSpaces(s));
  }

  lemma ComparisonWas(s: string) returns (g: string)
    requires ParseComparison(s).ok
    ensures var r := ParseComparison(s);
      && Gap(g) && s == g + (ComparisonText(r.value) + r.rest)
      && (r.value == LT || r.value == GT ==> !(r.rest != "" && r.rest[0] == '='))
  {
    g := GapBefore(s);
    var t := SkipSpaces(s);
    assert |t| >= 2 ==> t == [t[0], t[1]] + t[2..];
    assert t == [t[0]] + t[1..];
  }

  /** Whether or not the statement ends here, what was consumed is a gap with at most one semicolon. */
  lemma EndWas(s: string) returns (t: Tail)
    ensures TailOk(t) && s == t.before + ((if t.semicolon then ";" else "") + (t.after + MatchStatementEnd(s).rest))
    ensures !Spaced(MatchStatementEnd(s).rest)
  {
    var before := GapBefore(s);
    var u := SkipSpaces(s);
    if u != "" && u[0] == ';' {
      var after := GapBefore(u[1..]);
      t := Tail(before, true, after);
      assert u == ";" + u[1..];
    } else {
      var after := GapBefore(u);
      assert after == "";
      t := Tail(before, false, "");
      assert "" + ("" + u) == u;
    }
  }
}
