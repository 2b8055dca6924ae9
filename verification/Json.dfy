/** Strings in JSON (section 7 of RFC 8259): what the encoder must write, and a reader that gets it back. */
module JsonText {
  import opened CStrings
  import opened Decimals

  const BACKSPACE := 8 as char
  const FORM_FEED := 12 as char

  function HexDigit(n: nat): char
    requires n < 16
  {
    if n < 10 then '0' + n as char else 'a' + (n - 10) as char
  }

  function Hex4(n: nat): string
    requires n < 0x1_0000
  {
    [HexDigit(n / 0x1000), HexDigit(n / 0x100 % 0x10), HexDigit(n / 0x10 % 0x10), HexDigit(n % 0x10)]
  }

  function EscapeChar(c: char): string {
    if c == '\\' then "\\\\"
    else if c == '"' then "\\\""
    else if c == BACKSPACE then "\\b"
    else if c == FORM_FEED then "\\f"
    else if c == '\n' then "\\n"
    else if c == '\r' then "\\r"
    else if c == '\t' then "\\t"
    else if c < ' ' then "\\u" + Hex4(c as int)
    else [c]
  }

  function Escape(s: string): string {
    if s == "" then "" else EscapeChar(s[0]) + Escape(s[1..])
  }

  function JsonString(s: string): string {
    "\"" + Escape(s) + "\""
  }

  // ---------------------------------------------------------------- reading

  function HexValue(c: char): (n: int)
    ensures n < 16
  {
    if '0' <= c <= '9' then c as int - '0' as int
    else if 'a' <= c <= 'f' then c as int - 'a' as int + 10
    else if 'A' <= c <= 'F' then c as int - 'A' as int + 10
    else -1
  }

  /** Four hexadecimal digits; only codes of one byte, which is all the encoder needs. */
  function ReadCode(s: string): Read<char> {
    if |s| < 4 || HexValue(s[0]) != 0 || HexValue(s[1]) != 0 || HexValue(s[2]) < 0 || HexValue(s[3]) < 0 then Garbage
    else
      var code := HexValue(s[2]) * 0x10 + HexValue(s[3]);
      if code < 0x80 then Read(code as char, s[4..]) else Garbage
  }

  /** What follows a backslash. */
  function ReadEscape(s: string): (r: Read<char>)
    ensures r.Read? ==> |r.rest| < |s|
  {
    if s == "" then Garbage
    else if s[0] == '\\' || s[0] == '"' || s[0] == '/' then Read(s[0], s[1..])
    else if s[0] == 'b' then Read(8 as char, s[1..])
    else if s[0] == 'f' then Read(12 as char, s[1..])
    else if s[0] == 'n' then Read('\n', s[1..])
    else if s[0] == 'r' then Read('\r', s[1..])
    else if s[0] == 't' then Read('\t', s[1..])
    else if s[0] == 'u' then ReadCode(s[1..])
    else Garbage
  }

  /** One character, escaped or not; a raw quote or control character is none. */
  function ReadChar(s: string): (r: Read<char>)
    ensures r.Read? ==> |r.rest| < |s|
  {
    if s == "" || s[0] == '"' || s[0] < ' ' then Garbage
    else if s[0] == '\\' then ReadEscape(s[1..])
    else Read(s[0], s[1..])
  }

  /** Reads up to and including the closing quote. */
  function ReadChars(s: string): (r: Read<string>)
    ensures r.Read? ==> |r.rest| < |s|
    decreases |s|
  {
    if s != "" && s[0] == '"' then Read("", s[1..])
    else
      match ReadChar(s)
      case Garbage => Garbage
      case Read(c, rest) =>
        match ReadChars(rest)
        case Garbage => Garbage
        case Read(text, after) => Read([c] + text, after)
  }

  function ReadString(s: string): (r: Read<string>)
    ensures r.Read? ==> |r.rest| < |s|
  {
    if s != "" && s[0] == '"' then ReadChars(s[1..]) else Garbage
  }

  lemma HexRead(n: nat, tail: string)
    requires n < 0x20
    ensures ReadCode(Hex4(n) + tail) == Read(n as char, tail)
  {
    assert (Hex4(n) + tail)[4..] == tail;
  }

  lemma ReadCharAt(c: char, tail: string)
    ensures ReadChar(EscapeChar(c) + tail) == Read(c, tail)
    ensures EscapeChar(c)[0] != '"'
  {
    var e := EscapeChar(c);
    assert (e + tail)[1..] == e[1..] + tail;
    if |e| == 1 {
      assert e[1..] + tail == tail;
    } else if |e| == 2 {
      assert (e[1..] + tail)[1..] == tail;
    } else {
      HexRead(c as int, tail);
      assert (e[1..] + tail)[1..] == Hex4(c as int) + tail;
    }
  }

  lemma ReadCharsStep(e: string, u: string, c: char, text: string, after: string)
    requires e != "" && e[0] != '"' && ReadChar(e + u) == Read(c, u) && ReadChars(u) == Read(text, after)
    ensures ReadChars(e + u) == Read([c] + text, after)
  {
    assert (e + u)[0] == e[0];
  }

  lemma EscapeFront(s: string, rest: string)
    requires s != ""
    ensures Escape(s) + rest == EscapeChar(s[0]) + (Escape(s[1..]) + rest)
  {
    Assoc(EscapeChar(s[0]), Escape(s[1..]), rest);
  }

  /** Whatever follows it, an encoded string is read back, and reading stops at its end. */
  lemma {:induction false} ReadCharsAt(s: string, tail: string)
    ensures ReadChars(Escape(s) + ("\"" + tail)) == Read(s, tail)
  {
    var rest := "\"" + tail;
    if s == "" {
      assert Escape(s) + rest == rest && rest[1..] == tail;
    } else {
      ReadCharsAt(s[1..], tail);
      var u := Escape(s[1..]) + rest;
      ReadCharAt(s[0], u);
      ReadCharsStep(EscapeChar(s[0]), u, s[0], s[1..], tail);
      EscapeFront(s, rest);
      assert s == [s[0]] + s[1..];
    }
  }

  lemma ReadStringAt(s: string, tail: string)
    ensures ReadString(JsonString(s) + tail) == Read(s, tail)
  {
    ReadCharsAt(s, tail);
    QuotedTail(Escape(s), tail);
  }

  lemma QuotedTail(e: string, tail: string)
    ensures ("\"" + e + "\"" + tail)[0] == '"' && ("\"" + e + "\"" + tail)[1..] == e + ("\"" + tail)
  {
  }

  /** No two texts that start with an encoded string agree unless the strings and the rests agree. */
  lemma UniquelyDecodable(a: string, x: string, b: string, y: string)
    requires JsonString(a) + x == JsonString(b) + y
    ensures a == b && x == y
  {
    ReadStringAt(a, x);
    ReadStringAt(b, y);
  }

  /** Nothing raw that JSON forbids inside a string: quotes, backslashes, control characters. */
  predicate Clean(s: string) {
    if s == "" then true
    else if s[0] == '\\' then |s| >= 2 && s[1] in "\\\"bfnrtu" && Clean(s[2..])
    else s[0] != '"' && s[0] >= ' ' && Clean(s[1..])
  }

  lemma {:induction false} EscapeIsClean(s: string)
    ensures Clean(Escape(s)) && NulFree(Escape(s))
  {
    if s != "" {
      EscapeIsClean(s[1..]);
      CharIsClean(s[0], Escape(s[1..]));
    }
  }

  lemma CharIsClean(c: char, rest: string)
    requires Clean(rest)
    ensures Clean(EscapeChar(c) + rest) && NulFree(EscapeChar(c))
  {
    var e := EscapeChar(c);
    if |e| == 1 {
      assert (e + rest)[1..] == rest;
    } else if |e| == 2 {
      assert (e + rest)[2..] == rest;
    } else {
      var h := Hex4(c as int);
      assert (e + rest)[2..] == h + rest;
      CleanPrefix(h, rest);
    }
  }

  lemma {:induction false} CleanPrefix(h: string, rest: string)
    requires Clean(rest) && forall i :: 0 <= i < |h| ==> h[i] >= ' ' && h[i] != '\\' && h[i] != '"'
    ensures Clean(h + rest)
  {
    if h == "" {
      assert h + rest == rest;
    } else {
      CleanPrefix(h[1..], rest);
      assert (h + rest)[1..] == h[1..] + rest;
    }
  }
}

/** server/json_util.c: a growable, NUL-terminated text buffer. */
module JsonBuffers {
  import opened CStrings
  import opened JsonText

  const FIRST_CAPACITY := 128

  class JsonBuffer {
    var data: array?<char>
    var len: nat
    var cap: nat

    ghost predicate Fits()
      reads this, data
    {
      if data == null then len == 0 && cap == 0 else cap == data.Length && len < cap
    }

    /** There is room, and the text is a C string of length `len`. */
    ghost predicate Valid()
      reads this, data
    {
      Fits() && NulFree(Text()) && (data != null ==> data[len] == NUL)
    }

    ghost function Text(): string
      requires Fits()
      reads this, data
    {
      if data == null then "" else data[..len]
    }

    constructor (initialCapacity: nat)
      ensures Valid() && Text() == "" && data != null && fresh(data)
      ensures cap == if initialCapacity == 0 then 128 else initialCapacity
    {
      var capacity := if initialCapacity == 0 then FIRST_CAPACITY else initialCapacity;
      data := new char[capacity];
      len, cap := 0, capacity;
      new;
      data[0] := NUL;
    }

    /** Makes room for `extra` more characters and the terminator by doubling; the text stays. */
    method Reserve(extra: nat)
      requires Fits()
      modifies this`data, this`cap
      ensures Fits() && data != null && len + extra < cap && Text() == old(Text())
      ensures old(len + extra < cap) ==> data == old(data) && cap == old(cap)
      ensures old(len + extra >= cap) ==>
                fresh(data) && cap >= 2 * old(cap) && (cap == 128 || cap < 2 * (len + extra + 1))
    {
      var required := len + extra + 1;
      if required <= cap {
        return;
      }
      var newCap := if cap == 0 then FIRST_CAPACITY else cap;
      while newCap < required
        invariant newCap > 0 && (newCap == cap || newCap >= 2 * cap)
        invariant newCap == cap || newCap == FIRST_CAPACITY || newCap < 2 * required
        decreases required - newCap
      {
        newCap := newCap * 2;
      }
      var newData := new char[newCap];
      if data != null {
        forall i | 0 <= i < data.Length {
          newData[i] := data[i];
        }
      }
      data, cap := newData, newCap;
    }

    /** Appends a C string. */
    method Append(text: string)
      requires Valid() && NulFree(text)
      modifies this, data
      ensures Valid() && data != null && (data == old(data) || fresh(data))
      ensures Text() == old(Text()) + text
    {
      ghost var before := Text();
      Reserve(|text|);
      forall i | 0 <= i < |text| {
        data[len + i] := text[i];
      }
      len := len + |text|;
      data[len] := NUL;
      assert data[..len] == before + text;
    }

    /** Appends a string as a JSON string, escaping what JSON does not allow inside one. */
    method AppendJsonString(text: string)
      requires Valid() && NulFree(text)
      modifies this, data
      ensures Valid() && data != null && (data == old(data) || fresh(data))
      ensures Text() == old(Text()) + JsonString(text)
    {
      ghost var before := Text();
      Append("\"");
      AppendEscapedAll(text);
      Append("\"");
      QuoteBetween(before, Escape(text));
    }

    static lemma QuoteBetween(before: string, e: string)
      ensures before + "\"" + e + "\"" == before + ("\"" + e + "\"")
    {
    }

    method AppendEscapedAll(text: string)
      requires Valid() && data != null && NulFree(text)
      modifies this, data
      ensures Valid() && data != null && (data == old(data) || fresh(data))
      ensures Text() == old(Text()) + Escape(text)
    {
      ghost var whole := Text() + Escape(text);
      assert text[0..] == text;
      for cursor := 0 to |text|
        invariant Valid() && data != null && (data == old(data) || fresh(data))
        invariant Text() + Escape(text[cursor..]) == whole
      {
        ghost var t := Text();
        AppendEscaped(text[cursor]);
        EscapeStep(t, text, cursor);
      }
      assert Text() + Escape(text[|text|..]) == Text();
    }

    static lemma EscapeStep(before: string, text: string, i: nat)
      requires i < |text|
      ensures before + Escape(text[i..]) == before + EscapeChar(text[i]) + Escape(text[i + 1..])
    {
      assert text[i..][1..] == text[i + 1..];
      Assoc(before, EscapeChar(text[i]), Escape(text[i + 1..]));
    }

    /** One character: escaped, or stored as it is behind the text. */
    method AppendEscaped(c: char)
      requires Valid() && data != null && c != NUL
      modifies this, data
      ensures Valid() && data != null && (data == old(data) || fresh(data))
      ensures Text() == old(Text()) + EscapeChar(c)
    {
      match c {
        case '\\' => Append("\\\\");
        case '"' => Append("\\\"");
        case '\n' => Append("\\n");
        case '\r' => Append("\\r");
        case '\t' => Append("\\t");
        case _ =>
          if c == BACKSPACE {
            Append("\\b");
          } else if c == FORM_FEED {
            Append("\\f");
          } else if c < ' ' {
            Append("\\u" + Hex4(c as int));
          } else {
            AppendRaw(c);
          }
      }
    }

    method AppendRaw(c: char)
      requires Valid() && c != NUL
      modifies this, data
      ensures Valid() && data != null && (data == old(data) || fresh(data))
      ensures Text() == old(Text()) + [c]
    {
      ghost var before := Text();
      Reserve(1);
      data[len] := c;
      len := len + 1;
      data[len] := NUL;
      assert data[..len] == before + [c];
    }

    /** Hands the characters over and leaves an empty buffer without storage. */
    method Detach() returns (text: array?<char>, ghost length: nat)
      requires Valid()
      modifies this
      ensures text == old(data) && Valid() && data == null && Text() == ""
      ensures text != null ==> length < text.Length && text[length] == NUL && text[..length] == old(Text())
    {
      text, length := data, len;
      data, len, cap := null, 0, 0;
    }
  }
}
