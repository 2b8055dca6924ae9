/** A reader of HTTP responses (section 2.1 of RFC 9112) that knows nothing of who wrote them. */
module HttpReader {
  import opened Decimals
  import opened JsonReader
  import opened Http

  /** Status, reason, header lines, and as much body as the head announces. */
  datatype Reply = Reply(status: int, reason: string, headers: seq<string>, body: string)

  /** A line and what follows its end. */
  function ReadLine(s: string): (r: Read<string>)
    ensures r.Read? ==> |r.rest| < |s|
  {
    if |s| < 2 then Garbage
    else if s[0] == '\r' && s[1] == '\n' then Read("", s[2..])
    else
      match ReadLine(s[1..])
      case Garbage => Garbage
      case Read(line, rest) => Read([s[0]] + line, rest)
  }

  /** Lines up to an empty one. */
  function ReadLines(s: string): (r: Read<seq<string>>)
    ensures r.Read? ==> |r.rest| < |s|
    decreases |s|
  {
    match ReadLine(s)
    case Garbage => Garbage
    case Read(line, rest) =>
      if line == "" then Read([], rest)
      else
        match ReadLines(rest)
        case Garbage => Garbage
        case Read(lines, after) => Read([line] + lines, after)
  }

  /** The length that header lines announce. */
  function Announced(headers: seq<string>): Read<nat> {
    if headers == [] then Garbage
    else if "Content-Length: " <= headers[0] then ReadNatural(headers[0][16..])
    else Announced(headers[1..])
  }

  function ReadStatus(line: string): Read<int> {
    if "HTTP/1.1 " <= line then ReadInteger(line[9..]) else Garbage
  }

  function ReadResponse(s: string): Read<Reply> {
    var line := ReadLine(s);
    if line.Garbage? then Garbage else
    var status := ReadStatus(line.value);
    if status.Garbage? || status.rest == "" || status.rest[0] != ' ' then Garbage else
    var headers := ReadLines(line.rest);
    if headers.Garbage? then Garbage else
    var length := Announced(headers.value);
    if length.Garbage? || length.rest != "" || length.value > |headers.rest| then Garbage else
    Read(Reply(status.value, status.rest[1..], headers.value, headers.rest[..length.value]), headers.rest[length.value..])
  }

  // ---------------------------------------------------------------- reading what was sent

  lemma {:induction false} ReadLineAt(line: string, s: string)
    requires OneLine(line)
    ensures ReadLine(line + ("\r\n" + s)) == Read(line, s)
  {
    if line == "" {
      assert line + ("\r\n" + s) == "\r\n" + s;
      assert ("\r\n" + s)[2..] == s;
    } else {
      ReadLineAt(line[1..], s);
      assert (line + ("\r\n" + s))[1..] == line[1..] + ("\r\n" + s);
      assert line == [line[0]] + line[1..];
    }
  }

  lemma NextLine(line: string, s: string, lines: seq<string>, after: string)
    requires OneLine(line) && line != "" && ReadLines(s) == Read(lines, after)
    ensures ReadLines(line + ("\r\n" + s)) == Read([line] + lines, after)
  {
    ReadLineAt(line, s);
  }

  lemma ThreeLines(l1: string, l2: string, l3: string, s: string)
    requires OneLine(l1) && OneLine(l2) && OneLine(l3) && l1 != "" && l2 != "" && l3 != ""
    ensures ReadLines(l1 + ("\r\n" + (l2 + ("\r\n" + (l3 + ("\r\n" + ("\r\n" + s))))))) == Read([l1, l2, l3], s)
  {
    var s4 := "\r\n" + s;
    var s3 := l3 + ("\r\n" + s4);
    var s2 := l2 + ("\r\n" + s3);
    assert s4[2..] == s;
    NextLine(l3, s4, [], s);
    assert [l3] + [] == [l3];
    NextLine(l2, s3, [l3], s);
    assert [l2] + [l3] == [l2, l3];
    NextLine(l1, s2, [l2, l3], s);
    assert [l1] + [l2, l3] == [l1, l2, l3];
  }

  lemma StatusRead(status: int, reason: string)
    ensures ReadStatus("HTTP/1.1 " + IntText(status) + " " + reason) == Read(status, " " + reason)
  {
    var line := "HTTP/1.1 " + IntText(status) + " " + reason;
    assert line[9..] == IntText(status) + (" " + reason);
    ReadIntegerAt(status, " " + reason);
  }

  lemma LengthRead(type_: string, n: nat, last: string)
    ensures Announced(["Content-Type: " + type_, "Content-Length: " + IntText(n), last]) == Read(n, "")
  {
    var first, second := "Content-Type: " + type_, "Content-Length: " + IntText(n);
    var headers := [first, second, last];
    assert first[8] == 'T' && "Content-Length: "[8] == 'L';
    assert headers[1..][0] == second;
    assert second[16..] == IntText(n) + "";
    ReadNaturalAt(n, "");
  }

  lemma FlatResponse(l0: string, l1: string, l2: string, l3: string, n: string, b: string, t: string)
    ensures (l0 + n + (l1 + n + (l2 + n + (l3 + (n + n))))) + b + t ==
              l0 + (n + (l1 + (n + (l2 + (n + (l3 + (n + (n + (b + t)))))))))
  {
  }

  /** Whatever follows it, a response is read back, its body by the length that its head announces. */
  lemma ResponseIsRead(status: int, contentType: string, body: string, tail: string)
    requires OneLine(contentType)
    ensures ReadResponse(ResponseBytes(status, contentType, body) + tail) ==
              Read(Reply(status, StatusReason(status),
                         ["Content-Type: " + contentType, "Content-Length: " + IntText(|body|), "Connection: close"], body), tail)
  {
    var l0, l1, l2, l3 := StatusLine(status), "Content-Type: " + contentType, LengthLine(|body|), CLOSE_LINE;
    LinesPlain(status, contentType, |body|);
    assert BLANK_LINE == NEW_LINE + NEW_LINE;
    FlatResponse(l0, l1, l2, l3, NEW_LINE, body, tail);
    ReadLineAt(l0, l1 + ("\r\n" + (l2 + ("\r\n" + (l3 + ("\r\n" + ("\r\n" + (body + tail))))))));
    StatusRead(status, StatusReason(status));
    ThreeLines(l1, l2, l3, body + tail);
    LengthRead(contentType, |body|, l3);
    BodySplit(body, tail);
  }

  lemma BodySplit(body: string, tail: string)
    ensures (body + tail)[..|body|] == body && (body + tail)[|body|..] == tail
  {
  }
}
