/**
 * server/http.c: framing over sockets that deliver and accept bytes in pieces of any size. A list
 * of events says what successive socket calls do; the peer's bytes are a plain string.
 */
module Http {
  import opened Wrappers
  import opened Decimals
  import opened CStrings

  const MAX_REQUEST_SIZE := 8192
  const MAX_BODY_SIZE := 4096
  const MAX_HEAD_SIZE := 512
  const NEW_LINE := "\r\n"
  const BLANK_LINE := "\r\n\r\n"

  datatype Errno = EINTR | EAGAIN | OTHER

  /** What one call does: it moves at most `size` bytes (none: the peer is gone), or fails. */
  datatype Event = Move(size: nat) | Interrupt | Timeout | Break

  function ErrnoOf(e: Event): Errno {
    match e
    case Interrupt => EINTR
    case Timeout => EAGAIN
    case _ => OTHER
  }

  function Min(a: nat, b: nat): nat {
    if a < b then a else b
  }

  function Prefix(s: string, n: nat): string {
    s[..Min(n, |s|)]
  }

  /** The calls to come only cut the bytes into pieces; they lose nothing. */
  predicate Harmless(events: seq<Event>) {
    forall i :: 0 <= i < |events| ==> events[i].Interrupt? || (events[i].Move? && events[i].size > 0)
  }

  // ---------------------------------------------------------------- sockets

  /** The receiving side of a connection. When the events run out, everything asked for is delivered. */
  class Source {
    const stream: string
    var taken: nat
    var events: seq<Event>

    constructor (stream: string, events: seq<Event>)
      ensures Valid() && Rest() == stream && this.events == events
    {
      this.stream, this.events, taken := stream, events, 0;
    }

    ghost predicate Valid()
      reads this
    {
      taken <= |stream|
    }

    /** The bytes not received yet. */
    function Rest(): string
      requires Valid()
      reads this
    {
      stream[taken..]
    }

    /** How much one call moves. */
    method NextEvent() returns (e: Event)
      modifies this`events
      ensures old(events) == [] ==> events == [] && e.Move? && e.size > |stream|
      ensures old(events) != [] ==> events == old(events)[1..] && e == old(events)[0]
    {
      if events == [] {
        return Move(|stream| + 1);
      }
      e := events[0];
      events := events[1..];
    }

    /** Receives at most `room` bytes into the buffer; a negative count is an error. */
    method Recv(buffer: array<char>, offset: nat, room: nat) returns (n: int, error: Errno)
      requires Valid() && room > 0 && offset + room <= buffer.Length
      modifies this`taken, this`events, buffer
      ensures Valid() && n <= room && (n > 0 ==> n <= |old(Rest())|)
      ensures n > 0 ==> buffer[offset..offset + n] == old(Rest())[..n] && Rest() == old(Rest())[n..]
      ensures n <= 0 ==> Rest() == old(Rest())
      ensures forall i :: 0 <= i < buffer.Length && !(offset <= i < offset + n) ==> buffer[i] == old(buffer[i])
      ensures events == old(events) || |events| < |old(events)|
      ensures n < 0 ==> |events| < |old(events)|
      ensures old(Harmless(events)) ==>
                Harmless(events) && (n == 0 ==> old(Rest()) == "") && (n < 0 ==> error == EINTR)
    {
      error := OTHER;
      var e := NextEvent();
      if !e.Move? {
        return -1, ErrnoOf(e);
      }
      n := Min(Min(e.size, room), |stream| - taken);
      forall i | 0 <= i < n {
        buffer[offset + i] := stream[taken + i];
      }
      taken := taken + n;
    }
  }

  /** The sending side of a connection. When the events run out, everything offered is accepted. */
  class Sink {
    var sent: string
    var events: seq<Event>

    constructor (events: seq<Event>)
      ensures sent == "" && this.events == events
    {
      sent, this.events := "", events;
    }

    /** Sends some of the data; a negative count is an error. */
    method Send(data: string) returns (n: int, error: Errno)
      requires data != ""
      modifies this
      ensures n <= |data| && sent == old(sent) + (if n > 0 then data[..n] else "")
      ensures events == old(events) || |events| < |old(events)|
      ensures n < 0 ==> |events| < |old(events)|
      ensures old(Harmless(events)) ==> Harmless(events) && n != 0 && (n < 0 ==> error == EINTR)
    {
      error := OTHER;
      var e := Move(|data|);
      if events != [] {
        e := events[0];
        events := events[1..];
      }
      if !e.Move? {
        return -1, ErrnoOf(e);
      }
      n := Min(e.size, |data|);
      sent := sent + data[..n];
    }
  }

  // ---------------------------------------------------------------- sending

  /** Sends everything, whatever the pieces, or a proper prefix when a call fails. */
  method SendAll(sink: Sink, data: string) returns (ok: bool)
    modifies sink
    ensures ok ==> sink.sent == old(sink.sent) + data
    ensures !ok ==> IsProperPrefix(old(sink.sent), data, sink.sent)
    ensures old(Harmless(sink.events)) ==> ok && Harmless(sink.events)
  {
    var sent := 0;
    assert data[..0] == "";
    while sent < |data|
      invariant sent <= |data| && sink.sent == old(sink.sent) + data[..sent]
      invariant old(Harmless(sink.events)) ==> Harmless(sink.events)
      decreases |sink.events|, |data| - sent
    {
      var n, error := sink.Send(data[sent..]);
      if n < 0 {
        if error == EINTR {
          continue;
        }
        return false;
      }
      if n == 0 {
        return false;
      }
      assert data[..sent] + data[sent..][..n] == data[..sent + n];
      sent := sent + n;
    }
    assert data[..|data|] == data;
    return true;
  }

  /** `now` is `before` and then some of the data, but not all of it. */
  predicate IsProperPrefix(before: string, data: string, now: string) {
    |before| <= |now| < |before| + |data| && now == before + data[..|now| - |before|]
  }

  // ---------------------------------------------------------------- the end of the header

  predicate EndsAt(s: string, i: nat) {
    i + 4 <= |s| && s[i] == '\r' && s[i + 1] == '\n' && s[i + 2] == '\r' && s[i + 3] == '\n'
  }

  /** The first blank line at or behind a position. */
  function EndFrom(s: string, i: nat): (end: Option<nat>)
    ensures end.Some? ==> end.value >= i && EndsAt(s, end.value) && forall j :: i <= j < end.value ==> !EndsAt(s, j)
    ensures end.None? ==> forall j :: j >= i ==> !EndsAt(s, j)
    decreases |s| - i
  {
    if i + 4 > |s| then None else if EndsAt(s, i) then Some(i) else EndFrom(s, i + 1)
  }

  function HeaderEnd(s: string): Option<nat> {
    EndFrom(s, 0)
  }

  /** More bytes behind it do not move the end of the header. */
  lemma HeaderEndStays(s: string, m: nat, n: nat)
    requires m <= n && HeaderEnd(Prefix(s, m)).Some?
    ensures HeaderEnd(Prefix(s, n)) == HeaderEnd(Prefix(s, m))
  {
    var h := HeaderEnd(Prefix(s, m)).value;
    assert EndsAt(Prefix(s, n), h);
    forall j | 0 <= j < h
      ensures !EndsAt(Prefix(s, n), j)
    {
      assert !EndsAt(Prefix(s, m), j);
    }
  }

  /** Scans what has been received for the first blank line. */
  method FindHeaderEnd(buffer: array<char>, used: nat) returns (end: Option<nat>)
    requires used <= buffer.Length
    ensures end == HeaderEnd(buffer[..used])
  {
    var index := 0;
    while index + 3 < used
      invariant forall j :: 0 <= j < index ==> !EndsAt(buffer[..used], j)
      decreases used - index
    {
      if buffer[index] == '\r' && buffer[index + 1] == '\n' && buffer[index + 2] == '\r' && buffer[index + 3] == '\n' {
        assert EndsAt(buffer[..used], index);
        return Some(index);
      }
      index := index + 1;
    }
    return None;
  }

  datatype HeaderResult = Found(end: nat) | TimedOut | Failed

  /**
   * Receives until the buffer holds a blank line. Whatever the pieces, the end found is the first
   * blank line of the stream; without faults it is found whenever it lies within the buffer size.
   */
  method ReadUntilHeaderEnd(source: Source, buffer: array<char>) returns (result: HeaderResult, used: nat)
    requires source.Valid()
    modifies source, buffer
    ensures source.Valid() && used <= |old(source.Rest())| && used <= buffer.Length
    ensures source.Rest() == old(source.Rest())[used..] && buffer[..used] == old(source.Rest())[..used]
    ensures result.Found? ==> HeaderEnd(old(source.Rest())[..used]) == Some(result.end)
    ensures !result.Found? ==> HeaderEnd(old(source.Rest())[..used]) == None
    ensures old(Harmless(source.events)) ==> Harmless(source.events) && result != TimedOut
    ensures old(Harmless(source.events)) && !result.Found? ==> used == Min(buffer.Length, |old(source.Rest())|)
  {
    used := 0;
    ghost var rest := source.Rest();
    while true
      invariant source.Valid() && used <= |rest| && used <= buffer.Length
      invariant source.Rest() == rest[used..] && buffer[..used] == rest[..used]
      invariant HeaderEnd(rest[..used]) == None
      invariant old(Harmless(source.events)) ==> Harmless(source.events)
      decreases |source.events|, buffer.Length - used
    {
      if used == buffer.Length {
        return Failed, used;
      }
      var n, error := source.Recv(buffer, used, buffer.Length - used);
      if n < 0 {
        assert buffer[..used] == rest[..used];
        if error == EINTR {
          continue;
        }
        return if error == EAGAIN then TimedOut else Failed, used;
      }
      if n == 0 {
        assert buffer[..used] == rest[..used];
        return Failed, used;
      }
      assert buffer[..used + n] == buffer[..used] + buffer[used..used + n];
      assert rest[..used + n] == rest[..used] + rest[used..][..n];
      used := used + n;
      var end := FindHeaderEnd(buffer, used);
      if end.Some? {
        return Found(end.value), used;
      }
    }
  }

  // ---------------------------------------------------------------- requests

  /** What the text of a header says: the length of the body, or why the request is refused. */
  datatype HeaderOutcome = Length(value: nat) | Refuse(status: int, message: string)

  datatype Request = Body(text: string) | Refused(status: int, message: string)

  const TIMED_OUT := Refused(408, "Request timed out")
  const MALFORMED := Refused(400, "Malformed HTTP request")
  const TOO_LARGE := Refused(413, "Request body is too large")
  const UNREADABLE := Refused(400, "Failed to read request body")
  const INCOMPLETE := Refused(400, "Incomplete request body")

  /** The request in a byte stream; nothing is said about the pieces it comes in. */
  function RequestIn(stream: string, parse: string -> HeaderOutcome): Request {
    match HeaderEnd(Prefix(stream, MAX_REQUEST_SIZE))
    case None => MALFORMED
    case Some(h) =>
      match parse(stream[..h])
      case Refuse(status, message) => Refused(status, message)
      case Length(n) =>
        if n > MAX_BODY_SIZE then TOO_LARGE
        else if h + 4 + n > |stream| then INCOMPLETE
        else Body(stream[h + 4..h + 4 + n])
  }

  predicate IsFault(r: Request) {
    r == TIMED_OUT || r == MALFORMED || r == UNREADABLE || r == INCOMPLETE
  }

  /** The request is the one in the stream; only faults can put a timeout or a truncated request in its place. */
  predicate Faithful(request: Request, stream: string, parse: string -> HeaderOutcome, harmless: bool) {
    request == RequestIn(stream, parse) || (!harmless && IsFault(request))
  }

  /** Receives the part of the body that did not come with the header. */
  method ReadBody(source: Source, body: array<char>, start: nat, length: nat) returns (fault: Option<Request>)
    requires source.Valid() && start <= length < body.Length
    modifies source, body
    ensures source.Valid()
    ensures fault.None? ==> length - start <= |old(source.Rest())|
    ensures fault.None? ==> body[..length] == old(body[..start]) + old(source.Rest())[..length - start]
    ensures fault.Some? ==> fault.value in {TIMED_OUT, UNREADABLE, INCOMPLETE}
    ensures old(Harmless(source.events)) && fault.Some? ==>
              fault.value == INCOMPLETE && |old(source.Rest())| < length - start
  {
    ghost var rest, before := source.Rest(), body[..start];
    var available := start;
    assert before + rest[..0] == before;
    while available < length
      invariant source.Valid() && start <= available <= length && available - start <= |rest|
      invariant source.Rest() == rest[available - start..]
      invariant body[..available] == before + rest[..available - start]
      invariant old(Harmless(source.events)) ==> Harmless(source.events)
      decreases |source.events|, length - available
    {
      ghost var had := body[..available];
      var n, error := source.Recv(body, available, length - available);
      assert body[..available] == had;
      if n < 0 {
        if error == EINTR {
          continue;
        }
        return Some(if error == EAGAIN then TIMED_OUT else UNREADABLE);
      }
      if n == 0 {
        return Some(INCOMPLETE);
      }
      assert body[..available + n] == had + body[available..available + n];
      assert rest[..available - start + n] == rest[..available - start] + rest[available - start..][..n];
      Assoc(before, rest[..available - start], rest[available - start..][..n]);
      available := available + n;
    }
    return None;
  }

  /** Puts together a body of known length from the buffer and the bytes still to come. */
  method AssembleBody(source: Source, buffer: array<char>, used: nat, offset: nat, length: nat, ghost stream: string)
    returns (fault: Option<Request>, body: array<char>)
    requires source.Valid() && used <= buffer.Length && used <= |stream| && length <= MAX_BODY_SIZE && offset <= used
    requires buffer[..used] == stream[..used] && source.Rest() == stream[used..]
    modifies source
    ensures source.Valid() && fresh(body)
    ensures fault.None? ==> offset + length <= |stream| && Terminated(body, stream[offset..offset + length])
    ensures fault.Some? ==> fault.value in {TIMED_OUT, UNREADABLE, INCOMPLETE}
    ensures old(Harmless(source.events)) && fault.Some? ==> fault.value == INCOMPLETE && |stream| < offset + length
  {
    body := new char[MAX_BODY_SIZE + 1];
    var available := Min(used - offset, length);
    forall i | 0 <= i < available {
      body[i] := buffer[offset + i];
    }
    forall i | 0 <= i < used
      ensures buffer[i] == stream[i]
    {
      assert buffer[..used][i] == stream[..used][i];
    }
    assert body[..available] == stream[offset..offset + available];
    fault := ReadBody(source, body, available, length);
    if fault.None? {
      body[length] := NUL;
      if available < length {
        assert offset + available == used;
        assert stream[offset..offset + length] == stream[offset..used] + stream[used..][..length - available];
      }
    }
  }

  /**
   * Reads one request. A body is always the right one; without faults the outcome is that of the
   * stream alone, and faults can only add a timeout or a malformed or incomplete request.
   */
  method ReadRequest(source: Source, parse: string -> HeaderOutcome)
    returns (request: Request, body: array?<char>)
    requires source.Valid()
    modifies source
    ensures source.Valid()
    ensures Faithful(request, old(source.Rest()), parse, old(Harmless(source.events)))
    ensures request.Body? ==> body != null && fresh(body) && Terminated(body, request.text)
  {
    ghost var stream := source.Rest();
    var buffer := new char[MAX_REQUEST_SIZE];
    var header, used := ReadUntilHeaderEnd(source, buffer);
    body := null;
    assert stream[..used] == Prefix(stream, used);
    if !header.Found? {
      return if header.TimedOut? then TIMED_OUT else MALFORMED, null;
    }
    HeaderEndStays(stream, used, MAX_REQUEST_SIZE);
    var end := header.end;
    assert EndsAt(stream[..used], end);
    assert buffer[..end] == buffer[..used][..end] == stream[..end];
    match parse(buffer[..end])
    case Refuse(status, message) => request := Refused(status, message);
    case Length(length) =>
      if length > MAX_BODY_SIZE {
        request := TOO_LARGE;
      } else {
        var fault;
        fault, body := AssembleBody(source, buffer, used, end + 4, length, stream);
        request := if fault.Some? then fault.value else Body(body[..length]);
      }
  }

  function FourAt(s: string, i: nat): string
    requires i + 4 <= |s|
  {
    s[i..i + 4]
  }

  /** No blank line starts in this text, when one is put behind it. */
  predicate NoBlankLine(h: string) {
    forall i: nat :: i < |h| ==> FourAt(h + "\r\n\r\n", i) != "\r\n\r\n"
  }

  lemma BlankLineSeen(s: string, i: nat)
    requires i + 4 <= |s|
    ensures EndsAt(s, i) <==> FourAt(s, i) == "\r\n\r\n"
  {
    var four := FourAt(s, i);
    assert four[0] == s[i] && four[1] == s[i + 1] && four[2] == s[i + 2] && four[3] == s[i + 3];
  }

  /** A header of at most 8192 bytes, blank line included, ends at its blank line. */
  lemma HeaderEndAt(h: string, rest: string)
    requires NoBlankLine(h) && |h| + 4 <= 8192
    ensures HeaderEnd(Prefix(h + "\r\n\r\n" + rest, 8192)) == Some(|h|)
  {
    var t := h + "\r\n\r\n";
    var p := Prefix(t + rest, 8192);
    assert p[..|h| + 4] == t;
    assert FourAt(p, |h|) == FourAt(t, |h|) == "\r\n\r\n";
    BlankLineSeen(p, |h|);
    forall j | 0 <= j < |h|
      ensures !EndsAt(p, j)
    {
      assert FourAt(p, j) == FourAt(t, j);
      BlankLineSeen(p, j);
    }
  }

  /** What becomes of a request with a header, whatever the pieces it comes in. */
  lemma HeadedRequest(request: Request, h: string, rest: string, parse: string -> HeaderOutcome)
    requires NoBlankLine(h) && |h| + 4 <= 8192
    requires Faithful(request, h + "\r\n\r\n" + rest, parse, true)
    ensures request == match parse(h)
                       case Refuse(status, message) => Refused(status, message)
                       case Length(n) =>
                         if n > 4096 then Refused(413, "Request body is too large")
                         else if n > |rest| then Refused(400, "Incomplete request body")
                         else Body(rest[..n])
  {
    var stream := h + "\r\n\r\n" + rest;
    HeaderEndAt(h, rest);
    assert stream[..|h|] == h;
    if parse(h).Length? && |h| + 4 + parse(h).value <= |stream| {
      assert stream[|h| + 4..|h| + 4 + parse(h).value] == rest[..parse(h).value];
    }
  }

  /** A body of the announced length is handed over as it is, whatever follows it. */
  lemma BodyIsRead(request: Request, h: string, b: string, rest: string, parse: string -> HeaderOutcome)
    requires NoBlankLine(h) && |h| + 4 <= 8192 && parse(h) == Length(|b|) && |b| <= 4096
    requires Faithful(request, h + "\r\n\r\n" + b + rest, parse, true)
    ensures request == Body(b)
  {
    Assoc(h + "\r\n\r\n", b, rest);
    HeadedRequest(request, h, b + rest, parse);
    assert (b + rest)[..|b|] == b;
  }

  /** A stream without a blank line in its first 8192 bytes is refused. */
  lemma HeadlessRequest(request: Request, stream: string, parse: string -> HeaderOutcome)
    requires forall i: nat | i + 4 <= |stream| :: FourAt(stream, i) == "\r\n\r\n" ==> i + 4 > 8192
    requires Faithful(request, stream, parse, true)
    ensures request == Refused(400, "Malformed HTTP request")
  {
    var p := Prefix(stream, 8192);
    if HeaderEnd(p).Some? {
      var i := HeaderEnd(p).value;
      assert FourAt(p, i) == FourAt(stream, i);
      BlankLineSeen(p, i);
    }
  }

  /** Only such a stream has no header. */
  lemma HeaderOf(stream: string) returns (h: string, rest: string)
    requires exists i: nat | i + 4 <= |stream| :: FourAt(stream, i) == "\r\n\r\n" && i + 4 <= 8192
    ensures stream == h + "\r\n\r\n" + rest && NoBlankLine(h) && |h| + 4 <= 8192
  {
    var p := Prefix(stream, 8192);
    var i: nat :| i + 4 <= |stream| && FourAt(stream, i) == "\r\n\r\n" && i + 4 <= 8192;
    assert FourAt(p, i) == FourAt(stream, i);
    BlankLineSeen(p, i);
    h, rest := FirstHeader(stream);
  }

  lemma FirstHeader(stream: string) returns (h: string, rest: string)
    requires HeaderEnd(Prefix(stream, 8192)).Some?
    ensures stream == h + "\r\n\r\n" + rest && NoBlankLine(h)
    ensures |h| + 4 <= 8192 && HeaderEnd(Prefix(stream, 8192)) == Some(|h|)
  {
    var p := Prefix(stream, 8192);
    var n := HeaderEnd(p).value;
    BlankLineSeen(p, n);
    h, rest := stream[..n], stream[n + 4..];
    assert FourAt(stream, n) == FourAt(p, n);
    assert stream == stream[..n] + stream[n..n + 4] + stream[n + 4..];
    forall j: nat | j < n
      ensures FourAt(h + "\r\n\r\n", j) != "\r\n\r\n"
    {
      BlankLineSeen(p, j);
      assert FourAt(h + "\r\n\r\n", j) == FourAt(p, j);
    }
  }

  /** Whatever faults there are, a body that is read is the announced bytes behind the first blank line. */
  lemma BodyWasSent(request: Request, stream: string, parse: string -> HeaderOutcome, harmless: bool)
    returns (h: string, rest: string)
    requires Faithful(request, stream, parse, harmless) && request.Body?
    ensures stream == h + "\r\n\r\n" + request.text + rest && NoBlankLine(h) && |h| + 4 <= 8192
    ensures parse(h) == Length(|request.text|) && |request.text| <= 4096
  {
    var after;
    h, after := FirstHeader(stream);
    HeadedRequest(request, h, after, parse);
    var n := |request.text|;
    rest := after[n..];
    assert after == after[..n] + after[n..];
    Assoc(h + "\r\n\r\n", after[..n], after[n..]);
  }

  /** What faults can add. */
  lemma FaultsAdd(request: Request, stream: string, parse: string -> HeaderOutcome)
    requires Faithful(request, stream, parse, false) && !Faithful(request, stream, parse, true)
    ensures request == Refused(408, "Request timed out") || request == Refused(400, "Malformed HTTP request")
         || request == Refused(400, "Failed to read request body") || request == Refused(400, "Incomplete request body")
  {
  }

  // ---------------------------------------------------------------- responses

  predicate OneLine(s: string) { forall i :: 0 <= i < |s| ==> s[i] != '\r' }

  function StatusReason(status: int): (reason: string)
    ensures OneLine(reason)
  {
    match status
    case 400 => "Bad Request"
    case 404 => "Not Found"
    case 405 => "Method Not Allowed"
    case 408 => "Request Timeout"
    case 413 => "Payload Too Large"
    case 500 => "Internal Server Error"
    case 503 => "Service Unavailable"
    case _ => "OK"
  }

  function StatusLine(status: int): string {
    PROTOCOL + IntText(status) + " " + StatusReason(status)
  }

  function LengthLine(length: nat): string {
    LENGTH_KEY + IntText(length)
  }

  const PROTOCOL := "HTTP/1.1 "
  const LENGTH_KEY := "Content-Length: "
  const TYPE_KEY := "Content-Type: "
  const CLOSE_LINE := "Connection: close"

  function Head(status: int, contentType: string, length: nat): string {
    HeadOf(StatusLine(status), TYPE_KEY + contentType, LengthLine(length), CLOSE_LINE)
  }

  function HeadOf(l0: string, l1: string, l2: string, l3: string): string {
    l0 + NEW_LINE + (l1 + NEW_LINE + (l2 + NEW_LINE + (l3 + BLANK_LINE)))
  }

  function ResponseBytes(status: int, contentType: string, body: string): string {
    Head(status, contentType, |body|) + body
  }

  /** Sends head and body; what arrives is the response or, after a failure, a proper prefix of it. */
  method SendResponse(sink: Sink, status: int, contentType: string, body: string) returns (ok: bool)
    modifies sink
    ensures ok ==> sink.sent == old(sink.sent) + ResponseBytes(status, contentType, body)
    ensures !ok ==> IsProperPrefix(old(sink.sent), ResponseBytes(status, contentType, body), sink.sent)
    ensures old(Harmless(sink.events)) && |Head(status, contentType, |body|)| < 512 ==> ok
    ensures |Head(status, contentType, |body|)| >= 512 ==> !ok && sink.sent == old(sink.sent)
  {
    var head := Head(status, contentType, |body|);
    if |head| >= MAX_HEAD_SIZE {
      return false;
    }
    ok := SendAll(sink, head);
    ghost var before := old(sink.sent);
    if !ok {
      PrefixOfFirst(before, head, body, sink.sent);
      return;
    }
    ok := SendAll(sink, body);
    if ok {
      assert before + head + body == before + (head + body);
    } else {
      PrefixOfSecond(before, head, body, sink.sent);
    }
  }

  lemma PrefixOfFirst(before: string, head: string, body: string, now: string)
    requires IsProperPrefix(before, head, now)
    ensures IsProperPrefix(before, head + body, now)
  {
    assert (head + body)[..|now| - |before|] == head[..|now| - |before|];
  }

  lemma PrefixOfSecond(before: string, head: string, body: string, now: string)
    requires IsProperPrefix(before + head, body, now)
    ensures IsProperPrefix(before, head + body, now)
  {
    var n := |now| - |before| - |head|;
    assert (head + body)[..|now| - |before|] == head + body[..n];
    assert before + head + body[..n] == before + (head + body[..n]);
  }

  /** A line in front of the text moves the first blank line by its length. */
  lemma LineBefore(line: string, s: string)
    requires OneLine(line) && s != "" && s[0] != '\r' && HeaderEnd(s).Some?
    ensures HeaderEnd(line + NEW_LINE + s) == Some(|line| + 2 + HeaderEnd(s).value)
  {
    var t, n := line + NEW_LINE + s, |line| + 2;
    var h := HeaderEnd(s).value;
    assert t[n..] == s;
    assert EndsAt(t, n + h);
    forall j | 0 <= j < n + h
      ensures !EndsAt(t, j)
    {
      if j < n {
        assert t[n] == s[0];
      } else {
        assert !EndsAt(s, j - n);
      }
    }
  }

  lemma LastLine(line: string, body: string)
    requires OneLine(line)
    ensures HeaderEnd(line + BLANK_LINE + body) == Some(|line|)
  {
    assert EndsAt(line + BLANK_LINE + body, |line|);
  }

  /** Four lines, a blank line and a body. */
  lemma FourLines(l0: string, l1: string, l2: string, l3: string, body: string)
    requires OneLine(l0) && OneLine(l1) && OneLine(l2) && OneLine(l3) && l1 != "" && l2 != "" && l3 != ""
    ensures HeaderEnd(HeadOf(l0, l1, l2, l3) + body) == Some(|HeadOf(l0, l1, l2, l3)| - 4)
  {
    var t3 := l3 + BLANK_LINE + body;
    var t2 := l2 + NEW_LINE + t3;
    var t1 := l1 + NEW_LINE + t2;
    LastLine(l3, body);
    assert t3[0] == l3[0] && t2[0] == l2[0] && t1[0] == l1[0];
    LineBefore(l2, t3);
    LineBefore(l1, t2);
    LineBefore(l0, t1);
    HeadAndBody(l0, l1, l2, l3, body);
  }

  lemma HeadAndBody(l0: string, l1: string, l2: string, l3: string, body: string)
    ensures HeadOf(l0, l1, l2, l3) + body == l0 + NEW_LINE + (l1 + NEW_LINE + (l2 + NEW_LINE + (l3 + BLANK_LINE + body)))
  {
    var x3 := l3 + BLANK_LINE;
    var x2 := l2 + NEW_LINE + x3;
    Assoc(l0 + NEW_LINE, l1 + NEW_LINE + x2, body);
    Assoc(l1 + NEW_LINE, x2, body);
    Assoc(l2 + NEW_LINE, x3, body);
  }

  /** The first blank line of a response ends its head, and what follows is the body. */
  lemma ResponseIsFramed(status: int, contentType: string, body: string)
    requires OneLine(contentType)
    ensures var r, n := ResponseBytes(status, contentType, body), |Head(status, contentType, |body|)|;
      HeaderEnd(r) == Some(n - 4) && r[n..] == body
  {
    LinesPlain(status, contentType, |body|);
    FourLines(StatusLine(status), TYPE_KEY + contentType, LengthLine(|body|), CLOSE_LINE, body);
  }

  lemma LinesPlain(status: int, contentType: string, length: nat)
    requires OneLine(contentType)
    ensures OneLine(StatusLine(status)) && OneLine(LengthLine(length))
    ensures OneLine(TYPE_KEY + contentType) && OneLine(CLOSE_LINE)
  {
    KeysOneLine();
    NumberOneLine(PROTOCOL, status);
    NumberOneLine(LENGTH_KEY, length);
    JoinOneLine(PROTOCOL + IntText(status) + " ", StatusReason(status));
    JoinOneLine(TYPE_KEY, contentType);
  }

  lemma KeysOneLine()
    ensures OneLine(PROTOCOL) && OneLine(LENGTH_KEY) && OneLine(TYPE_KEY) && OneLine(CLOSE_LINE)
  {
  }

  lemma JoinOneLine(a: string, b: string)
    requires OneLine(a) && OneLine(b)
    ensures OneLine(a + b)
  {
  }

  lemma NumberOneLine(key: string, n: int)
    requires OneLine(key)
    ensures OneLine(key + IntText(n)) && OneLine(key + IntText(n) + " ")
  {
    NatTextValue(if n < 0 then -n else n);
    JoinOneLine(key, IntText(n));
  }
}
