/** `Content-Length` framing, as section "Base Protocol" of the Language Server
    Protocol 3.17 lays it down: headers, a blank line, the body. */
module LspFraming {
  import opened Text
  import opened Bytes

  const CR: Byte := '\r'
  const LF: Byte := '\n'
  const CANONICAL: ByteString := "Content-Length:"
  const LOWER: ByteString := "content-length:"
  const USIZE_LIMIT: nat := 0x1_0000_0000_0000_0000

  // ---- lines and numbers ----

  /** Where the first line ends, its newline included. */
  function LineEnd(stream: ByteString): (n: nat)
    ensures n <= |stream| && (stream != [] ==> n > 0)
    ensures forall i | 0 <= i < n - 1 :: stream[i] != LF
    ensures n < |stream| ==> n > 0 && stream[n - 1] == LF
  {
    if stream == [] then 0
    else if stream[0] == LF then 1
    else 1 + LineEnd(stream[1..])
  }

  function TrimNewlines(line: ByteString): (r: ByteString)
    ensures r <= line
    ensures r != [] ==> r[|r| - 1] != CR && r[|r| - 1] != LF
  {
    if line != [] && (line[|line| - 1] == CR || line[|line| - 1] == LF)
    then TrimNewlines(line[..|line| - 1]) else line
  }

  predicate IsAsciiSpace(b: Byte) {
    b == ' ' || 9 <= b as int <= 13
  }

  function SkipSpace(s: ByteString): (r: ByteString)
    ensures |r| <= |s| && r == s[|s| - |r|..]
  {
    if s != [] && IsAsciiSpace(s[0]) then SkipSpace(s[1..]) else s
  }

  function DropSpace(s: ByteString): (r: ByteString)
    ensures r <= s
  {
    if s != [] && IsAsciiSpace(s[|s| - 1]) then DropSpace(s[..|s| - 1]) else s
  }

  /** `value.trim().parse::<usize>().ok()`. */
  function ParseLength(value: ByteString): Option<nat> {
    var trimmed := DropSpace(SkipSpace(value));
    var digits := if trimmed != [] && trimmed[0] == '+' then trimmed[1..] else trimmed;
    if digits != [] && AllDigits(digits) && DecimalValue(digits) < USIZE_LIMIT
    then Some(DecimalValue(digits)) else None
  }

  // ---- one message ----

  datatype Failure = NoContentLength | ShortBody | NotUtf8

  datatype Reading =
    | EndOfInput
    | Message(body: ByteString, rest: ByteString)
    | Broken(failure: Failure)

  function HeaderLength(header: ByteString, length: Option<nat>): Option<nat> {
    if CANONICAL <= header then ParseLength(header[|CANONICAL|..])
    else if LOWER <= header then ParseLength(header[|LOWER|..])
    else length
  }

  function ReadBody(stream: ByteString, length: Option<nat>): Reading {
    match length
    case None => Broken(NoContentLength)
    case Some(n) =>
      if |stream| < n then Broken(ShortBody)
      else if !ValidUtf8(stream[..n]) then Broken(NotUtf8)
      else Message(stream[..n], stream[n..])
  }

  /** Headers up to the blank line, the last length among them winning, then
      the body. */
  function ReadFrom(stream: ByteString, length: Option<nat>): (r: Reading)
    ensures r.Message? ==> |r.rest| < |stream|
    decreases |stream|
  {
    if stream == [] then EndOfInput
    else
      var n := LineEnd(stream);
      var header := TrimNewlines(stream[..n]);
      if !ValidUtf8(stream[..n]) then Broken(NotUtf8)
      else if header == [] then ReadBody(stream[n..], length)
      else ReadFrom(stream[n..], HeaderLength(header, length))
  }

  /** The input side of the connection: what has not been read yet. */
  class Reader {
    var pending: ByteString

    constructor (stream: ByteString)
      ensures pending == stream
    {
      pending := stream;
    }

    /** `read_line`: empty at the end of the input. */
    method ReadLine() returns (line: ByteString)
      modifies this
      ensures line == old(pending)[..LineEnd(old(pending))]
      ensures pending == old(pending)[LineEnd(old(pending))..]
    {
      var n := LineEnd(pending);
      line := pending[..n];
      pending := pending[n..];
    }

    method ReadMessage() returns (r: Result<Option<ByteString>, Failure>)
      modifies this
      ensures match ReadFrom(old(pending), None)
              case EndOfInput => r == Ok(None) && pending == []
              case Message(body, rest) => r == Ok(Some(body)) && pending == rest
              case Broken(failure) => r == Err(failure)
    {
      var length: Option<nat> := None;
      while true
        invariant ReadFrom(pending, length) == ReadFrom(old(pending), None)
        decreases |pending|
      {
        var line := ReadLine();
        if line == [] {
          return Ok(None);
        }
        if !ValidUtf8(line) {
          return Err(NotUtf8);
        }
        var header := TrimNewlines(line);
        if header == [] {
          break;
        }
        length := HeaderLength(header, length);
      }
      if length.None? {
        return Err(NoContentLength);
      }
      if |pending| < length.value {
        return Err(ShortBody);
      }
      var body := pending[..length.value];
      pending := pending[length.value..];
      if !ValidUtf8(body) {
        return Err(NotUtf8);
      }
      return Ok(Some(body));
    }
  }

  // ---- what is written can be read ----

  /** `write_message`. */
  function Frame(body: ByteString): ByteString {
    "Content-Length: " + Decimal(|body|) + "\r\n\r\n" + body
  }

  lemma {:induction false} LineEndIs(h: ByteString, rest: ByteString)
    requires LF !in h
    ensures LineEnd(h + [LF] + rest) == |h| + 1
  {
    if h != [] {
      assert (h + [LF] + rest)[1..] == h[1..] + [LF] + rest;
      LineEndIs(h[1..], rest);
    }
  }

  /** A header line's content: no line feed, no trailing carriage return, and
      text. */
  predicate IsHeader(h: ByteString) {
    h != [] && LF !in h && h[|h| - 1] != CR && ValidUtf8(h + [CR, LF])
  }

  lemma {:induction false} LineIs(h: ByteString, rest: ByteString)
    requires LF !in h && (h != [] ==> h[|h| - 1] != CR)
    ensures
      var stream := h + [CR, LF] + rest;
      var n := LineEnd(stream);
      stream[..n] == h + [CR, LF] && stream[n..] == rest && TrimNewlines(stream[..n]) == h
  {
    var line := h + [CR, LF];
    assert line + rest == h + [CR] + [LF] + rest;
    LineEndIs(h + [CR], rest);
    assert line[..|line| - 1] == h + [CR];
    assert (h + [CR])[..|h|] == h;
    assert TrimNewlines(h) == h;
  }

  lemma {:induction false} HeaderStep(h: ByteString, rest: ByteString, length: Option<nat>)
    requires IsHeader(h)
    ensures ReadFrom(h + [CR, LF] + rest, length) == ReadFrom(rest, HeaderLength(h, length))
  {
    hide LineEnd, TrimNewlines, ValidUtf8, HeaderLength;
    LineIs(h, rest);
    assert h + [CR, LF] + rest != [];
  }

  lemma {:induction false} BlankLine(rest: ByteString, length: Option<nat>)
    ensures ReadFrom([CR, LF] + rest, length) == ReadBody(rest, length)
  {
    LineIs([], rest);
    assert [] + [CR, LF] + rest == [CR, LF] + rest && [] + [CR, LF] == [CR, LF];
    AsciiIsUtf8([CR, LF]);
  }

  function Lines(headers: seq<ByteString>): ByteString {
    if headers == [] then [] else headers[0] + [CR, LF] + Lines(headers[1..])
  }

  /** Headers that are not about the length leave it alone. */
  lemma {:induction false} SkipHeaders(headers: seq<ByteString>, rest: ByteString, length: Option<nat>)
    requires forall i | 0 <= i < |headers| ::
               IsHeader(headers[i]) && !(CANONICAL <= headers[i]) && !(LOWER <= headers[i])
    ensures ReadFrom(Lines(headers) + rest, length) == ReadFrom(rest, length)
  {
    hide ReadFrom, ValidUtf8;
    if headers == [] {
      assert Lines(headers) + rest == rest;
    } else {
      SkipHeaders(headers[1..], rest, length);
      assert Lines(headers) + rest == headers[0] + [CR, LF] + (Lines(headers[1..]) + rest);
      HeaderStep(headers[0], Lines(headers[1..]) + rest, length);
      assert HeaderLength(headers[0], length) == length;
    }
  }

  lemma {:induction false} NoSpaceToSkip(d: ByteString)
    requires d != [] && !IsAsciiSpace(d[0]) && !IsAsciiSpace(d[|d| - 1])
    ensures SkipSpace([' '] + d) == d && DropSpace(d) == d
  {
    assert ([' '] + d)[1..] == d;
    assert SkipSpace(d) == d;
  }

  lemma {:induction false} DigitsStay(d: ByteString)
    requires d != [] && AllDigits(d)
    ensures DropSpace(SkipSpace([' '] + d)) == d && d[0] != '+'
  {
    hide SkipSpace, DropSpace;
    assert IsDigit(d[0]) && IsDigit(d[|d| - 1]);
    NoSpaceToSkip(d);
  }

  lemma {:induction false} LengthParses(n: nat)
    requires n < USIZE_LIMIT
    ensures ParseLength([' '] + Decimal(n)) == Some(n)
  {
    hide Decimal, DecimalValue, SkipSpace, DropSpace;
    DigitsStay(Decimal(n));
  }

  function LengthHeader(name: ByteString, n: nat): ByteString {
    name + [' '] + Decimal(n)
  }

  lemma {:induction false} LengthHeaderIs(name: ByteString, n: nat, length: Option<nat>)
    requires name == CANONICAL || name == LOWER
    requires n < USIZE_LIMIT
    ensures IsHeader(LengthHeader(name, n)) && HeaderLength(LengthHeader(name, n), length) == Some(n)
  {
    hide DecimalValue, ParseLength, Decimal;
    var d := Decimal(n);
    var h := name + [' '] + d;
    LengthParses(n);
    assert h[|name|..] == [' '] + d;
    assert h[0] == name[0];
    forall i | 0 <= i < |h| ensures IsAscii(h[i]) && h[i] != LF {
      if i > |name| { assert h[i] == d[i - |name| - 1] && IsDigit(d[i - |name| - 1]); }
    }
    assert h[|h| - 1] == d[|d| - 1];
    AsciiIsUtf8(h + [CR, LF]);
  }

  /** Whatever other headers stand before or after the length, the body and
      nothing else is taken off the stream. */
  lemma {:induction false} OtherHeadersDoNotMatter(before: seq<ByteString>, name: ByteString, after: seq<ByteString>,
                                                   body: ByteString, rest: ByteString)
    requires name == CANONICAL || name == LOWER
    requires forall i | 0 <= i < |before| ::
               IsHeader(before[i]) && !(CANONICAL <= before[i]) && !(LOWER <= before[i])
    requires forall i | 0 <= i < |after| ::
               IsHeader(after[i]) && !(CANONICAL <= after[i]) && !(LOWER <= after[i])
    requires ValidUtf8(body) && |body| < USIZE_LIMIT
    ensures ReadFrom(Lines(before)
                     + (LengthHeader(name, |body|) + [CR, LF] + (Lines(after) + ([CR, LF] + (body + rest)))),
                     None)
            == Message(body, rest)
  {
    hide ReadFrom, ValidUtf8, IsHeader, LengthHeader, HeaderLength;
    var tail := [CR, LF] + (body + rest);
    SkipHeaders(before, LengthHeader(name, |body|) + [CR, LF] + (Lines(after) + tail), None);
    LengthHeaderIs(name, |body|, None);
    HeaderStep(LengthHeader(name, |body|), Lines(after) + tail, None);
    SkipHeaders(after, tail, Some(|body|));
    BlankLine(body + rest, Some(|body|));
    assert (body + rest)[..|body|] == body && (body + rest)[|body|..] == rest;
  }

  /** A written message reads back as its body, and the reader stops there. */
  lemma {:induction false} FrameReadsBack(body: ByteString, rest: ByteString)
    requires ValidUtf8(body) && |body| < USIZE_LIMIT
    ensures ReadFrom(Frame(body) + rest, None) == Message(body, rest)
  {
    hide ReadFrom, ValidUtf8;
    OtherHeadersDoNotMatter([], CANONICAL, [], body, rest);
    FrameShape(body, rest);
  }

  lemma {:induction false} FrameShape(body: ByteString, rest: ByteString)
    ensures Frame(body) + rest
            == Lines([]) + (LengthHeader(CANONICAL, |body|) + [CR, LF] + (Lines([]) + ([CR, LF] + (body + rest))))
  {
    hide Decimal;
    var d := Decimal(|body|);
    var a: ByteString := "Content-Length: ";
    assert a == CANONICAL + [' '];
    assert "\r\n\r\n" == [CR, LF] + [CR, LF];
    var head := a + d;
    assert head + "\r\n\r\n" == head + [CR, LF] + [CR, LF];
    assert head + [CR, LF] + [CR, LF] + body + rest == head + [CR, LF] + ([CR, LF] + (body + rest));
    assert Lines([]) == [];
    assert [] + ([CR, LF] + (body + rest)) == [CR, LF] + (body + rest);
    assert [] + (head + [CR, LF] + ([CR, LF] + (body + rest))) == head + [CR, LF] + ([CR, LF] + (body + rest));
  }

  // ---- the whole stream ----

  /** The bodies a reader takes off a stream before it ends or breaks. */
  datatype Session = Session(bodies: seq<ByteString>, failure: Option<Failure>)

  function ReadAll(stream: ByteString): Session
    decreases |stream|
  {
    match ReadFrom(stream, None)
    case EndOfInput => Session([], None)
    case Broken(failure) => Session([], Some(failure))
    case Message(body, rest) =>
      var more := ReadAll(rest);
      Session([body] + more.bodies, more.failure)
  }

  function Frames(bodies: seq<ByteString>): ByteString {
    if bodies == [] then [] else Frame(bodies[0]) + Frames(bodies[1..])
  }

  /** Messages written one after another are read back in order, and what
      follows them is read as if they had not been there. */
  lemma {:induction false} StreamReadsBack(bodies: seq<ByteString>, rest: ByteString)
    requires forall i | 0 <= i < |bodies| :: ValidUtf8(bodies[i]) && |bodies[i]| < USIZE_LIMIT
    ensures ReadAll(Frames(bodies) + rest).bodies == bodies + ReadAll(rest).bodies
    ensures ReadAll(Frames(bodies) + rest).failure == ReadAll(rest).failure
  {
    hide Frame, ReadFrom, ValidUtf8;
    if bodies == [] {
      assert Frames(bodies) + rest == rest;
    } else {
      StreamReadsBack(bodies[1..], rest);
      Assoc(Frame(bodies[0]), Frames(bodies[1..]), rest);
      FrameReadsBack(bodies[0], Frames(bodies[1..]) + rest);
      Assoc([bodies[0]], bodies[1..], ReadAll(rest).bodies);
      assert [bodies[0]] + bodies[1..] == bodies;
    }
  }
}
