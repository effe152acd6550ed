/** What a reader makes of every stream of header lines, well written or not. */
module LspHeaders {
  import opened Text
  import opened Bytes
  import opened LspFraming

  // ---- lines ----

  /** A line's text, and how many carriage returns stand before its line feed. */
  datatype Line = Line(text: ByteString, crs: nat)

  function Returns(n: nat): ByteString {
    if n == 0 then [] else Returns(n - 1) + ['\r']
  }

  predicate IsText(text: ByteString) {
    '\n' !in text && (text == [] || text[|text| - 1] != '\r')
  }

  function Ended(line: Line): ByteString {
    line.text + Returns(line.crs) + ['\n']
  }

  function AllEnded(lines: seq<Line>): ByteString {
    if lines == [] then [] else Ended(lines[0]) + AllEnded(lines[1..])
  }

  lemma {:induction false} TrimReturns(text: ByteString, n: nat)
    requires IsText(text)
    ensures TrimNewlines(text + Returns(n)) == text && '\n' !in text + Returns(n)
  {
    if n == 0 {
      assert text + Returns(0) == text;
    } else {
      TrimReturns(text, n - 1);
      var line := text + Returns(n);
      assert line == text + Returns(n - 1) + ['\r'];
      assert line[..|line| - 1] == text + Returns(n - 1);
    }
  }

  lemma {:induction false} AsciiTail(s: ByteString, b: Byte)
    requires IsAscii(b)
    ensures ValidUtf8(s + [b]) <==> ValidUtf8(s)
    decreases |s|
  {
    var t := s + [b];
    assert t[..|s|] == s;
    if s == [] {
      AsciiIsUtf8([b]);
      assert t == [b];
    } else {
      if ValidUtf8(t) { Utf8Cut(t, |s|); }
      if ValidUtf8(s) {
        var n := FirstLength(s);
        assert t[n..] == s[n..] + [b];
        AsciiTail(s[n..], b);
        SameFirst(s, b);
      }
    }
  }

  lemma {:induction false} SameFirst(s: ByteString, b: Byte)
    requires s != [] && FirstLength(s) > 0
    ensures FirstLength(s + [b]) == FirstLength(s)
  {
  }

  lemma {:induction false} ReturnsAreUtf8(text: ByteString, n: nat)
    ensures ValidUtf8(text + Returns(n)) <==> ValidUtf8(text)
  {
    if n == 0 {
      assert text + Returns(0) == text;
    } else {
      ReturnsAreUtf8(text, n - 1);
      AsciiTail(text + Returns(n - 1), '\r');
      assert text + Returns(n) == text + Returns(n - 1) + ['\r'];
    }
  }

  lemma {:induction false} LineIsRead(line: Line, rest: ByteString)
    requires IsText(line.text)
    ensures
      var stream := Ended(line) + rest;
      var n := LineEnd(stream);
      stream != [] && stream[..n] == Ended(line) && stream[n..] == rest && TrimNewlines(stream[..n]) == line.text
      && (ValidUtf8(stream[..n]) <==> ValidUtf8(line.text))
  {
    var front := line.text + Returns(line.crs);
    TrimReturns(line.text, line.crs);
    LineEndIs(front, rest);
    ReturnsAreUtf8(line.text, line.crs);
    AsciiTail(front, '\n');
    assert (front + ['\n'])[..|front|] == front;
  }

  /** One line, whatever it holds. */
  lemma {:induction false} OneLine(line: Line, rest: ByteString, length: Option<nat>)
    requires IsText(line.text)
    ensures ReadFrom(Ended(line) + rest, length)
            == if !ValidUtf8(line.text) then Broken(NotUtf8)
               else if line.text == [] then ReadBody(rest, length)
               else ReadFrom(rest, HeaderLength(line.text, length))
  {
    hide LineEnd, TrimNewlines, ValidUtf8, HeaderLength, Ended, ReadBody;
    LineIsRead(line, rest);
  }

  // ---- the length ----

  predicate AllSpace(s: ByteString) {
    forall i | 0 <= i < |s| :: s[i] == ' ' || 9 <= s[i] as int <= 13
  }

  /** A number as the header may write it. */
  datatype Numeral = Numeral(lead: ByteString, sign: ByteString, digits: ByteString, trail: ByteString)

  ghost function Spelled(x: Numeral): ByteString {
    x.lead + (x.sign + x.digits) + x.trail
  }

  ghost predicate IsNumeral(x: Numeral, n: nat) {
    AllSpace(x.lead) && AllSpace(x.trail) && (x.sign == [] || x.sign == ['+'])
    && x.digits != [] && (forall i | 0 <= i < |x.digits| :: '0' <= x.digits[i] <= '9')
    && AllDigits(x.digits) && DecimalValue(x.digits) == n && n < 0x1_0000_0000_0000_0000
  }

  /** The text is the number `n`: spaces around it, a plus sign or none, digits. */
  ghost predicate Spells(value: ByteString, n: nat) {
    exists x :: Spelled(x) == value && IsNumeral(x, n)
  }

  lemma {:induction false} SkipSpaceIs(lead: ByteString, s: ByteString)
    requires AllSpace(lead) && (s == [] || !IsAsciiSpace(s[0]))
    ensures SkipSpace(lead + s) == s
  {
    if lead == [] {
      assert lead + s == s;
    } else {
      assert (lead + s)[1..] == lead[1..] + s;
      SkipSpaceIs(lead[1..], s);
    }
  }

  lemma {:induction false} DropSpaceIs(s: ByteString, trail: ByteString)
    requires AllSpace(trail) && (s == [] || !IsAsciiSpace(s[|s| - 1]))
    ensures DropSpace(s + trail) == s
  {
    if trail == [] {
      assert s + trail == s;
    } else {
      assert (s + trail)[..|s + trail| - 1] == s + trail[..|trail| - 1];
      DropSpaceIs(s, trail[..|trail| - 1]);
    }
  }

  lemma {:induction false} SkipSpaceSkips(s: ByteString)
    ensures AllSpace(s[..|s| - |SkipSpace(s)|]) && (SkipSpace(s) != [] ==> !IsAsciiSpace(SkipSpace(s)[0]))
  {
    if s != [] && IsAsciiSpace(s[0]) {
      SkipSpaceSkips(s[1..]);
      var n := |s| - |SkipSpace(s)|;
      assert s[..n] == [s[0]] + s[1..][..n - 1];
    }
  }

  lemma {:induction false} DropSpaceDrops(s: ByteString)
    ensures AllSpace(s[|DropSpace(s)|..])
    ensures DropSpace(s) != [] ==> !IsAsciiSpace(DropSpace(s)[|DropSpace(s)| - 1])
  {
    if s != [] && IsAsciiSpace(s[|s| - 1]) {
      DropSpaceDrops(s[..|s| - 1]);
      var n := |DropSpace(s)|;
      assert s[n..] == s[..|s| - 1][n..] + [s[|s| - 1]];
    }
  }

  lemma {:induction false} SpelledParses(x: Numeral, n: nat)
    requires IsNumeral(x, n)
    ensures ParseLength(Spelled(x)) == Some(n)
  {
    hide DecimalValue, SkipSpace, DropSpace;
    var core := x.sign + x.digits;
    assert core[|core| - 1] == x.digits[|x.digits| - 1];
    assert Spelled(x) == x.lead + (core + x.trail);
    assert (core + x.trail)[0] == core[0];
    SkipSpaceIs(x.lead, core + x.trail);
    DropSpaceIs(core, x.trail);
    if x.sign == [] { assert core == x.digits; } else { assert core[1..] == x.digits; }
  }

  lemma {:induction false} ParsedSpells(value: ByteString)
    requires ParseLength(value).Some?
    ensures Spells(value, ParseLength(value).value)
  {
    hide *;
    var skipped := SkipSpace(value);
    var trimmed := DropSpace(skipped);
    SkipSpaceSkips(value);
    DropSpaceDrops(skipped);
    var sign := SignOf(value, trimmed);
    var x := Numeral(value[..|value| - |skipped|], sign, trimmed[|sign|..], skipped[|trimmed|..]);
    assert trimmed == sign + x.digits;
    SpelledBack(value, skipped, trimmed, x);
    AreNumeral(x, ParseLength(value).value);
    IsSpelled(x, value, ParseLength(value).value);
  }

  lemma {:induction false} SignOf(value: ByteString, trimmed: ByteString) returns (sign: ByteString)
    requires ParseLength(value).Some? && trimmed == DropSpace(SkipSpace(value))
    ensures sign <= trimmed && (sign == [] || sign == ['+'])
    ensures
      var digits := trimmed[|sign|..];
      digits != [] && AllDigits(digits) && DecimalValue(digits) == ParseLength(value).value < USIZE_LIMIT
  {
    hide DecimalValue, SkipSpace, DropSpace;
    sign := if trimmed[0] == '+' then ['+'] else [];
  }

  lemma {:induction false} SpelledBack(value: ByteString, skipped: ByteString, trimmed: ByteString, x: Numeral)
    requires |skipped| <= |value| && skipped == value[|value| - |skipped|..] && trimmed <= skipped
    requires x.lead == value[..|value| - |skipped|] && trimmed == x.sign + x.digits && x.trail == skipped[|trimmed|..]
    ensures Spelled(x) == value
  {
    assert skipped == trimmed + x.trail;
    assert value == x.lead + skipped;
  }

  lemma {:induction false} AreNumeral(x: Numeral, n: nat)
    requires AllSpace(x.lead) && AllSpace(x.trail) && (x.sign == [] || x.sign == ['+'])
    requires x.digits != [] && AllDigits(x.digits) && DecimalValue(x.digits) == n && n < USIZE_LIMIT
    ensures IsNumeral(x, n)
  {
    hide DecimalValue;
  }

  lemma {:induction false} IsSpelled(x: Numeral, value: ByteString, n: nat)
    requires Spelled(x) == value && IsNumeral(x, n)
    ensures Spells(value, n)
  {
    hide IsNumeral, Spelled;
  }

  /** The length parses exactly when it spells a number of 64 bits. */
  lemma {:induction false} ParsesIffSpelled(value: ByteString, n: nat)
    ensures ParseLength(value) == Some(n) <==> Spells(value, n)
  {
    hide ParseLength, IsNumeral;
    if Spells(value, n) {
      var x :| Spelled(x) == value && IsNumeral(x, n);
      SpelledParses(x, n);
    }
    if ParseLength(value).Some? { ParsedSpells(value); }
  }

  /** The header is about the length, and this is its value. */
  ghost predicate GivesLength(header: ByteString, value: ByteString) {
    header == "Content-Length:" + value || header == "content-length:" + value
  }

  lemma {:induction false} LengthGiven(header: ByteString, length: Option<nat>)
    ensures (forall value :: !GivesLength(header, value)) ==> HeaderLength(header, length) == length
    ensures forall value | GivesLength(header, value) :: HeaderLength(header, length) == ParseLength(value)
  {
    hide ParseLength;
    if CANONICAL <= header { assert GivesLength(header, header[|CANONICAL|..]) by { Opens(CANONICAL, header); } }
    else if LOWER <= header { assert GivesLength(header, header[|LOWER|..]) by { Opens(LOWER, header); } }
    forall value | GivesLength(header, value) ensures HeaderLength(header, length) == ParseLength(value) {
      if header == CANONICAL + value { assert header[|CANONICAL|..] == value; }
      else { assert header[|LOWER|..] == value && header[0] == 'c'; }
    }
  }

  lemma {:induction false} Opens(name: ByteString, header: ByteString)
    requires name <= header
    ensures header == name + header[|name|..]
  {
  }

  // ---- the message ----

  /** Header lines that are text and not empty. */
  ghost predicate AreHeaders(lines: seq<Line>) {
    forall i | 0 <= i < |lines| :: IsText(lines[i].text) && lines[i].text != [] && ValidUtf8(lines[i].text)
  }

  /** Line `k` gives the length, and none behind it does. */
  ghost predicate GivesLast(lines: seq<Line>, k: nat, value: ByteString) {
    k < |lines| && GivesLength(lines[k].text, value)
    && forall i, other | k < i < |lines| :: !GivesLength(lines[i].text, other)
  }

  lemma {:induction false} ManyLines(lines: seq<Line>, rest: ByteString, length: Option<nat>)
    requires AreHeaders(lines)
    ensures (forall i, value | 0 <= i < |lines| :: !GivesLength(lines[i].text, value)) ==>
              ReadFrom(AllEnded(lines) + rest, length) == ReadFrom(rest, length)
    ensures forall k: nat, value | GivesLast(lines, k, value) ::
              ReadFrom(AllEnded(lines) + rest, length) == ReadFrom(rest, ParseLength(value))
  {
    hide ReadFrom, ValidUtf8, ParseLength, HeaderLength, GivesLength, Ended, IsText;
    if lines == [] {
      assert AllEnded(lines) + rest == rest;
    } else {
      var line, later := lines[0], lines[1..];
      var next := HeaderLength(line.text, length);
      assert AllEnded(lines) + rest == Ended(line) + (AllEnded(later) + rest);
      OneLine(line, AllEnded(later) + rest, length);
      LengthGiven(line.text, length);
      assert forall i | 0 <= i < |later| :: later[i] == lines[i + 1];
      ManyLines(later, rest, next);
      forall k: nat, value | GivesLast(lines, k, value)
        ensures ReadFrom(AllEnded(lines) + rest, length) == ReadFrom(rest, ParseLength(value))
      {
        if k > 0 { assert GivesLast(later, k - 1, value); }
      }
    }
  }

  /** Any headers and a blank line, the last length header deciding: without one,
      or with one that is no number, the message is refused; with a number, so are
      a body that is too short and one that is no text; otherwise exactly that many
      bytes are the body. */
  lemma {:induction false} LastLengthDecides(lines: seq<Line>, crs: nat, rest: ByteString)
    requires AreHeaders(lines)
    ensures
      var read := ReadFrom(AllEnded(lines) + (Ended(Line([], crs)) + rest), None);
      ((forall i, value | 0 <= i < |lines| :: !GivesLength(lines[i].text, value)) ==> read == Broken(NoContentLength))
      && (forall k: nat, value | GivesLast(lines, k, value) && (forall n: nat :: !Spells(value, n)) ::
            read == Broken(NoContentLength))
      && (forall k: nat, value, n: nat | GivesLast(lines, k, value) && Spells(value, n) ::
            read == if |rest| < n then Broken(ShortBody)
                    else if !ValidUtf8(rest[..n]) then Broken(NotUtf8)
                    else Message(rest[..n], rest[n..]))
  {
    hide ReadFrom, ParseLength, GivesLength, Ended, IsText, Spells, ValidUtf8;
    var blank := Line([], crs);
    ManyLines(lines, Ended(blank) + rest, None);
    NoTextIsText();
    OneLine(blank, rest, None);
    forall value ensures (forall n: nat :: !Spells(value, n)) ==> ParseLength(value) == None {
      if ParseLength(value).Some? { ParsesIffSpelled(value, ParseLength(value).value); }
    }
    forall k: nat, value | GivesLast(lines, k, value)
      ensures ReadFrom(AllEnded(lines) + (Ended(blank) + rest), None) == ReadBody(rest, ParseLength(value))
    {
      OneLine(blank, rest, ParseLength(value));
    }
    forall value, n: nat | Spells(value, n) ensures ParseLength(value) == Some(n) { ParsesIffSpelled(value, n); }
  }

  lemma {:induction false} NoTextIsText()
    ensures IsText([]) && ValidUtf8([])
  {
  }

  /** A line that is no text breaks the session; a stream that ends before the
      blank line is the end of the input. */
  lemma {:induction false} HeadersCanFail(lines: seq<Line>, line: Line, rest: ByteString, tail: ByteString)
    requires AreHeaders(lines) && IsText(line.text)
    ensures !ValidUtf8(line.text) ==>
              ReadFrom(AllEnded(lines) + (Ended(line) + rest), None) == Broken(NotUtf8)
    ensures '\n' !in tail && ValidUtf8(tail) && (tail == [] || exists i | 0 <= i < |tail| :: tail[i] != '\r') ==>
              ReadFrom(AllEnded(lines) + tail, None) == EndOfInput
  {
    hide ReadFrom, ParseLength, GivesLength, Ended, IsText, ValidUtf8;
    EitherLength(lines, Ended(line) + rest);
    EitherLength(lines, tail);
    forall length ensures !ValidUtf8(line.text) ==> ReadFrom(Ended(line) + rest, length) == Broken(NotUtf8) {
      OneLine(line, rest, length);
    }
    if '\n' !in tail && ValidUtf8(tail) && (tail == [] || exists i | 0 <= i < |tail| :: tail[i] != '\r') {
      forall length ensures ReadFrom(tail, length) == EndOfInput { UnendedLine(tail, length); }
    }
  }

  lemma {:induction false} EitherLength(lines: seq<Line>, rest: ByteString)
    requires AreHeaders(lines)
    ensures exists length :: ReadFrom(AllEnded(lines) + rest, None) == ReadFrom(rest, length)
  {
    hide ReadFrom, ParseLength, GivesLength, Ended, IsText, ValidUtf8;
    ManyLines(lines, rest, None);
    if exists i, value :: 0 <= i < |lines| && GivesLength(lines[i].text, value) {
      LastOne(lines);
    }
  }

  lemma {:induction false} LastOne(lines: seq<Line>)
    requires exists i, value :: 0 <= i < |lines| && GivesLength(lines[i].text, value)
    ensures exists k: nat, value :: GivesLast(lines, k, value)
  {
    hide GivesLength;
    var n := |lines| - 1;
    if value :| GivesLength(lines[n].text, value) {
      assert GivesLast(lines, n, value);
    } else {
      var init := lines[..n];
      var i, value :| 0 <= i < |lines| && GivesLength(lines[i].text, value);
      assert init[i] == lines[i];
      LastOne(init);
      var k: nat, v :| GivesLast(init, k, v);
      assert forall j | 0 <= j < n :: init[j] == lines[j];
      assert GivesLast(lines, k, v);
    }
  }

  lemma {:induction false} NotAllReturns(s: ByteString, i: nat)
    requires i < |s| && s[i] != '\r' && s[i] != '\n'
    ensures TrimNewlines(s) != []
  {
    if s[|s| - 1] == CR || s[|s| - 1] == LF { NotAllReturns(s[..|s| - 1], i); }
  }

  lemma {:induction false} WholeLine(s: ByteString)
    requires '\n' !in s
    ensures LineEnd(s) == |s|
  {
    if s != [] { WholeLine(s[1..]); }
  }

  lemma {:induction false} UnendedLine(tail: ByteString, length: Option<nat>)
    requires '\n' !in tail && ValidUtf8(tail) && (tail == [] || exists i | 0 <= i < |tail| :: tail[i] != '\r')
    ensures ReadFrom(tail, length) == EndOfInput
  {
    hide ValidUtf8, HeaderLength, TrimNewlines;
    WholeLine(tail);
    if tail != [] {
      var i :| 0 <= i < |tail| && tail[i] != '\r';
      NotAllReturns(tail, i);
      assert tail[..|tail|] == tail && tail[|tail|..] == [];
    }
  }
}
