/** What the removal of a projection means to a reader that knows about
    strings. */
module StringAwareRemoval {
  import opened Text
  import opened Documents
  import opened Projections
  import opened ProjectionRemoval
  import opened CommentCut

  /** The segments of a line whose comment starts at the first `//` outside a
      string. */
  function AwareSegments(line: string): seq<string> {
    var code := Trim(StringAwareCode(line));
    if "use " <= code then TrimAll(Pieces(NEUTRAL, [], code[4..])) else []
  }

  predicate AwareCarries(piece: Piece, owner: string, projection: string) {
    piece.role == Member(owner, "use") && AnyNamed(AwareSegments(piece.text), projection)
  }

  lemma {:induction false} UnquotedReadsAlike(line: string)
    requires Unquoted(line)
    ensures AwareSegments(line) == Segments(line)
  {
    CutIsAwareIffNotQuoted(line);
    BodyOf(line);
  }

  // ---- an unquoted line stays unquoted ----

  lemma {:induction false} PiecesEndUnquoted(st: Scan, head: string, rest: string)
    requires Run(NEUTRAL, head) == st && Sane(st) && !Run(st, rest).quoted
    ensures forall i | 0 <= i < |Pieces(st, head, rest)| :: !Run(NEUTRAL, Pieces(st, head, rest)[i]).quoted
    decreases |rest|
  {
    if rest != [] {
      if Cuts(st, rest[0]) {
        assert Step(st, rest[0]) == st == NEUTRAL;
        PiecesEndUnquoted(NEUTRAL, [], rest[1..]);
      } else {
        RunAppend(NEUTRAL, head, [rest[0]]);
        RunSingle(st, rest[0]);
        PiecesEndUnquoted(Step(st, rest[0]), head + [rest[0]], rest[1..]);
      }
    }
  }

  lemma {:induction false} RunSingle(st: Scan, c: char)
    ensures Run(st, [c]) == Step(st, c)
    ensures Sane(st) ==> Sane(Step(st, c))
  {
    assert [c][1..] == [];
  }

  lemma {:induction false} TrimQuoted(s: string)
    ensures Run(NEUTRAL, Trim(s)).quoted == Run(NEUTRAL, s).quoted
  {
    hide Run, Trim;
    var before, after := TrimTakesBlanks(s);
    RunAppend(NEUTRAL, before + Trim(s), after);
    RunAppend(NEUTRAL, before, Trim(s));
    BlankRun(NEUTRAL, before);
    BlankRun(Run(NEUTRAL, Trim(s)), after);
  }

  lemma {:induction false} PlainStep(c: char, s: string)
    requires c != '"' && c != '(' && c != '[' && c != ')' && c != ']'
    ensures Run(NEUTRAL, [c] + s) == Run(NEUTRAL, s)
  {
    assert ([c] + s)[1..] == s;
  }

  lemma {:induction false} UseRuns(s: string)
    ensures Run(NEUTRAL, "use " + s) == Run(NEUTRAL, s)
  {
    hide Run;
    assert "use " + s == ['u'] + (['s'] + (['e'] + ([' '] + s)));
    PlainStep('u', ['s'] + (['e'] + ([' '] + s)));
    PlainStep('s', ['e'] + ([' '] + s));
    PlainStep('e', [' '] + s);
    PlainStep(' ', s);
  }

  lemma {:induction false} SegmentsEndUnquoted(code: string)
    requires !Run(NEUTRAL, code).quoted && CodeOf(code) == code
    ensures forall i | 0 <= i < |Segments(code)| :: !Run(NEUTRAL, Segments(code)[i]).quoted
  {
    BodyOf(code);
    hide Segments, CodeOf, Run, Pieces, Trim;
    TrimQuoted(code);
    if "use " <= Trim(code) {
      var body := Trim(code)[4..];
      assert Trim(code) == "use " + body;
      UseRuns(body);
      NothingRuns();
      PiecesEndUnquoted(NEUTRAL, [], body);
      var parts := Pieces(NEUTRAL, [], body);
      forall i | 0 <= i < |parts| ensures !Run(NEUTRAL, TrimAll(parts)[i]).quoted {
        TrimQuoted(parts[i]);
      }
    }
  }

  lemma {:induction false} NothingRuns()
    ensures Run(NEUTRAL, []) == NEUTRAL && Sane(NEUTRAL)
  {
  }

  lemma {:induction false} JoinRuns(parts: seq<string>)
    requires parts != [] && Shaped(parts)
    ensures Run(NEUTRAL, Join(parts, ", ")) == Run(NEUTRAL, parts[|parts| - 1])
  {
    hide Run, Join;
    JoinFirst(parts, ", ");
    if |parts| > 1 {
      var rest := parts[1..];
      ShapedRest(parts);
      JoinRuns(rest);
      SeparatorRuns(Join(rest, ", "));
      RunAppend(NEUTRAL, parts[0], ", " + Join(rest, ", "));
      Assoc(parts[0], ", ", Join(rest, ", "));
    }
  }

  lemma {:induction false} ShapedRest(parts: seq<string>)
    requires |parts| > 1 && Shaped(parts)
    ensures Shaped(parts[1..]) && Run(NEUTRAL, parts[0]) == NEUTRAL
  {
    hide Run, NoCut;
    assert forall i | 0 <= i < |parts[1..]| :: parts[1..][i] == parts[i + 1];
  }

  lemma {:induction false} SeparatorRuns(s: string)
    ensures Run(NEUTRAL, ", " + s) == Run(NEUTRAL, s)
  {
    hide Run;
    assert ", " + s == [','] + ([' '] + s);
    PlainStep(',', [' '] + s);
    PlainStep(' ', s);
  }

  /** A line's code and comment, newline or not. */
  lemma {:induction false} CodesAgree(original: string)
    ensures
      var p := PartsOf(original);
      (p.comment == [] <==> CodeOf(original) == original)
      && (p.comment != [] ==>
            CodeOf(original) == p.code
            && original == p.code + p.comment + original[|WithoutNewline(original)|..])
  {
    hide CodeOf, WithoutNewline;
    var line := WithoutNewline(original);
    var tail := original[|line|..];
    assert original == line + tail;
    if CodeOf(line) == line {
      NewlineMakesNoComment(line, tail);
      CodeIs(original, []);
      assert original + [] == original;
    } else {
      SlashesAt(line, |CodeOf(line)|);
      SameCode(line, original, |line|);
      assert original[..|line|] == line[..|line|];
    }
  }

  lemma {:induction false} LineIsUnquoted(line: string, code: string)
    requires CodeOf(line) == code && !Run(NEUTRAL, code).quoted
    ensures Unquoted(line)
  {
  }

  lemma {:induction false} BlankIsUnquoted(blanks: string)
    requires Blank(blanks)
    ensures !Run(NEUTRAL, blanks).quoted
  {
    BlankRun(NEUTRAL, blanks);
  }

  /** The code of a rewritten `use` line ends in the state its last segment ends
      in. */
  lemma {:induction false} LaidOutRuns(indent: string, retained: seq<string>)
    requires Blank(indent) && retained != [] && Shaped(retained)
    ensures Run(NEUTRAL, indent + "use " + Join(retained, ", ") + " ").quoted
            == Run(NEUTRAL, retained[|retained| - 1]).quoted
  {
    hide Run, Join, Shaped;
    var joined := Join(retained, ", ");
    JoinRuns(retained);
    UseRuns(joined);
    BlankRun(NEUTRAL, indent);
    RunAppend(NEUTRAL, indent, "use " + joined);
    Assoc(indent, "use ", joined);
    RunAppend(NEUTRAL, indent + "use " + joined, " ");
    assert Blank(" ");
    BlankRun(Run(NEUTRAL, indent + "use " + joined), " ");
  }

  /** A rewritten line with a comment is unquoted when its last segment does not
      end in a string. */
  lemma {:induction false} RewrittenUnquotedWhen(original: string, projection: string)
    requires PartsOf(original).comment != []
    requires
      var retained := Without(Segments(original), projection);
      retained != [] ==> !Run(NEUTRAL, retained[|retained| - 1]).quoted
    ensures Unquoted(Replacement(original, projection))
  {
    hide *;
    var p := PartsOf(original);
    var indent, retained := IndentOf(p.code), Without(Segments(original), projection);
    SegmentsOfLine(original);
    ReplacementIs(original, projection);
    if retained == [] {
      CommentOnly(indent, p.comment, p.newline);
      BlankIsUnquoted(indent);
      LineIsUnquoted(Replacement(original, projection), indent);
    } else {
      SegmentsAreShaped(original);
      ShapedWithout(Segments(original), projection);
      JoinHasNoComment(retained);
      SpacedCode(indent, Join(retained, ", "), p.comment, p.newline);
      LaidOutRuns(indent, retained);
      LineIsUnquoted(Replacement(original, projection), indent + "use " + Join(retained, ", ") + " ");
    }
  }

  lemma {:induction false} SpacedCode(indent: string, joined: string, comment: string, newline: string)
    requires Blank(indent) && NoComment(joined) && "//" <= comment
    ensures CodeOf(indent + "use " + joined + (" " + comment) + newline) == indent + "use " + joined + " "
  {
    hide CodeOf, NoComment;
    SpacedComment(indent + "use " + joined, comment, newline);
    assert Blank(" ");
    CodeOfUse(indent, joined, " ", comment + newline);
  }

  lemma {:induction false} ReplacementIs(original: string, projection: string)
    requires PartsOf(original).comment != []
    ensures
      var p := PartsOf(original);
      var indent, retained := IndentOf(p.code), Without(Segments(original), projection);
      Replacement(original, projection)
      == if retained == [] then indent + p.comment + p.newline
         else indent + "use " + Join(retained, ", ") + (" " + p.comment) + p.newline
  {
    hide Segments, Without, Join, PartsOf, IndentOf;
    SegmentsOfLine(original);
  }

  lemma {:induction false} RewrittenStaysUnquoted(original: string, projection: string)
    requires Unquoted(original)
    ensures Unquoted(Replacement(original, projection))
  {
    hide Run, CodeOf, Segments, Without, Join, Replacement, PartsOf;
    var p := PartsOf(original);
    CodesAgree(original);
    if p.comment == [] {
      NoCommentStays(original, projection);
    } else {
      SegmentsOfLine(original);
      CodeOfCode(p.code);
      SegmentsEndUnquoted(p.code);
      RewrittenUnquotedWhen(original, projection);
    }
  }

  lemma {:induction false} CodeOfCode(code: string)
    requires NoComment(code)
    ensures CodeOf(code) == code
  {
    CodeIs(code, []);
    assert code + [] == code;
  }

  lemma {:induction false} NoCommentStays(original: string, projection: string)
    requires PartsOf(original).comment == []
    ensures CodeOf(Replacement(original, projection)) == Replacement(original, projection)
  {
    hide CodeOf, Join, Shaped, PartsOf, IndentOf, NoComment, Segments;
    var p := PartsOf(original);
    var indent, retained := IndentOf(p.code), Without(Segments(p.code), projection);
    SegmentsAreShaped(p.code);
    ShapedWithout(Segments(p.code), projection);
    JoinHasNoComment(retained);
    if retained == [] {
      CodeOfCode([]) by { assert NoComment([]) by { NothingHasNoComment(); } }
    } else {
      CodeOfUse(indent, Join(retained, ", "), p.newline, []);
      var start := indent + "use " + Join(retained, ", ");
      assert start + [] == start && start + p.newline + [] == start + p.newline;
    }
  }

  lemma {:induction false} NothingHasNoComment()
    ensures NoComment([])
  {
  }

  /** A member whose first `//` is not quoted is rewritten into one whose first
      `//` is not quoted, and whose string-aware segments are the retained ones
      of its own. */
  lemma {:induction false} RewrittenReadsAware(original: string, projection: string)
    requires Unquoted(original)
    ensures Unquoted(Replacement(original, projection))
    ensures
      var retained := Without(AwareSegments(original), projection);
      AwareSegments(Replacement(original, projection)) == if retained == [""] then [] else retained
  {
    hide *;
    RewrittenStaysUnquoted(original, projection);
    UnquotedReadsAlike(original);
    UnquotedReadsAlike(Replacement(original, projection));
    ReplacementSegments(original, projection);
  }

  // ---- where the first `//` is quoted ----

  lemma {:induction false} PiecesOn(st: Scan, head: string, u: string, v: string)
    requires Sane(st)
    ensures
      var parts := Pieces(st, head, u);
      Pieces(st, head, u + v) == AllButLast(parts) + Pieces(Run(st, u), parts[|parts| - 1], v)
    decreases |u|
  {
    if u == [] {
      assert u + v == v;
      assert AllButLast([head]) == [];
      assert [] + Pieces(st, head, v) == Pieces(st, head, v);
    } else {
      assert (u + v)[0] == u[0] && (u + v)[1..] == u[1..] + v;
      RunSingle(st, u[0]);
      if Cuts(st, u[0]) {
        assert Step(st, u[0]) == st;
        PiecesOn(st, [], u[1..], v);
        var rest := Pieces(st, [], u[1..]);
        AllButLastCons(head, rest);
        Assoc([head], AllButLast(rest), Pieces(Run(st, u), rest[|rest| - 1], v));
      } else {
        PiecesOn(Step(st, u[0]), head + [u[0]], u[1..], v);
      }
    }
  }

  lemma {:induction false} AllButLastCons(head: string, rest: seq<string>)
    requires rest != []
    ensures AllButLast([head] + rest) == [head] + AllButLast(rest)
    ensures ([head] + rest)[|[head] + rest| - 1] == rest[|rest| - 1]
  {
  }

  /** What has been read before only shows in the first piece. */
  lemma {:induction false} PiecesHead(st: Scan, head: string, more: string, rest: string)
    ensures
      var parts := Pieces(st, more, rest);
      Pieces(st, head + more, rest) == [head + parts[0]] + parts[1..]
    decreases |rest|
  {
    if rest != [] && !Cuts(st, rest[0]) {
      PiecesHead(Step(st, rest[0]), head, more + [rest[0]], rest[1..]);
      Assoc(head, more, [rest[0]]);
    }
  }

  lemma {:induction false} TrimAllParts(a: seq<string>, b: seq<string>)
    ensures TrimAll(a + b) == TrimAll(a) + TrimAll(b)
  {
    hide Trim;
  }

  lemma {:induction false} TrimAllButLast(parts: seq<string>)
    requires parts != []
    ensures TrimAll(AllButLast(parts)) == AllButLast(TrimAll(parts))
  {
    hide Trim;
  }

  /** The segments behind the one the comment cut ran into. */
  function Behind(st: Scan, text: string): seq<string> {
    TrimAll(Pieces(st, [], Upto(st, text))[1..])
  }

  /** How far the piece goes that the comment cut ran into. */
  function Beyond(st: Scan, text: string): string {
    Pieces(st, [], Upto(st, text))[0]
  }

  lemma {:induction false} QuotedIsInk(s: string)
    requires Run(NEUTRAL, s).quoted
    ensures !Blank(s)
  {
    if Blank(s) { BlankRun(NEUTRAL, s); }
  }

  lemma {:induction false} InkStays(s: string, t: string)
    requires !Blank(s)
    ensures !Blank(s + t)
  {
    var k :| 0 <= k < |s| && !IsSpace(s[k]);
    assert (s + t)[k] == s[k];
  }

  /** Behind `B`, which ends in a string, the two readers differ. */
  lemma {:induction false} QuotedLayout(lead: string, body: string, text: string)
    requires Blank(lead) && NoComment(lead + "use " + body) && Run(NEUTRAL, body).quoted
    requires "//" <= text && body[|body| - 1] != '/'
    ensures
      var line, st, parts := lead + "use " + body + text, Run(NEUTRAL, body), Pieces(NEUTRAL, [], body);
      Segments(line) == TrimAll(parts)
      && AwareSegments(line)
         == AllButLast(TrimAll(parts)) + [Trim(parts[|parts| - 1] + Beyond(st, text))] + Behind(st, text)
  {
    hide Pieces, Run, TrimAll, Trim, CutFrom, CodeOf, Segments, AwareSegments, StringAwareCode;
    var code := lead + "use " + body;
    var line, st, parts := code + text, Run(NEUTRAL, body), Pieces(NEUTRAL, [], body);
    var rest := Upto(st, text);
    CodeIs(code, text);
    CodeRuns(lead, body);
    AwareCodeIs(line, code, text, st);
    QuotedIsInk(body);
    InkStays(body, rest);
    NothingAfter(lead + "use " + body);
    NothingAfter(lead + "use " + (body + rest));
    UseBody(lead, body, []);
    UseBody(lead, body + rest, []);
    Assoc(lead + "use ", body, rest);
    BodyOf(line);
    AwareBodyOf(line);
    NothingRuns();
    PiecesOn(NEUTRAL, [], body, rest);
    BeyondBehind(parts, st, text);
  }

  lemma {:induction false} NothingAfter(s: string)
    ensures s + [] == s && Blank([])
  {
  }

  lemma {:induction false} AwareBodyOf(line: string)
    ensures
      var code := Trim(StringAwareCode(line));
      AwareSegments(line) == if "use " <= code then TrimAll(Pieces(NEUTRAL, [], code[4..])) else []
  {
  }

  lemma {:induction false} BeyondBehind(parts: seq<string>, st: Scan, text: string)
    requires parts != []
    ensures TrimAll(AllButLast(parts) + Pieces(st, parts[|parts| - 1], Upto(st, text)))
            == AllButLast(TrimAll(parts)) + [Trim(parts[|parts| - 1] + Beyond(st, text))] + Behind(st, text)
  {
    hide Pieces, Trim, Upto, TrimAll;
    var last, rest := parts[|parts| - 1], Upto(st, text);
    var on := Pieces(st, [], rest);
    PiecesHead(st, last, [], rest);
    assert last + [] == last;
    TrimAllParts(AllButLast(parts), [last + on[0]] + on[1..]);
    TrimAllParts([last + on[0]], on[1..]);
    TrimAllOne(last + on[0]);
    TrimAllButLast(parts);
    Assoc(AllButLast(TrimAll(parts)), [Trim(last + on[0])], TrimAll(on[1..]));
  }

  lemma {:induction false} CodeRuns(lead: string, body: string)
    requires Blank(lead)
    ensures Run(NEUTRAL, lead + "use " + body) == Run(NEUTRAL, body)
  {
    hide Run;
    BlankRun(NEUTRAL, lead);
    RunAppend(NEUTRAL, lead, "use " + body);
    Assoc(lead, "use ", body);
    UseRuns(body);
  }

  lemma {:induction false} AwareCodeIs(line: string, code: string, text: string, st: Scan)
    requires line == code + text && CodeOf(line) == code && Run(NEUTRAL, code) == st
    ensures StringAwareCode(line) == code + Upto(st, text)
  {
    hide CodeOf, Run, CutFrom;
    assert line[..0] == [];
    NothingRuns();
    CutFromReaches(line, 0, code);
    CutFromTail(code, text, st, 0);
    assert line[..|code| + |Upto(st, text)|] == code + Upto(st, text);
  }

  // ---- the cut piece keeps its name ----

  lemma {:induction false} QuoteIn(s: string)
    requires Run(NEUTRAL, s).quoted
    ensures '"' in s
  {
    NoQuoteRun(NEUTRAL, s);
  }

  lemma {:induction false} NoQuoteRun(st: Scan, s: string)
    requires !st.quoted
    ensures '"' !in s ==> !Run(st, s).quoted
    decreases |s|
  {
    if s != [] && s[0] != '"' { NoQuoteRun(Step(st, s[0]), s[1..]); }
  }

  /** A longer text has the same name, unless there is a quote in the name. */
  lemma {:induction false} NameOfLonger(s: string, more: string, projection: string)
    requires '"' in s && '"' !in projection
    ensures ProjectionName(s) == projection <==> ProjectionName(s + more) == projection
    decreases |s|
  {
    NameCases(s);
    NameCases(s + more);
    assert (s + more)[0] == s[0];
    if s[0] != '(' && !IsSpace(s[0]) {
      assert (s + more)[1..] == s[1..] + more;
      if s[0] == '"' {
        assert '"' in ProjectionName(s) && '"' in ProjectionName(s + more);
      } else if projection != [] && projection[0] == s[0] {
        assert s == [s[0]] + s[1..] && projection == [projection[0]] + projection[1..];
        NameOfLonger(s[1..], more, projection[1..]);
      }
    }
  }

  lemma {:induction false} NameCases(s: string)
    requires s != []
    ensures ProjectionName(s) == if s[0] == '(' || IsSpace(s[0]) then [] else [s[0]] + ProjectionName(s[1..])
  {
  }

  /** The piece the cut ran into, trimmed, before and behind the cut. */
  lemma {:induction false} CutPieceName(last: string, beyond: string, projection: string)
    requires Run(NEUTRAL, last).quoted && '"' !in projection
    requires beyond != [] && !IsSpace(beyond[0])
    ensures ProjectionName(Trim(last)) == projection <==> ProjectionName(Trim(last + beyond)) == projection
  {
    hide Run, Trim, ProjectionName, IsSpace;
    TrimQuoted(last);
    QuoteIn(Trim(last));
    var more := TrimLonger(last, beyond);
    NameOfLonger(Trim(last), more, projection);
  }

  lemma {:induction false} TrimLonger(last: string, beyond: string) returns (more: string)
    requires Trim(last) != [] && beyond != [] && !IsSpace(beyond[0])
    ensures Trim(last + beyond) == Trim(last) + more
  {
    hide Trim;
    var x, y := TrimTakesBlanks(last);
    var u, v := TrimTakesBlanks(beyond);
    BlankStart(u, Trim(beyond) + v, beyond);
    more := y + Trim(beyond);
    TrimmedAround(Trim(last), y, Trim(beyond));
    assert last + beyond == x + (Trim(last) + more) + v;
    TrimIs(x, Trim(last) + more, v);
  }

  lemma {:induction false} BlankStart(u: string, rest: string, s: string)
    requires Blank(u) && s == u + rest && s != [] && !IsSpace(s[0])
    ensures u == []
  {
    assert forall k | 0 <= k < |u| :: s[k] == u[k];
  }

  lemma {:induction false} TrimmedAround(a: string, y: string, b: string)
    requires a != [] && Trimmed(a) && Trimmed(b) && b != []
    ensures Trimmed(a + (y + b))
  {
  }

  // ---- the same behind the slashes ----

  /** Blanks in a string forget at most an escape, and two slashes do too. */
  lemma {:induction false} SlashesSettle(st: Scan, other: Scan, text: string)
    requires st.quoted && other.quoted && st.depth == other.depth
    ensures Behind(st, "//" + text) == Behind(other, "//" + text)
    ensures Beyond(st, "//" + text) == Beyond(other, "//" + text)
    ensures "//" <= Beyond(st, "//" + text)
  {
    hide Trim, TrimAll;
    SlashesRead(st, text);
    SlashesRead(other, text);
  }

  lemma {:induction false} SlashStep(st: Scan, rest: string, head: string)
    requires st.quoted
    ensures
      var settled := Scan(st.depth, true, false);
      Upto(st, ['/'] + rest) == ['/'] + Upto(settled, rest)
      && Pieces(st, head, ['/'] + Upto(settled, rest)) == Pieces(settled, head + ['/'], Upto(settled, rest))
  {
    var settled := Scan(st.depth, true, false);
    var line, more := ['/'] + rest, Upto(settled, rest);
    assert Step(st, '/') == settled;
    assert CutFrom(line, st, 0) == CutFrom(line, settled, 1);
    CutFromTail(['/'], rest, settled, 0);
    assert line[..1 + |more|] == ['/'] + more;
    assert (['/'] + more)[1..] == more;
  }

  lemma {:induction false} SlashesRead(st: Scan, text: string)
    requires st.quoted
    ensures
      var settled := Scan(st.depth, true, false);
      Pieces(st, [], Upto(st, "//" + text)) == Pieces(settled, "//", Upto(settled, text))
      && Pieces(st, [], Upto(st, "//" + text))[1..] == Pieces(settled, [], Upto(settled, text))[1..]
      && "//" <= Pieces(st, [], Upto(st, "//" + text))[0]
  {
    hide Upto, Pieces;
    var settled := Scan(st.depth, true, false);
    assert "//" + text == ['/'] + (['/'] + text);
    SlashStep(st, ['/'] + text, []);
    SlashStep(settled, text, [] + ['/']);
    assert [] + ['/'] + ['/'] == "//";
    assert "//" + [] == "//";
    PiecesHead(settled, "//", [], Upto(settled, text));
  }

  lemma {:induction false} CutNewline(text: string, blanks: string, st: Scan, at: nat)
    requires Blank(blanks) && at <= |text|
    ensures
      var cut := CutFrom(text, st, at);
      CutFrom(text + blanks, st, at) == if cut < |text| then cut else |text + blanks|
    decreases |text| - at
  {
    SlashesAt(text + blanks, at);
    SlashesAt(text, at);
    assert forall k | 0 <= k < |blanks| :: blanks[k] != '/';
    assert at < |text| ==> (text + blanks)[at] == text[at];
    assert at + 1 < |text| ==> (text + blanks)[at + 1] == text[at + 1];
    assert at + 1 == |text| && blanks != [] ==> (text + blanks)[at + 1] == blanks[0];
    if at < |text| {
      if !(!st.quoted && At(text, "//", at)) { CutNewline(text, blanks, Step(st, text[at]), at + 1); }
    } else {
      CutBlanks(text, blanks, st, at);
    }
  }

  lemma {:induction false} CutBlanks(text: string, blanks: string, st: Scan, at: nat)
    requires Blank(blanks) && |text| <= at <= |text + blanks|
    ensures CutFrom(text + blanks, st, at) == |text + blanks|
    decreases |text + blanks| - at
  {
    SlashesAt(text + blanks, at);
    if at < |text + blanks| {
      assert (text + blanks)[at] == blanks[at - |text|];
      CutBlanks(text, blanks, Step(st, (text + blanks)[at]), at + 1);
    }
  }

  /** The newline does not decide what stands behind the cut. */
  lemma {:induction false} BehindIgnoresNewline(st: Scan, text: string, blanks: string)
    requires Blank(blanks)
    ensures Behind(st, text + blanks) == Behind(st, text)
    ensures Trim(Beyond(st, text + blanks)) == Trim(Beyond(st, text))
  {
    hide Trim, TrimAll, Pieces, CutFrom;
    CutNewline(text, blanks, st, 0);
    var cut := CutFrom(text, st, 0);
    if cut < |text| {
      assert (text + blanks)[..cut] == text[..cut];
    } else {
      assert (text + blanks)[..|text + blanks|] == text + blanks && text[..|text|] == text;
      TrailingBlank(st, [], text, blanks);
      TrimAllTail(Pieces(st, [], text + blanks));
      TrimAllTail(Pieces(st, [], text));
      assert TrimAll(Pieces(st, [], text + blanks))[0] == TrimAll(Pieces(st, [], text))[0];
    }
  }

  lemma {:induction false} TrimAllTail(parts: seq<string>)
    requires parts != []
    ensures TrimAll(parts[1..]) == TrimAll(parts)[1..]
  {
    hide Trim;
  }

  // ---- exactly when nothing of the projection is left ----

  predicate LastNamed(segments: seq<string>, projection: string) {
    segments != [] && ProjectionName(segments[|segments| - 1]) == projection
  }

  /** The string-aware segments behind the one that the comment cut runs into. */
  function BehindCut(line: string): seq<string> {
    if |Segments(line)| <= |AwareSegments(line)| then AwareSegments(line)[|Segments(line)|..] else []
  }

  lemma {:induction false} NamedAppend(a: seq<string>, b: seq<string>, projection: string)
    ensures AnyNamed(a + b, projection) <==> AnyNamed(a, projection) || AnyNamed(b, projection)
  {
    hide ProjectionName;
    var all := a + b;
    assert forall i | 0 <= i < |a| :: all[i] == a[i];
    assert forall i | 0 <= i < |b| :: all[|a| + i] == b[i];
    if AnyNamed(a, projection) {
      var i :| 0 <= i < |a| && ProjectionName(a[i]) == projection;
      assert ProjectionName(all[i]) == projection;
    }
    if AnyNamed(b, projection) {
      var i :| 0 <= i < |b| && ProjectionName(b[i]) == projection;
      assert ProjectionName(all[|a| + i]) == projection;
    }
    if AnyNamed(all, projection) {
      var i :| 0 <= i < |all| && ProjectionName(all[i]) == projection;
      if i < |a| {
        assert ProjectionName(a[i]) == projection;
      } else {
        assert all[i] == b[i - |a|];
        assert ProjectionName(b[i - |a|]) == projection;
      }
    }
  }

  lemma {:induction false} NamedOne(s: string, projection: string)
    ensures AnyNamed([s], projection) <==> ProjectionName(s) == projection
  {
    hide ProjectionName;
    assert [s][0] == s;
    if ProjectionName(s) == projection { assert ProjectionName([s][0]) == projection; }
  }

  lemma {:induction false} NamedLast(parts: seq<string>, projection: string)
    requires parts != []
    ensures AnyNamed(parts, projection) <==> AnyNamed(AllButLast(parts), projection) || LastNamed(parts, projection)
  {
    hide ProjectionName, AnyNamed;
    var last := parts[|parts| - 1];
    assert parts == AllButLast(parts) + [last];
    NamedAppend(AllButLast(parts), [last], projection);
    NamedOne(last, projection);
  }

  lemma {:induction false} WithoutNone(segments: seq<string>, projection: string)
    ensures !AnyNamed(Without(segments, projection), projection)
  {
    hide ProjectionName;
  }

  lemma {:induction false} WithoutKeepsLast(segments: seq<string>, projection: string)
    requires segments != [] && !LastNamed(segments, projection)
    ensures
      var retained := Without(segments, projection);
      retained != [] && retained[|retained| - 1] == segments[|segments| - 1]
  {
    hide ProjectionName;
    if |segments| > 1 {
      var rest := segments[1..];
      assert rest[|rest| - 1] == segments[|segments| - 1];
      WithoutKeepsLast(rest, projection);
    }
  }

  lemma {:induction false} WithoutDropsLast(segments: seq<string>, projection: string)
    requires Shaped(segments) && LastNamed(segments, projection)
    ensures forall i | 0 <= i < |Without(segments, projection)| ::
              !Run(NEUTRAL, Without(segments, projection)[i]).quoted
  {
    hide ProjectionName, Run, NoCut;
    var retained := Without(segments, projection);
    forall i | 0 <= i < |retained| ensures !Run(NEUTRAL, retained[i]).quoted {
      assert retained[i] in segments;
      var k :| 0 <= k < |segments| && segments[k] == retained[i];
      assert k != |segments| - 1;
    }
  }

  lemma {:induction false} BlankDepth(st: Scan, b: string)
    requires Blank(b)
    ensures Run(st, b).depth == st.depth
    decreases |b|
  {
    if b != [] { BlankDepth(Step(st, b[0]), b[1..]); }
  }

  lemma {:induction false} TrimDepth(s: string)
    ensures Run(NEUTRAL, Trim(s)).depth == Run(NEUTRAL, s).depth
  {
    hide Run, Trim;
    var before, after := TrimTakesBlanks(s);
    RunAppend(NEUTRAL, before + Trim(s), after);
    RunAppend(NEUTRAL, before, Trim(s));
    BlankRun(NEUTRAL, before);
    BlankDepth(Run(NEUTRAL, Trim(s)), after);
  }

  lemma {:induction false} LastPieceRuns(st: Scan, head: string, rest: string)
    requires Run(NEUTRAL, head) == st && Sane(st)
    ensures
      var parts := Pieces(st, head, rest);
      Run(NEUTRAL, parts[|parts| - 1]) == Run(st, rest)
    decreases |rest|
  {
    if rest != [] {
      if Cuts(st, rest[0]) {
        assert Step(st, rest[0]) == st == NEUTRAL;
        LastPieceRuns(NEUTRAL, [], rest[1..]);
      } else {
        RunAppend(NEUTRAL, head, [rest[0]]);
        RunSingle(st, rest[0]);
        LastPieceRuns(Step(st, rest[0]), head + [rest[0]], rest[1..]);
      }
    }
  }

  /** The last segment of a body ends in the state the body ends in, but for an
      escape. */
  lemma {:induction false} LastSegmentRuns(body: string)
    ensures
      var segments := TrimAll(Pieces(NEUTRAL, [], body));
      var last := Run(NEUTRAL, segments[|segments| - 1]);
      last.depth == Run(NEUTRAL, body).depth && last.quoted == Run(NEUTRAL, body).quoted
    ensures
      var parts := Pieces(NEUTRAL, [], body);
      Run(NEUTRAL, parts[|parts| - 1]).quoted == Run(NEUTRAL, body).quoted
  {
    hide Run, Pieces, Trim;
    NothingRuns();
    LastPieceRuns(NEUTRAL, [], body);
    var parts := Pieces(NEUTRAL, [], body);
    TrimDepth(parts[|parts| - 1]);
    TrimQuoted(parts[|parts| - 1]);
  }

  /** Reading a quoted line both ways. */
  lemma {:induction false} QuotedNames(lead: string, body: string, text: string, projection: string)
    requires Blank(lead) && NoComment(lead + "use " + body) && Run(NEUTRAL, body).quoted
    requires "//" <= text && body[|body| - 1] != '/' && '"' !in projection
    ensures
      var line, st := lead + "use " + body + text, Run(NEUTRAL, body);
      Segments(line) != [] && |Segments(line)| <= |AwareSegments(line)|
      && BehindCut(line) == Behind(st, text)
      && (AnyNamed(AwareSegments(line), projection)
          <==> AnyNamed(Segments(line), projection) || AnyNamed(Behind(st, text), projection))
  {
    hide *;
    var line, st, parts := lead + "use " + body + text, Run(NEUTRAL, body), Pieces(NEUTRAL, [], body);
    QuotedLayout(lead, body, text);
    LastSegmentRuns(body);
    assert text == "//" + text[2..];
    SlashesSettle(st, st, text[2..]);
    SlashIsInk(Beyond(st, text));
    var last, segments := parts[|parts| - 1], TrimAll(parts);
    var cut := Trim(last + Beyond(st, text));
    CutPieceName(last, Beyond(st, text), projection);
    assert segments[|segments| - 1] == Trim(last);
    LastIs(segments, projection);
    NamedAppend(AllButLast(segments) + [cut], Behind(st, text), projection);
    NamedAppend(AllButLast(segments), [cut], projection);
    NamedOne(cut, projection);
    NamedLast(segments, projection);
    BehindIs(line, AllButLast(segments) + [cut], Behind(st, text));
  }

  lemma {:induction false} SlashIsInk(s: string)
    requires "//" <= s
    ensures s != [] && !IsSpace(s[0])
  {
    assert s[0] == '/';
  }

  lemma {:induction false} LastIs(segments: seq<string>, projection: string)
    requires segments != []
    ensures LastNamed(segments, projection) <==> ProjectionName(segments[|segments| - 1]) == projection
    ensures |AllButLast(segments)| == |segments| - 1
  {
    hide ProjectionName;
  }

  lemma {:induction false} BehindIs(line: string, upTo: seq<string>, behind: seq<string>)
    requires AwareSegments(line) == upTo + behind && |upTo| == |Segments(line)|
    ensures BehindCut(line) == behind && |Segments(line)| <= |AwareSegments(line)|
  {
    hide AwareSegments, Segments;
  }

  /** A `use` line with a comment, as the parts the removal sees. */
  lemma {:induction false} LayoutOf(original: string) returns (lead: string, body: string)
    requires !Unquoted(original) && Segments(original) != []
    ensures
      var p := PartsOf(original);
      var tail := original[|WithoutNewline(original)|..];
      original == lead + "use " + body + (p.comment + tail) && p.code == lead + "use " + body
      && Blank(lead) && NoComment(p.code) && Run(NEUTRAL, body).quoted && p.comment != []
      && body[|body| - 1] != '/' && Blank(tail)
  {
    hide CodeOf, Run, Pieces, TrimAll, Segments, Trim, WithoutNewline, PartsOf, NoComment;
    var p := PartsOf(original);
    CodesAgree(original);
    BodyOf(original);
    var x, y := TrimTakesBlanks(p.code);
    var core := Trim(p.code);
    lead, body := x, core[4..] + y;
    assert core == "use " + core[4..];
    UseParts(x, core[4..], y);
    CodeRuns(lead, body);
    NothingRuns();
    assert body != [];
    SlashesEnd(original, p.code);
    assert p.code[|p.code| - 1] == body[|body| - 1];
    Assoc(p.code, p.comment, original[|WithoutNewline(original)|..]);
  }

  lemma {:induction false} UseParts(x: string, rest: string, y: string)
    ensures x + ("use " + rest) + y == x + "use " + (rest + y)
  {
  }

  /** The line written back for a quoted one whose cut segment stays. */
  lemma {:induction false} QuotedRewrite(original: string, lead: string, body: string, projection: string)
    requires
      var p := PartsOf(original);
      p.code == lead + "use " + body && Run(NEUTRAL, body).quoted && p.comment != []
    requires Segments(original) == TrimAll(Pieces(NEUTRAL, [], body))
    requires !LastNamed(Segments(original), projection) && '"' !in projection
    ensures AnyNamed(AwareSegments(Replacement(original, projection)), projection)
            <==> AnyNamed(Behind(Run(NEUTRAL, body), PartsOf(original).comment), projection)
  {
    hide *;
    var p, retained := PartsOf(original), Without(Segments(original), projection);
    var spaced := Join(retained, ", ") + " ";
    WithoutKeepsLast(Segments(original), projection);
    SegmentsAreShaped(original);
    ShapedWithout(Segments(original), projection);
    LastSegmentRuns(body);
    SpacedRuns(retained);
    RewriteNames(original, projection);
    SameBehind(Run(NEUTRAL, body), Run(NEUTRAL, spaced), p.comment, p.newline);
  }

  lemma {:induction false} SameBehind(st: Scan, other: Scan, comment: string, newline: string)
    requires st.quoted && other.quoted && st.depth == other.depth
    requires "//" <= comment && Blank(newline)
    ensures Behind(other, comment + newline) == Behind(st, comment)
  {
    hide *;
    var x := comment[2..];
    assert comment == "//" + x;
    Assoc("//", x, newline);
    SlashesSettle(st, other, x + newline);
    BehindIgnoresNewline(st, comment, newline);
  }

  lemma {:induction false} RewriteNames(original: string, projection: string)
    requires
      var p, retained := PartsOf(original), Without(Segments(original), projection);
      p.comment != [] && retained != [] && Run(NEUTRAL, retained[|retained| - 1]).quoted
    requires '"' !in projection
    ensures
      var p, retained := PartsOf(original), Without(Segments(original), projection);
      AnyNamed(AwareSegments(Replacement(original, projection)), projection)
      <==> AnyNamed(Behind(Run(NEUTRAL, Join(retained, ", ") + " "), p.comment + p.newline), projection)
  {
    hide *;
    var p, retained := PartsOf(original), Without(Segments(original), projection);
    var indent, joined := IndentOf(p.code), Join(retained, ", ");
    ReplacementIs(original, projection);
    SegmentsAreShaped(original);
    ShapedWithout(Segments(original), projection);
    JoinHasNoComment(retained);
    SpacedRuns(retained);
    SpacedCode(indent, joined, p.comment, p.newline);
    SpacedIs(indent, joined, p.comment, p.newline);
    Assoc(indent + "use ", joined, " ");
    EndsInBlank(joined);
    QuotedNames(indent, joined + " ", p.comment + p.newline, projection);
    NamedRetained(original, projection);
  }

  lemma {:induction false} NothingIsNamed(projection: string)
    ensures !AnyNamed([], projection)
  {
  }

  lemma {:induction false} EndsInBlank(joined: string)
    ensures (joined + " ")[|joined + " "| - 1] != '/'
  {
  }

  lemma {:induction false} SpacedIs(indent: string, joined: string, comment: string, newline: string)
    requires "//" <= comment
    ensures indent + "use " + joined + (" " + comment) + newline
            == indent + "use " + (joined + " ") + (comment + newline)
    ensures "//" <= comment + newline
  {
    SpacedComment(indent + "use " + joined, comment, newline);
    Assoc(indent + "use ", joined, " ");
  }

  /** Joined segments and a blank end as deep as the last segment does. */
  lemma {:induction false} SpacedRuns(retained: seq<string>)
    requires retained != [] && Shaped(retained)
    ensures
      var spaced, last := Run(NEUTRAL, Join(retained, ", ") + " "), Run(NEUTRAL, retained[|retained| - 1]);
      spaced.depth == last.depth && spaced.quoted == last.quoted
  {
    hide Run, Join, Shaped;
    JoinRuns(retained);
    RunAppend(NEUTRAL, Join(retained, ", "), " ");
    assert Blank(" ");
    BlankDepth(Run(NEUTRAL, Join(retained, ", ")), " ");
    BlankRun(Run(NEUTRAL, Join(retained, ", ")), " ");
  }

  lemma {:induction false} NamedRetained(original: string, projection: string)
    ensures !AnyNamed(Segments(Replacement(original, projection)), projection)
  {
    hide *;
    ReplacementSegments(original, projection);
    WithoutNone(Segments(original), projection);
    NothingIsNamed(projection);
  }

  /** Nothing of the projection is left for a string-aware reader exactly when
      the first `//` of the member is not quoted, or the segment it cuts is the
      projection itself, or no segment behind that one is. */
  lemma {:induction false} StripLeavesNoneIff(piece: Piece, owner: string, projection: string)
    requires piece.role == Member(owner, "use") && '"' !in projection
    ensures !AwareCarries(Strip(piece, owner, projection), owner, projection)
            <==> Unquoted(piece.text) || LastNamed(Segments(piece.text), projection)
                 || !AnyNamed(BehindCut(piece.text), projection)
  {
    hide *;
    StripCases(piece, owner, projection);
    if Unquoted(piece.text) {
      RewrittenStaysUnquoted(piece.text, projection);
      UnquotedReadsAlike(piece.text);
      UnquotedReadsAlike(Replacement(piece.text, projection));
      NamedRetained(piece.text, projection);
    } else if Segments(piece.text) == [] {
      NothingCut(piece.text, projection);
    } else {
      var lead, body := LayoutOf(piece.text);
      QuotedStrip(piece, owner, projection, lead, body);
    }
  }

  /** A line without segments, read on, is all behind the cut. */
  lemma {:induction false} NothingCut(line: string, projection: string)
    requires Segments(line) == []
    ensures BehindCut(line) == AwareSegments(line)
    ensures !LastNamed(Segments(line), projection) && !AnyNamed(Segments(line), projection)
  {
    hide AwareSegments, Segments, ProjectionName;
  }

  lemma {:induction false} StripCases(piece: Piece, owner: string, projection: string)
    requires piece.role == Member(owner, "use")
    ensures !AnyNamed(Segments(piece.text), projection) ==>
              (AwareCarries(Strip(piece, owner, projection), owner, projection)
               <==> AnyNamed(AwareSegments(piece.text), projection))
    ensures AnyNamed(Segments(piece.text), projection) ==>
              (AwareCarries(Strip(piece, owner, projection), owner, projection)
               <==> Without(Segments(piece.text), projection) != []
                    && AnyNamed(AwareSegments(Replacement(piece.text, projection)), projection))
  {
    hide AnyNamed, Segments, AwareSegments, Replacement, Without;
  }

  lemma {:induction false} QuotedStrip(piece: Piece, owner: string, projection: string, lead: string, body: string)
    requires piece.role == Member(owner, "use") && '"' !in projection
    requires
      var original := piece.text;
      var p := PartsOf(original);
      var tail := original[|WithoutNewline(original)|..];
      original == lead + "use " + body + (p.comment + tail) && p.code == lead + "use " + body
      && Blank(lead) && NoComment(p.code) && Run(NEUTRAL, body).quoted && p.comment != []
      && body[|body| - 1] != '/' && Blank(tail)
    ensures !AwareCarries(Strip(piece, owner, projection), owner, projection)
            <==> LastNamed(Segments(piece.text), projection) || !AnyNamed(BehindCut(piece.text), projection)
  {
    hide *;
    var original := piece.text;
    var p := PartsOf(original);
    var tail, segments := original[|WithoutNewline(original)|..], Segments(original);
    CommentStarts(p.comment, tail);
    QuotedLayout(lead, body, p.comment + tail);
    QuotedNames(lead, body, p.comment + tail, projection);
    BehindIgnoresNewline(Run(NEUTRAL, body), p.comment, tail);
    StripCases(piece, owner, projection);
    NamedLast(segments, projection);
    if LastNamed(segments, projection) {
      SegmentsAreShaped(original);
      WithoutDropsLast(segments, projection);
      RewrittenUnquotedWhen(original, projection);
      UnquotedReadsAlike(Replacement(original, projection));
      NamedRetained(original, projection);
    } else if AnyNamed(segments, projection) {
      WithoutKeepsLast(segments, projection);
      QuotedRewrite(original, lead, body, projection);
    }
  }

  lemma {:induction false} CommentStarts(comment: string, tail: string)
    requires "//" <= comment
    ensures "//" <= comment + tail
  {
    assert (comment + tail)[..2] == comment[..2];
  }

  /** What a member must be for a removal to leave nothing of the projection. */
  predicate Removable(line: string, projection: string) {
    Unquoted(line) || LastNamed(Segments(line), projection) || !AnyNamed(BehindCut(line), projection)
  }

  /** A document from which the projection was removed holds nothing of it for a
      string-aware reader exactly when every member of the entity was
      removable. */
  lemma {:induction false} RemovalLeavesNoneIff(doc: seq<Piece>, edited: seq<Piece>, owner: string, projection: string)
    requires |edited| == |doc| && '"' !in projection
    requires forall i | 0 <= i < |doc| :: edited[i] == Strip(doc[i], owner, projection)
    ensures (forall i | 0 <= i < |doc| :: !AwareCarries(edited[i], owner, projection))
            <==> forall i | 0 <= i < |doc| && doc[i].role == Member(owner, "use") :: Removable(doc[i].text, projection)
  {
    hide *;
    forall i | 0 <= i < |doc|
      ensures doc[i].role == Member(owner, "use") ==>
                (!AwareCarries(edited[i], owner, projection) <==> Removable(doc[i].text, projection))
      ensures doc[i].role != Member(owner, "use") ==> !AwareCarries(edited[i], owner, projection)
    {
      if doc[i].role == Member(owner, "use") {
        StripLeavesNoneIff(doc[i], owner, projection);
        RemovableIs(doc[i].text, projection);
      } else {
        OthersCarryNothing(doc[i], owner, projection);
      }
    }
  }

  lemma {:induction false} RemovableIs(line: string, projection: string)
    ensures Removable(line, projection)
            <==> Unquoted(line) || LastNamed(Segments(line), projection) || !AnyNamed(BehindCut(line), projection)
  {
  }

  lemma {:induction false} OthersCarryNothing(piece: Piece, owner: string, projection: string)
    requires piece.role != Member(owner, "use")
    ensures !AwareCarries(Strip(piece, owner, projection), owner, projection)
  {
    hide AnyNamed, Segments, AwareSegments, Rewritten;
  }

  // ---- a member that is not removable ----

  lemma {:induction false} NoMoreCut(line: string, st: Scan, at: nat)
    requires at <= |line| && forall k | at <= k < |line| - 1 :: !(line[k] == '/' && line[k + 1] == '/')
    ensures CutFrom(line, st, at) == |line|
    decreases |line| - at
  {
    SlashesAt(line, at);
    if at < |line| { NoMoreCut(line, Step(st, line[at]), at + 1); }
  }

  lemma {:induction false} QuotedRun(st: Scan, s: string)
    requires st.quoted && !st.escaped && '"' !in s && '\\' !in s
    ensures Run(st, s) == st
  {
    if s != [] { QuotedRun(st, s[1..]); }
  }

  /** The state behind `scaffold(path: "`. */
  lemma {:induction false} PathState()
    ensures
      var body := "scaffold(path: \"";
      Run(NEUTRAL, body) == Scan(1, true, false) && NoCut(NEUTRAL, body)
  {
    hide Run, NoCut;
    var word, rest, body := "scaffold", "path: ", "scaffold(path: \"";
    var open := Scan(1, false, false);
    assert body == word + ("(" + (rest + "\""));
    assert NEUTRAL == Scan(0, false, false);
    LettersRun(NEUTRAL, word);
    LettersRun(open, rest);
    RunAppend(NEUTRAL, word, "(" + (rest + "\""));
    RunAppend(NEUTRAL, "(", rest + "\"");
    RunAppend(open, rest, "\"");
    RunSingle(NEUTRAL, '(');
    RunSingle(open, '"');
    NoCutOne(NEUTRAL, '(');
    NoCutOne(open, '"');
    assert Step(NEUTRAL, '(') == open && Step(open, '"') == Scan(1, true, false);
  }

  lemma {:induction false} PathOpens()
    ensures
      var body := "scaffold(path: \"";
      Run(NEUTRAL, body) == Scan(1, true, false) && Pieces(NEUTRAL, [], body) == [body]
      && Trim(body) == body && ProjectionName(body) == "scaffold" && NoComment("" + "use " + body)
  {
    hide *;
    var body := "scaffold(path: \"";
    PathState();
    PiecesNoCut(NEUTRAL, [], body);
    assert [] + body == body;
    PathIsTrimmed();
    TrimOfTrimmed(body);
    NameBefore("scaffold", "path: \"");
    assert "scaffold" + "(" + "path: \"" == body;
  }

  lemma {:induction false} PathIsTrimmed()
    ensures Trimmed("scaffold(path: \"") && NoComment("" + "use " + "scaffold(path: \"")
    ensures forall i | 0 <= i < |"scaffold"| :: "scaffold"[i] != '(' && !IsSpace("scaffold"[i])
  {
    assert '/' !in "" + "use " + "scaffold(path: \"";
  }

  lemma {:induction false} NoCutOne(st: Scan, c: char)
    requires c != ','
    ensures NoCut(st, [c])
  {
    assert [c][1..] == [];
  }

  lemma {:induction false} LettersRun(st: Scan, s: string)
    requires !st.quoted
    requires forall i | 0 <= i < |s| ::
               s[i] != ',' && s[i] != '"' && s[i] != '(' && s[i] != '[' && s[i] != ')' && s[i] != ']'
    ensures Run(st, s) == st && NoCut(st, s)
  {
    if s != [] { LettersRun(st, s[1..]); }
  }

  lemma {:induction false} NameBefore(word: string, rest: string)
    requires forall i | 0 <= i < |word| :: word[i] != '(' && !IsSpace(word[i])
    ensures ProjectionName(word + "(" + rest) == word
  {
    hide ProjectionName, IsSpace;
    NameCases(word + "(" + rest);
    if word != [] {
      assert (word + "(" + rest)[0] == word[0];
      assert (word + "(" + rest)[1..] == word[1..] + "(" + rest;
      NameBefore(word[1..], rest);
      assert word == [word[0]] + word[1..];
    } else {
      assert (word + "(" + rest)[0] == '(';
    }
  }

  /** What stands behind the path. */
  lemma {:induction false} PathCloses(path: string)
    requires '"' !in path && '\\' !in path && '/' !in path
    ensures AnyNamed(Behind(Scan(1, true, false), "//" + path + "\"), dto"), "dto")
  {
    hide Trim, Pieces, CutFrom, Run, ProjectionName;
    var st := Scan(1, true, false);
    var u, v := path + "\")", " dto";
    var text := u + "," + v;
    assert "//" + path + "\"), dto" == "//" + text;
    SlashesRead(st, text);
    assert forall k | 0 <= k < |text| - 1 :: text[k] != '/';
    NoMoreCut(text, st, 0);
    assert Upto(st, text) == text;
    QuotedRun(st, path);
    RunAppend(st, path, "\")");
    assert "\")" == ['"'] + [')'];
    RunAppend(st, ['"'], [')']);
    RunSingle(st, '"');
    RunSingle(Scan(1, false, false), ')');
    assert Run(st, u) == NEUTRAL;
    PiecesAtCut(st, [], u, v);
    var first, last := Pieces(st, [], u), Pieces(NEUTRAL, [], v);
    assert text == u + [','] + v;
    DtoIsOne();
    NamedBehind(first, " dto", "dto");
  }

  lemma {:induction false} NameWhole(word: string)
    requires forall i | 0 <= i < |word| :: word[i] != '(' && !IsSpace(word[i])
    ensures ProjectionName(word) == word
  {
    if word != [] {
      NameCases(word);
      NameWhole(word[1..]);
    }
  }

  lemma {:induction false} DtoIsOne()
    ensures Pieces(NEUTRAL, [], " dto") == [" dto"] && ProjectionName(Trim(" dto")) == "dto"
  {
    hide Run, NoCut, Pieces, Trim, ProjectionName;
    LettersRun(NEUTRAL, " dto");
    PiecesNoCut(NEUTRAL, [], " dto");
    assert [] + " dto" == " dto";
    TrimIs(" ", "dto", []) by { assert Blank(" ") && Blank([]) && Trimmed("dto"); }
    assert " " + "dto" + [] == " dto";
    NameWhole("dto");
  }

  lemma {:induction false} NamedBehind(first: seq<string>, last: string, projection: string)
    requires first != [] && ProjectionName(Trim(last)) == projection
    ensures AnyNamed(TrimAll((first + [last])[1..]), projection)
  {
    hide Trim, ProjectionName;
    var segments := TrimAll((first + [last])[1..]);
    assert (first + [last])[1..][|first| - 1] == last;
    assert ProjectionName(segments[|first| - 1]) == projection;
  }

  /** A path that opens with two slashes hides the projections behind it: the
      removal leaves the line as it is. */
  lemma {:induction false} PathHidesDto(owner: string, path: string)
    requires '"' !in path && '\\' !in path && '/' !in path
    ensures
      var piece := Piece(Member(owner, "use"), "use scaffold(path: \"" + ("//" + path + "\"), dto"));
      Strip(piece, owner, "dto") == piece && AwareCarries(piece, owner, "dto")
  {
    hide *;
    var body, text := "scaffold(path: \"", "//" + path + "\"), dto";
    var line := "use scaffold(path: \"" + text;
    var piece := Piece(Member(owner, "use"), line);
    assert "" + "use " + body == "use scaffold(path: \"";
    PathOpens();
    PathCloses(path);
    assert Blank("") by { NothingIsBlank(); }
    PathEnds(path + "\"), dto");
    assert text == "//" + (path + "\"), dto");
    QuotedNames("", body, text, "dto");
    QuotedLayout("", body, text);
    TrimAllOne(body);
    NamedOne(body, "dto");
    Unnamed(piece, owner, "dto");
  }

  lemma {:induction false} PathEnds(rest: string)
    ensures
      var body := "scaffold(path: \"";
      body[|body| - 1] != '/' && Scan(1, true, false).quoted && "//" <= "//" + rest
    ensures '"' !in "dto" && "scaffold" != "dto"
  {
    assert ("//" + rest)[..2] == "//";
  }

  lemma {:induction false} Unnamed(piece: Piece, owner: string, projection: string)
    requires piece.role == Member(owner, "use")
    requires !AnyNamed(Segments(piece.text), projection) && AnyNamed(AwareSegments(piece.text), projection)
    ensures Strip(piece, owner, projection) == piece && AwareCarries(piece, owner, projection)
  {
    hide AnyNamed, Segments, AwareSegments;
  }
}
