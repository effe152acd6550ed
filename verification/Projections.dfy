/** The projections of a `use` member: a quote- and bracket-aware comma
    splitter, and the line that is written back when one of them goes. */
module Projections {
  import opened Text

  // ---- the scanner ----

  datatype Scan = Scan(depth: nat, quoted: bool, escaped: bool)

  const NEUTRAL := Scan(0, false, false)

  function Step(st: Scan, c: char): Scan {
    if st.quoted then
      if st.escaped then st.(escaped := false)
      else if c == '\\' then st.(escaped := true)
      else if c == '"' then st.(quoted := false)
      else st
    else if c == '"' then st.(quoted := true)
    else if c == '(' || c == '[' then st.(depth := st.depth + 1)
    else if c == ')' || c == ']' then st.(depth := if st.depth == 0 then 0 else st.depth - 1)
    else st
  }

  function Run(st: Scan, s: string): Scan
    decreases |s|
  {
    if s == [] then st else Run(Step(st, s[0]), s[1..])
  }

  predicate Cuts(st: Scan, c: char) {
    !st.quoted && st.depth == 0 && c == ','
  }

  /** The pieces of `head + rest` between top-level commas, `head` having been
      scanned already; never empty. */
  function Pieces(st: Scan, head: string, rest: string): (parts: seq<string>)
    ensures parts != []
    decreases |rest|
  {
    if rest == [] then [head]
    else if Cuts(st, rest[0]) then [head] + Pieces(st, [], rest[1..])
    else Pieces(Step(st, rest[0]), head + [rest[0]], rest[1..])
  }

  predicate NoComment(s: string) {
    forall i | 0 <= i < |s| - 1 :: !(s[i] == '/' && s[i + 1] == '/')
  }

  /** Everything before the first `//`. */
  function CodeOf(line: string): (code: string)
    ensures code <= line && NoComment(code)
    ensures code != line ==> At(line, "//", |code|)
  {
    match Find(line, "//")
    case None =>
      assert forall i | 0 <= i < |line| - 1 :: line[i] == '/' && line[i + 1] == '/' ==> At(line, "//", i);
      line
    case Some(i) =>
      assert forall j | 0 <= j < i - 1 :: line[j] == '/' && line[j + 1] == '/' ==> At(line, "//", j);
      line[..i]
  }

  function Body(line: string): Option<string> {
    var code := Trim(CodeOf(line));
    if "use " <= code then Some(code[4..]) else None
  }

  /** What `projection_segments` returns. */
  function Segments(line: string): seq<string> {
    match Body(line)
    case None => []
    case Some(body) => TrimAll(Pieces(NEUTRAL, [], body))
  }

  method ProjectionSegments(line: string) returns (segments: seq<string>)
    ensures segments == Segments(line)
  {
    hide *;
    BodyOf(line);
    var code := Trim(CodeOf(line));
    if !("use " <= code) {
      return [];
    }
    var body := code[4..];
    segments := [];
    var start := 0;
    var st := NEUTRAL;
    for offset := 0 to |body|
      invariant start <= offset
      invariant segments + TrimAll(Pieces(st, body[start..offset], body[offset..]))
                == TrimAll(Pieces(NEUTRAL, [], body))
    {
      if Cuts(st, body[offset]) {
        PiecesCut(st, body, start, offset);
        Assoc(segments, [Trim(body[start..offset])],
              TrimAll(Pieces(st, body[offset + 1..offset + 1], body[offset + 1..])));
        segments := segments + [Trim(body[start..offset])];
        start := offset + 1;
      } else {
        PiecesCarry(st, body, start, offset);
        st := Step(st, body[offset]);
      }
    }
    PiecesEnd(st, body, start);
    segments := segments + [Trim(body[start..])];
  }

  lemma {:induction false} BodyOf(line: string)
    ensures
      var code := Trim(CodeOf(line));
      Segments(line) == if "use " <= code then TrimAll(Pieces(NEUTRAL, [], code[4..])) else []
  {
  }

  lemma {:induction false} TrimAllCons(head: string, rest: seq<string>)
    ensures TrimAll([head] + rest) == [Trim(head)] + TrimAll(rest)
  {
    hide Trim;
  }

  lemma {:induction false} PiecesCut(st: Scan, body: string, start: nat, at: nat)
    requires start <= at < |body| && Cuts(st, body[at])
    ensures TrimAll(Pieces(st, body[start..at], body[at..]))
            == [Trim(body[start..at])] + TrimAll(Pieces(st, body[at + 1..at + 1], body[at + 1..]))
  {
    var head, rest := body[start..at], body[at..];
    assert rest[0] == body[at] && rest[1..] == body[at + 1..];
    assert body[at + 1..at + 1] == [];
    TrimAllCons(head, Pieces(st, [], body[at + 1..]));
  }

  lemma {:induction false} PiecesCarry(st: Scan, body: string, start: nat, at: nat)
    requires start <= at < |body| && !Cuts(st, body[at])
    ensures Pieces(Step(st, body[at]), body[start..at + 1], body[at + 1..])
            == Pieces(st, body[start..at], body[at..])
  {
    var head, rest := body[start..at], body[at..];
    assert rest[0] == body[at] && rest[1..] == body[at + 1..];
    assert head + [body[at]] == body[start..at + 1];
  }

  lemma {:induction false} PiecesEnd(st: Scan, body: string, start: nat)
    requires start <= |body|
    ensures TrimAll(Pieces(st, body[start..|body|], body[|body|..])) == [Trim(body[start..])]
  {
    assert body[start..|body|] == body[start..];
    TrimAllCons(body[start..], []);
  }

  // ---- what the splitter does to concatenations ----

  /** `s`, scanned from `st`, has no top-level comma. */
  predicate NoCut(st: Scan, s: string)
    decreases |s|
  {
    s == [] || (!Cuts(st, s[0]) && NoCut(Step(st, s[0]), s[1..]))
  }

  predicate Sane(st: Scan) {
    st.escaped ==> st.quoted
  }

  lemma {:induction false} RunAppend(st: Scan, u: string, v: string)
    ensures Run(st, u + v) == Run(Run(st, u), v)
    ensures NoCut(st, u + v) <==> NoCut(st, u) && NoCut(Run(st, u), v)
    ensures Sane(st) ==> Sane(Run(st, u))
    decreases |u|
  {
    if u == [] {
      assert u + v == v;
    } else {
      assert (u + v)[1..] == u[1..] + v;
      RunAppend(Step(st, u[0]), u[1..], v);
    }
  }

  /** White space neither cuts nor changes an unquoted state. */
  lemma {:induction false} BlankRun(st: Scan, b: string)
    requires Blank(b)
    ensures NoCut(st, b) && Run(st, b).quoted == st.quoted
    ensures !st.quoted ==> Run(st, b) == st
    decreases |b|
  {
    if b != [] {
      BlankRun(Step(st, b[0]), b[1..]);
    }
  }

  lemma {:induction false} PiecesAtCut(st: Scan, head: string, u: string, v: string)
    requires Cuts(Run(st, u), ',') && Sane(st)
    ensures Pieces(st, head, u + [','] + v) == Pieces(st, head, u) + Pieces(NEUTRAL, [], v)
    decreases |u|
  {
    var whole := u + [','] + v;
    if u == [] {
      assert whole[0] == ',' && whole[1..] == v;
      assert st == NEUTRAL;
    } else {
      assert whole[0] == u[0] && whole[1..] == u[1..] + [','] + v;
      RunAppend(st, [u[0]], u[1..]);
      if Cuts(st, u[0]) {
        assert Step(st, u[0]) == st;
        PiecesAtCut(st, [], u[1..], v);
        Assoc([head], Pieces(st, [], u[1..]), Pieces(NEUTRAL, [], v));
      } else {
        PiecesAtCut(Step(st, u[0]), head + [u[0]], u[1..], v);
      }
    }
  }

  lemma {:induction false} PiecesNoCut(st: Scan, head: string, u: string)
    requires NoCut(st, u)
    ensures Pieces(st, head, u) == [head + u]
    decreases |u|
  {
    if u == [] {
      assert head + u == head;
    } else {
      PiecesNoCut(Step(st, u[0]), head + [u[0]], u[1..]);
      Assoc(head, [u[0]], u[1..]);
      assert [u[0]] + u[1..] == u;
    }
  }

  // ---- blanks at the ends do not matter ----

  lemma {:induction false} TrimIgnoresBlanks(a: string, s: string, b: string)
    requires Blank(a) && Blank(b)
    ensures Trim(a + s + b) == Trim(s)
  {
    hide Trim;
    var before, after := TrimTakesBlanks(s);
    Regroup(a, before, Trim(s), after, b);
    TrimIs(a + before, Trim(s), after + b);
  }

  lemma {:induction false} LeadingBlank(st: Scan, b: string, head: string, rest: string)
    requires Blank(b)
    ensures TrimAll(Pieces(st, b + head, rest)) == TrimAll(Pieces(st, head, rest))
    decreases |rest|
  {
    hide Trim, Step, Cuts;
    TrimIgnoresBlanks(b, head, []);
    assert b + head + [] == b + head;
    if rest == [] {
      TrimAllCons(b + head, []);
      TrimAllCons(head, []);
    } else if Cuts(st, rest[0]) {
      TrimAllCons(b + head, Pieces(st, [], rest[1..]));
      TrimAllCons(head, Pieces(st, [], rest[1..]));
    } else {
      LeadingBlank(Step(st, rest[0]), b, head + [rest[0]], rest[1..]);
      Assoc(b, head, [rest[0]]);
    }
  }

  lemma {:induction false} OnlyBlank(st: Scan, head: string, b: string)
    requires Blank(b)
    ensures TrimAll(Pieces(st, head, b)) == TrimAll(Pieces(st, head, []))
  {
    hide *;
    BlankRun(st, b);
    PiecesNoCut(st, head, b);
    NothingCuts(st);
    PiecesNoCut(st, head, []);
    assert head + [] == head;
    TrimIgnoresBlanks([], head, b) by { assert Blank([]) by { NothingIsBlank(); } }
    assert [] + head + b == head + b;
    TrimAllOne(head);
    TrimAllOne(head + b);
  }

  lemma {:induction false} NothingIsBlank()
    ensures Blank([])
  {
  }

  lemma {:induction false} NothingCuts(st: Scan)
    ensures NoCut(st, [])
  {
  }

  lemma {:induction false} TrailingBlank(st: Scan, head: string, rest: string, b: string)
    requires Blank(b)
    ensures TrimAll(Pieces(st, head, rest + b)) == TrimAll(Pieces(st, head, rest))
    decreases |rest|
  {
    if rest == [] {
      assert rest + b == b;
      OnlyBlank(st, head, b);
    } else {
      assert (rest + b)[1..] == rest[1..] + b;
      if Cuts(st, rest[0]) {
        TrailingBlank(st, [], rest[1..], b);
        TrimAllCons(head, Pieces(st, [], rest[1..] + b));
        TrimAllCons(head, Pieces(st, [], rest[1..]));
      } else {
        TrailingBlank(Step(st, rest[0]), head + [rest[0]], rest[1..], b);
      }
    }
  }

  // ---- what a segment looks like ----

  /** Every piece scans from neutral without a cut, and every piece but the
      last leaves the scanner neutral again. */
  predicate Shaped(parts: seq<string>) {
    (forall i | 0 <= i < |parts| :: NoCut(NEUTRAL, parts[i]))
    && forall i | 0 <= i < |parts| - 1 :: Run(NEUTRAL, parts[i]) == NEUTRAL
  }

  lemma {:induction false} PiecesAreShaped(st: Scan, head: string, rest: string)
    requires NoCut(NEUTRAL, head) && Run(NEUTRAL, head) == st && Sane(st)
    ensures Shaped(Pieces(st, head, rest))
    decreases |rest|
  {
    if rest == [] {
    } else if Cuts(st, rest[0]) {
      PiecesAreShaped(NEUTRAL, [], rest[1..]);
    } else {
      RunAppend(NEUTRAL, head, [rest[0]]);
      assert [rest[0]][1..] == [];
      PiecesAreShaped(Step(st, rest[0]), head + [rest[0]], rest[1..]);
    }
  }

  lemma {:induction false} TrimKeepsShape(parts: seq<string>)
    requires Shaped(parts)
    ensures Shaped(TrimAll(parts))
  {
    forall i | 0 <= i < |parts|
      ensures NoCut(NEUTRAL, Trim(parts[i]))
      ensures i < |parts| - 1 ==> Run(NEUTRAL, Trim(parts[i])) == NEUTRAL
    {
      TrimScan(parts[i]);
    }
  }

  lemma {:induction false} TrimScan(p: string)
    requires NoCut(NEUTRAL, p)
    ensures NoCut(NEUTRAL, Trim(p))
    ensures Run(NEUTRAL, p) == NEUTRAL ==> Run(NEUTRAL, Trim(p)) == NEUTRAL
  {
    var before, after := TrimTakesBlanks(p);
    BlankRun(NEUTRAL, before);
    RunAppend(NEUTRAL, before + Trim(p), after);
    RunAppend(NEUTRAL, before, Trim(p));
    BlankRun(Run(NEUTRAL, Trim(p)), after);
  }

  lemma {:induction false} PiecesHaveNoComment(st: Scan, head: string, rest: string)
    requires NoComment(head + rest)
    ensures forall i | 0 <= i < |Pieces(st, head, rest)| :: NoComment(Pieces(st, head, rest)[i])
    decreases |rest|
  {
    assert NoComment(head) by { assert forall i | 0 <= i < |head| :: head[i] == (head + rest)[i]; }
    if rest == [] {
    } else if Cuts(st, rest[0]) {
      assert NoComment([] + rest[1..]) by {
        assert forall i | 0 <= i < |rest| - 1 :: rest[1..][i] == (head + rest)[|head| + 1 + i];
      }
      PiecesHaveNoComment(st, [], rest[1..]);
    } else {
      assert head + [rest[0]] + rest[1..] == head + rest;
      PiecesHaveNoComment(Step(st, rest[0]), head + [rest[0]], rest[1..]);
    }
  }

  lemma {:induction false} NoCommentAppend(a: string, b: string)
    requires NoComment(a) && NoComment(b)
    requires a == [] || b == [] || a[|a| - 1] != '/' || b[0] != '/'
    ensures NoComment(a + b)
  {
    forall i | 0 <= i < |a + b| - 1 && (a + b)[i] == '/' ensures (a + b)[i + 1] != '/' {
      if i >= |a| { assert b[i - |a|] == '/' && (a + b)[i + 1] == b[i - |a| + 1]; }
    }
  }

  lemma {:induction false} NoCommentSlice(s: string, a: string, t: string, b: string)
    requires NoComment(s) && s == a + t + b
    ensures NoComment(t)
  {
    assert forall i | 0 <= i < |t| :: t[i] == s[|a| + i];
  }

  lemma {:induction false} SlashesAt(line: string, i: nat)
    ensures At(line, "//", i) <==> i + 1 < |line| && line[i] == '/' && line[i + 1] == '/'
  {
    if i + 1 < |line| { assert line[i..i + 2] == [line[i], line[i + 1]]; }
  }

  lemma {:induction false} CodeIs(code: string, comment: string)
    requires NoComment(code)
    requires comment != [] ==> "//" <= comment && (code == [] || code[|code| - 1] != '/')
    ensures CodeOf(code + comment) == code
  {
    var line := code + comment;
    if comment == [] {
      assert line == code;
      forall i: nat ensures !At(line, "//", i) {
        SlashesAt(line, i);
      }
    } else {
      assert line[|code|..|code| + 2] == comment[..2] == "//";
      forall i | 0 <= i < |code| ensures !At(line, "//", i) {
        SlashesAt(line, i);
        assert line[i] == code[i];
      }
      FindIs(line, "//", |code|);
    }
  }

  /** Code cannot end in the slash that would make the comment start earlier. */
  lemma {:induction false} SlashesEnd(line: string, code: string)
    requires code == CodeOf(line) && code != line
    ensures code == [] || code[|code| - 1] != '/'
  {
    assert Find(line, "//") == Some(|code|);
    SlashesAt(line, |code|);
    if code != [] {
      SlashesAt(line, |code| - 1);
      assert code[|code| - 1] == line[|code| - 1];
    }
  }

  /** The code of a line is what stands before its first `//`, whatever comes
      behind that. */
  lemma {:induction false} SameCode(line: string, next: string, start: nat)
    requires start <= |line| && start <= |next| && next[..start] == line[..start]
    requires |CodeOf(line)| + 2 <= start
    ensures CodeOf(next) == CodeOf(line)
  {
    var code := CodeOf(line);
    var m := |code|;
    SlashesEnd(line, code);
    SlashesAt(line, m);
    hide CodeOf;
    assert line[m] == line[..start][m] && line[m + 1] == line[..start][m + 1];
    assert next[m] == next[..start][m] && next[m + 1] == next[..start][m + 1];
    assert next[..m] == next[..start][..m] == line[..m];
    assert next == code + next[m..] && next[m..][..2] == "//";
    CodeIs(code, next[m..]);
  }

  lemma {:induction false} CodeOfUse(indent: string, j: string, gap: string, comment: string)
    requires Blank(indent) && Blank(gap) && NoComment(j)
    requires comment != [] ==> "//" <= comment && gap != []
    ensures CodeOf(indent + "use " + j + gap + comment) == indent + "use " + j + gap
  {
    var code := indent + "use " + j + gap;
    NoCommentAppend(indent, "use ");
    NoCommentAppend(indent + "use ", j);
    NoCommentAppend(indent + "use " + j, gap);
    if gap != [] { assert code[|code| - 1] == gap[|gap| - 1]; }
    CodeIs(code, comment);
  }

  /** The segments of a well-laid `use` line, comment or not. */
  lemma {:induction false} SegmentsOfUse(indent: string, j: string, gap: string, comment: string)
    requires Blank(indent) && Blank(gap) && NoComment(j)
    requires comment != [] ==> "//" <= comment && gap != []
    ensures Segments(indent + "use " + j + gap + comment)
            == if Blank(j) then [] else TrimAll(Pieces(NEUTRAL, [], j))
  {
    hide *;
    CodeOfUse(indent, j, gap, comment);
    BodyOf(indent + "use " + j + gap + comment);
    UseBody(indent, j, gap);
  }

  lemma {:induction false} UseBody(indent: string, j: string, gap: string)
    requires Blank(indent) && Blank(gap)
    ensures
      var code := Trim(indent + "use " + j + gap);
      if Blank(j) then !("use " <= code)
      else "use " <= code && TrimAll(Pieces(NEUTRAL, [], code[4..])) == TrimAll(Pieces(NEUTRAL, [], j))
  {
    hide Trim, Pieces, TrimAll;
    var before, after := TrimTakesBlanks(j);
    var core := Trim(j);
    if core == [] {
      assert j == before + after;
      assert indent + "use " + j + gap == indent + "use" + (" " + j + gap);
      TrimIs(indent, "use", " " + j + gap);
    } else {
      var word := "use " + (before + core);
      assert word[|word| - 1] == core[|core| - 1];
      assert indent + "use " + j + gap == indent + word + (after + gap);
      TrimIs(indent, word, after + gap);
      assert word[4..] == before + core;
      TrailingBlank(NEUTRAL, [], before + core, after);
      assert !Blank(j) by { assert j[|before|] == core[0]; }
    }
  }

  // ---- joining segments back ----

  predicate AllTrimmed(parts: seq<string>) {
    forall i | 0 <= i < |parts| :: Trimmed(parts[i])
  }

  predicate AllNoComment(parts: seq<string>) {
    forall i | 0 <= i < |parts| :: NoComment(parts[i])
  }

  lemma {:induction false} TrimOfTrimmed(s: string)
    requires Trimmed(s)
    ensures Trim(s) == s
  {
    TrimIs([], s, []);
    assert [] + s + [] == s;
  }

  lemma {:induction false} TrimAllOne(s: string)
    ensures TrimAll([s]) == [Trim(s)]
  {
    hide Trim;
  }

  lemma {:induction false} SplitSingle(part: string)
    requires NoCut(NEUTRAL, part) && Trimmed(part)
    ensures TrimAll(Pieces(NEUTRAL, [], part)) == [part]
  {
    hide *;
    TrimOfTrimmed(part);
    TrimAllOne(part);
    assert [] + part == part;
    PiecesNoCut(NEUTRAL, [], part);
  }

  /** Splitting after joining with a comma and a space is the identity. */
  lemma {:induction false} SplitAfterJoin(parts: seq<string>)
    requires parts != [] && Shaped(parts) && AllTrimmed(parts)
    ensures TrimAll(Pieces(NEUTRAL, [], Join(parts, ", "))) == parts
  {
    hide *;
    var first, rest := parts[0], parts[1..];
    JoinFirst(parts, ", ");
    ShapedFirst(parts);
    assert parts == [first] + rest;
    if rest != [] {
      SplitAfterJoin(rest);
      JoinPieces(first, Join(rest, ", "));
    } else {
      SplitSingle(first);
    }
  }

  lemma {:induction false} ShapedFirst(parts: seq<string>)
    requires parts != [] && Shaped(parts) && AllTrimmed(parts)
    ensures Shaped(parts[1..]) && AllTrimmed(parts[1..])
    ensures NoCut(NEUTRAL, parts[0]) && Trimmed(parts[0])
    ensures parts[1..] != [] ==> Run(NEUTRAL, parts[0]) == NEUTRAL
  {
    hide NoCut, Run, Trimmed;
    assert forall i | 0 <= i < |parts[1..]| :: parts[1..][i] == parts[i + 1];
  }

  lemma {:induction false} JoinPieces(first: string, more: string)
    requires NoCut(NEUTRAL, first) && Run(NEUTRAL, first) == NEUTRAL && Trimmed(first)
    ensures TrimAll(Pieces(NEUTRAL, [], first + ", " + more))
            == [first] + TrimAll(Pieces(NEUTRAL, [], more))
  {
    var spaced := " " + more;
    assert first + ", " + more == first + [','] + spaced;
    PiecesAtCut(NEUTRAL, [], first, spaced);
    PiecesNoCut(NEUTRAL, [], first);
    assert [] + first == first;
    TrimOfTrimmed(first);
    TrimAllCons(first, Pieces(NEUTRAL, [], spaced));
    assert spaced[0] == ' ' && spaced[1..] == more;
    assert [] + [spaced[0]] == " ";
    assert Pieces(NEUTRAL, [], spaced) == Pieces(NEUTRAL, " ", more);
    LeadingBlank(NEUTRAL, " ", [], more);
    assert " " + [] == " ";
  }

  lemma {:induction false} JoinHasNoComment(parts: seq<string>)
    requires AllNoComment(parts)
    ensures NoComment(Join(parts, ", "))
  {
    if |parts| > 1 {
      JoinHasNoComment(parts[1..]);
      NoCommentAppend(parts[0], ", ");
      NoCommentAppend(parts[0] + ", ", Join(parts[1..], ", "));
    }
  }

  lemma {:induction false} JoinIsBlank(parts: seq<string>)
    requires parts != [] && AllTrimmed(parts)
    ensures Blank(Join(parts, ", ")) <==> parts == [""]
  {
    if |parts| > 1 {
      assert Join(parts, ", ")[|parts[0]|] == ',';
    }
  }

  /** Everything `Segments` returns is trimmed, shaped and comment-free, and it
      is never one empty segment. */
  lemma {:induction false} SegmentsAreShaped(line: string)
    ensures Shaped(Segments(line)) && AllTrimmed(Segments(line)) && AllNoComment(Segments(line))
    ensures Segments(line) != [""]
  {
    var code := CodeOf(line);
    BodyOf(line);
    hide CodeOf, Segments, Trim, Pieces, TrimAll;
    if "use " <= Trim(code) {
      var x, y := TrimTakesBlanks(code);
      NoCommentSlice(code, x, Trim(code), y);
      BodySegments(Trim(code));
    } else {
      assert Segments(line) == [];
    }
  }

  lemma {:induction false} BodySegments(trimmed: string)
    requires NoComment(trimmed) && "use " <= trimmed && Trimmed(trimmed)
    ensures
      var parts := TrimAll(Pieces(NEUTRAL, [], trimmed[4..]));
      Shaped(parts) && AllTrimmed(parts) && AllNoComment(parts) && parts != [""]
  {
    hide Pieces, TrimAll;
    var body := trimmed[4..];
    var parts := Pieces(NEUTRAL, [], body);
    assert [] + body == body;
    assert trimmed == "use " + body + [];
    NoCommentSlice(trimmed, "use ", body, []);
    PiecesAreShaped(NEUTRAL, [], body);
    PiecesHaveNoComment(NEUTRAL, [], body);
    TrimKeepsShape(parts);
    SegmentEnds(parts);
    NotOneEmpty(trimmed);
  }

  lemma {:induction false} SegmentEnds(parts: seq<string>)
    requires AllNoComment(parts)
    ensures AllTrimmed(TrimAll(parts)) && AllNoComment(TrimAll(parts))
  {
    hide Trim;
    forall i | 0 <= i < |parts| ensures Trimmed(Trim(parts[i])) && NoComment(Trim(parts[i])) {
      var x, y := TrimTakesBlanks(parts[i]);
      NoCommentSlice(parts[i], x, Trim(parts[i]), y);
    }
  }

  lemma {:induction false} TrimEmptyIsBlank(s: string)
    ensures Trim(s) == [] ==> Blank(s)
  {
    var x, y := TrimTakesBlanks(s);
    if Trim(s) == [] { assert s == x + y; }
  }

  lemma {:induction false} NotOneEmpty(trimmed: string)
    requires "use " <= trimmed && Trimmed(trimmed)
    ensures TrimAll(Pieces(NEUTRAL, [], trimmed[4..])) != [""]
  {
    var body := trimmed[4..];
    var parts := Pieces(NEUTRAL, [], body);
    assert trimmed[3] == ' ';
    assert body != [] && body[|body| - 1] == trimmed[|trimmed| - 1];
    PiecesCover(NEUTRAL, [], body);
    if |parts| == 1 {
      assert parts[0] == [] + body == body;
      TrimEmptyIsBlank(body);
    }
  }

  /** The splitter loses no character: its pieces with their commas are the
      text. */
  lemma {:induction false} PiecesCover(st: Scan, head: string, rest: string)
    ensures Join(Pieces(st, head, rest), ",") == head + rest
    decreases |rest|
  {
    hide Cuts, Step;
    if rest == [] {
      assert head + rest == head;
    } else if Cuts(st, rest[0]) {
      var more := Pieces(st, [], rest[1..]);
      CutIsComma(st, rest[0]);
      PiecesCover(st, [], rest[1..]);
      assert [] + rest[1..] == rest[1..];
      JoinFirst([head] + more, ",");
      assert ([head] + more)[1..] == more;
      assert head + "," + rest[1..] == head + rest;
    } else {
      PiecesCover(Step(st, rest[0]), head + [rest[0]], rest[1..]);
      assert head + [rest[0]] + rest[1..] == head + rest;
    }
  }

  lemma {:induction false} CutIsComma(st: Scan, c: char)
    ensures Cuts(st, c) ==> c == ','
  {
  }
}
