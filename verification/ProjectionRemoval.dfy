/** Taking one projection off an entity: re-read the document, rewrite the
    first `use` member that still carries it, until none does. */
module ProjectionRemoval {
  import opened Text
  import opened Documents
  import opened Projections

  /** The word a segment starts with. */
  function ProjectionName(segment: string): (name: string)
    ensures name <= segment
  {
    if segment == [] || segment[0] == '(' || IsSpace(segment[0]) then []
    else [segment[0]] + ProjectionName(segment[1..])
  }

  function Without(segments: seq<string>, projection: string): (kept: seq<string>)
    ensures forall i | 0 <= i < |kept| :: kept[i] in segments && ProjectionName(kept[i]) != projection
    ensures |kept| == |segments| <==> kept == segments
    ensures |kept| <= |segments|
    ensures kept == segments <==> forall i | 0 <= i < |segments| :: ProjectionName(segments[i]) != projection
  {
    if segments == [] then []
    else if ProjectionName(segments[0]) == projection then Without(segments[1..], projection)
    else [segments[0]] + Without(segments[1..], projection)
  }

  // ---- the line written back ----

  predicate IsNewline(c: char) {
    c == '\r' || c == '\n'
  }

  function WithoutNewline(s: string): (r: string)
    ensures r <= s && (r != [] ==> !IsNewline(r[|r| - 1]))
    ensures Blank(s[|r|..])
  {
    if s != [] && IsNewline(s[|s| - 1]) then
      var r := WithoutNewline(s[..|s| - 1]);
      assert s[|r|..] == s[..|s| - 1][|r|..] + [s[|s| - 1]];
      r
    else s
  }

  function NewlineOf(s: string): (r: string)
    ensures Blank(r)
  {
    if |s| >= 2 && s[|s| - 2..] == "\r\n" then "\r\n"
    else if s != [] && s[|s| - 1] == '\n' then "\n"
    else ""
  }

  /** A line as the code before the first `//`, the comment from there on, and
      the newline. */
  datatype Parts = Parts(code: string, comment: string, newline: string)

  function PartsOf(original: string): (p: Parts)
    ensures NoComment(p.code) && Blank(p.newline)
    ensures p.comment != [] ==> "//" <= p.comment
    ensures p.code + p.comment == WithoutNewline(original)
  {
    var line := WithoutNewline(original);
    var code := CodeOf(line);
    assert code != line ==> line[|code|..|code| + 2] == "//";
    Parts(code, line[|code|..], NewlineOf(original))
  }

  function IndentOf(code: string): (indent: string)
    ensures indent <= code && Blank(indent)
  {
    code[..|code| - |TrimStart(code)|]
  }

  function Replacement(original: string, projection: string): string {
    var p := PartsOf(original);
    var indent := IndentOf(p.code);
    var retained := Without(Segments(p.code), projection);
    if retained == [] then
      if p.comment == [] then [] else indent + p.comment + p.newline
    else
      indent + "use " + Join(retained, ", ") + (if p.comment == [] then [] else " " + p.comment) + p.newline
  }

  // ---- what the rewritten line says ----

  lemma {:induction false} SameCodeSameSegments(a: string, b: string)
    requires Trim(CodeOf(a)) == Trim(CodeOf(b))
    ensures Segments(a) == Segments(b)
  {
    BodyOf(a);
    BodyOf(b);
  }

  lemma {:induction false} CodeBeforeNewline(line: string, tail: string)
    requires Blank(tail)
    ensures Trim(CodeOf(line + tail)) == Trim(CodeOf(line))
  {
    hide Trim;
    var code := CodeOf(line);
    if code == line {
      NewlineMakesNoComment(line, tail);
      CodeIs(line + tail, []);
      assert (line + tail) + [] == line + tail;
      TrimIgnoresBlanks([], line, tail);
      assert [] + line + tail == line + tail;
    } else {
      var rest := line[|code|..];
      assert line == code + rest;
      SlashesAt(line, |code|);
      assert rest[..2] == "//";
      CodeIs(code, rest + tail) by {
        assert (rest + tail)[..2] == rest[..2];
        SlashesEnd(line, code);
      }
      Assoc(code, rest, tail);
    }
  }

  /** The newline never decides what the segments are. */
  lemma {:induction false} SegmentsOfLine(original: string)
    ensures Segments(PartsOf(original).code) == Segments(original)
  {
    hide *;
    var line := WithoutNewline(original);
    var tail := original[|line|..];
    CodeOfParts(original);
    assert original == line + tail;
    CodeBeforeNewline(line, tail);
    assert CodeOf(line) + [] == CodeOf(line);
    CodeIs(CodeOf(line), []);
    SameCodeSameSegments(CodeOf(line), original);
  }

  lemma {:induction false} CodeOfParts(original: string)
    ensures PartsOf(original).code == CodeOf(WithoutNewline(original))
  {
    hide CodeOf, WithoutNewline;
  }

  lemma {:induction false} NewlineMakesNoComment(line: string, tail: string)
    requires NoComment(line) && Blank(tail)
    ensures NoComment(line + tail)
  {
    NoCommentAppend(line, tail);
  }

  lemma {:induction false} ShapedWithout(segments: seq<string>, projection: string)
    requires Shaped(segments) && AllTrimmed(segments) && AllNoComment(segments)
    ensures Shaped(Without(segments, projection)) && AllTrimmed(Without(segments, projection))
    ensures AllNoComment(Without(segments, projection))
  {
    if segments != [] {
      var rest := segments[1..];
      assert forall i | 0 <= i < |rest| :: rest[i] == segments[i + 1];
      ShapedWithout(rest, projection);
      var kept := Without(rest, projection);
      if kept != [] {
        assert rest != [];
        assert Run(NEUTRAL, segments[0]) == NEUTRAL;
      }
    }
  }

  /** The rewritten line carries exactly the retained segments, in order. Only
      a member whose one other segment is empty loses that segment too. */
  lemma {:induction false} ReplacementSegments(original: string, projection: string)
    ensures
      var retained := Without(Segments(original), projection);
      Segments(Replacement(original, projection)) == if retained == [""] then [] else retained
  {
    var p := PartsOf(original);
    var indent := IndentOf(p.code);
    var retained := Without(Segments(original), projection);
    SegmentsOfLine(original);
    SegmentsAreShaped(original);
    ShapedWithout(Segments(original), projection);
    if retained == [] {
      CommentHasNoSegments(indent, p.comment, p.newline);
    } else {
      JoinHasNoComment(retained);
      JoinIsBlank(retained);
      SplitAfterJoin(retained);
      LaidOut(indent, Join(retained, ", "), p.comment, p.newline);
    }
  }

  lemma {:induction false} LaidOut(indent: string, joined: string, comment: string, newline: string)
    requires Blank(indent) && Blank(newline) && NoComment(joined)
    requires comment != [] ==> "//" <= comment
    ensures Segments(indent + "use " + joined + (if comment == [] then [] else " " + comment) + newline)
            == if Blank(joined) then [] else TrimAll(Pieces(NEUTRAL, [], joined))
  {
    hide Segments, Pieces, TrimAll, NoComment;
    var start := indent + "use " + joined;
    if comment == [] {
      assert start + [] + newline == start + newline + [];
      SegmentsOfUse(indent, joined, newline, []);
    } else {
      SpacedComment(start, comment, newline);
      SegmentsOfUse(indent, joined, " ", comment + newline);
    }
  }

  lemma {:induction false} SpacedComment(start: string, comment: string, newline: string)
    requires "//" <= comment
    ensures start + (" " + comment) + newline == start + " " + (comment + newline)
    ensures "//" <= comment + newline
  {
    assert (comment + newline)[..2] == comment[..2];
  }

  lemma {:induction false} CommentHasNoSegments(indent: string, comment: string, newline: string)
    requires Blank(indent) && (comment != [] ==> "//" <= comment)
    ensures Segments(if comment == [] then [] else indent + comment + newline) == []
  {
    if comment == [] {
      CodeIs([], []);
      assert [] + [] == "";
      TrimOfTrimmed([]);
      BodyOf([]);
    } else {
      assert indent + comment + newline == indent + (comment + newline);
      assert (comment + newline)[..2] == comment[..2];
      CodeIs(indent, comment + newline);
      TrimIs(indent, [], []);
      assert indent + [] + [] == indent;
      BodyOf(indent + comment + newline);
    }
  }

  /** A comment survives to the byte, newline included, behind code that has
      none; so does the indentation. */
  lemma {:induction false} ReplacementKeepsComment(original: string, projection: string)
    requires PartsOf(original).comment != []
    requires original == WithoutNewline(original) + NewlineOf(original)
    ensures
      var p, next := PartsOf(original), Replacement(original, projection);
      var code := CodeOf(next);
      next == code + p.comment + p.newline && original == p.code + p.comment + p.newline
      && IndentOf(p.code) <= next
  {
    var p, next := PartsOf(original), Replacement(original, projection);
    var indent, retained := IndentOf(p.code), Without(Segments(p.code), projection);
    if retained == [] {
      CommentOnly(indent, p.comment, p.newline);
    } else {
      SegmentsAreShaped(p.code);
      ShapedWithout(Segments(p.code), projection);
      JoinHasNoComment(retained);
      CommentAfterUse(indent, Join(retained, ", "), p.comment, p.newline);
    }
    Assoc(p.code, p.comment, p.newline);
  }

  lemma {:induction false} CommentOnly(indent: string, comment: string, newline: string)
    requires Blank(indent) && "//" <= comment
    ensures CodeOf(indent + comment + newline) == indent
  {
    Assoc(indent, comment, newline);
    assert (comment + newline)[..2] == comment[..2];
    CodeIs(indent, comment + newline);
  }

  lemma {:induction false} CommentAfterUse(indent: string, joined: string, comment: string, newline: string)
    requires Blank(indent) && NoComment(joined) && "//" <= comment
    ensures
      var next := indent + "use " + joined + (" " + comment) + newline;
      next == CodeOf(next) + comment + newline && indent <= next
  {
    hide CodeOf, NoComment;
    var start := indent + "use " + joined;
    SpacedComment(start, comment, newline);
    CodeOfUse(indent, joined, " ", comment + newline);
    Assoc(start + " ", comment, newline);
    assert indent == (start + " " + (comment + newline))[..|indent|];
  }

  // ---- the loop over the document ----

  predicate AnyNamed(segments: seq<string>, projection: string) {
    exists i | 0 <= i < |segments| :: ProjectionName(segments[i]) == projection
  }

  predicate Carries(piece: Piece, owner: string, projection: string) {
    piece.role == Member(owner, "use")
    && AnyNamed(Segments(piece.text), projection)
  }

  /** Re-reading a rewritten member: with no projection left on the line it is
      no member any more. */
  function Rewritten(piece: Piece, projection: string): Piece {
    var role := if Without(Segments(piece.text), projection) == [] then Trivia else piece.role;
    Piece(role, Replacement(piece.text, projection))
  }

  function Strip(piece: Piece, owner: string, projection: string): Piece {
    if Carries(piece, owner, projection) then Rewritten(piece, projection) else piece
  }

  lemma {:induction false} StripSettles(piece: Piece, owner: string, projection: string)
    requires projection != []
    ensures !Carries(Strip(piece, owner, projection), owner, projection)
  {
    if Carries(piece, owner, projection) {
      ReplacementSegments(piece.text, projection);
    }
  }

  lemma {:induction false} CarriesIff(piece: Piece, owner: string, projection: string)
    ensures Carries(piece, owner, projection)
            <==> piece.role == Member(owner, "use")
                 && exists s | s in Segments(piece.text) :: ProjectionName(s) == projection
    ensures Rewritten(piece, projection).text == Replacement(piece.text, projection)
  {
    hide Segments, ProjectionName, Replacement;
    var segments := Segments(piece.text);
    if s :| s in segments && ProjectionName(s) == projection {
      var i :| 0 <= i < |segments| && segments[i] == s;
      assert AnyNamed(segments, projection);
    }
    if i :| 0 <= i < |segments| && ProjectionName(segments[i]) == projection {
      assert segments[i] in segments;
    }
  }

  ghost function CarrierCount(doc: seq<Piece>, owner: string, projection: string): nat {
    if doc == [] then 0
    else (if Carries(doc[0], owner, projection) then 1 else 0) + CarrierCount(doc[1..], owner, projection)
  }

  lemma {:induction false} OneCarrierLess(doc: seq<Piece>, owner: string, projection: string, i: nat, piece: Piece)
    requires i < |doc| && Carries(doc[i], owner, projection) && !Carries(piece, owner, projection)
    ensures CarrierCount(doc[i := piece], owner, projection) < CarrierCount(doc, owner, projection)
  {
    hide Carries;
    if i > 0 {
      assert doc[i := piece][1..] == doc[1..][i - 1 := piece];
      OneCarrierLess(doc[1..], owner, projection, i - 1, piece);
    } else {
      assert doc[i := piece][1..] == doc[1..];
    }
  }

  method FirstCarrier(doc: seq<Piece>, owner: string, projection: string) returns (found: Option<nat>)
    ensures found.Some? ==> found.value < |doc| && Carries(doc[found.value], owner, projection)
    ensures found.None? ==> forall i | 0 <= i < |doc| :: !Carries(doc[i], owner, projection)
  {
    hide Carries;
    for i := 0 to |doc|
      invariant forall k | 0 <= k < i :: !Carries(doc[k], owner, projection)
    {
      if Carries(doc[i], owner, projection) {
        return Some(i);
      }
    }
    return None;
  }

  /** The loop ends, and it has rewritten exactly the members that carried the
      projection: every other piece is untouched and in its place. */
  method RemoveProjection(doc: seq<Piece>, owner: string, projection: string) returns (edited: seq<Piece>)
    requires projection != []
    ensures |edited| == |doc|
    ensures forall i | 0 <= i < |doc| :: edited[i] == Strip(doc[i], owner, projection)
    ensures forall i | 0 <= i < |doc| ::
              if doc[i].role == Member(owner, "use")
                 && exists s | s in Segments(doc[i].text) :: ProjectionName(s) == projection
              then edited[i].text == Replacement(doc[i].text, projection) else edited[i] == doc[i]
    ensures forall i | 0 <= i < |edited| :: !Carries(edited[i], owner, projection)
  {
    hide Carries, Rewritten;
    forall i | 0 <= i < |doc| { CarriesIff(doc[i], owner, projection); }
    edited := doc;
    while true
      invariant |edited| == |doc|
      invariant forall i | 0 <= i < |doc| :: edited[i] == doc[i] || edited[i] == Strip(doc[i], owner, projection)
      decreases CarrierCount(edited, owner, projection)
    {
      var found := FirstCarrier(edited, owner, projection);
      if found.None? {
        return;
      }
      var i := found.value;
      StripSettles(doc[i], owner, projection);
      OneCarrierLess(edited, owner, projection, i, Rewritten(edited[i], projection));
      edited := edited[i := Rewritten(edited[i], projection)];
    }
  }
}
