/** What the removal of a projection does to the other segments of a member, for
    a reader that knows about strings. */
module StringAwareRewrite {
  import opened Text
  import opened Projections
  import opened ProjectionRemoval
  import opened CommentCut
  import opened StringAwareRemoval
  import UseLine

  /** The rewritten line has exactly the retained segments, but for one that is
      empty and stands alone. */
  predicate KeepsOthers(original: string, projection: string) {
    AwareSegments(Replacement(original, projection))
    == UseLine.Settled(Without(AwareSegments(original), projection))
  }

  predicate OneBlank(code: string) {
    Trail(code) == " "
  }

  // ---- what is retained ----

  lemma {:induction false} WithoutAppend(a: seq<string>, b: seq<string>, projection: string)
    ensures Without(a + b, projection) == Without(a, projection) + Without(b, projection)
  {
    hide ProjectionName;
    if a == [] {
      assert a + b == b;
    } else {
      assert (a + b)[1..] == a[1..] + b;
      WithoutAppend(a[1..], b, projection);
    }
  }

  lemma {:induction false} WithoutOne(s: string, projection: string)
    ensures Without([s], projection) == if ProjectionName(s) == projection then [] else [s]
  {
    hide ProjectionName;
  }

  lemma {:induction false} WithoutAll(segments: seq<string>, projection: string)
    ensures Without(segments, projection) == segments <==> !AnyNamed(segments, projection)
    ensures |Without(segments, projection)| == |segments| <==> !AnyNamed(segments, projection)
  {
    hide ProjectionName;
  }

  /** The last segment, kept or not. */
  lemma {:induction false} WithoutLast(segments: seq<string>, projection: string)
    requires segments != []
    ensures
      var init, last := Without(AllButLast(segments), projection), segments[|segments| - 1];
      Without(segments, projection) == init + (if LastNamed(segments, projection) then [] else [last])
  {
    hide ProjectionName, Without;
    var last := segments[|segments| - 1];
    assert segments == AllButLast(segments) + [last];
    WithoutAppend(AllButLast(segments), [last], projection);
    WithoutOne(last, projection);
  }

  // ---- the piece the cut ran into ----

  /** That piece, trimmed: the cut segment, the blanks in front of the slashes,
      and what is beyond. */
  lemma {:induction false} CutPieceIs(last: string, beyond: string)
    requires Trim(last) != [] && beyond != [] && !IsSpace(beyond[0])
    ensures Trim(last + beyond) == Trim(last) + (Trail(last) + Trim(beyond))
  {
    hide Trim, Trail;
    var x, y := TrimTakesBlanks(last);
    var u, v := TrimTakesBlanks(beyond);
    BlankStart(u, Trim(beyond) + v, beyond);
    var more := y + Trim(beyond);
    TrimmedAround(Trim(last), y, Trim(beyond));
    assert last + beyond == x + (Trim(last) + more) + v;
    TrimIs(x, Trim(last) + more, v);
    TrailIs(x + Trim(last), y) by { InkEnds(x, Trim(last)); }
  }

  lemma {:induction false} InkEnds(x: string, core: string)
    requires core != [] && Trimmed(core)
    ensures x + core != [] && !IsSpace((x + core)[|x + core| - 1])
  {
    assert (x + core)[|x + core| - 1] == core[|core| - 1];
  }

  lemma {:induction false} TrimBlank(s: string)
    ensures Blank(s) <==> Trim(s) == []
  {
    hide Trim;
    var x, y := TrimTakesBlanks(s);
    if Trim(s) != [] { assert s[|x|] == Trim(s)[0]; } else { assert s == x + y; }
  }

  /** A body and its last piece end in the same blanks. */
  lemma {:induction false} SameTrail(body: string)
    requires Trim(Pieces(NEUTRAL, [], body)[|Pieces(NEUTRAL, [], body)| - 1]) != []
    ensures
      var parts := Pieces(NEUTRAL, [], body);
      Trail(parts[|parts| - 1]) == Trail(body)
  {
    hide Pieces, Trim, Trail, Blank;
    var parts := Pieces(NEUTRAL, [], body);
    PiecesCover(NEUTRAL, [], body);
    assert [] + body == body;
    var before := JoinEnds(parts, ",");
    TrimBlank(parts[|parts| - 1]);
    TrailOfEnd(before, parts[|parts| - 1]);
  }

  /** Joined segments and one blank end in one blank. */
  lemma {:induction false} JoinedTrail(retained: seq<string>)
    requires retained != [] && AllTrimmed(retained) && retained[|retained| - 1] != []
    ensures Trail(Join(retained, ", ") + " ") == " "
  {
    hide Trail, Join;
    var before := JoinEnds(retained, ", ");
    InkEnds(before, retained[|retained| - 1]);
    TrailIs(Join(retained, ", "), " ") by { assert Blank(" "); }
  }

  // ---- reading the original and the rewritten line ----

  /** A quoted line, without the projection. */
  lemma {:induction false} OriginalWithout(lead: string, body: string, text: string, projection: string)
    requires Blank(lead) && NoComment(lead + "use " + body) && Run(NEUTRAL, body).quoted
    requires "//" <= text && body[|body| - 1] != '/' && '"' !in projection
    ensures
      var line, st := lead + "use " + body + text, Run(NEUTRAL, body);
      var segments := Segments(line);
      segments != [] && segments[|segments| - 1] != []
      && Without(AwareSegments(line), projection)
         == Without(AllButLast(segments), projection)
            + (if LastNamed(segments, projection) then []
               else [segments[|segments| - 1] + (Trail(body) + Trim(Beyond(st, text)))])
            + Without(Behind(st, text), projection)
  {
    hide *;
    var line, st, parts := lead + "use " + body + text, Run(NEUTRAL, body), Pieces(NEUTRAL, [], body);
    var last, segments, beyond := parts[|parts| - 1], TrimAll(parts), Beyond(st, text);
    QuotedLayout(lead, body, text);
    LastSegmentRuns(body);
    assert text == "//" + text[2..];
    SlashesSettle(st, st, text[2..]);
    SlashIsInk(beyond);
    QuotedIsInk(last);
    TrimBlank(last);
    SameTrail(body);
    CutPieceName(last, beyond, projection);
    CutPieceIs(last, beyond);
    LastIs(segments, projection);
    var cut := Trim(last + beyond);
    WithoutAppend(AllButLast(segments) + [cut], Behind(st, text), projection);
    WithoutAppend(AllButLast(segments), [cut], projection);
    WithoutOne(cut, projection);
    NothingMoreKept(Without(AllButLast(segments), projection));
  }

  lemma {:induction false} NothingMoreKept(kept: seq<string>)
    ensures kept + [] == kept
  {
  }

  /** The line that is written back for a quoted one whose cut segment stays. */
  lemma {:induction false} RewrittenReads(original: string, projection: string)
    requires
      var p, retained := PartsOf(original), Without(Segments(original), projection);
      p.comment != [] && retained != [] && Run(NEUTRAL, retained[|retained| - 1]).quoted
    ensures
      var p, retained := PartsOf(original), Without(Segments(original), projection);
      var st, text := Run(NEUTRAL, Join(retained, ", ") + " "), p.comment + p.newline;
      AwareSegments(Replacement(original, projection))
      == AllButLast(retained) + [retained[|retained| - 1] + (" " + Trim(Beyond(st, text)))] + Behind(st, text)
  {
    hide *;
    var p, retained := PartsOf(original), Without(Segments(original), projection);
    var indent, joined := IndentOf(p.code), Join(retained, ", ");
    var body, text := joined + " ", p.comment + p.newline;
    ReplacementIs(original, projection);
    SegmentsAreShaped(original);
    ShapedWithout(Segments(original), projection);
    JoinHasNoComment(retained);
    SpacedRuns(retained);
    SpacedCode(indent, joined, p.comment, p.newline);
    SpacedIs(indent, joined, p.comment, p.newline);
    Assoc(indent + "use ", joined, " ");
    EndsInBlank(joined);
    QuotedLayout(indent, body, text);
    SpacedPieces(retained);
    BeyondIsInk(Run(NEUTRAL, body), text);
    SpacedCutPiece(retained, Beyond(Run(NEUTRAL, body), text));
  }

  lemma {:induction false} BeyondIsInk(st: Scan, text: string)
    requires st.quoted && "//" <= text
    ensures Beyond(st, text) != [] && !IsSpace(Beyond(st, text)[0])
  {
    hide *;
    assert text == "//" + text[2..];
    SlashesSettle(st, st, text[2..]);
    SlashIsInk(Beyond(st, text));
  }

  lemma {:induction false} SpacedCutPiece(retained: seq<string>, beyond: string)
    requires retained != [] && Shaped(retained) && AllTrimmed(retained)
    requires Run(NEUTRAL, retained[|retained| - 1]).quoted && beyond != [] && !IsSpace(beyond[0])
    ensures
      var parts := Pieces(NEUTRAL, [], Join(retained, ", ") + " ");
      Trim(parts[|parts| - 1] + beyond) == retained[|retained| - 1] + (" " + Trim(beyond))
  {
    hide *;
    var body := Join(retained, ", ") + " ";
    var parts := Pieces(NEUTRAL, [], body);
    SpacedPieces(retained);
    QuotedSegment(retained[|retained| - 1]);
    SameTrail(body);
    JoinedTrail(retained);
    CutPieceIs(parts[|parts| - 1], beyond);
  }

  lemma {:induction false} QuotedSegment(segment: string)
    requires Run(NEUTRAL, segment).quoted
    ensures segment != []
  {
  }

  lemma {:induction false} SpacedPieces(retained: seq<string>)
    requires retained != [] && Shaped(retained) && AllTrimmed(retained)
    ensures
      var parts := Pieces(NEUTRAL, [], Join(retained, ", ") + " ");
      TrimAll(parts) == retained && Trim(parts[|parts| - 1]) == retained[|retained| - 1]
  {
    hide Pieces, Join, Trim, Shaped, AllTrimmed;
    SplitAfterJoin(retained);
    TrailingBlank(NEUTRAL, [], Join(retained, ", "), " ") by { assert Blank(" "); }
  }

  // ---- exactly when the others are kept ----

  /** With the cut segment kept. */
  lemma {:induction false} KeptCut(original: string, lead: string, body: string, projection: string)
    requires
      var p := PartsOf(original);
      var tail := original[|WithoutNewline(original)|..];
      original == lead + "use " + body + (p.comment + tail) && p.code == lead + "use " + body
      && Blank(lead) && NoComment(p.code) && Run(NEUTRAL, body).quoted && p.comment != []
      && body[|body| - 1] != '/' && Blank(tail)
    requires !LastNamed(Segments(original), projection) && '"' !in projection
    ensures KeepsOthers(original, projection) <==> !AnyNamed(BehindCut(original), projection) && Trail(body) == " "
  {
    hide *;
    var p := PartsOf(original);
    var tail, segments := original[|WithoutNewline(original)|..], Segments(original);
    var text, st := p.comment + tail, Run(NEUTRAL, body);
    CommentStarts(p.comment, tail);
    CommentStarts(p.comment, p.newline);
    QuotedLayout(lead, body, text);
    QuotedNames(lead, body, text, projection);
    OriginalWithout(lead, body, text, projection);
    LastSegmentRuns(body);
    WithoutLast(segments, projection);
    var retained := Without(segments, projection);
    WithoutKeepsLast(segments, projection);
    RewrittenReads(original, projection);
    SegmentsAreShaped(original);
    ShapedWithout(segments, projection);
    SpacedRuns(retained);
    var other, next := Run(NEUTRAL, Join(retained, ", ") + " "), p.comment + p.newline;
    var last := segments[|segments| - 1];
    SameBehind(st, other, p.comment, p.newline);
    BehindIgnoresNewline(st, p.comment, tail);
    SameBeyond(st, other, p.comment, p.newline, tail);
    WithoutAll(Behind(st, p.comment), projection);
    var init, beyond := Without(AllButLast(segments), projection), Trim(Beyond(st, text));
    AllButLastOf(init, last);
    KeepsIs(original, projection);
    SameCutPiece(init, last, Trail(body), beyond, Behind(st, p.comment), Without(Behind(st, p.comment), projection));
  }

  lemma {:induction false} KeepsIs(original: string, projection: string)
    ensures KeepsOthers(original, projection)
            <==> AwareSegments(Replacement(original, projection))
                 == UseLine.Settled(Without(AwareSegments(original), projection))
  {
  }

  lemma {:induction false} AllButLastOf(init: seq<string>, last: string)
    ensures AllButLast(init + [last]) == init && (init + [last])[|init + [last]| - 1] == last
  {
  }

  lemma {:induction false} SameBeyond(st: Scan, other: Scan, comment: string, newline: string, tail: string)
    requires st.quoted && other.quoted && st.depth == other.depth
    requires "//" <= comment && Blank(newline) && Blank(tail)
    ensures Trim(Beyond(other, comment + newline)) == Trim(Beyond(st, comment + tail))
  {
    hide *;
    var x := comment[2..];
    assert comment == "//" + x;
    Assoc("//", x, newline);
    SlashesSettle(st, other, x + newline);
    BehindIgnoresNewline(st, comment, newline);
    BehindIgnoresNewline(st, comment, tail);
  }

  /** Two readings that differ at most in the blanks of one piece and in what
      stands behind it. */
  lemma {:induction false} SameCutPiece(init: seq<string>, last: string, blanks: string, beyond: string,
                                        behind: seq<string>, kept: seq<string>)
    requires last != [] && (|kept| == |behind| <==> kept == behind)
    ensures init + [last + (" " + beyond)] + behind == UseLine.Settled(init + [last + (blanks + beyond)] + kept)
            <==> kept == behind && blanks == " "
  {
    var a, b := init + [last + (" " + beyond)] + behind, init + [last + (blanks + beyond)] + kept;
    assert b[|init|] == last + (blanks + beyond);
    assert b != [""];
    if a == b {
      assert |a| == |init| + 1 + |behind| && |b| == |init| + 1 + |kept|;
      assert a[|init|] == last + (" " + beyond);
      SameMiddle(last, " ", blanks, beyond);
    }
  }

  lemma {:induction false} SameMiddle(a: string, b: string, c: string, d: string)
    requires a + (b + d) == a + (c + d)
    ensures b == c
  {
    Mid(a, b, d);
    Mid(a, c, d);
    Assoc(a, b, d);
    Assoc(a, c, d);
    assert |b| == |c|;
  }

  /** With the cut segment the projection itself. */
  lemma {:induction false} DroppedCut(original: string, lead: string, body: string, projection: string)
    requires
      var p := PartsOf(original);
      var tail := original[|WithoutNewline(original)|..];
      original == lead + "use " + body + (p.comment + tail) && p.code == lead + "use " + body
      && Blank(lead) && NoComment(p.code) && Run(NEUTRAL, body).quoted && p.comment != []
      && body[|body| - 1] != '/' && Blank(tail)
    requires LastNamed(Segments(original), projection) && '"' !in projection
    ensures
      var behind := Without(BehindCut(original), projection);
      KeepsOthers(original, projection)
      <==> behind == [] || (Without(Segments(original), projection) == [] && behind == [""])
  {
    hide *;
    var p := PartsOf(original);
    var tail, segments := original[|WithoutNewline(original)|..], Segments(original);
    var text, st := p.comment + tail, Run(NEUTRAL, body);
    CommentStarts(p.comment, tail);
    QuotedNames(lead, body, text, projection);
    OriginalWithout(lead, body, text, projection);
    WithoutLast(segments, projection);
    var retained, behind := Without(segments, projection), Without(Behind(st, text), projection);
    NothingMoreKept(Without(AllButLast(segments), projection));
    SegmentsAreShaped(original);
    WithoutDropsLast(segments, projection);
    RewrittenUnquotedWhen(original, projection);
    UnquotedReadsAlike(Replacement(original, projection));
    ReplacementSegments(original, projection);
    KeepsIs(original, projection);
    SettledMore(retained, behind);
  }

  lemma {:induction false} SettledMore(retained: seq<string>, behind: seq<string>)
    ensures (if retained == [""] then [] else retained) == UseLine.Settled(retained + behind)
            <==> behind == [] || (retained == [] && behind == [""])
  {
    assert retained + [] == retained && [] + behind == behind;
    assert |retained + behind| == |retained| + |behind|;
  }

  /** A removal of a projection the member carries leaves exactly the other
      segments, read with strings in mind, in three cases: the first `//` is not
      quoted; or the segment it cuts stays, none behind it is the projection, and
      the text in front of the `//` ends in exactly one blank; or the segment it
      cuts is the projection and every segment behind it is too, an empty one that
      is left alone not counted. */
  lemma {:induction false} KeepsOthersIff(original: string, projection: string)
    requires AnyNamed(Segments(original), projection) && '"' !in projection
    ensures
      var behind := Without(BehindCut(original), projection);
      KeepsOthers(original, projection)
      <==> Unquoted(original)
           || (!LastNamed(Segments(original), projection)
               && !AnyNamed(BehindCut(original), projection) && OneBlank(CodeOf(original)))
           || (LastNamed(Segments(original), projection)
               && (behind == [] || (Without(Segments(original), projection) == [] && behind == [""])))
  {
    hide *;
    if Unquoted(original) {
      RewrittenReadsAware(original, projection);
      KeepsIs(original, projection);
      SettledIs(Without(AwareSegments(original), projection));
    } else {
      SomeSegments(original, projection);
      var lead, body := LayoutOf(original);
      CodesAgree(original);
      QuotedIsInk(body);
      TrailOfEnd(lead + "use ", body);
      OneBlankIs(CodeOf(original));
      if LastNamed(Segments(original), projection) {
        DroppedCut(original, lead, body, projection);
      } else {
        KeptCut(original, lead, body, projection);
      }
    }
  }

  lemma {:induction false} SettledIs(segments: seq<string>)
    ensures UseLine.Settled(segments) == if segments == [""] then [] else segments
  {
  }

  lemma {:induction false} OneBlankIs(code: string)
    ensures OneBlank(code) <==> Trail(code) == " "
  {
  }

  lemma {:induction false} SomeSegments(line: string, projection: string)
    requires AnyNamed(Segments(line), projection)
    ensures Segments(line) != []
  {
    hide Segments, ProjectionName;
  }

  // ---- a route that changes ----

  lemma {:induction false} NoNewline(line: string)
    requires line != [] && line[|line| - 1] != '\n' && line[|line| - 1] != '\r'
    ensures WithoutNewline(line) == line && NewlineOf(line) == ""
  {
  }

  lemma {:induction false} InkFirst(code: string)
    requires code != [] && !IsSpace(code[0])
    ensures IndentOf(code) == ""
  {
  }

  /** A line without a newline, as code and comment. */
  lemma {:induction false} PlainParts(code: string, comment: string)
    requires code != [] && !IsSpace(code[0]) && code[|code| - 1] != '/' && NoComment(code)
    requires "//" <= comment && comment[|comment| - 1] != '\n' && comment[|comment| - 1] != '\r'
    ensures PartsOf(code + comment) == Parts(code, comment, "") && IndentOf(code) == ""
  {
    hide WithoutNewline, NewlineOf, CodeOf, IndentOf, NoComment;
    var line := code + comment;
    assert line[|line| - 1] == comment[|comment| - 1];
    NoNewline(line);
    CodeIs(code, comment);
    InkFirst(code);
    assert line[|code|..] == comment;
  }

  lemma {:induction false} FactoryParts(path: string)
    ensures
      var code, comment := "use " + ("factory" + [','] + (" " + "scaffold(path: \"")), "//" + path + "\")";
      PartsOf(code + comment) == Parts(code, comment, "") && IndentOf(code) == ""
  {
    hide PartsOf, IndentOf;
    var code, comment := "use " + ("factory" + [','] + (" " + "scaffold(path: \"")), "//" + path + "\")";
    assert '/' !in code && code[0] == 'u' && code[|code| - 1] == '"';
    assert comment[..2] == "//" && comment[|comment| - 1] == ')';
    PlainParts(code, comment);
  }

  lemma {:induction false} FactorySegments()
    ensures
      var body := "factory" + [','] + (" " + "scaffold(path: \"");
      TrimAll(Pieces(NEUTRAL, [], body)) == ["factory", "scaffold(path: \""]
      && Run(NEUTRAL, body) == Scan(1, true, false)
      && Without(["factory", "scaffold(path: \""], "factory") == ["scaffold(path: \""]
  {
    hide Pieces, Run, TrimAll, Trim, ProjectionName, NoCut;
    var path, rest := "scaffold(path: \"", " " + "scaffold(path: \"";
    PathOpens();
    LettersRun(NEUTRAL, "factory");
    PiecesNoCut(NEUTRAL, [], "factory");
    assert [] + "factory" == "factory";
    assert Cuts(NEUTRAL, ',') && Sane(NEUTRAL);
    PiecesAtCut(NEUTRAL, [], "factory", rest);
    LeadingSpace(path);
    TrimAllParts(["factory"], Pieces(NEUTRAL, [], rest));
    TrimAllOne("factory");
    TrimAllOne(path);
    TrimOfTrimmed("factory");
    RunAppend(NEUTRAL, "factory", [','] + rest);
    Assoc("factory", [','], rest);
    PlainStep(',', rest);
    PlainStep(' ', path);
    NameWhole("factory");
    assert "factory" != "scaffold";
    WithoutAppend(["factory"], [path], "factory");
    WithoutOne("factory", "factory");
    WithoutOne(path, "factory");
    assert [] + [path] == [path] && ["factory"] + [path] == ["factory", path];
  }

  lemma {:induction false} LeadingSpace(s: string)
    ensures TrimAll(Pieces(NEUTRAL, [], " " + s)) == TrimAll(Pieces(NEUTRAL, [], s))
  {
    UseLine.SplitIgnoresLead(" ", s) by { assert Blank(" "); }
  }

  /** Removing `factory` in front of a route that opens with two slashes puts a
      blank into the route. */
  lemma {:induction false} RouteGetsBlank(path: string)
    ensures Replacement("use " + ("factory" + [','] + (" " + "scaffold(path: \"")) + ("//" + path + "\")"), "factory")
            == "use " + "scaffold(path: \"" + (" " + ("//" + path + "\")"))
  {
    hide *;
    var body, text := "factory" + [','] + (" " + "scaffold(path: \""), "//" + path + "\")";
    var code := "use " + body;
    FactoryCode();
    FactoryParts(path);
    FactorySegments();
    FactoryQuoted(path);
    QuotedLayout("", body, text);
    assert "" + "use " + body == code;
    ReplacementIs(code + text, "factory");
    JoinOfOne("scaffold(path: \"");
    RouteLine(path);
  }

  lemma {:induction false} JoinOfOne(s: string)
    ensures Join([s], ", ") == s && [s] != []
  {
  }

  lemma {:induction false} FactoryCode()
    ensures NoComment("" + "use " + ("factory" + [','] + (" " + "scaffold(path: \""))) && Blank("")
  {
    assert '/' !in "" + "use " + ("factory" + [','] + (" " + "scaffold(path: \""));
  }

  lemma {:induction false} FactoryQuoted(path: string)
    ensures
      var body := "factory" + [','] + (" " + "scaffold(path: \"");
      Scan(1, true, false).quoted && body[|body| - 1] != '/' && "//" <= "//" + path + "\")" && "//" + path + "\")" != []
  {
    assert ("//" + path + "\")")[..2] == "//";
  }

  lemma {:induction false} RouteLine(path: string)
    ensures
      var text := " " + ("//" + path + "\")");
      "" + "use " + "scaffold(path: \"" + text + "" == "use " + "scaffold(path: \"" + text
  {
    assert "" + "use " == "use ";
  }
}
