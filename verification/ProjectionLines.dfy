/** What a `use` line means, read off its text: which commas separate
    projections, what a projection is called, and the line that is written back. */
module ProjectionLines {
  import opened Text
  import opened Projections
  import opened ProjectionRemoval

  // ---- strings and brackets ----

  /** A character of a string literal, escaped or not. */
  datatype Letter = Letter(escaped: bool, c: char)

  /** A character outside strings, or a whole string literal. */
  datatype Lexeme = Plain(c: char) | Literal(letters: seq<Letter>)

  function Letters(letters: seq<Letter>): string {
    if letters == [] then []
    else (if letters[0].escaped then ['\\', letters[0].c] else [letters[0].c]) + Letters(letters[1..])
  }

  predicate AreLetters(letters: seq<Letter>) {
    forall i | 0 <= i < |letters| && !letters[i].escaped :: letters[i].c != '"' && letters[i].c != '\\'
  }

  function Spelling(lexemes: seq<Lexeme>): string {
    if lexemes == [] then []
    else
      Spelling(lexemes[..|lexemes| - 1])
      + match lexemes[|lexemes| - 1]
        case Plain(c) => [c]
        case Literal(letters) => ['"'] + Letters(letters) + ['"']
  }

  predicate AreLexemes(lexemes: seq<Lexeme>) {
    forall i | 0 <= i < |lexemes| ::
      match lexemes[i] case Plain(c) => c != '"' case Literal(letters) => AreLetters(letters)
  }

  /** How many more brackets are opened than closed, of either kind, outside
      strings. */
  function Balance(lexemes: seq<Lexeme>): int {
    if lexemes == [] then 0
    else
      Balance(lexemes[1..])
      + match lexemes[0]
        case Plain(c) => (if c == '(' || c == '[' then 1 else if c == ')' || c == ']' then -1 else 0)
        case Literal(_) => 0
  }

  /** What is still open: the most that any stretch up to the end leaves open, a
      closing bracket with nothing to close not counted. */
  ghost predicate StillOpen(lexemes: seq<Lexeme>, depth: nat) {
    (exists k | 0 <= k <= |lexemes| :: Balance(lexemes[k..]) == depth)
    && forall k | 0 <= k <= |lexemes| :: Balance(lexemes[k..]) <= depth
  }

  lemma {:induction false} LettersRun(st: Scan, letters: seq<Letter>)
    requires AreLetters(letters) && st.quoted && !st.escaped
    ensures Run(st, Letters(letters)) == st
  {
    if letters != [] {
      var first := if letters[0].escaped then ['\\', letters[0].c] else [letters[0].c];
      assert forall i | 0 <= i < |letters[1..]| :: letters[1..][i] == letters[i + 1];
      LettersRun(st, letters[1..]);
      RunAppend(st, first, Letters(letters[1..]));
      assert first[1..] == if letters[0].escaped then [letters[0].c] else [];
      assert [letters[0].c][1..] == [];
      LetterRuns(st, letters[0]);
    }
  }

  lemma {:induction false} LetterRuns(st: Scan, letter: Letter)
    requires st.quoted && !st.escaped && (!letter.escaped ==> letter.c != '"' && letter.c != '\\')
    ensures Run(st, if letter.escaped then ['\\', letter.c] else [letter.c]) == st
  {
    if letter.escaped {
      assert ['\\', letter.c][1..] == [letter.c] && [letter.c][1..] == [];
      assert Run(st, ['\\', letter.c]) == Run(Step(st, '\\'), [letter.c]);
      assert Run(Step(st, '\\'), [letter.c]) == Run(Step(Step(st, '\\'), letter.c), []);
    } else {
      assert [letter.c][1..] == [];
      assert Run(st, [letter.c]) == Run(Step(st, letter.c), []);
    }
  }

  lemma {:induction false} LiteralRuns(st: Scan, letters: seq<Letter>)
    requires AreLetters(letters) && !st.quoted && !st.escaped
    ensures Run(st, ['"'] + Letters(letters) + ['"']) == st
  {
    RunAppend(st, ['"'] + Letters(letters), ['"']);
    RunAppend(st, ['"'], Letters(letters));
    assert ['"'][1..] == [];
    OneRuns(st, '"');
    LettersRun(st.(quoted := true), letters);
    OneRuns(st.(quoted := true), '"');
  }

  lemma {:induction false} OneRuns(st: Scan, c: char)
    ensures Run(st, [c]) == Step(st, c)
  {
    assert [c][1..] == [];
    assert Run(st, [c]) == Run(Step(st, c), []);
  }

  lemma {:induction false} BalanceAppend(lexemes: seq<Lexeme>, x: Lexeme)
    ensures Balance(lexemes + [x]) == Balance(lexemes) + Balance([x])
  {
    if lexemes == [] {
      assert lexemes + [x] == [x];
    } else {
      assert (lexemes + [x])[1..] == lexemes[1..] + [x];
      BalanceAppend(lexemes[1..], x);
    }
  }

  /** One more lexeme: the depth follows, and never goes below zero. */
  lemma {:induction false} OpenStep(lexemes: seq<Lexeme>, x: Lexeme, depth: nat)
    requires StillOpen(lexemes, depth)
    ensures StillOpen(lexemes + [x], if depth + Balance([x]) < 0 then 0 else depth + Balance([x]))
  {
    hide Balance;
    var all := lexemes + [x];
    assert all[|all|..] == [];
    assert Balance([]) == 0 by { NothingBalances(); }
    forall k | 0 <= k <= |lexemes| ensures Balance(all[k..]) == Balance(lexemes[k..]) + Balance([x]) {
      assert all[k..] == lexemes[k..] + [x];
      BalanceAppend(lexemes[k..], x);
    }
    var k :| 0 <= k <= |lexemes| && Balance(lexemes[k..]) == depth;
    assert Balance(all[k..]) == depth + Balance([x]);
    assert Balance(all[|all|..]) == 0;
  }

  lemma {:induction false} NothingBalances()
    ensures Balance([]) == 0
  {
  }

  /** After whole lexemes the scanner is outside strings, at the depth that is
      still open. */
  lemma {:induction false} ScansTo(lexemes: seq<Lexeme>, depth: nat)
    requires AreLexemes(lexemes) && StillOpen(lexemes, depth)
    ensures Run(NEUTRAL, Spelling(lexemes)) == Scan(depth, false, false)
  {
    if lexemes == [] {
      assert lexemes[0..] == [];
      assert Balance([]) == 0;
    } else {
      var init, x := lexemes[..|lexemes| - 1], lexemes[|lexemes| - 1];
      var before := DepthOf(init);
      assert lexemes == init + [x];
      OpenStep(init, x, before);
      OneDepth(lexemes, depth, if before + Balance([x]) < 0 then 0 else before + Balance([x]));
      ScansTo(init, before);
      LexemeRuns(init, x, before);
    }
  }

  lemma {:induction false} LexemeRuns(init: seq<Lexeme>, x: Lexeme, before: nat)
    requires AreLexemes(init + [x]) && Run(NEUTRAL, Spelling(init)) == Scan(before, false, false)
    ensures Run(NEUTRAL, Spelling(init + [x]))
            == Scan(if before + Balance([x]) < 0 then 0 else before + Balance([x]), false, false)
  {
    var all := init + [x];
    assert all[..|all| - 1] == init && all[|all| - 1] == x;
    assert [x][1..] == [] && Balance([x][1..]) == 0;
    match x
    case Plain(c) =>
      RunAppend(NEUTRAL, Spelling(init), [c]);
      OneRuns(Scan(before, false, false), c);
    case Literal(letters) =>
      RunAppend(NEUTRAL, Spelling(init), ['"'] + Letters(letters) + ['"']);
      LiteralRuns(Scan(before, false, false), letters);
  }

  lemma {:induction false} DepthOf(lexemes: seq<Lexeme>) returns (depth: nat)
    ensures StillOpen(lexemes, depth)
  {
    if lexemes == [] {
      depth := 0;
      assert lexemes[0..] == [] && Balance([]) == 0;
    } else {
      var init, x := lexemes[..|lexemes| - 1], lexemes[|lexemes| - 1];
      var before := DepthOf(init);
      OpenStep(init, x, before);
      assert lexemes == init + [x];
      depth := if before + Balance([x]) < 0 then 0 else before + Balance([x]);
    }
  }

  lemma {:induction false} OneDepth(lexemes: seq<Lexeme>, a: nat, b: nat)
    requires StillOpen(lexemes, a) && StillOpen(lexemes, b)
    ensures a == b
  {
    hide Balance;
  }

  /** A comma outside strings separates two projections exactly when no bracket
      that was opened before it is still open; a comma in a string never does. */
  lemma {:induction false} CommaSeparatesIff(lexemes: seq<Lexeme>, rest: string)
    requires AreLexemes(lexemes)
    ensures
      var before := Spelling(lexemes);
      if forall k | 0 <= k <= |lexemes| :: Balance(lexemes[k..]) <= 0
      then Pieces(NEUTRAL, [], before + [','] + rest) == Pieces(NEUTRAL, [], before) + Pieces(NEUTRAL, [], rest)
      else !Cuts(Run(NEUTRAL, before), ',')
  {
    hide Balance, Pieces, Run;
    var depth := DepthOf(lexemes);
    ScansTo(lexemes, depth);
    if depth == 0 { PiecesAtCut(NEUTRAL, [], Spelling(lexemes), rest); }
  }

  lemma {:induction false} QuotedCommaStays(lexemes: seq<Lexeme>, letters: seq<Letter>)
    requires AreLexemes(lexemes) && AreLetters(letters)
    ensures !Cuts(Run(NEUTRAL, Spelling(lexemes) + (['"'] + Letters(letters))), ',')
  {
    hide Run, StillOpen;
    var depth := DepthOf(lexemes);
    ScansTo(lexemes, depth);
    RunAppend(NEUTRAL, Spelling(lexemes), ['"'] + Letters(letters));
    RunAppend(Scan(depth, false, false), ['"'], Letters(letters));
    OneRuns(Scan(depth, false, false), '"');
    LettersRun(Scan(depth, true, false), letters);
  }

  lemma {:induction false} LettersDoNotCut(st: Scan, letters: seq<Letter>)
    requires AreLetters(letters) && st.quoted && !st.escaped
    ensures NoCut(st, Letters(letters))
  {
    if letters != [] {
      var first := if letters[0].escaped then ['\\', letters[0].c] else [letters[0].c];
      assert forall i | 0 <= i < |letters[1..]| :: letters[1..][i] == letters[i + 1];
      LettersDoNotCut(st, letters[1..]);
      RunAppend(st, first, Letters(letters[1..]));
      LetterRuns(st, letters[0]);
      assert first[1..] == if letters[0].escaped then [letters[0].c] else [];
      assert [letters[0].c][1..] == [];
    }
  }

  lemma {:induction false} LexemeDoesNotCut(depth: nat, x: Lexeme)
    requires AreLexemes([x]) && (x == Plain(',') ==> depth > 0)
    ensures NoCut(Scan(depth, false, false), Spelling([x]))
  {
    assert [x][0] == x && [x][..0] == [];
    var st := Scan(depth, false, false);
    match x
    case Plain(c) =>
      assert Spelling([x]) == [c] && [c][1..] == [];
    case Literal(letters) =>
      assert Spelling([x]) == ['"'] + Letters(letters) + ['"'];
      RunAppend(st, ['"'] + Letters(letters), ['"']);
      RunAppend(st, ['"'], Letters(letters));
      OneRuns(st, '"');
      LettersRun(st.(quoted := true), letters);
      LettersDoNotCut(st.(quoted := true), letters);
      assert ['"'][1..] == [];
  }

  /** Nothing else separates: text whose every comma outside strings stands in
      an open bracket is one piece. */
  lemma {:induction false} OnlyCommasSeparate(lexemes: seq<Lexeme>)
    requires AreLexemes(lexemes)
    requires forall i | 0 <= i < |lexemes| && lexemes[i] == Plain(',') ::
               exists k | 0 <= k <= i :: Balance(lexemes[k..i]) > 0
    ensures Pieces(NEUTRAL, [], Spelling(lexemes)) == [Spelling(lexemes)]
  {
    hide Balance, Pieces, Run, Spelling;
    NoCutIn(lexemes);
    PiecesNoCut(NEUTRAL, [], Spelling(lexemes));
    assert [] + Spelling(lexemes) == Spelling(lexemes);
  }

  lemma {:induction false} SpellingAppend(init: seq<Lexeme>, x: Lexeme)
    ensures Spelling(init + [x]) == Spelling(init) + Spelling([x])
    ensures Spelling([]) == []
  {
    assert (init + [x])[..|init|] == init && [x][..0] == [];
  }

  lemma {:induction false} NoCutIn(lexemes: seq<Lexeme>)
    requires AreLexemes(lexemes)
    requires forall i | 0 <= i < |lexemes| && lexemes[i] == Plain(',') ::
               exists k | 0 <= k <= i :: Balance(lexemes[k..i]) > 0
    ensures NoCut(NEUTRAL, Spelling(lexemes))
  {
    hide Balance, Spelling;
    if lexemes == [] {
      SpellingAppend([], Plain('x'));
    } else {
      var n := |lexemes| - 1;
      var init, x := lexemes[..n], lexemes[n];
      assert lexemes == init + [x];
      forall i | 0 <= i < n && init[i] == Plain(',') ensures exists k | 0 <= k <= i :: Balance(init[k..i]) > 0 {
        assert lexemes[i] == Plain(',');
        var k :| 0 <= k <= i && Balance(lexemes[k..i]) > 0;
        assert init[k..i] == lexemes[k..i];
      }
      NoCutIn(init);
      var depth := DepthOf(init);
      ScansTo(init, depth);
      if x == Plain(',') {
        var k :| 0 <= k <= n && Balance(lexemes[k..n]) > 0;
        assert init[k..] == lexemes[k..n];
      }
      LexemeDoesNotCut(depth, x);
      SpellingAppend(init, x);
      RunAppend(NEUTRAL, Spelling(init), Spelling([x]));
    }
  }

  // ---- the name ----

  /** A segment is called what stands before its first parenthesis or space. */
  lemma {:induction false} ProjectionNameIs(name: string, rest: string)
    requires forall i | 0 <= i < |name| :: name[i] != '(' && !IsSpace(name[i])
    requires rest == [] || rest[0] == '(' || IsSpace(rest[0])
    ensures ProjectionName(name + rest) == name
  {
    if name == [] {
      assert name + rest == rest;
    } else {
      assert (name + rest)[1..] == name[1..] + rest;
      ProjectionNameIs(name[1..], rest);
    }
  }

  // ---- the line that is written back ----

  predicate EndsTheLine(newline: string) {
    newline == "" || newline == "\n" || newline == "\r\n"
  }

  lemma {:induction false} NewlineGoes(line: string, newline: string)
    requires EndsTheLine(newline) && (line == [] || (line[|line| - 1] != '\n' && line[|line| - 1] != '\r'))
    ensures WithoutNewline(line + newline) == line && NewlineOf(line + newline) == newline
  {
    hide WithoutNewline;
    var all := line + newline;
    WithoutNewlineStep(line);
    WithoutNewlineStep(all);
    if newline == "\n" {
      assert all[..|all| - 1] == line;
      assert line != [] ==> all[|all| - 2] == line[|line| - 1];
    } else if newline == "\r\n" {
      assert all[..|all| - 1] == line + ['\r'];
      WithoutNewlineStep(line + ['\r']);
      assert (line + ['\r'])[..|line|] == line;
      assert all[|all| - 2..] == "\r\n";
    } else {
      assert all == line;
    }
  }

  lemma {:induction false} WithoutNewlineStep(s: string)
    ensures WithoutNewline(s)
            == if s != [] && (s[|s| - 1] == '\r' || s[|s| - 1] == '\n') then WithoutNewline(s[..|s| - 1]) else s
  {
  }

  lemma {:induction false} PartsAre(lead: string, ink: string, comment: string, newline: string)
    requires Blank(lead) && (ink == [] || !IsSpace(ink[0])) && NoComment(lead + ink) && EndsTheLine(newline)
    requires comment == [] || ("//" <= comment && (lead + ink == [] || (lead + ink)[|lead + ink| - 1] != '/'))
    requires
      var line := lead + ink + comment;
      line == [] || (line[|line| - 1] != '\n' && line[|line| - 1] != '\r')
    ensures PartsOf(lead + ink + comment + newline) == Parts(lead + ink, comment, newline)
    ensures IndentOf(lead + ink) == lead
  {
    hide *;
    var code := lead + ink;
    NewlineGoes(code + comment, newline);
    CodeIs(code, comment);
    PartsFrom(code + comment + newline, code, comment, newline);
    IndentIs(lead, ink);
  }

  lemma {:induction false} PartsFrom(original: string, code: string, comment: string, newline: string)
    requires WithoutNewline(original) == code + comment && NewlineOf(original) == newline
    requires CodeOf(code + comment) == code
    ensures PartsOf(original) == Parts(code, comment, newline)
  {
    hide WithoutNewline, NewlineOf, CodeOf;
    assert (code + comment)[|code|..] == comment;
  }

  lemma {:induction false} IndentIs(lead: string, ink: string)
    requires Blank(lead) && (ink == [] || !IsSpace(ink[0]))
    ensures IndentOf(lead + ink) == lead
  {
    hide TrimStart, IsSpace;
    TrimStartSkips(lead, ink);
    assert (lead + ink)[..|lead + ink| - |ink|] == lead;
  }

  /** The line written back, part by part: the indentation, the projections that
      are kept, the comment behind one space, and the newline; without any kept,
      only the comment with its indentation and newline, or nothing. */
  lemma {:induction false} WrittenBack(lead: string, ink: string, comment: string, newline: string, projection: string)
    requires Blank(lead) && (ink == [] || !IsSpace(ink[0])) && NoComment(lead + ink) && EndsTheLine(newline)
    requires comment == [] || ("//" <= comment && (lead + ink == [] || (lead + ink)[|lead + ink| - 1] != '/'))
    requires
      var line := lead + ink + comment;
      line == [] || (line[|line| - 1] != '\n' && line[|line| - 1] != '\r')
    ensures
      var kept := Without(Segments(lead + ink), projection);
      var written := if comment == [] then [] else " " + comment;
      Replacement(lead + ink + comment + newline, projection)
      == if kept == [] then (if comment == [] then [] else lead + comment + newline)
         else lead + "use " + Join(kept, ", ") + written + newline
  {
    hide *;
    PartsAre(lead, ink, comment, newline);
    ReplacementOf(lead + ink + comment + newline, lead, lead + ink, comment, newline, projection);
  }

  lemma {:induction false} ReplacementOf(original: string, lead: string, code: string, comment: string,
                                         newline: string, projection: string)
    requires PartsOf(original) == Parts(code, comment, newline) && IndentOf(code) == lead
    ensures
      var kept := Without(Segments(code), projection);
      var written := if comment == [] then [] else " " + comment;
      Replacement(original, projection)
      == if kept == [] then (if comment == [] then [] else lead + comment + newline)
         else lead + "use " + Join(kept, ", ") + written + newline
  {
    hide PartsOf, IndentOf, Segments, Without, Join;
  }
}
