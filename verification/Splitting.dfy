/** What it means to be a piece of a split text: a stretch without a separator,
    between two of them or the ends. */
module Splitting {
  import opened Text
  import opened IdentifierEdit
  import opened WholeWord

  function SplitBy(s: string, cut: char -> bool): (parts: seq<string>)
    ensures parts != []
  {
    if s == [] then [[]]
    else
      var rest := SplitBy(s[1..], cut);
      if cut(s[0]) then [[]] + rest else [[s[0]] + rest[0]] + rest[1..]
  }

  ghost predicate PieceAt(s: string, p: string, i: nat, cut: char -> bool) {
    i + |p| <= |s| && s[i..i + |p|] == p && (forall k | 0 <= k < |p| :: !cut(p[k]))
    && (i == 0 || cut(s[i - 1])) && (i + |p| == |s| || cut(s[i + |p|]))
  }

  lemma {:induction false} FirstPiece(s: string, cut: char -> bool)
    ensures PieceAt(s, SplitBy(s, cut)[0], 0, cut)
  {
    if s != [] && !cut(s[0]) {
      FirstPiece(s[1..], cut);
      var first := SplitBy(s[1..], cut)[0];
      assert s[..1 + |first|] == [s[0]] + s[1..][..|first|];
    }
  }

  lemma {:induction false} OnePieceAtStart(s: string, p: string, q: string, cut: char -> bool)
    requires PieceAt(s, p, 0, cut) && PieceAt(s, q, 0, cut)
    ensures p == q
  {
    assert forall k | 0 <= k < |p| :: s[k] == s[0..|p|][k] == p[k];
    assert forall k | 0 <= k < |q| :: s[k] == s[0..|q|][k] == q[k];
  }

  lemma {:induction false} ShiftPiece(s: string, p: string, i: nat, cut: char -> bool)
    requires s != []
    ensures PieceAt(s, p, i + 1, cut)
            <==> PieceAt(s[1..], p, i, cut) && (i == 0 ==> cut(s[0]))
  {
    if i + 1 + |p| <= |s| { assert s[i + 1..i + 1 + |p|] == s[1..][i..i + |p|]; }
  }

  lemma {:induction false} LaterPieces(s: string, p: string, cut: char -> bool)
    ensures p in SplitBy(s, cut)[1..] <==> exists i: nat | i > 0 :: PieceAt(s, p, i, cut)
  {
    if s != [] {
      var t, parts := s[1..], SplitBy(s[1..], cut);
      LaterPieces(t, p, cut);
      FirstPiece(t, cut);
      forall i: nat ensures PieceAt(s, p, i + 1, cut) <==> PieceAt(t, p, i, cut) && (i == 0 ==> cut(s[0])) {
        ShiftPiece(s, p, i, cut);
      }
      if PieceAt(t, p, 0, cut) { OnePieceAtStart(t, p, parts[0], cut); }
      assert p in parts <==> p == parts[0] || p in parts[1..];
      assert SplitBy(s, cut)[1..] == if cut(s[0]) then parts else parts[1..];
      hide PieceAt, SplitBy;
      if i: nat :| i > 0 && PieceAt(s, p, i, cut) {
        assert PieceAt(s, p, (i - 1) + 1, cut);
        assert PieceAt(t, p, i - 1, cut);
      }
      if i: nat :| PieceAt(t, p, i, cut) && (i == 0 ==> cut(s[0])) {
        assert PieceAt(s, p, i + 1, cut);
      }
    }
  }

  /** The pieces are exactly the stretches that stand so. */
  lemma {:induction false} PiecesStand(s: string, p: string, cut: char -> bool)
    ensures p in SplitBy(s, cut) <==> exists i: nat :: PieceAt(s, p, i, cut)
  {
    LaterPieces(s, p, cut);
    FirstPiece(s, cut);
    var parts := SplitBy(s, cut);
    if PieceAt(s, p, 0, cut) { OnePieceAtStart(s, p, parts[0], cut); }
    assert p in parts <==> p == parts[0] || p in parts[1..];
  }

  lemma {:induction false} SplitCharIs(s: string, c: char, cut: char -> bool)
    requires forall x :: cut(x) <==> x == c
    ensures SplitChar(s, c) == SplitBy(s, cut)
  {
    if s != [] { SplitCharIs(s[1..], c, cut); }
  }

  lemma {:induction false} SplitWordsIs(s: string, cut: char -> bool)
    requires forall x :: cut(x) <==> !IsWordChar(x)
    ensures SplitWords(s) == SplitBy(s, cut)
  {
    if s != [] { SplitWordsIs(s[1..], cut); }
  }

  // ---- lines ----

  /** The text between two line feeds, or an end of the text. */
  ghost predicate IsLine(text: string, line: string) {
    '\n' !in line && exists i: nat :: LineAt(text, line, i)
  }

  ghost predicate LineAt(text: string, line: string, i: nat) {
    i + |line| <= |text| && text[i..i + |line|] == line
    && (i == 0 || text[i - 1] == '\n') && (i + |line| == |text| || text[i + |line|] == '\n')
  }

  lemma {:induction false} LinesAre(text: string, line: string)
    ensures line in SplitChar(text, '\n') <==> IsLine(text, line)
  {
    var cut := x => x == '\n';
    SplitCharIs(text, '\n', cut);
    PiecesStand(text, line, cut);
    hide SplitBy, SplitChar;
    forall i: nat ensures PieceAt(text, line, i, cut) <==> '\n' !in line && LineAt(text, line, i) {}
  }

  // ---- names of tables ----

  /** The name stands in the text, ASCII case aside, and no word character
      touches it. */
  ghost predicate Names(text: string, table: string) {
    (forall k | 0 <= k < |table| :: InWord(table[k])) && exists i: nat :: NamedAt(text, table, i)
  }

  /** The same character, or the same letter in the other case: 32 code points
      apart. */
  predicate SameLetter(a: char, b: char) {
    a == b || ('A' <= a <= 'Z' && b as int == a as int + 32) || ('A' <= b <= 'Z' && a as int == b as int + 32)
  }

  ghost predicate NamedAt(text: string, table: string, i: nat) {
    i + |table| <= |text| && (forall k | 0 <= k < |table| :: SameLetter(text[i + k], table[k]))
    && (i == 0 || !InWord(text[i - 1])) && (i + |table| == |text| || !InWord(text[i + |table|]))
  }

  lemma {:induction false} MentionsIffNames(text: string, table: string)
    ensures MentionsTable(text, table) <==> Names(text, table)
  {
    var cut := x => !IsWordChar(x);
    SplitWordsIs(Lower(text), cut);
    PiecesStand(Lower(text), Lower(table), cut);
    hide SplitBy, SplitWords;
    forall i: nat
      ensures PieceAt(Lower(text), Lower(table), i, cut)
              <==> (forall k | 0 <= k < |table| :: InWord(table[k])) && NamedAt(text, table, i)
    {
      NamedIffPiece(text, table, i, cut);
    }
  }

  lemma {:induction false} SameWordChars(c: char)
    ensures InWord(c) <==> IsWordChar(LowerChar(c))
  {
  }

  lemma {:induction false} LettersAgree(a: char, b: char)
    ensures SameLetter(a, b) <==> LowerChar(a) == LowerChar(b)
  {
  }

  lemma {:induction false} NamedIffPiece(text: string, table: string, i: nat, cut: char -> bool)
    requires forall x :: cut(x) <==> !IsWordChar(x)
    ensures PieceAt(Lower(text), Lower(table), i, cut)
            <==> (forall k | 0 <= k < |table| :: InWord(table[k])) && NamedAt(text, table, i)
  {
    var low, name := Lower(text), Lower(table);
    hide InWord, IsWordChar, LowerChar;
    forall c ensures InWord(c) <==> IsWordChar(LowerChar(c)) { SameWordChars(c); }
    assert forall k | 0 <= k < |table| :: name[k] == LowerChar(table[k]);
    assert (forall k | 0 <= k < |table| :: InWord(table[k])) <==> forall k | 0 <= k < |name| :: !cut(name[k]);
    if i + |table| <= |text| {
      forall a, b ensures SameLetter(a, b) <==> LowerChar(a) == LowerChar(b) { LettersAgree(a, b); }
      var part := low[i..i + |table|];
      assert forall k | 0 <= k < |part| :: part[k] == LowerChar(text[i + k]);
      assert i > 0 ==> low[i - 1] == LowerChar(text[i - 1]);
    }
  }
}
