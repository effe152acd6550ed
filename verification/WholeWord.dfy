/** Three ways the repository asks whether a text names a word: a report over
    Java sources, the table test over migrations, and the rename itself. They
    agree. */
module WholeWord {
  import opened Text
  import opened IdentifierEdit

  // ---- match positions, as `str::match_indices` enumerates them ----

  function MatchIndices(text: string, name: string, from: nat): seq<nat>
    requires name != [] && from <= |text|
    decreases |text| - from
  {
    match FindFrom(text, name, from)
    case None => []
    case Some(at) => [at] + MatchIndices(text, name, at + |name|)
  }

  /** The report's test, with its own notion of a word character. */
  predicate NamesIdentifier(source: string, name: string, word: char -> bool)
    requires name != []
  {
    exists i | i in MatchIndices(source, name, 0) :: FreeAt(source, name, i, word)
  }

  /** No word character stands on either side. */
  predicate FreeAt(source: string, name: string, i: nat, word: char -> bool) {
    i + |name| <= |source|
    && (i == 0 || !word(source[i - 1])) && (i + |name| == |source| || !word(source[i + |name|]))
  }

  lemma {:induction false} MatchesAreHits(text: string, name: string, from: nat)
    requires name != [] && from <= |text|
    ensures forall i | i in MatchIndices(text, name, from) :: At(text, name, i)
    decreases |text| - from
  {
    var hit := FindFrom(text, name, from);
    if hit.Some? { MatchesAreHits(text, name, hit.value + |name|); }
  }

  lemma {:induction false} EveryWholeIsAMatch(text: string, name: string, from: nat, j: nat)
    requires IsIdentifier(name) && from <= j && WholeAt(text, name, j)
    ensures j in MatchIndices(text, name, from)
    decreases |text| - from
  {
    hide FindFrom, Restarts;
    var hit := FindFrom(text, name, from);
    assert hit.Some? && hit.value <= j;
    if hit.value < j {
      forall d ensures !Restarts(name, d) { IdentifiersDoNotRestart(name, d); }
      NoWholeInside(text, name, hit.value);
      EveryWholeIsAMatch(text, name, hit.value + |name|, j);
    }
  }

  lemma {:induction false} TokensCut(rest: string)
    requires rest != []
    ensures
      var n := FirstTokenLength(rest);
      Tokens(rest) == [rest[..n]] + Tokens(rest[n..])
  {
    hide FirstTokenLength;
  }

  lemma {:induction false} NothingAtEnd(text: string, name: string)
    requires name != []
    ensures Tokens([]) == [] && forall j | |text| <= j :: !WholeAt(text, name, j)
  {
  }

  lemma {:induction false} WholeIffToken(text: string, name: string, i: nat, rest: string)
    requires IsIdentifier(name) && name != [] && i <= |text| && rest == text[i..]
    requires BoundaryBefore(text, i) || BoundaryAfter(text, i)
    ensures (exists j | i <= j :: WholeAt(text, name, j)) <==> name in Tokens(rest)
    decreases |rest|
  {
    hide *;
    if rest != [] {
      var n := FirstTokenLength(rest);
      NextToken(text, i, rest);
      FirstTokenHits(text, name, i, n);
      WholeIffToken(text, name, i + n, rest[n..]);
      TokensCut(rest);
    } else {
      NothingAtEnd(text, name);
    }
  }

  /** `names_identifier` finds exactly the ASCII-whole words that no other word
      character of its own touches. */
  lemma {:induction false} NamesIffFree(source: string, name: string, word: char -> bool)
    requires IsIdentifier(name) && forall c :: IsWordChar(c) ==> word(c)
    ensures NamesIdentifier(source, name, word)
            <==> exists i: nat ::
                   At(source, name, i) && (i == 0 || !word(source[i - 1]))
                   && (i + |name| == |source| || !word(source[i + |name|]))
  {
    MatchesAreHits(source, name, 0);
    forall i: nat | At(source, name, i) && FreeAt(source, name, i, word) ensures WholeAt(source, name, i) {}
    hide MatchIndices, IsWordChar, IsIdentifier;
    if NamesIdentifier(source, name, word) {
      var i :| i in MatchIndices(source, name, 0) && FreeAt(source, name, i, word);
      assert WholeAt(source, name, i);
    }
    if i: nat :| At(source, name, i) && FreeAt(source, name, i, word) {
      EveryWholeIsAMatch(source, name, 0, i);
    }
  }

  /** So it names a word of the text exactly when some occurrence of that word is
      free; over a text whose word characters are ASCII they all are. */
  lemma {:induction false} NamesIffToken(source: string, name: string, word: char -> bool)
    requires IsIdentifier(name) && forall c :: IsWordChar(c) ==> word(c)
    ensures NamesIdentifier(source, name, word) ==> name in Tokens(source)
    ensures (forall c | c in source :: word(c) ==> IsWordChar(c)) ==>
              (NamesIdentifier(source, name, word) <==> name in Tokens(source))
  {
    hide Tokens, IsWordChar, IsIdentifier, NamesIdentifier;
    assert name != [] by { IdentifierIsSome(name); }
    NamesIffFree(source, name, word);
    forall i: nat | At(source, name, i) && FreeAt(source, name, i, word) ensures WholeAt(source, name, i) {}
    if NamesIdentifier(source, name, word) {
      var i: nat :| At(source, name, i) && FreeAt(source, name, i, word);
      assert WholeAt(source, name, i);
    }
    WholeIffToken(source, name, 0, source) by { assert BoundaryBefore(source, 0); assert source[0..] == source; }
  }

  lemma {:induction false} IdentifierIsSome(name: string)
    requires IsIdentifier(name)
    ensures name != []
  {
  }

  // ---- splitting on what is not a word character ----

  function SplitWords(s: string): (parts: seq<string>)
    ensures parts != []
  {
    if s == [] then [[]]
    else
      var rest := SplitWords(s[1..]);
      if !IsWordChar(s[0]) then [[]] + rest
      else [[s[0]] + rest[0]] + rest[1..]
  }

  /** `mentions_table` on bytes that are text: both sides lowered, the text
      split at every non-word character. */
  predicate MentionsTable(text: string, table: string) {
    Lower(table) in SplitWords(Lower(text))
  }

  lemma {:induction false} SplitWordsCons(c: char, s: string)
    ensures SplitWords([c] + s)
            == if IsWordChar(c) then [[c] + SplitWords(s)[0]] + SplitWords(s)[1..] else [[]] + SplitWords(s)
  {
    assert ([c] + s)[1..] == s;
  }

  function PiecesAfterWord(rest: string): seq<string> {
    if rest == [] then [] else SplitWords(rest[1..])
  }

  lemma {:induction false} SplitWordsAfter(word: string, rest: string)
    requires forall i | 0 <= i < |word| :: IsWordChar(word[i])
    requires rest != [] ==> !IsWordChar(rest[0])
    ensures SplitWords(word + rest) == [word] + PiecesAfterWord(rest)
  {
    if word == [] {
      assert word + rest == rest;
    } else {
      SplitWordsAfter(word[1..], rest);
      hide SplitWords, PiecesAfterWord;
      var more := PiecesAfterWord(rest);
      assert word + rest == [word[0]] + (word[1..] + rest);
      SplitWordsCons(word[0], word[1..] + rest);
      assert ([word[1..]] + more)[1..] == more;
      assert [word[0]] + word[1..] == word;
    }
  }

  lemma {:induction false} PieceIffToken(text: string, name: string)
    requires IsIdentifier(name)
    ensures name in SplitWords(text) <==> name in Tokens(text)
    decreases |text|
  {
    if text != [] {
      var n := FirstTokenLength(text);
      var head, rest := text[..n], text[n..];
      assert text == head + rest;
      assert Tokens(text) == [head] + Tokens(rest);
      assert head[0] == text[0];
      if IsWordChar(text[0]) {
        if rest != [] { assert rest[0] == text[n]; }
        SplitWordsAfter(head, rest);
        if rest != [] {
          SplitWordsAfter([], rest);
          assert [] + rest == rest;
          assert SplitWords(rest) == [[]] + SplitWords(rest[1..]);
        }
        PieceIffToken(rest, name);
      } else {
        assert name != head;
        PieceIffToken(rest, name);
      }
    }
  }

  lemma {:induction false} LowerKeepsIdentifiers(name: string)
    ensures IsIdentifier(Lower(name)) <==> IsIdentifier(name)
  {
    forall i | 0 <= i < |name| ensures IsWordChar(Lower(name)[i]) <==> IsWordChar(name[i]) {
    }
  }

  // ---- a rename changes the text exactly when the word is there ----

  lemma {:induction false} RenameMoves(ts: seq<string>, name: string, next: string)
    requires next != name
    ensures name !in ts ==> Substitute(ts, name, next) == ts
    ensures |next| >= |name| ==> |Concat(Substitute(ts, name, next))| >= |Concat(ts)|
    ensures |next| <= |name| ==> |Concat(Substitute(ts, name, next))| <= |Concat(ts)|
    ensures name in ts ==> Concat(Substitute(ts, name, next)) != Concat(ts)
  {
    if ts != [] {
      RenameMoves(ts[1..], name, next);
      var changed := Substitute(ts, name, next);
      var a, b := Concat(changed), Concat(ts);
      assert a == Swap(ts[0], name, next) + Concat(Substitute(ts[1..], name, next));
      assert b == ts[0] + Concat(ts[1..]);
      if |next| == |name| {
        assert a[..|ts[0]|] == Swap(ts[0], name, next) && b[..|ts[0]|] == ts[0];
        assert a[|ts[0]|..] == Concat(Substitute(ts[1..], name, next)) && b[|ts[0]|..] == Concat(ts[1..]);
      }
    }
  }

  lemma {:induction false} LowerStaysAscii(text: string, word: char -> bool)
    requires forall c | c in text :: word(c) ==> IsWordChar(c)
    ensures forall c | c in Lower(text) :: word(c) ==> IsWordChar(c)
  {
    forall c | c in Lower(text) ensures word(c) ==> IsWordChar(c) {
      var i :| 0 <= i < |text| && Lower(text)[i] == c;
      assert text[i] in text;
    }
  }

  /** The three notions are one, for identifiers over ASCII text: the report's
      match test, splitting at non-word characters, and whether renaming to
      anything else changes the text. */
  lemma {:induction false} ThreeNotionsAgree(text: string, name: string, next: string, word: char -> bool)
    requires IsIdentifier(name) && next != name
    requires forall c :: IsWordChar(c) ==> word(c)
    requires forall c | c in text :: word(c) ==> IsWordChar(c)
    ensures NamesIdentifier(text, name, word) <==> name in SplitWords(text)
    ensures NamesIdentifier(text, name, word) <==> Scanned(text, name, next, 0) != text
    ensures MentionsTable(text, name) <==> NamesIdentifier(Lower(text), Lower(name), word)
  {
    LowerStaysAscii(text, word);
    NamesIffToken(text, name, word);
    PieceIffToken(text, name);
    ScanIsRename(text, name, next);
    RenameMoves(Tokens(text), name, next);
    LowerKeepsIdentifiers(name);
    NamesIffToken(Lower(text), Lower(name), word);
    PieceIffToken(Lower(text), Lower(name));
  }
}
