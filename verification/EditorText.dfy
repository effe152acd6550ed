/** What an editor asks of a line of text: the word under the cursor, and
    whether a typed needle runs through a candidate. */
module EditorText {
  import opened Text

  // ---- the word under the cursor ----

  /** First column of the run of word characters that reaches `column`. */
  function RunStart(line: string, word: char -> bool, column: nat): (start: nat)
    requires column <= |line|
    ensures start <= column && forall i | start <= i < column :: word(line[i])
    ensures start > 0 ==> !word(line[start - 1])
  {
    if column > 0 && word(line[column - 1]) then RunStart(line, word, column - 1) else column
  }

  function RunEnd(line: string, word: char -> bool, column: nat): (end: nat)
    requires column <= |line|
    ensures column <= end <= |line| && forall i | column <= i < end :: word(line[i])
    ensures end < |line| ==> !word(line[end])
    decreases |line| - column
  {
    if column < |line| && word(line[column]) then RunEnd(line, word, column + 1) else column
  }

  /** The run around a column, with the `@` that introduces it. */
  function WordSpan(line: string, word: char -> bool, column: nat): (span: (nat, nat))
    requires column <= |line|
    ensures span.0 <= column <= span.1 <= |line|
  {
    var start := RunStart(line, word, column);
    (if start > 0 && line[start - 1] == '@' then start - 1 else start, RunEnd(line, word, column))
  }

  method WordAt(line: string, word: char -> bool, column: nat) returns (found: string)
    ensures
      var cursor := if column < |line| then column else |line|;
      var span := WordSpan(line, word, cursor);
      found == line[span.0..span.1]
  {
    var cursor := if column < |line| then column else |line|;
    var start := cursor;
    while start > 0 && word(line[start - 1])
      invariant 0 <= start <= cursor && RunStart(line, word, start) == RunStart(line, word, cursor)
    {
      start := start - 1;
    }
    if start > 0 && line[start - 1] == '@' {
      start := start - 1;
    }
    var end := cursor;
    while end < |line| && word(line[end])
      invariant cursor <= end <= |line| && RunEnd(line, word, end) == RunEnd(line, word, cursor)
    {
      end := end + 1;
    }
    if start >= end {
      return "";
    }
    return line[start..end];
  }

  lemma {:induction false} StartIs(line: string, word: char -> bool, start: nat, column: nat)
    requires start <= column <= |line|
    requires forall i | start <= i < column :: word(line[i])
    requires start > 0 ==> !word(line[start - 1])
    ensures RunStart(line, word, column) == start
    decreases column
  {
    if start < column { StartIs(line, word, start, column - 1); }
  }

  lemma {:induction false} EndIs(line: string, word: char -> bool, column: nat, end: nat)
    requires column <= end <= |line|
    requires forall i | column <= i < end :: word(line[i])
    requires end < |line| ==> !word(line[end])
    ensures RunEnd(line, word, column) == end
    decreases |line| - column
  {
    if column < end { EndIs(line, word, column + 1, end); }
  }

  /** The whole word, with the `@` if one stands right in front of it. */
  lemma {:induction false} WordSpanIs(before: string, found: string, after: string, word: char -> bool, column: nat)
    requires forall i | 0 <= i < |found| :: word(found[i])
    requires before == [] || !word(before[|before| - 1])
    requires after == [] || !word(after[0])
    requires |before| <= column <= |before + found|
    ensures
      var span := WordSpan(before + found + after, word, column);
      var marked := before != [] && before[|before| - 1] == '@';
      (before + found + after)[span.0..span.1] == (if marked then "@" else "") + found
  {
    hide RunStart, RunEnd;
    var line, start, end := before + found + after, |before|, |before + found|;
    assert forall i | start <= i < end :: line[i] == found[i - start];
    assert start > 0 ==> line[start - 1] == before[start - 1];
    assert end < |line| ==> line[end] == after[0];
    StartIs(line, word, start, column);
    EndIs(line, word, column, end);
    assert line[start..end] == found;
    if before != [] && before[|before| - 1] == '@' { assert line[start - 1..end] == "@" + found; }
  }

  /** Every column inside a word, at its end or just after its `@`, answers with
      the same word. */
  lemma {:induction false} OneWordOneAnswer(line: string, word: char -> bool, column: nat, other: nat)
    requires column <= |line|
    requires RunStart(line, word, column) <= other <= RunEnd(line, word, column)
    ensures WordSpan(line, word, other) == WordSpan(line, word, column)
  {
    StartIs(line, word, RunStart(line, word, column), other);
    EndIs(line, word, other, RunEnd(line, word, column));
  }

  /** Two columns answer with the same word, or with words that do not
      overlap. */
  lemma {:induction false} WordsDoNotOverlap(line: string, word: char -> bool, column: nat, other: nat)
    requires column <= other <= |line| && !word('@')
    ensures WordSpan(line, word, column) == WordSpan(line, word, other)
            || WordSpan(line, word, column).1 <= WordSpan(line, word, other).0
  {
    if other <= RunEnd(line, word, column) {
      OneWordOneAnswer(line, word, column, other);
    } else {
      var end, start := RunEnd(line, word, column), RunStart(line, word, other);
      assert end < |line| && !word(line[end]);
      assert forall i | start <= i < other :: word(line[i]);
      assert start > end;
    }
  }

  // ---- the fuzzy match ----

  predicate PlacedAt(needle: string, haystack: string, places: seq<nat>) {
    |places| == |needle|
    && (forall i | 0 <= i < |needle| :: places[i] < |haystack| && haystack[places[i]] == needle[i])
    && (forall i, j | 0 <= i < j < |places| :: places[i] < places[j])
  }

  /** Taking every character at its first chance. */
  predicate Greedy(needle: string, haystack: string)
    decreases |haystack|
  {
    needle == []
    || (haystack != []
        && Greedy(if haystack[0] == needle[0] then needle[1..] else needle, haystack[1..]))
  }

  lemma {:induction false} GreedyPlaces(needle: string, haystack: string) returns (places: seq<nat>)
    requires Greedy(needle, haystack)
    ensures PlacedAt(needle, haystack, places)
    decreases |haystack|
  {
    if needle == [] {
      places := [];
    } else {
      var taken := haystack[0] == needle[0];
      var later := GreedyPlaces(if taken then needle[1..] else needle, haystack[1..]);
      var moved := seq(|later|, i requires 0 <= i < |later| => later[i] + 1);
      places := (if taken then [0] else []) + moved;
    }
  }

  lemma {:induction false} PlacedIsGreedy(needle: string, haystack: string, places: seq<nat>)
    requires PlacedAt(needle, haystack, places)
    ensures Greedy(needle, haystack)
    decreases |haystack|
  {
    if needle != [] {
      assert places[0] < |haystack|;
      var taken := haystack[0] == needle[0];
      var later := if taken then places[1..] else places;
      assert forall i | 0 < i < |places| :: places[0] < places[i];
      assert !taken ==> places[0] > 0;
      assert forall i | 0 <= i < |later| :: later[i] >= 1;
      var moved := seq(|later|, i requires 0 <= i < |later| => later[i] - 1);
      PlacedIsGreedy(if taken then needle[1..] else needle, haystack[1..], moved);
    }
  }

  /** The one pass answers whether the needle's characters occur in order at all,
      ASCII case aside. */
  method Subsequence(needle: string, haystack: string) returns (found: bool)
    ensures found <==> exists places :: PlacedAt(Lower(needle), Lower(haystack), places)
  {
    var chars, text := Lower(needle), Lower(haystack);
    var next := 0;
    for at := 0 to |text|
      invariant next <= |chars|
      invariant next == |chars| ==> chars == []
      invariant Greedy(chars, text) == Greedy(chars[next..], text[at..])
    {
      if next < |chars| && chars[next] == text[at] {
        next := next + 1;
        if next == |chars| {
          var places := GreedyPlaces(chars, text);
          return true;
        }
      }
    }
    found := next == |chars|;
    if found {
      var places := GreedyPlaces(chars, text);
    } else {
      forall places ensures !PlacedAt(chars, text, places) {
        if PlacedAt(chars, text, places) { PlacedIsGreedy(chars, text, places); }
      }
    }
  }
}
