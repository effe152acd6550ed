/** Where a line's comment starts, for a reader that knows about strings. */
module CommentCut {
  import opened Text
  import opened Projections

  /** First `//` at or after `at` that does not stand in a string. */
  function CutFrom(line: string, st: Scan, at: nat): (cut: nat)
    requires at <= |line|
    ensures at <= cut <= |line|
    decreases |line| - at
  {
    if at == |line| || (!st.quoted && At(line, "//", at)) then at
    else CutFrom(line, Step(st, line[at]), at + 1)
  }

  function StringAwareCode(line: string): string {
    line[..CutFrom(line, NEUTRAL, 0)]
  }

  lemma {:induction false} RunLast(st: Scan, s: string, c: char)
    ensures Run(st, s + [c]) == Step(Run(st, s), c)
  {
    RunAppend(st, s, [c]);
    assert [c][1..] == [];
  }

  lemma {:induction false} CutFromReaches(line: string, at: nat, code: string)
    requires code == CodeOf(line) && at <= |code|
    ensures
      var cut := CutFrom(line, Run(NEUTRAL, line[..at]), at);
      cut == |code| <==> code == line || !Run(NEUTRAL, code).quoted
    ensures CutFrom(line, Run(NEUTRAL, line[..at]), at) >= |code|
    ensures CutFrom(line, Run(NEUTRAL, line[..at]), at) == CutFrom(line, Run(NEUTRAL, code), |code|)
    decreases |code| - at
  {
    if at == |code| {
      assert line[..at] == code;
    } else {
      assert !At(line, "//", at) by { NoSlashesBefore(line, at); }
      assert line[..at + 1] == line[..at] + [line[at]];
      RunLast(NEUTRAL, line[..at], line[at]);
      CutFromReaches(line, at + 1, code);
    }
  }

  lemma {:induction false} NoSlashesBefore(line: string, at: nat)
    requires at < |CodeOf(line)|
    ensures !At(line, "//", at)
  {
  }

  /** The first `//` does not stand in a string. */
  predicate Unquoted(line: string) {
    CodeOf(line) == line || !Run(NEUTRAL, CodeOf(line)).quoted
  }

  /** Cutting at the first `//` is right exactly when that `//` does not stand in
      a string. */
  lemma {:induction false} CutIsAwareIffNotQuoted(line: string)
    ensures CodeOf(line) == StringAwareCode(line)
            <==> Unquoted(line)
    ensures CodeOf(line) <= StringAwareCode(line)
  {
    var code := CodeOf(line);
    assert line[..0] == [];
    CutFromReaches(line, 0, code);
  }

  // ---- reading on ----

  /** The text that is still code, read on from `st`. */
  function Upto(st: Scan, text: string): string {
    text[..CutFrom(text, st, 0)]
  }

  lemma {:induction false} CutFromTail(head: string, text: string, st: Scan, at: nat)
    requires at <= |text|
    ensures CutFrom(head + text, st, |head| + at) == |head| + CutFrom(text, st, at)
    decreases |text| - at
  {
    SlashesAt(head + text, |head| + at);
    SlashesAt(text, at);
    assert at < |text| ==> (head + text)[|head| + at] == text[at];
    assert at + 1 < |text| ==> (head + text)[|head| + at + 1] == text[at + 1];
    hide At;
    if at < |text| { CutFromTail(head, text, Step(st, text[at]), at + 1); }
  }

  /** A text in front without an open comment is read over. */
  lemma {:induction false} CutFromAppend(head: string, text: string, st: Scan, at: nat)
    requires at <= |head| && (head == [] || head[|head| - 1] != '/' || text == [] || text[0] != '/')
    ensures
      var cut := CutFrom(head, st, at);
      CutFrom(head + text, st, at)
      == if cut < |head| then cut else |head| + CutFrom(text, Run(st, head[at..]), 0)
    decreases |head| - at
  {
    SlashesAt(head + text, at);
    SlashesAt(head, at);
    assert at < |head| ==> (head + text)[at] == head[at];
    assert at + 1 < |head| ==> (head + text)[at + 1] == head[at + 1];
    assert at + 1 == |head| && text != [] ==> (head + text)[at + 1] == text[0];
    hide At;
    if at == |head| {
      CutFromTail(head, text, st, 0);
    } else if !(!st.quoted && At(head, "//", at)) {
      CutFromAppend(head, text, Step(st, head[at]), at + 1);
      assert head[at..][0] == head[at] && head[at..][1..] == head[at + 1..];
    }
  }

  /** Text without a `//` is all code. */
  lemma {:induction false} NoCommentNoCut(text: string, st: Scan, at: nat)
    requires at <= |text| && NoComment(text)
    ensures CutFrom(text, st, at) == |text|
    decreases |text| - at
  {
    SlashesAt(text, at);
    if at < |text| { NoCommentNoCut(text, Step(st, text[at]), at + 1); }
  }
}
