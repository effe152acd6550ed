/** Setting one `@name(value)` annotation of a declaration line. */
module Annotations {
  import opened Text

  function Opening(name: string): string {
    "@" + name + "("
  }

  /** Past the last character before the first `//`, in a string or not, or before
      the line's trailing white space. */
  function InsertionPoint(line: string): (at: nat)
    ensures at <= |line|
  {
    var end := match Find(line, "//") case Some(i) => i case None => |TrimEnd(line)|;
    |TrimEnd(line[..end])|
  }

  /** Where the value of the first `@name(` stands, when that is closed. */
  function Place(line: string, name: string): (r: Option<(nat, nat)>)
    ensures r.Some? ==> r.value.0 <= r.value.1 <= |line|
  {
    match Find(line, Opening(name))
    case None => None
    case Some(s) =>
      var start := s + |Opening(name)|;
      match FindChar(line[start..], ')')
      case None => None
      case Some(e) => Some((start, start + e))
  }

  function SetAnnotation(line: string, name: string, value: string): string {
    match Place(line, name)
    case Some((start, end)) => line[..start] + value + line[end..]
    case None =>
      var at := InsertionPoint(line);
      line[..at] + (" " + Opening(name) + value + ")") + line[at..]
  }

  /** What a reader that takes the first `@name(` and the first `)` after it
      sees. */
  function Annotation(line: string, name: string): Option<string> {
    match Place(line, name)
    case None => None
    case Some((start, end)) => Some(line[start..end])
  }

  /** No annotation of that name is left open in the code of the line. */
  predicate CanHold(line: string, name: string) {
    Place(line, name).Some?
    || Find(line, Opening(name)).None?
    || Find(line, Opening(name)).value >= InsertionPoint(line)
  }

  predicate Solid(text: string) {
    forall i | 0 <= i < |text| :: !IsSpace(text[i]) && text[i] != '/'
  }

  lemma {:induction false} OpeningIsSolid(name: string)
    requires IsIdentifier(name)
    ensures Solid(Opening(name)) && Opening(name) != []
  {
  }

  lemma {:induction false} SolidWhereFound(text: string, pat: string, s: nat)
    requires Solid(pat) && At(text, pat, s)
    ensures forall k | s <= k < s + |pat| :: !IsSpace(text[k]) && text[k] != '/'
  {
    assert forall k | s <= k < s + |pat| :: text[k] == text[s..s + |pat|][k - s];
  }

  /** White space or a slash stands at the insertion point. */
  lemma {:induction false} InsertionPointIsOpen(line: string)
    ensures
      var at := InsertionPoint(line);
      at < |line| ==> IsSpace(line[at]) || line[at] == '/'
  {
    var found, at := Find(line, "//"), InsertionPoint(line);
    var end := match found case Some(i) => i case None => |TrimEnd(line)|;
    assert forall k | at <= k < end :: line[k] == line[..end][at..][k - at];
    assert found.Some? ==> line[end] == line[end..end + 2][0];
    assert forall k | |TrimEnd(line)| <= k < |line| :: line[k] == line[|TrimEnd(line)|..][k - |TrimEnd(line)|];
  }

  /** No opening reaches over the insertion point. */
  lemma {:induction false} NothingStraddles(line: string, name: string, s: nat)
    requires IsIdentifier(name) && At(line, Opening(name), s) && s < InsertionPoint(line)
    ensures s + |Opening(name)| <= InsertionPoint(line)
  {
    hide InsertionPoint, Opening;
    OpeningIsSolid(name);
    InsertionPointIsOpen(line);
    SolidWhereFound(line, Opening(name), s);
  }

  // ---- what stands around the value ----

  function Before(line: string, name: string): string {
    match Place(line, name)
    case Some((start, _)) => line[..start]
    case None => line[..InsertionPoint(line)] + (" " + Opening(name))
  }

  function After(line: string, name: string): string {
    match Place(line, name)
    case Some((_, end)) => line[end..]
    case None => ")" + line[InsertionPoint(line)..]
  }

  lemma {:induction false} FrameOfPlace(line: string, name: string, value: string)
    requires Place(line, name).Some?
    ensures SetAnnotation(line, name, value) == Before(line, name) + value + After(line, name)
    ensures line == Before(line, name) + Annotation(line, name).value + After(line, name)
  {
    hide Place;
    var (start, end) := Place(line, name).value;
    SliceCut(line, 0, start, end);
    SliceCut(line, 0, end, |line|);
  }

  /** Where a value goes does not depend on the value, and what surrounds it is
      the line's own text: all of it but the value it had, or all of it. */
  lemma {:induction false} Frame(line: string, name: string, value: string)
    ensures SetAnnotation(line, name, value) == Before(line, name) + value + After(line, name)
    ensures match Annotation(line, name)
            case Some(was) => line == Before(line, name) + was + After(line, name)
            case None =>
              Before(line, name) == line[..InsertionPoint(line)] + (" " + Opening(name))
              && After(line, name) == ")" + line[InsertionPoint(line)..]
  {
    if Place(line, name).None? {
      hide Place, InsertionPoint, Opening;
      Inserted(line, InsertionPoint(line), Opening(name), value);
    } else {
      hide Place, InsertionPoint, Opening, SetAnnotation, Before, After;
      FrameOfPlace(line, name, value);
    }
  }

  lemma {:induction false} Inserted(line: string, at: nat, opening: string, value: string)
    requires at <= |line|
    ensures line[..at] + (" " + opening + value + ")") + line[at..]
            == (line[..at] + (" " + opening)) + value + (")" + line[at..])
  {
  }

  lemma {:induction false} AfterCloses(line: string, name: string)
    ensures After(line, name) != [] && After(line, name)[0] == ')'
  {
    hide InsertionPoint, Opening, Find, FindFrom;
  }

  /** `a` ends with an opening, and holds none before it. */
  ghost predicate OpensAtEnd(a: string, opening: string) {
    |opening| <= |a| && forall rest :: Find(a + rest, opening) == Some(|a| - |opening|)
  }

  lemma {:induction false} SameBefore(text: string, line: string, pat: string, at: nat, j: nat)
    requires at <= |line| && line[..at] <= text && j + |pat| <= at
    ensures At(text, pat, j) == At(line, pat, j)
  {
    assert text[..at] == line[..at];
    assert text[j..j + |pat|] == text[..at][j..j + |pat|];
    assert line[j..j + |pat|] == line[..at][j..j + |pat|];
  }

  lemma {:induction false} KeepsFirst(line: string, opening: string, s: nat)
    requires Find(line, opening) == Some(s)
    ensures s + |opening| <= |line| && OpensAtEnd(line[..s + |opening|], opening)
  {
    hide Find, FindFrom;
    var a := line[..s + |opening|];
    forall rest ensures Find(a + rest, opening) == Some(s) {
      forall j | 0 <= j < s ensures !At(a + rest, opening, j) { SameBefore(a + rest, line, opening, |a|, j); }
      SameBefore(a + rest, line, opening, |a|, s);
      FindIs(a + rest, opening, s);
    }
  }

  lemma {:induction false} ClearOfBlank(text: string, pat: string, at: nat, j: nat)
    requires Solid(pat) && at < |text| && text[at] == ' ' && j <= at && At(text, pat, j)
    ensures j + |pat| <= at
  {
    SolidWhereFound(text, pat, j);
  }

  lemma {:induction false} AddedOpens(line: string, at: nat, opening: string)
    requires at <= |line| && Solid(opening) && opening != []
    requires Find(line, opening).None? || Find(line, opening).value >= at
    ensures OpensAtEnd(line[..at] + (" " + opening), opening)
  {
    hide Find, FindFrom;
    var a := line[..at] + (" " + opening);
    forall rest ensures Find(a + rest, opening) == Some(at + 1) {
      AddedAt(line[..at], opening, rest);
      forall j | 0 <= j < at + 1 ensures !At(a + rest, opening, j) {
        if j + |opening| <= at {
          SameBefore(a + rest, line, opening, at, j);
        } else if At(a + rest, opening, j) {
          ClearOfBlank(a + rest, opening, at, j);
        }
      }
      FindIs(a + rest, opening, at + 1);
    }
  }

  lemma {:induction false} AddedAt(head: string, opening: string, rest: string)
    ensures
      var t := head + (" " + opening) + rest;
      head <= t && t[|head|] == ' ' && At(t, opening, |head| + 1)
  {
    var t := head + (" " + opening) + rest;
    assert t[..|head|] == head;
    assert t[|head| + 1..|head| + 1 + |opening|] == opening;
  }

  lemma {:induction false} BeforeOpens(line: string, name: string)
    requires IsIdentifier(name) && CanHold(line, name)
    ensures OpensAtEnd(Before(line, name), Opening(name))
  {
    hide Find, FindFrom, FindChar, InsertionPoint, Opening, OpensAtEnd;
    OpeningIsSolid(name);
    if Place(line, name).Some? {
      KeepsFirst(line, Opening(name), Find(line, Opening(name)).value);
    } else {
      AddedOpens(line, InsertionPoint(line), Opening(name));
    }
  }

  // ---- the two cases in full ----

  lemma {:induction false} PlaceIs(before: string, name: string, was: string, after: string)
    requires ')' !in was
    requires
      var line := before + ("@" + name + "(") + (was + ")" + after);
      forall i | 0 <= i < |before| :: !At(line, "@" + name + "(", i)
    ensures
      var start := |before| + |name| + 2;
      Place(before + ("@" + name + "(") + (was + ")" + after), name) == Some((start, start + |was|))
  {
    hide *;
    OpeningIs(name);
    PlaceBehind(before, name, "@" + name + "(", was, after);
  }

  lemma {:induction false} PlaceBehind(before: string, name: string, opening: string, was: string, after: string)
    requires opening == Opening(name) && ')' !in was
    requires forall i | 0 <= i < |before| :: !At(before + opening + (was + ")" + after), opening, i)
    ensures Place(before + opening + (was + ")" + after), name)
            == Some((|before| + |opening|, |before| + |opening| + |was|))
  {
    hide *;
    var rest := was + ")" + after;
    FoundBehind(before, opening, rest);
    ClosedBehind(was, after);
    PlaceFrom(before + opening + rest, name, |before|, |was|);
  }

  lemma {:induction false} FoundBehind(before: string, opening: string, rest: string)
    requires forall i | 0 <= i < |before| :: !At(before + opening + rest, opening, i)
    ensures Find(before + opening + rest, opening) == Some(|before|)
    ensures (before + opening + rest)[|before| + |opening|..] == rest
  {
    hide *;
    Mid(before, opening, rest);
    IsAt(before + opening + rest, opening, |before|);
    FindIs(before + opening + rest, opening, |before|);
  }

  lemma {:induction false} ClosedBehind(was: string, after: string)
    requires ')' !in was
    ensures FindChar(was + ")" + after, ')') == Some(|was|)
  {
    hide *;
    FindAt(was, ')', after);
    assert was + [')'] + after == was + ")" + after;
  }

  lemma {:induction false} IsAt(line: string, pat: string, i: nat)
    requires i + |pat| <= |line| && line[i..i + |pat|] == pat
    ensures At(line, pat, i)
  {
  }

  lemma {:induction false} OpeningIs(name: string)
    ensures Opening(name) == "@" + name + "(" && |Opening(name)| == |name| + 2
  {
  }

  lemma {:induction false} PlaceFrom(line: string, name: string, s: nat, n: nat)
    requires Find(line, Opening(name)) == Some(s)
    requires s + |Opening(name)| <= |line| && FindChar(line[s + |Opening(name)|..], ')') == Some(n)
    ensures Place(line, name) == Some((s + |Opening(name)|, s + |Opening(name)| + n))
  {
    hide Find, FindChar, Opening;
  }

  /** The first `@name(` of a line, when it is closed, gets the value in place of
      the one it had, and nothing else changes. */
  lemma {:induction false} ReplacesValue(before: string, name: string, was: string, after: string, value: string)
    requires ')' !in was
    requires
      var line := before + ("@" + name + "(") + (was + ")" + after);
      forall i | 0 <= i < |before| :: !At(line, "@" + name + "(", i)
    ensures SetAnnotation(before + ("@" + name + "(") + (was + ")" + after), name, value)
            == before + ("@" + name + "(") + (value + ")" + after)
  {
    hide Place, InsertionPoint, Opening;
    PlaceIs(before, name, was, after);
    var opening, rest := "@" + name + "(", was + ")" + after;
    var line := before + opening + rest;
    var start := |before| + |name| + 2;
    assert line[..start] == before + opening;
    assert line[start + |was|..] == ")" + after;
    assert before + opening + value + (")" + after) == before + opening + (value + ")" + after);
  }

  lemma {:induction false} InsertionPointIs(code: string, gap: string, comment: string)
    requires (code != [] ==> !IsSpace(code[|code| - 1])) && Blank(gap)
    requires forall i | 0 <= i < |code| - 1 :: !(code[i] == '/' && code[i + 1] == '/')
    requires comment == [] || ("//" <= comment && (gap != [] || code == [] || code[|code| - 1] != '/'))
    ensures InsertionPoint(code + gap + comment) == |code|
  {
    hide Find, FindFrom, IsSpace, TrimEnd, At;
    var line, end := code + gap + comment, |code + gap|;
    NoSlashesBefore(code, gap, comment);
    TrimEndSkips(code, gap);
    assert line[..end] == code + gap;
    if comment == [] {
      assert line == code + gap;
      NoneAtEnd(line);
      assert line[..|code|] == code;
      TrimEndSkips(code, []);
      assert code + [] == code;
      InsertionPointFrom(line, None);
    } else {
      assert line[end..end + 2] == comment[..2];
      IsAt(line, "//", end);
      FindIs(line, "//", end);
      InsertionPointFrom(line, Some(end));
    }
  }

  lemma {:induction false} InsertionPointFrom(line: string, found: Option<nat>)
    requires Find(line, "//") == found && (found.Some? ==> found.value <= |line|)
    ensures InsertionPoint(line)
            == |TrimEnd(line[..if found.Some? then found.value else |TrimEnd(line)|])|
  {
    hide Find, TrimEnd;
  }

  lemma {:induction false} NoneAtEnd(line: string)
    requires forall i: nat | i < |line| :: !At(line, "//", i)
    ensures Find(line, "//") == None
  {
    hide FindFrom;
  }

  lemma {:induction false} NoSlashesBefore(code: string, gap: string, comment: string)
    requires Blank(gap)
    requires forall i | 0 <= i < |code| - 1 :: !(code[i] == '/' && code[i + 1] == '/')
    requires comment == [] || ("//" <= comment && (gap != [] || code == [] || code[|code| - 1] != '/'))
    ensures forall i: nat | i < |code + gap| :: !At(code + gap + comment, "//", i)
  {
    hide IsSpace;
    var line, end := code + gap + comment, |code + gap|;
    NoBlankSlash(gap);
    assert forall k | |code| <= k < end :: line[k] == gap[k - |code|];
    assert forall k | 0 <= k < |code| :: line[k] == code[k];
    forall i: nat | i < end ensures !At(line, "//", i) {
      if i + 2 <= |line| { assert line[i..i + 2] == [line[i], line[i + 1]]; }
    }
  }

  lemma {:induction false} NoBlankSlash(gap: string)
    requires Blank(gap)
    ensures forall k | 0 <= k < |gap| :: gap[k] != '/'
  {
  }

  /** A line without a closed annotation of that name gets one right behind its
      code: before the white space in front of the first `//`, or of the line's
      end. */
  lemma {:induction false} InsertsBehindCode(code: string, gap: string, comment: string, name: string, value: string)
    requires (code != [] ==> !IsSpace(code[|code| - 1])) && Blank(gap)
    requires forall i | 0 <= i < |code| - 1 :: !(code[i] == '/' && code[i + 1] == '/')
    requires comment == [] || ("//" <= comment && (gap != [] || code == [] || code[|code| - 1] != '/'))
    requires Place(code + gap + comment, name).None?
    ensures SetAnnotation(code + gap + comment, name, value)
            == code + (" @" + name + "(" + value + ")") + (gap + comment)
  {
    hide Place, InsertionPoint;
    InsertionPointIs(code, gap, comment);
    var line := code + gap + comment;
    assert line[..|code|] == code && line[|code|..] == gap + comment;
    assert " " + ("@" + name + "(") + value + ")" == " @" + name + "(" + value + ")";
  }

  // ---- reading back ----

  lemma {:induction false} PlaceInFrame(a: string, name: string, value: string, b: string)
    requires OpensAtEnd(a, Opening(name)) && b != [] && b[0] == ')'
    ensures FindChar(value + b, ')').Some?
    ensures Place(a + value + b, name) == Some((|a|, |a| + FindChar(value + b, ')').value))
  {
    hide Find, FindFrom, FindChar, Opening;
    var line := a + value + b;
    assert line == a + (value + b);
    assert Find(a + (value + b), Opening(name)) == Some(|a| - |Opening(name)|);
    assert line[|a|..] == value + b;
    assert (value + b)[|value|] == ')';
  }

  lemma {:induction false} FirstParen(value: string, b: string)
    requires b != [] && b[0] == ')'
    ensures
      var found := FindChar(value + b, ')');
      found.Some? && (found.value == |value| <==> ')' !in value) && found.value <= |value|
  {
    hide FindChar;
    var t := value + b;
    assert t[|value|] == ')';
    var found := FindChar(t, ')');
    assert found.value <= |value| by { assert ')' !in t[..found.value]; BeforeParen(t, found.value, |value|); }
    assert t[..|value|] == value;
    if found.value < |value| { assert value[found.value] == ')'; }
  }

  lemma {:induction false} BeforeParen(t: string, found: nat, at: nat)
    requires found <= |t| && at < |t| && t[at] == ')' && ')' !in t[..found]
    ensures found <= at
  {
    assert forall k | 0 <= k < found :: t[k] == t[..found][k];
  }

  /** An opening that is never closed swallows what is inserted after it. */
  lemma {:induction false} OpenSwallows(line: string, name: string, value: string)
    requires IsIdentifier(name) && !CanHold(line, name)
    ensures Annotation(SetAnnotation(line, name, value), name) != Some(value)
  {
    hide Find, FindFrom, FindChar, InsertionPoint, Opening, OpensAtEnd, Solid;
    var opening, at := Opening(name), InsertionPoint(line);
    var s := Find(line, opening).value;
    var n := s + |opening|;
    NothingStraddles(line, name, s);
    KeepsFirst(line, opening, s);
    var a, between, b := line[..n], line[n..at] + (" " + opening), ")" + line[at..];
    Inserted(line, at, opening, value);
    SliceCut(line, 0, n, at);
    assert SetAnnotation(line, name, value) == a + (between + value) + b;
    PlaceInFrame(a, name, between + value, b);
    FirstParen(between + value, b);
    NoParenBetween(line, name, n, at);
    TooLong(a, between, value, b, FindChar(between + value + b, ')').value);
  }

  lemma {:induction false} NoParenBetween(line: string, name: string, n: nat, at: nat)
    requires IsIdentifier(name) && n <= at <= |line| && ')' !in line[n..]
    ensures ')' !in line[n..at] + (" " + Opening(name))
  {
    assert forall k | n <= k < at :: line[k] == line[n..][k - n];
  }

  lemma {:induction false} TooLong(a: string, between: string, value: string, b: string, e: nat)
    requires between != [] && ')' !in between && e <= |between + value|
    requires ')' !in value ==> e == |between + value|
    requires ')' !in (between + value + b)[..e]
    ensures (a + (between + value) + b)[|a|..|a| + e] != value
  {
    assert (a + (between + value) + b)[|a|..|a| + e] == (between + value + b)[..e];
  }

  lemma {:induction false} ReadFramed(a: string, name: string, value: string, b: string)
    requires OpensAtEnd(a, Opening(name)) && b != [] && b[0] == ')'
    ensures Annotation(a + value + b, name) == Some(value) <==> ')' !in value
  {
    hide FindChar, OpensAtEnd, Opening;
    PlaceInFrame(a, name, value, b);
    FirstParen(value, b);
    var e := FindChar(value + b, ')').value;
    assert (a + value + b)[|a|..|a| + e] == value[..e];
    assert value[..|value|] == value;
  }

  /** Exactly when what was set is what is read: the value does not close the
      annotation early, and no annotation of that name was left open. */
  lemma {:induction false} SetReadsBack(line: string, name: string, value: string)
    requires IsIdentifier(name)
    ensures Annotation(SetAnnotation(line, name, value), name) == Some(value)
            <==> ')' !in value && CanHold(line, name)
  {
    hide SetAnnotation, Annotation, CanHold, Before, After, OpensAtEnd;
    if CanHold(line, name) {
      Frame(line, name, value);
      AfterCloses(line, name);
      BeforeOpens(line, name);
      ReadFramed(Before(line, name), name, value, After(line, name));
    } else {
      OpenSwallows(line, name, value);
    }
  }

  /** The last value set is the one that stays, and nothing of the first is
      left. */
  lemma {:induction false} LastSetWins(line: string, name: string, first: string, second: string)
    requires IsIdentifier(name) && CanHold(line, name) && ')' !in first
    ensures SetAnnotation(SetAnnotation(line, name, first), name, second) == SetAnnotation(line, name, second)
  {
    hide SetAnnotation, Annotation, CanHold, Before, After, OpensAtEnd;
    Frame(line, name, first);
    Frame(line, name, second);
    AfterCloses(line, name);
    BeforeOpens(line, name);
    SetFramed(Before(line, name), name, first, second, After(line, name));
  }

  lemma {:induction false} SetFramed(a: string, name: string, first: string, second: string, b: string)
    requires OpensAtEnd(a, Opening(name)) && b != [] && b[0] == ')' && ')' !in first
    ensures SetAnnotation(a + first + b, name, second) == a + second + b
  {
    hide FindChar, OpensAtEnd, Opening, Place, InsertionPoint;
    PlaceInFrame(a, name, first, b);
    FirstParen(first, b);
    assert (a + first + b)[..|a|] == a;
    assert (a + first + b)[|a| + |first|..] == b;
  }
}
