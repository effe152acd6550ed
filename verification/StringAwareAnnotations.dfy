/** Setting an annotation, for a reader that knows about strings and comments. */
module StringAwareAnnotations {
  import opened Text
  import opened Projections
  import opened CommentCut
  import opened Annotations

  // ---- the reader ----

  /** First place at or after `at` where `pat` stands outside strings. */
  function FindUnquoted(text: string, pat: string, st: Scan, at: nat): (r: Option<nat>)
    requires at <= |text|
    ensures r.Some? ==> at <= r.value && At(text, pat, r.value)
    decreases |text| - at
  {
    if !st.quoted && At(text, pat, at) then Some(at)
    else if at == |text| then None
    else FindUnquoted(text, pat, Step(st, text[at]), at + 1)
  }

  /** Where the value of the first `@name(` stands in the code of the line, outside
      strings, when it is closed there. */
  function AwarePlace(line: string, name: string): Option<(nat, nat)> {
    var code := StringAwareCode(line);
    match FindUnquoted(code, Opening(name), NEUTRAL, 0)
    case None => None
    case Some(s) =>
      var start := s + |Opening(name)|;
      match FindChar(code[start..], ')')
      case None => None
      case Some(e) => Some((start, start + e))
  }

  function AwareAnnotation(line: string, name: string): Option<string> {
    match AwarePlace(line, name)
    case None => None
    case Some((start, end)) => if start <= end <= |line| then Some(line[start..end]) else None
  }

  // ---- what the search means ----

  predicate QuotedAt(text: string, i: nat)
    requires i <= |text|
  {
    Run(NEUTRAL, text[..i]).quoted
  }

  /** `pat` stands at `s` outside strings, and nowhere before outside strings. */
  predicate FirstUnquoted(text: string, pat: string, s: nat) {
    At(text, pat, s) && !QuotedAt(text, s)
    && forall j | 0 <= j < s && At(text, pat, j) :: QuotedAt(text, j)
  }

  lemma {:induction false} NextState(text: string, at: nat)
    requires at < |text|
    ensures Run(NEUTRAL, text[..at + 1]) == Step(Run(NEUTRAL, text[..at]), text[at])
  {
    hide Run;
    assert text[..at + 1] == text[..at] + [text[at]];
    RunLast(NEUTRAL, text[..at], text[at]);
  }

  lemma {:induction false} FindUnquotedFrom(text: string, pat: string, at: nat)
    requires at <= |text|
    ensures
      var r := FindUnquoted(text, pat, Run(NEUTRAL, text[..at]), at);
      (r.Some? ==> At(text, pat, r.value) && r.value <= |text| && !QuotedAt(text, r.value)
                   && forall j | at <= j < r.value && At(text, pat, j) :: QuotedAt(text, j))
      && (r.None? ==> forall j | at <= j <= |text| && At(text, pat, j) :: QuotedAt(text, j))
    decreases |text| - at
  {
    hide Run, At, Step;
    if !(!QuotedAt(text, at) && At(text, pat, at)) && at < |text| {
      NextState(text, at);
      FindUnquotedFrom(text, pat, at + 1);
    }
  }

  lemma {:induction false} FindUnquotedIs(text: string, pat: string, s: nat)
    ensures FindUnquoted(text, pat, NEUTRAL, 0) == Some(s) <==> FirstUnquoted(text, pat, s)
    ensures FindUnquoted(text, pat, NEUTRAL, 0).None?
            <==> forall j | 0 <= j <= |text| && At(text, pat, j) :: QuotedAt(text, j)
  {
    assert text[..0] == [];
    FindUnquotedFrom(text, pat, 0);
    hide FindUnquoted, QuotedAt;
    AtFits(text, pat);
  }

  lemma {:induction false} AtFits(text: string, pat: string)
    ensures forall j: nat :: At(text, pat, j) ==> j + |pat| <= |text|
  {
  }

  /** What stands behind does not decide what is quoted before. */
  lemma {:induction false} QuotedBefore(a: string, b: string, i: nat)
    requires i <= |a|
    ensures QuotedAt(a + b, i) == QuotedAt(a, i)
  {
    hide Run;
    assert (a + b)[..i] == a[..i];
  }

  lemma {:induction false} AtBefore(a: string, b: string, pat: string, i: nat)
    requires i + |pat| <= |a|
    ensures At(a + b, pat, i) == At(a, pat, i)
  {
    assert (a + b)[i..i + |pat|] == a[i..i + |pat|];
  }

  /** A text that ends with the pattern, read on. */
  lemma {:induction false} FirstAtEnd(a: string, b: string, pat: string)
    requires pat != [] && |pat| <= |a|
    ensures FirstUnquoted(a + b, pat, |a| - |pat|) <==> FirstUnquoted(a, pat, |a| - |pat|)
  {
    hide At, QuotedAt;
    var w := |a| - |pat|;
    forall j | 0 <= j <= w
      ensures At(a + b, pat, j) == At(a, pat, j) && QuotedAt(a + b, j) == QuotedAt(a, j)
    {
      AtBefore(a, b, pat, j);
      QuotedBefore(a, b, j);
    }
  }

  // ---- where the value is written ----

  /** The annotation that is written is the one the reader finds: the first
      `@name(` of the line is closed and is the reader's own; or there is none
      closed, the insertion point is not in a string, and no `@name(` stands before
      it outside strings. */
  predicate IsLive(line: string, name: string) {
    var opening := Opening(name);
    match Place(line, name)
    case Some(_) => FindUnquoted(StringAwareCode(line), opening, NEUTRAL, 0) == Find(line, opening)
    case None =>
      var code := line[..InsertionPoint(line)];
      !Run(NEUTRAL, code).quoted && FindUnquoted(code, opening, NEUTRAL, 0).None?
  }

  /** No `//` starts a comment in the value where it is written. */
  predicate StartsNoComment(line: string, name: string, value: string) {
    CutFrom(value, Run(NEUTRAL, Before(line, name)), 0) == |value|
  }

  /** The code of a text whose front holds no comment. */
  lemma {:induction false} CodeBehind(a: string, t: string)
    requires a != [] && a[|a| - 1] != '/'
    ensures
      var cut := CutFrom(a, NEUTRAL, 0);
      StringAwareCode(a + t) == if cut < |a| then a[..cut] else a + Upto(Run(NEUTRAL, a), t)
  {
    hide CutFrom, Run;
    CutFromAppend(a, t, NEUTRAL, 0);
    assert a[0..] == a;
    var cut := CutFrom(a, NEUTRAL, 0);
    var more := Upto(Run(NEUTRAL, a), t);
    if cut < |a| {
      assert (a + t)[..cut] == a[..cut];
    } else {
      assert (a + t)[..|a| + |more|] == a + more;
    }
  }

  /** The value is read whole exactly when it closes nothing and starts no
      comment. */
  lemma {:induction false} ValueIsRead(st: Scan, value: string, b: string)
    requires b != [] && b[0] == ')'
    ensures FindChar(Upto(st, value + b), ')') == Some(|value|)
            <==> ')' !in value && CutFrom(value, st, 0) == |value|
  {
    hide CutFrom, FindChar, Run;
    CutFromAppend(value, b, st, 0);
    assert value[0..] == value;
    var cut, rest := CutFrom(value, st, 0), CutFrom(b, Run(st, value), 0);
    CutPastParen(b, Run(st, value));
    var code := Upto(st, value + b);
    if cut < |value| {
      assert |code| < |value|;
    } else {
      var more := b[1..rest];
      assert code == value + [')'] + more by {
        assert b[..rest] == [')'] + more;
        assert (value + b)[..|value| + rest] == value + b[..rest];
      }
      assert code[|value|] == ')';
      if ')' !in value { FindAt(value, ')', more); }
      if FindChar(code, ')') == Some(|value|) { assert code[..|value|] == value; }
    }
  }

  lemma {:induction false} CutPastParen(b: string, st: Scan)
    requires b != [] && b[0] == ')'
    ensures CutFrom(b, st, 0) >= 1
  {
    SlashesAt(b, 0);
  }

  /** A reader of `a + value + b`, where `a` ends with the opening. */
  lemma {:induction false} FramedPlace(a: string, name: string, value: string, b: string)
    requires b != [] && b[0] == ')' && IsIdentifier(name)
    requires |Opening(name)| <= |a| && At(a, Opening(name), |a| - |Opening(name)|)
    ensures AwarePlace(a + value + b, name) == Some((|a|, |a| + |value|))
            <==> CutFrom(a, NEUTRAL, 0) == |a| && FirstUnquoted(a, Opening(name), |a| - |Opening(name)|)
                 && ')' !in value && CutFrom(value, Run(NEUTRAL, a), 0) == |value|
  {
    hide *;
    var opening, st := Opening(name), Run(NEUTRAL, a);
    var w, rest := |a| - |opening|, Upto(st, value + b);
    OpeningIsInk(name);
    EndsIn(a, opening);
    Assoc(a, value, b);
    CodeBehind(a, value + b);
    var code := StringAwareCode(a + value + b);
    CutIsInside(a);
    if CutFrom(a, NEUTRAL, 0) == |a| {
      FindUnquotedIs(code, opening, w);
      FirstAtEnd(a, rest, opening);
      ValueIsRead(st, value, b);
      assert code[|a|..] == rest;
      AwarePlaceAt(a + value + b, name, w, |value|);
    } else {
      PlaceIsInCode(a + value + b, name);
    }
  }

  /** Where the annotation is read, by where it opens and how far its value goes. */
  lemma {:induction false} AwarePlaceAt(line: string, name: string, s: nat, n: nat)
    requires s + |Opening(name)| <= |StringAwareCode(line)|
    ensures
      var code, start := StringAwareCode(line), s + |Opening(name)|;
      AwarePlace(line, name) == Some((start, start + n))
      <==> FindUnquoted(code, Opening(name), NEUTRAL, 0) == Some(s) && FindChar(code[start..], ')') == Some(n)
  {
    hide FindUnquoted, FindChar, Opening, StringAwareCode;
  }

  lemma {:induction false} CutIsInside(a: string)
    ensures CutFrom(a, NEUTRAL, 0) <= |a|
  {
  }

  lemma {:induction false} PlaceIsInCode(line: string, name: string)
    ensures AwarePlace(line, name).Some? ==> AwarePlace(line, name).value.0 <= |StringAwareCode(line)|
  {
    hide FindUnquoted, FindChar, StringAwareCode, Opening;
  }

  lemma {:induction false} OpeningIsInk(name: string)
    requires IsIdentifier(name)
    ensures
      var opening := Opening(name);
      opening != [] && opening[|opening| - 1] == '(' && '/' !in opening && '"' !in opening && ' ' !in opening
  {
  }

  lemma {:induction false} EndsIn(a: string, opening: string)
    requires opening != [] && opening[|opening| - 1] == '(' && |opening| <= |a| && At(a, opening, |a| - |opening|)
    ensures a != [] && a[|a| - 1] == '('
  {
    assert a[|a| - |opening|..] == opening;
  }

  // ---- the front of the line ----

  lemma {:induction false} NoCommentPrefix(s: string, n: nat)
    requires NoComment(s) && n <= |s|
    ensures NoComment(s[..n])
  {
  }

  /** Insertion happens before the first `//`. */
  lemma {:induction false} InsertionInCode(line: string)
    ensures InsertionPoint(line) <= |CodeOf(line)|
    ensures NoComment(line[..InsertionPoint(line)])
  {
    hide TrimEnd, NoComment;
    NoCommentPrefix(CodeOf(line), InsertionPoint(line));
    assert line[..InsertionPoint(line)] == CodeOf(line)[..InsertionPoint(line)];
  }

  lemma {:induction false} FrontOfPlace(line: string, name: string)
    requires IsIdentifier(name) && Place(line, name).Some?
    ensures
      var a, opening := Before(line, name), Opening(name);
      |opening| <= |a| && At(a, opening, |a| - |opening|)
      && (IsLive(line, name)
          <==> CutFrom(a, NEUTRAL, 0) == |a| && FirstUnquoted(a, opening, |a| - |opening|))
  {
    hide CutFrom, Run, FindUnquoted, Opening, StringAwareCode, FindChar, Find, FindFrom, IsIdentifier, QuotedAt, At;
    var a, opening, s := Before(line, name), Opening(name), Find(line, Opening(name)).value;
    OpeningIsInk(name);
    AtFits(line, opening);
    var t := line[|a|..];
    assert line == a + t && |a| == s + |opening|;
    AtBefore(a, t, opening, s);
    EndsIn(a, opening);
    CodeBehind(a, t);
    var code := StringAwareCode(line);
    FindUnquotedIs(code, opening, s);
    CutIsInside(a);
    forall j | 0 <= j < s ensures !At(a, opening, j) {
      AtBefore(a, t, opening, j);
    }
    if CutFrom(a, NEUTRAL, 0) == |a| {
      FirstAtEnd(a, Upto(Run(NEUTRAL, a), t), opening);
    } else {
      AtFits(code, opening);
      FirstMeans(code, opening, s);
    }
  }

  lemma {:induction false} FirstMeans(text: string, pat: string, s: nat)
    ensures FirstUnquoted(text, pat, s) ==> At(text, pat, s)
  {
  }

  lemma {:induction false} FrontOfInsertion(line: string, name: string)
    requires IsIdentifier(name) && Place(line, name).None?
    ensures
      var a, opening := Before(line, name), Opening(name);
      |opening| <= |a| && At(a, opening, |a| - |opening|)
      && (IsLive(line, name)
          <==> CutFrom(a, NEUTRAL, 0) == |a| && FirstUnquoted(a, opening, |a| - |opening|))
  {
    hide CutFrom, Run, FindUnquoted, Opening, StringAwareCode, FindChar, Find, FindFrom, IsIdentifier, QuotedAt,
      InsertionPoint, At, NoComment, Solid;
    var opening, at := Opening(name), InsertionPoint(line);
    var code, a := line[..at], Before(line, name);
    OpeningIsInk(name);
    OpeningIsSolid(name);
    InsertionInCode(line);
    AddedEnds(code, opening);
    SpacedCode(code, opening);
    FindUnquotedIs(code, opening, 0);
    AddedFirst(code, opening);
  }

  lemma {:induction false} AddedEnds(code: string, opening: string)
    ensures At(code + (" " + opening), opening, |code| + 1)
  {
    var t := code + (" " + opening);
    assert t[|code| + 1..|code| + 1 + |opening|] == opening;
  }

  lemma {:induction false} SpacedCode(code: string, opening: string)
    requires NoComment(code) && '/' !in opening
    ensures CutFrom(code + (" " + opening), NEUTRAL, 0) == |code + (" " + opening)|
  {
    hide CutFrom;
    NoCommentAppend(code, " " + opening);
    NoCommentNoCut(code + (" " + opening), NEUTRAL, 0);
  }

  /** The opening that is added is the first one outside strings exactly when it is
      not added to a string and none stands before it. */
  lemma {:induction false} AddedFirst(code: string, opening: string)
    requires Solid(opening) && opening != []
    ensures FirstUnquoted(code + (" " + opening), opening, |code| + 1)
            <==> !Run(NEUTRAL, code).quoted
                 && forall j | 0 <= j <= |code| && At(code, opening, j) :: QuotedAt(code, j)
  {
    hide Run, At, Solid;
    var a, b := code + (" " + opening), " " + opening;
    AddedEnds(code, opening);
    AtFits(code, opening);
    SpaceKeeps(code, opening);
    forall j | 0 <= j <= |code|
      ensures QuotedAt(a, j) == QuotedAt(code, j)
      ensures At(a, opening, j) ==> j + |opening| <= |code|
      ensures j + |opening| <= |code| ==> At(a, opening, j) == At(code, opening, j)
    {
      QuotedBefore(code, b, j);
      assert a[|code|] == ' ';
      if At(a, opening, j) { ClearOfBlank(a, opening, |code|, j); }
      if j + |opening| <= |code| { AtBefore(code, b, opening, j); }
    }
  }

  lemma {:induction false} SpaceKeeps(code: string, opening: string)
    ensures QuotedAt(code + (" " + opening), |code| + 1) == Run(NEUTRAL, code).quoted
  {
    hide Run;
    assert (code + (" " + opening))[..|code| + 1] == code + [' '];
    RunLast(NEUTRAL, code, ' ');
  }

  // ---- the theorem ----

  /** A reader that knows about strings and comments finds the annotation that was
      written, with the value it was given, exactly when the value closes nothing
      and starts no comment, and the place is live. */
  lemma {:induction false} AwareReadsBackIff(line: string, name: string, value: string)
    requires IsIdentifier(name)
    ensures
      var at := |Before(line, name)|;
      AwarePlace(SetAnnotation(line, name, value), name) == Some((at, at + |value|))
      <==> ')' !in value && StartsNoComment(line, name, value) && IsLive(line, name)
  {
    hide *;
    Frame(line, name, value);
    AfterCloses(line, name);
    StartsIs(line, name, value);
    if Place(line, name).Some? { FrontOfPlace(line, name); } else { FrontOfInsertion(line, name); }
    FramedPlace(Before(line, name), name, value, After(line, name));
  }

  lemma {:induction false} StartsIs(line: string, name: string, value: string)
    ensures StartsNoComment(line, name, value) <==> CutFrom(value, Run(NEUTRAL, Before(line, name)), 0) == |value|
  {
  }

  /** And then it reads the value. */
  lemma {:induction false} AwareReadsValue(line: string, name: string, value: string)
    requires IsIdentifier(name)
    requires ')' !in value && StartsNoComment(line, name, value) && IsLive(line, name)
    ensures AwareAnnotation(SetAnnotation(line, name, value), name) == Some(value)
  {
    hide AwarePlace, SetAnnotation, Before, After, StartsNoComment, IsLive, IsIdentifier;
    AwareReadsBackIff(line, name, value);
    Frame(line, name, value);
    Mid(Before(line, name), value, After(line, name));
  }

  // ---- when there is no other annotation of that name ----

  /** In `a + value + b`, where `a` ends with the opening, that is the only one. */
  lemma {:induction false} OnlyAtEnd(a: string, name: string, value: string, b: string)
    requires IsIdentifier(name) && '@' !in value && b != [] && b[0] == ')'
    requires |Opening(name)| <= |a| && forall j | 0 <= j < |a| - |Opening(name)| :: !At(a, Opening(name), j)
    requires forall j: nat :: !At(b, Opening(name), j)
    requires At(a, Opening(name), |a| - |Opening(name)|)
    ensures forall j: nat | At(a + value + b, Opening(name), j) :: j == |a| - |Opening(name)|
  {
    var opening, t := Opening(name), a + value + b;
    var w := |a| - |opening|;
    OpeningIsInk(name);
    OpeningHasOneAt(name);
    hide Opening, IsIdentifier;
    forall j: nat | j != w ensures !At(t, opening, j) {
      if j < w {
        AtBefore(a, value + b, opening, j);
        Assoc(a, value, b);
      } else if j < |a| {
        assert a[w..] == opening;
        assert t[j] == a[w..][j - w];
        NoAtSign(t, opening, j);
      } else if j < |a| + |value| {
        assert t[j] == value[j - |a|];
        NoAtSign(t, opening, j);
      } else {
        ShiftAt(a + value, b, opening, j - |a + value|);
      }
    }
  }

  lemma {:induction false} NoAtSign(t: string, opening: string, j: nat)
    requires j < |t| && t[j] != '@' && opening != [] && opening[0] == '@'
    ensures !At(t, opening, j)
  {
    if j + |opening| <= |t| { assert t[j..j + |opening|][0] == t[j]; }
  }

  lemma {:induction false} OpeningHasOneAt(name: string)
    requires IsIdentifier(name)
    ensures
      var opening := Opening(name);
      opening[0] == '@' && forall k | 0 < k < |opening| :: opening[k] != '@'
  {
  }

  /** The reader takes the only annotation of a name or none. */
  lemma {:induction false} OnlyPlace(line: string, name: string, w: nat)
    requires forall j: nat | At(line, Opening(name), j) :: j == w
    ensures AwarePlace(line, name).Some? ==> AwarePlace(line, name).value.0 == w + |Opening(name)|
    ensures AwarePlace(line, name).Some? ==> AwarePlace(line, name).value.1 < |line|
  {
    hide FindUnquoted, FindChar, Opening, CutFrom;
    var code := StringAwareCode(line);
    var found := FindUnquoted(code, Opening(name), NEUTRAL, 0);
    if found.Some? {
      assert line == code + line[|code|..];
      AtBefore(code, line[|code|..], Opening(name), found.value);
    }
  }

  /** On a line with at most one annotation of that name, a closed one, the value
      read in the code is the value set under exactly that condition. */
  lemma {:induction false} AwareReadsValueIff(line: string, name: string, value: string)
    requires IsIdentifier(name) && '@' !in value
    requires forall j: nat | At(line, Opening(name), j) ::
               Place(line, name).Some? && Find(line, Opening(name)) == Some(j)
    ensures AwareAnnotation(SetAnnotation(line, name, value), name) == Some(value)
            <==> ')' !in value && StartsNoComment(line, name, value) && IsLive(line, name)
  {
    hide AwarePlace, SetAnnotation, Before, After, StartsNoComment, IsLive, IsIdentifier;
    hide Opening, Place, At, Find, FindFrom;
    var at, next := |Before(line, name)|, SetAnnotation(line, name, value);
    AwareReadsBackIff(line, name, value);
    Frame(line, name, value);
    AfterCloses(line, name);
    Mid(Before(line, name), value, After(line, name));
    OneOpening(line, name);
    OnlyAtEnd(Before(line, name), name, value, After(line, name));
    OnlyPlace(next, name, at - |Opening(name)|);
  }

  lemma {:induction false} OneOpening(line: string, name: string)
    requires IsIdentifier(name)
    requires forall j: nat | At(line, Opening(name), j) ::
               Place(line, name).Some? && Find(line, Opening(name)) == Some(j)
    ensures
      var a, b, opening := Before(line, name), After(line, name), Opening(name);
      |opening| <= |a| && At(a, opening, |a| - |opening|)
      && (forall j | 0 <= j < |a| - |opening| :: !At(a, opening, j)) && forall j: nat :: !At(b, opening, j)
  {
    if Place(line, name).Some? {
      OneInPlace(line, name);
    } else {
      OneInserted(line, name);
    }
  }

  lemma {:induction false} ShiftBack(line: string, pat: string, from: nat, j: nat)
    requires from <= |line|
    ensures At(line[from..], pat, j) ==> At(line, pat, from + j)
  {
    if At(line[from..], pat, j) { assert line[from + j..from + j + |pat|] == line[from..][j..j + |pat|]; }
  }

  lemma {:induction false} OneInPlace(line: string, name: string)
    requires IsIdentifier(name) && Place(line, name).Some?
    requires forall j: nat | At(line, Opening(name), j) :: Find(line, Opening(name)) == Some(j)
    ensures
      var a, b, opening := Before(line, name), After(line, name), Opening(name);
      |opening| <= |a| && At(a, opening, |a| - |opening|)
      && (forall j | 0 <= j < |a| - |opening| :: !At(a, opening, j)) && forall j: nat :: !At(b, opening, j)
  {
    hide Opening, FindChar, Find, FindFrom, At, IsIdentifier, Before, After, Place;
    var a, b, opening := Before(line, name), After(line, name), Opening(name);
    FrontIs(line, name);
    BackIs(line, name);
    OpeningIsInk(name);
    forall j | 0 <= j < |a| - |opening| ensures !At(a, opening, j) { AtBefore(a, line[|a|..], opening, j); }
    forall j: nat ensures !At(b, opening, j) { ShiftBack(line, opening, |line| - |b|, j); }
  }

  lemma {:induction false} BackIs(line: string, name: string)
    requires Place(line, name).Some?
    ensures
      var a, b := Before(line, name), After(line, name);
      |a| <= |line| - |b| && b == line[|line| - |b|..]
  {
    hide Opening, FindChar, Find, FindFrom;
  }

  lemma {:induction false} OneInserted(line: string, name: string)
    requires IsIdentifier(name) && Place(line, name).None?
    requires forall j: nat :: !At(line, Opening(name), j)
    ensures
      var a, b, opening := Before(line, name), After(line, name), Opening(name);
      |opening| <= |a| && At(a, opening, |a| - |opening|)
      && (forall j | 0 <= j < |a| - |opening| :: !At(a, opening, j)) && forall j: nat :: !At(b, opening, j)
  {
    hide Opening, FindChar, Find, FindFrom, At, InsertionPoint, Solid, IsIdentifier;
    var opening, at := Opening(name), InsertionPoint(line);
    var code := line[..at];
    OpeningIsInk(name);
    OpeningIsSolid(name);
    AddedEnds(code, opening);
    var a := code + (" " + opening);
    assert line == code + line[at..];
    forall j | 0 <= j < |a| - |opening| ensures !At(a, opening, j) {
      assert a[|code|] == ' ';
      if At(a, opening, j) {
        ClearOfBlank(a, opening, |code|, j);
        AtBefore(code, " " + opening, opening, j);
        AtBefore(code, line[at..], opening, j);
      }
    }
    forall j: nat ensures !At(")" + line[at..], opening, j) {
      ParenOpensNothing(line, at, name, j);
    }
  }

  lemma {:induction false} ParenOpensNothing(line: string, at: nat, name: string, j: nat)
    requires IsIdentifier(name) && at <= |line| && forall k: nat :: !At(line, Opening(name), k)
    ensures !At(")" + line[at..], Opening(name), j)
  {
    hide At, IsIdentifier;
    OpeningHasOneAt(name);
    if j == 0 {
      NoAtSign(")" + line[at..], Opening(name), 0);
    } else {
      ShiftAt(")", line[at..], Opening(name), j - 1);
      ShiftBack(line, Opening(name), at, j - 1);
    }
  }

  // ---- an annotation that goes into the comment ----

  /** When the first closed `@name(...)` stands behind the code of the line, that
      code is as before, and has no such annotation outside strings. */
  lemma {:induction false} CommentHidesIt(line: string, name: string, value: string)
    requires IsIdentifier(name) && Place(line, name).Some?
    requires Find(line, Opening(name)).value >= |StringAwareCode(line)|
    ensures StringAwareCode(SetAnnotation(line, name, value)) == StringAwareCode(line)
    ensures AwareAnnotation(SetAnnotation(line, name, value), name) == None
  {
    hide *;
    var a, next := Before(line, name), SetAnnotation(line, name, value);
    FrontIs(line, name);
    var t, u := line[|a|..], value + After(line, name);
    OpeningIsInk(name);
    EndsIn(a, Opening(name));
    Frame(line, name, value);
    Assoc(a, value, After(line, name));
    CodeBehind(a, t);
    CodeBehind(a, u);
    CutIsInside(a);
    CodeHasNone(line, name);
    NoneIsRead(next, name);
  }

  lemma {:induction false} FrontIs(line: string, name: string)
    requires IsIdentifier(name) && Place(line, name).Some?
    ensures
      var a, opening := Before(line, name), Opening(name);
      |a| <= |line| && line == a + line[|a|..] && |a| == Find(line, opening).value + |opening|
      && |opening| <= |a| && At(a, opening, |a| - |opening|)
  {
    hide Opening, Find, FindFrom, FindChar;
    var a, opening, s := Before(line, name), Opening(name), Find(line, Opening(name)).value;
    assert line == a + line[|a|..];
    AtBefore(a, line[|a|..], opening, s);
  }

  /** Code that ends before the first opening holds none. */
  lemma {:induction false} CodeHasNone(line: string, name: string)
    requires Place(line, name).Some? && Find(line, Opening(name)).value >= |StringAwareCode(line)|
    requires IsIdentifier(name)
    ensures forall j: nat :: !At(StringAwareCode(line), Opening(name), j)
  {
    hide Opening, Find, FindFrom, FindChar, CutFrom, IsIdentifier, At;
    var code, opening := StringAwareCode(line), Opening(name);
    OpeningIsInk(name);
    AtFits(code, opening);
    assert line == code + line[|code|..];
    forall j: nat ensures !At(code, opening, j) {
      if j + |opening| <= |code| { AtBefore(code, line[|code|..], opening, j); }
    }
  }

  lemma {:induction false} NoneIsRead(line: string, name: string)
    requires forall j: nat :: !At(StringAwareCode(line), Opening(name), j)
    ensures AwareAnnotation(line, name) == None
  {
    hide Opening, CutFrom, FindUnquoted, FindChar, At;
    FindUnquotedIs(StringAwareCode(line), Opening(name), 0);
  }

  /** Every line whose first annotation of that name stands in its comment and is
      closed gets the new value there. */
  lemma {:induction false} CommentTakesIt(code: string, text: string, name: string, was: string, value: string,
                                          rest: string)
    requires IsIdentifier(name) && ')' !in was
    requires StringAwareCode(code) == code && !Run(NEUTRAL, code).quoted && (code == [] || code[|code| - 1] != '/')
    requires
      var before := code + ("//" + text);
      forall j | 0 <= j < |before| :: !At(before + Opening(name) + (was + [')'] + rest), Opening(name), j)
    ensures
      var before := code + ("//" + text);
      var line := before + Opening(name) + (was + [')'] + rest);
      SetAnnotation(line, name, value) == before + Opening(name) + value + ([')'] + rest)
      && StringAwareCode(SetAnnotation(line, name, value)) == code
      && AwareAnnotation(SetAnnotation(line, name, value), name) == None
  {
    hide Opening, FindChar, Find, FindFrom, CutFrom, FindUnquoted, Run, IsIdentifier, At, StringAwareCode, Place,
      SetAnnotation, AwareAnnotation;
    var before, opening := code + ("//" + text), Opening(name);
    var line := before + opening + (was + [')'] + rest);
    Mid(before, opening, was + [')'] + rest);
    AtIs(line, opening, |before|);
    FindIs(line, opening, |before|);
    SetBehind(before, name, was, value, rest);
    CommentIsCut(code, text + opening + (was + [')'] + rest));
    assert line == code + ("//" + (text + opening + (was + [')'] + rest)));
    CommentHidesIt(line, name, value);
  }

  lemma {:induction false} AtIs(line: string, pat: string, i: nat)
    requires i + |pat| <= |line| && line[i..i + |pat|] == pat
    ensures At(line, pat, i)
  {
  }

  lemma {:induction false} CommentIsCut(code: string, rest: string)
    requires StringAwareCode(code) == code && !Run(NEUTRAL, code).quoted && (code == [] || code[|code| - 1] != '/')
    ensures StringAwareCode(code + ("//" + rest)) == code
  {
    hide Run;
    var text := "//" + rest;
    assert |code| == CutFrom(code, NEUTRAL, 0);
    CutFromAppend(code, text, NEUTRAL, 0);
    assert code[0..] == code;
    SlashesAt(text, 0);
    assert (code + text)[..|code|] == code;
  }

  lemma {:induction false} SetBehind(before: string, name: string, was: string, value: string, rest: string)
    requires Find(before + Opening(name) + (was + [')'] + rest), Opening(name)) == Some(|before|) && ')' !in was
    ensures
      var line := before + Opening(name) + (was + [')'] + rest);
      Place(line, name).Some?
      && SetAnnotation(line, name, value) == before + Opening(name) + value + ([')'] + rest)
  {
    hide Find, FindFrom, FindChar, Opening;
    var head := before + Opening(name);
    FindAt(was, ')', rest);
    Mid(head, was, [')'] + rest);
    Assoc(was, [')'], rest);
    Assoc(head, was, [')'] + rest);
    assert (head + (was + ([')'] + rest)))[|head|..] == was + ([')'] + rest);
  }

  // ---- an annotation that goes into a string ----

  /** The only annotation of a name stands in a string. */
  lemma {:induction false} OnlyQuoted(line: string, name: string, w: nat)
    requires w <= |line| && QuotedAt(line, w)
    requires forall j: nat | At(line, Opening(name), j) :: j == w
    ensures AwareAnnotation(line, name) == None
  {
    hide Opening, CutFrom, FindUnquoted, FindChar, Run, At;
    var code, opening := StringAwareCode(line), Opening(name);
    assert line == code + line[|code|..];
    forall j | 0 <= j <= |code| && At(code, opening, j) ensures QuotedAt(code, j) {
      AtFits(code, opening);
      AtBefore(code, line[|code|..], opening, j);
      QuotedBefore(code, line[|code|..], j);
    }
    FindUnquotedIs(code, opening, 0);
  }

  lemma {:induction false} TrimKeepsQuoted(front: string)
    ensures Run(NEUTRAL, TrimEnd(front)).quoted == Run(NEUTRAL, front).quoted
  {
    hide Run, TrimEnd;
    var ink := TrimEnd(front);
    assert front == ink + front[|ink|..];
    RunAppend(NEUTRAL, ink, front[|ink|..]);
    BlankRun(Run(NEUTRAL, ink), front[|ink|..]);
  }

  lemma {:induction false} InsertionBeforeSlashes(front: string, rest: string)
    requires NoComment(front) && (front == [] || front[|front| - 1] != '/')
    ensures InsertionPoint(front + ("//" + rest)) == |TrimEnd(front)|
  {
    hide TrimEnd, FindFrom;
    var line := front + ("//" + rest);
    forall j | 0 <= j < |front| ensures !At(line, "//", j) {
      SlashesAt(line, j);
      assert line[j] == front[j] && (j + 1 < |front| ==> line[j + 1] == front[j + 1]);
    }
    SlashesAt(line, |front|);
    FindIs(line, "//", |front|);
    assert line[..|front|] == front;
  }

  /** Whenever the first `//` of a line stands in a string and the line has no
      annotation of that name, the new one goes into the string: the string is
      changed, and the line still has no such annotation. */
  lemma {:induction false} StringTakesIt(front: string, rest: string, name: string, value: string)
    requires IsIdentifier(name) && '@' !in value
    requires NoComment(front) && Run(NEUTRAL, front).quoted && front[|front| - 1] != '/'
    requires forall j: nat :: !At(front + ("//" + rest), Opening(name), j)
    ensures
      var next := SetAnnotation(front + ("//" + rest), name, value);
      next == TrimEnd(front) + (" " + Opening(name) + value + ")") + (Trail(front) + ("//" + rest))
      && AwareAnnotation(next, name) == None
  {
    hide Opening, FindChar, FindFrom, CutFrom, FindUnquoted, Run, IsIdentifier, At, TrimEnd, InsertionPoint;
    var line, ink, opening := front + ("//" + rest), TrimEnd(front), Opening(name);
    InsertionBeforeSlashes(front, rest);
    assert front == ink + Trail(front);
    Assoc(ink, Trail(front), "//" + rest);
    assert line[..|ink|] == ink && line[|ink|..] == Trail(front) + ("//" + rest);
    assert Place(line, name).None?;
    Frame(line, name, value);
    AfterCloses(line, name);
    OneInserted(line, name);
    OnlyAtEnd(Before(line, name), name, value, After(line, name));
    var a := Before(line, name);
    TrimKeepsQuoted(front);
    SpaceKeeps(ink, opening);
    QuotedBefore(a, value + After(line, name), |ink| + 1);
    Assoc(a, value, After(line, name));
    OnlyQuoted(SetAnnotation(line, name, value), name, |ink| + 1);
  }

  // ---- two such lines ----

  lemma {:induction false} IdentifierId()
    ensures IsIdentifier("id") && Opening("id")[0] == '@' && Opening("id")[1] == 'i'
  {
  }

  /** `title: string // was @id(a)`, given the identity `b`. */
  lemma {:induction false} IdentityInComment()
    ensures
      var line := "title: string " + ("//" + " was ") + Opening("id") + ("a" + [')'] + "");
      SetAnnotation(line, "id", "b") == "title: string " + ("//" + " was ") + Opening("id") + "b" + ([')'] + "")
      && AwareAnnotation(SetAnnotation(line, "id", "b"), "id") == None
  {
    hide *;
    IdentifierId();
    TitleIsCode();
    var before := "title: string " + ("//" + " was ");
    OpensFirstAt(before, "id", "a" + [')'] + "");
    CommentTakesIt("title: string ", " was ", "id", "a", "b", "");
  }

  lemma {:induction false} TitleIsCode()
    ensures
      var code := "title: string ";
      StringAwareCode(code) == code && !Run(NEUTRAL, code).quoted && code != [] && code[|code| - 1] != '/'
      && '@' !in code + ("//" + " was ") && ')' !in "a"
  {
    hide CutFrom, Run;
    var code := "title: string ";
    assert '/' !in code && '"' !in code;
    NoCommentNoCut(code, NEUTRAL, 0);
    PlainIsUnquoted(NEUTRAL, code);
  }

  lemma {:induction false} PlainIsUnquoted(st: Scan, s: string)
    requires !st.quoted && '"' !in s
    ensures !Run(st, s).quoted
    decreases |s|
  {
    if s != [] { PlainIsUnquoted(Step(st, s[0]), s[1..]); }
  }

  lemma {:induction false} OpensFirstAt(before: string, name: string, rest: string)
    requires '@' !in before
    ensures forall j | 0 <= j < |before| :: !At(before + Opening(name) + rest, Opening(name), j)
  {
    var t := before + Opening(name) + rest;
    forall j | 0 <= j < |before| ensures !At(t, Opening(name), j) {
      assert t[j] == before[j];
      NoAtSign(t, Opening(name), j);
    }
  }

  /** `site: string @default("https://x")`, given the identity `b`. */
  lemma {:induction false} IdentityInString()
    ensures
      var front, rest := "site: string @default(" + ("\"" + "https:"), "x\")";
      SetAnnotation(front + ("//" + rest), "id", "b")
      == front + (" " + Opening("id") + "b" + ")") + ("//" + rest)
      && AwareAnnotation(SetAnnotation(front + ("//" + rest), "id", "b"), "id") == None
  {
    hide *;
    var front, rest := "site: string @default(" + ("\"" + "https:"), "x\")";
    IdentifierId();
    SiteIsQuoted();
    SiteHasNoId(rest);
    StringTakesIt(front, rest, "id", "b");
    Untrailed(front, "//" + rest);
  }

  lemma {:induction false} Untrailed(front: string, rest: string)
    requires front != [] && !IsSpace(front[|front| - 1])
    ensures TrimEnd(front) == front && Trail(front) + rest == rest
  {
    assert Trail(front) == [];
  }

  lemma {:induction false} SiteIsQuoted()
    ensures
      var front := "site: string @default(" + ("\"" + "https:");
      NoComment(front) && Run(NEUTRAL, front).quoted && front[|front| - 1] == ':' && !IsSpace(':') && '@' !in "b"
  {
    hide *;
    var open := "site: string @default(";
    SiteIsPlain();
    PlainIsUnquoted(NEUTRAL, open);
    StaysSane(open);
    RunAppend(NEUTRAL, open, "\"" + "https:");
    QuoteOpens(Run(NEUTRAL, open), "https:");
  }

  lemma {:induction false} SiteIsPlain()
    ensures
      var open, front := "site: string @default(", "site: string @default(" + ("\"" + "https:");
      NoComment(front) && front[|front| - 1] == ':' && !IsSpace(':') && '@' !in "b"
      && '"' !in open && '"' !in "https:" && '\\' !in "https:" && !NEUTRAL.quoted
  {
    assert '/' !in "site: string @default(" + ("\"" + "https:");
  }

  lemma {:induction false} StaysSane(s: string)
    ensures !Run(NEUTRAL, s).quoted ==> !Run(NEUTRAL, s).escaped
  {
    hide Run;
    RunAppend(NEUTRAL, s, []);
  }

  lemma {:induction false} QuoteOpens(st: Scan, s: string)
    requires !st.quoted && !st.escaped && '"' !in s && '\\' !in s
    ensures Run(st, "\"" + s).quoted
  {
    assert ("\"" + s)[1..] == s;
    StaysQuoted(st.(quoted := true), s);
  }

  lemma {:induction false} StaysQuoted(st: Scan, s: string)
    requires st.quoted && !st.escaped && '"' !in s && '\\' !in s
    ensures Run(st, s) == st
  {
    if s != [] { StaysQuoted(st, s[1..]); }
  }

  lemma {:induction false} SiteHasNoId(rest: string)
    requires '@' !in rest
    ensures
      var front := "site: string @default(" + ("\"" + "https:");
      forall j: nat :: !At(front + ("//" + rest), Opening("id"), j)
  {
    var front := "site: string @default(" + ("\"" + "https:");
    var line, opening := front + ("//" + rest), Opening("id");
    IdentifierId();
    assert forall i | 0 <= i < |front| :: front[i] == '@' ==> i == 13;
    forall j: nat ensures !At(line, opening, j) {
      if j + |opening| <= |line| {
        assert line[j..j + |opening|][0] == line[j] && line[j..j + |opening|][1] == line[j + 1];
        assert j < |front| ==> line[j] == front[j];
        assert j >= |front| + 2 ==> line[j] == rest[j - |front| - 2];
        assert line[14] == front[14] == 'd';
      }
    }
  }
}
