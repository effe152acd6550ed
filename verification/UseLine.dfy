/** Removing a field from a `use` line commutes with splitting the line: the
    two scanners, written apart, agree on what the line says. */
module UseLine {
  import opened Text
  import opened Projections
  import opened FieldRemoval

  /** A search projection with one bracket list. */
  function Search(pre: string, inner: string, post: string): string {
    "search(" + pre + "[" + inner + "]" + post + ")"
  }

  /** Free of the characters either scanner reacts to. */
  predicate Plain(s: string) {
    forall i | 0 <= i < |s| :: s[i] != '(' && s[i] != ')' && s[i] != '[' && s[i] != ']' && s[i] != '"'
  }

  function Split(j: string): seq<string> {
    TrimAll(Pieces(NEUTRAL, [], j))
  }

  /** A member left with one empty segment reads as having none. */
  function Settled(segments: seq<string>): seq<string> {
    if segments == [""] then [] else segments
  }

  function Before(front: Option<string>): string {
    match front case None => "" case Some(s) => s + ","
  }

  function After(back: Option<string>): string {
    match back case None => "" case Some(s) => "," + s
  }

  function SegmentsIn(part: Option<string>): seq<string> {
    match part case None => [] case Some(s) => Split(s)
  }

  /** The body of a `use` line around one of its segments. */
  function Around(front: Option<string>, gap: string, mid: string, gap2: string, back: Option<string>): string {
    (Before(front) + gap) + mid + (gap2 + After(back))
  }

  // ---- splitting ----

  lemma {:induction false} UseLineSegments(indent: string, j: string)
    requires Blank(indent) && NoComment(j)
    ensures Segments(indent + "use " + j) == Settled(Split(j))
  {
    SegmentsOfUse(indent, j, [], []);
    assert indent + "use " + j + [] + [] == indent + "use " + j;
    BlankIffOneEmpty(j);
  }

  lemma {:induction false} BlankIffOneEmpty(j: string)
    ensures Blank(j) <==> Split(j) == [""]
  {
    if Blank(j) {
      BlankIsOneEmpty(j);
    }
    if Split(j) == [""] {
      OneEmptyIsBlank(j);
    }
  }

  lemma {:induction false} BlankIsOneEmpty(j: string)
    requires Blank(j)
    ensures Split(j) == [""]
  {
    OnlyBlank(NEUTRAL, [], j);
    TrimOfTrimmed([]);
    TrimAllCons([], []);
  }

  lemma {:induction false} OneEmptyIsBlank(j: string)
    requires Split(j) == [""]
    ensures Blank(j)
  {
    hide Pieces, Trim;
    PiecesCover(NEUTRAL, [], j);
    assert [] + j == j;
    TrimEmptyIsBlank(j);
    assert |Pieces(NEUTRAL, [], j)| == 1;
    assert Split(j)[0] == Trim(Pieces(NEUTRAL, [], j)[0]);
  }

  lemma {:induction false} SplitAtComma(u: string, v: string)
    requires Cuts(Run(NEUTRAL, u), ',')
    ensures Split(u + "," + v) == Split(u) + Split(v)
  {
    PiecesAtCut(NEUTRAL, [], u, v);
    TrimAllAppend(Pieces(NEUTRAL, [], u), Pieces(NEUTRAL, [], v));
  }

  lemma {:induction false} TrimAllAppend(a: seq<string>, b: seq<string>)
    ensures TrimAll(a + b) == TrimAll(a) + TrimAll(b)
  {
    hide Trim;
  }

  lemma {:induction false} MidScans(gap: string, mid: string, gap2: string)
    requires Blank(gap) && Blank(gap2)
    requires NoCut(NEUTRAL, mid) && Run(NEUTRAL, mid) == NEUTRAL
    ensures NoCut(NEUTRAL, gap + mid + gap2) && Run(NEUTRAL, gap + mid + gap2) == NEUTRAL
  {
    hide NoCut, Run, Blank;
    BlankRun(NEUTRAL, gap);
    BlankRun(NEUTRAL, gap2);
    RunAppend(NEUTRAL, gap + mid, gap2);
    RunAppend(NEUTRAL, gap, mid);
  }

  lemma {:induction false} SplitMid(gap: string, mid: string, gap2: string)
    requires Blank(gap) && Blank(gap2) && Trimmed(mid)
    requires NoCut(NEUTRAL, mid) && Run(NEUTRAL, mid) == NEUTRAL
    ensures Split(gap + mid + gap2) == [mid] && Cuts(Run(NEUTRAL, gap + mid + gap2), ',')
  {
    hide NoCut, Run, Blank, Trimmed, Trim, Pieces;
    var core := gap + mid + gap2;
    MidScans(gap, mid, gap2);
    PiecesNoCut(NEUTRAL, [], core);
    assert [] + core == core;
    TrimIgnoresBlanks(gap, mid, gap2);
    TrimOfTrimmed(mid);
    TrimAllCons(core, []);
  }

  lemma {:induction false} SplitBack(core: string, back: Option<string>)
    requires Cuts(Run(NEUTRAL, core), ',')
    ensures Split(core + After(back)) == Split(core) + SegmentsIn(back)
  {
    hide Split, Run, Cuts;
    if back.Some? {
      SplitAtComma(core, back.value);
      Assoc(core, ",", back.value);
    } else {
      assert core + After(back) == core;
    }
  }

  lemma {:induction false} SplitFront(front: Option<string>, rest: string)
    requires front.Some? ==> Cuts(Run(NEUTRAL, front.value), ',')
    ensures Split(Before(front) + rest) == SegmentsIn(front) + Split(rest)
  {
    hide Split, Run, Cuts;
    if front.Some? {
      SplitAtComma(front.value, rest);
    } else {
      assert Before(front) + rest == rest;
    }
  }

  lemma {:induction false} AroundIs(front: Option<string>, gap: string, mid: string, gap2: string, back: Option<string>)
    ensures Around(front, gap, mid, gap2, back) == Before(front) + ((gap + mid + gap2) + After(back))
  {
    hide Before, After;
  }

  lemma {:induction false} SplitAround(
    front: Option<string>, gap: string, mid: string, gap2: string, back: Option<string>)
    requires Blank(gap) && Blank(gap2) && Trimmed(mid)
    requires NoCut(NEUTRAL, mid) && Run(NEUTRAL, mid) == NEUTRAL
    requires front.Some? ==> Cuts(Run(NEUTRAL, front.value), ',')
    ensures Split(Around(front, gap, mid, gap2, back)) == SegmentsIn(front) + [mid] + SegmentsIn(back)
  {
    hide *;
    var core := gap + mid + gap2;
    AroundIs(front, gap, mid, gap2, back);
    SplitMid(gap, mid, gap2);
    SplitBack(core, back);
    SplitFront(front, core + After(back));
    Assoc(SegmentsIn(front), [mid], SegmentsIn(back));
  }

  // ---- the search segment under both scanners ----

  lemma {:induction false} PlainRun(st: Scan, s: string)
    requires Plain(s) && !st.quoted && st.depth > 0
    ensures NoCut(st, s) && Run(st, s) == st
    decreases |s|
  {
    if s != [] { PlainRun(st, s[1..]); }
  }

  lemma {:induction false} SearchScans(pre: string, inner: string, post: string)
    requires Plain(pre) && Plain(inner) && Plain(post)
    ensures NoCut(NEUTRAL, Search(pre, inner, post)) && Run(NEUTRAL, Search(pre, inner, post)) == NEUTRAL
    ensures Trimmed(Search(pre, inner, post))
  {
    hide NoCut, Run, Plain;
    var one, two := Scan(1, false, false), Scan(2, false, false);
    var a := "search(";
    assert NoCut(NEUTRAL, a) && Run(NEUTRAL, a) == one by { SearchWord(); }
    PlainRun(one, pre);
    PlainRun(two, inner);
    PlainRun(one, post);
    RunAppend(NEUTRAL, a, pre);
    RunOne(one, '[');
    RunAppend(NEUTRAL, a + pre, "[");
    RunAppend(NEUTRAL, a + pre + "[", inner);
    RunOne(two, ']');
    RunAppend(NEUTRAL, a + pre + "[" + inner, "]");
    RunAppend(NEUTRAL, a + pre + "[" + inner + "]", post);
    RunOne(one, ')');
    RunAppend(NEUTRAL, a + pre + "[" + inner + "]" + post, ")");
    var s := Search(pre, inner, post);
    assert s[0] == 's' && s[|s| - 1] == ')';
  }

  lemma {:induction false} RunOne(st: Scan, c: char)
    ensures Run(st, [c]) == Step(st, c) && (NoCut(st, [c]) <==> !Cuts(st, c))
  {
    assert [c][1..] == [];
  }

  lemma {:induction false} WordRun(s: string)
    requires forall i | 0 <= i < |s| :: IsWordChar(s[i])
    ensures NoCut(NEUTRAL, s) && Run(NEUTRAL, s) == NEUTRAL
  {
    if s != [] { WordRun(s[1..]); }
  }

  lemma {:induction false} SearchWord()
    ensures NoCut(NEUTRAL, "search(") && Run(NEUTRAL, "search(") == Scan(1, false, false)
  {
    assert "search" + "(" == "search(";
    WordRun("search");
    RunAppend(NEUTRAL, "search", "(");
    RunOne(NEUTRAL, '(');
  }

  lemma {:induction false} ParenSkips(line: string, i: nat, j: nat, depth: int)
    requires i <= j <= |line| && Plain(line[i..j])
    ensures ClosingParen(line, i, depth) == ClosingParen(line, j, depth)
    decreases j - i
  {
    if i < j {
      assert line[i..j][0] == line[i];
      assert line[i + 1..j] == line[i..j][1..];
      ParenSkips(line, i + 1, j, depth);
    }
  }

  /** A plain stretch, then the character that ends it. */
  lemma {:induction false} ParenSkip(a: string, b: string, c: char, d: string, depth: int)
    requires Plain(b)
    ensures (a + b + ([c] + d))[|a| + |b|] == c
    ensures ClosingParen(a + b + ([c] + d), |a|, depth) == ClosingParen(a + b + ([c] + d), |a| + |b|, depth)
  {
    Mid(a, b, [c] + d);
    ParenSkips(a + b + ([c] + d), |a|, |a| + |b|, depth);
  }

  /** Where the parenthesis counter lands. */
  lemma {:induction false} SearchCloses(lead: string, pre: string, inner: string, post: string, trail: string)
    requires Plain(pre) && Plain(inner) && Plain(post)
    ensures
      var search := Search(pre, inner, post);
      ClosingParen(lead + search + trail, |lead| + 6, 0) == Some(|lead| + |search| - 1)
  {
    hide *;
    var line := lead + Search(pre, inner, post) + trail;
    var a := lead + "search(";
    var b := a + pre + ['['];
    var c := b + inner + [']'];
    var tail := post + ([')'] + trail);
    SearchIs(pre, inner, post);
    Flatten(lead, "search(", pre, ['['], inner, [']'], post, [')'], trail);
    ParenSkip(a, pre, '[', inner + ([']'] + tail), 1);
    ParenSkip(b, inner, ']', tail, 1);
    ParenSkip(c, post, ')', trail, 1);
    ParenOpens(lead, line[|a|..]);
    CloseSteps(line, |lead| + 6, |a| + |pre|, |b| + |inner|, |c| + |post|);
  }

  lemma {:induction false} SearchIs(pre: string, inner: string, post: string)
    ensures Search(pre, inner, post) == "search(" + pre + ['['] + inner + [']'] + post + [')']
  {
  }

  lemma {:induction false} ParenOpens(lead: string, rest: string)
    ensures (lead + "search(" + rest)[|lead| + 6] == '('
  {
  }

  lemma {:induction false} Flatten(a: string, b: string, c: string, d: string, e: string, f: string, g: string,
                                   h: string, i: string)
    ensures
      var line := a + (b + c + d + e + f + g + h) + i;
      var rest := g + (h + i);
      line == (a + b) + c + (d + (e + (f + rest)))
      && line == (a + b + c + d) + e + (f + rest)
      && line == (a + b + c + d + e + f) + rest
      && line == (a + b + c + d + e + f) + g + (h + i)
      && line == (a + b) + line[|a + b|..]
  {
    hide *;
    var rest := g + (h + i);
    var x := a + b + c + d + e + f;
    Lead(a, b, c, d, e, f, g + h);
    assert a + (b + c + d + e + f + g + h) == a + (b + c + d + e + f + (g + h));
    Assoc(x, g + h, i);
    Assoc(g, h, i);
    Assoc(x, g, h + i);
    Assoc(a + b + c + d + e, f, rest);
    Assoc(a + b + c + d, e, f + rest);
    Assoc(a + b + c, d, e + (f + rest));
    assert ((a + b) + (c + (d + (e + (f + rest)))))[|a + b|..] == c + (d + (e + (f + rest)));
    Assoc(a + b, c, d + (e + (f + rest)));
  }

  lemma {:induction false} Lead(a: string, b: string, c: string, d: string, e: string, f: string, rest: string)
    ensures a + (b + c + d + e + f + rest) == (a + b + c + d + e + f) + rest
  {
    Assoc(a, b + c + d + e + f, rest);
    Assoc(a, b + c + d + e, f);
    Assoc(a, b + c + d, e);
    Assoc(a, b + c, d);
    Assoc(a, b, c);
  }

  lemma {:induction false} CloseSteps(line: string, p: nat, open: nat, end: nat, close: nat)
    requires p < open < end < close < |line|
    requires line[p] == '(' && line[open] == '[' && line[end] == ']' && line[close] == ')'
    requires ClosingParen(line, p + 1, 1) == ClosingParen(line, open, 1)
    requires ClosingParen(line, open + 1, 1) == ClosingParen(line, end, 1)
    requires ClosingParen(line, end + 1, 1) == ClosingParen(line, close, 1)
    ensures ClosingParen(line, p, 0) == Some(close)
  {
  }

  lemma {:induction false} SearchFound(lead: string, pre: string, inner: string, post: string, trail: string)
    requires forall i | 0 <= i < |lead| :: !At(lead + Search(pre, inner, post) + trail, "search(", i)
    ensures Find(lead + Search(pre, inner, post) + trail, "search(") == Some(|lead|)
  {
    var search := Search(pre, inner, post);
    var line := lead + search + trail;
    assert search == "search(" + (pre + "[" + inner + "]" + post + ")");
    Mid(lead, search, trail);
    assert line[|lead|..|lead| + 7] == line[|lead|..|lead| + |search|][..7];
    FindIs(line, "search(", |lead|);
  }

  lemma {:induction false} OpenFound(pre: string, inner: string, post: string)
    requires Plain(pre)
    ensures FindChar(Search(pre, inner, post), '[') == Some(7 + |pre|)
  {
    hide *;
    var head := "search(" + pre;
    assert '[' !in head by { NoBrackets(pre); }
    SearchFromOpen(pre, inner, post);
    FindAt(head, '[', inner + "]" + (post + ")"));
  }

  lemma {:induction false} EndFound(pre: string, inner: string, post: string)
    requires Plain(post)
    ensures FindLastChar(Search(pre, inner, post), ']') == Some(8 + |pre| + |inner|)
  {
    hide *;
    var head := "search(" + pre + "[" + inner;
    assert ']' !in post + ")" by { NoBrackets(post); }
    SearchFromEnd(pre, inner, post);
    FindLastAt(head, ']', post + ")");
    assert |head| == 8 + |pre| + |inner|;
  }

  lemma {:induction false} BracketsFound(pre: string, inner: string, post: string)
    requires Plain(pre) && Plain(post)
    ensures FindChar(Search(pre, inner, post), '[') == Some(7 + |pre|)
    ensures FindLastChar(Search(pre, inner, post), ']') == Some(8 + |pre| + |inner|)
  {
    hide *;
    OpenFound(pre, inner, post);
    EndFound(pre, inner, post);
  }

  lemma {:induction false} NoBrackets(s: string)
    requires Plain(s)
    ensures '[' !in "search(" + s && ']' !in s + ")"
  {
  }

  lemma {:induction false} SearchFromOpen(pre: string, inner: string, post: string)
    ensures Search(pre, inner, post) == ("search(" + pre) + ['['] + (inner + "]" + (post + ")"))
  {
    Assoc("search(" + pre + "[" + inner + "]", post, ")");
    Assoc("search(" + pre + "[", inner, "]");
    Assoc("search(" + pre + "[", inner + "]", post + ")");
  }

  lemma {:induction false} SearchFromEnd(pre: string, inner: string, post: string)
    ensures Search(pre, inner, post) == ("search(" + pre + "[" + inner) + [']'] + (post + ")")
  {
    Assoc("search(" + pre + "[" + inner + "]", post, ")");
  }

  lemma {:induction false} BracketSlices(pre: string, inner: string, post: string)
    ensures
      var search := Search(pre, inner, post);
      var open, end := 7 + |pre|, 8 + |pre| + |inner|;
      search[open + 1..end] == inner && search[..open + 1] == "search(" + pre + "["
      && search[end..] == "]" + post + ")"
  {
    var head, tail := "search(" + pre + "[", "]" + post + ")";
    assert Search(pre, inner, post) == head + inner + tail;
    Mid(head, inner, tail);
  }

  // ---- what the removal writes ----

  function ListAt(lead: string, pre: string, inner: string, post: string): SearchList {
    SearchList(|lead|, |lead| + |Search(pre, inner, post)| - 1, 7 + |pre|, 8 + |pre| + |inner|)
  }

  /** The line and its search projection, cut where the list stands. */
  lemma {:induction false} ListSlices(lead: string, pre: string, inner: string, post: string, trail: string)
    ensures
      var line, at := lead + Search(pre, inner, post) + trail, ListAt(lead, pre, inner, post);
      at.pos <= at.close < |line| && line[..at.pos] == lead && line[at.close + 1..] == trail
      && line[at.pos..at.close + 1] == Search(pre, inner, post)
      && at.open < at.end < |Search(pre, inner, post)|
  {
    SearchIs(pre, inner, post);
    assert |Search(pre, inner, post)| == 10 + |pre| + |inner| + |post|;
    hide *;
    assert ListAt(lead, pre, inner, post)
        == SearchList(|lead|, |lead| + |Search(pre, inner, post)| - 1, 7 + |pre|, 8 + |pre| + |inner|);
    Mid(lead, Search(pre, inner, post), trail);
  }

  lemma {:induction false} ListFound(lead: string, pre: string, inner: string, post: string, trail: string)
    requires Plain(pre) && Plain(inner) && Plain(post)
    requires forall i | 0 <= i < |lead| :: !At(lead + Search(pre, inner, post) + trail, "search(", i)
    ensures FindSearchList(lead + Search(pre, inner, post) + trail) == Some(ListAt(lead, pre, inner, post))
  {
    hide Find, ClosingParen, FindChar, FindLastChar, FindSearchList, At, Plain, Search;
    SearchFound(lead, pre, inner, post, trail);
    SearchCloses(lead, pre, inner, post, trail);
    BracketsFound(pre, inner, post);
    ListSlices(lead, pre, inner, post, trail);
    SearchListCases(lead + Search(pre, inner, post) + trail);
  }

  lemma {:induction false} WithoutFieldOf(
    lead: string, pre: string, inner: string, post: string, trail: string, field: string)
    requires Plain(pre) && Plain(inner) && Plain(post)
    requires forall i | 0 <= i < |lead| :: !At(lead + Search(pre, inner, post) + trail, "search(", i)
    ensures
      var kept := Kept(Items(inner), field);
      WithoutField(lead + Search(pre, inner, post) + trail, field)
      == if kept == Items(inner) then None
         else if Join(kept, ", ") != [] then Some(lead + Search(pre, Join(kept, ", "), post) + trail)
         else Some(DropSearch(lead, trail))
  {
    hide FindSearchList, Items, Kept, Join, DropSearch, At, Plain, Search, WithoutField, WithList;
    var line, at := lead + Search(pre, inner, post) + trail, ListAt(lead, pre, inner, post);
    ListFound(lead, pre, inner, post, trail);
    ListSlices(lead, pre, inner, post, trail);
    BracketSlices(pre, inner, post);
    SearchParts(pre, Join(Kept(Items(inner), field), ", "), post);
    WithoutFieldCases(line, field, at);
    WithListIs(line, at, Join(Kept(Items(inner), field), ", "));
  }

  lemma {:induction false} SearchParts(pre: string, inner: string, post: string)
    ensures "search(" + pre + "[" + inner + ("]" + post + ")") == Search(pre, inner, post)
  {
  }

  lemma {:induction false} SplitCharStep(s: string, c: char)
    requires s != []
    ensures
      var rest := SplitChar(s[1..], c);
      SplitChar(s, c) == if s[0] == c then [[]] + rest else [[s[0]] + rest[0]] + rest[1..]
  {
  }

  /** Every part stands in the text, the first at its start. */
  lemma {:induction false} SplitCharPart(s: string, c: char, i: nat) returns (a: string, b: string)
    requires i < |SplitChar(s, c)|
    ensures s == a + SplitChar(s, c)[i] + b
    ensures i == 0 ==> a == []
  {
    if s == [] {
      a, b := [], [];
    } else {
      hide SplitChar;
      SplitCharStep(s, c);
      assert s == [s[0]] + s[1..];
      if s[0] == c && i == 0 {
        a, b := [], s;
      } else {
        a, b := SplitCharPart(s[1..], c, if s[0] == c then i - 1 else i);
        if i > 0 {
          Assoc([s[0]], a, SplitChar(s, c)[i]);
          Assoc([s[0]], a + SplitChar(s, c)[i], b);
          a := [s[0]] + a;
        } else {
          Assoc([s[0]], SplitChar(s[1..], c)[0], b);
        }
      }
    }
  }

  /** The rewritten list brings in no bracket, no quote and no comment. */
  lemma {:induction false} KeptIsPlain(inner: string, field: string)
    requires Plain(inner) && NoComment(inner)
    ensures Plain(Join(Kept(Items(inner), field), ", ")) && NoComment(Join(Kept(Items(inner), field), ", "))
  {
    hide Join, Kept, NamesField, Trim, SplitChar;
    var parts, kept := SplitChar(inner, ','), Kept(Items(inner), field);
    forall i | 0 <= i < |parts| ensures Plain(Trim(parts[i])) && NoComment(Trim(parts[i])) {
      var a, b := SplitCharPart(inner, ',', i);
      var x, y := TrimTakesBlanks(parts[i]);
      PlainSlice(inner, a, parts[i], b);
      NoCommentSlice(inner, a, parts[i], b);
      PlainSlice(parts[i], x, Trim(parts[i]), y);
      NoCommentSlice(parts[i], x, Trim(parts[i]), y);
    }
    JoinHasNoComment(kept);
    JoinIsPlain(kept);
  }

  lemma {:induction false} PlainSlice(s: string, a: string, t: string, b: string)
    requires Plain(s) && s == a + t + b
    ensures Plain(t)
  {
    assert forall i | 0 <= i < |t| :: t[i] == s[|a| + i];
  }

  lemma {:induction false} JoinIsPlain(parts: seq<string>)
    requires forall i | 0 <= i < |parts| :: Plain(parts[i])
    ensures Plain(Join(parts, ", "))
  {
    if |parts| > 1 { JoinIsPlain(parts[1..]); }
  }

  lemma {:induction false} SwapInner(front: Option<string>, gap: string, pre: string, inner: string, post: string,
                  gap2: string, back: Option<string>, joined: string)
    requires NoComment(Around(front, gap, Search(pre, inner, post), gap2, back)) && NoComment(joined)
    ensures NoComment(Around(front, gap, Search(pre, joined, post), gap2, back)) && NoComment(inner)
  {
    var a, b := Before(front) + gap + ("search(" + pre + "["), ("]" + post + ")") + (gap2 + After(back));
    AroundInner(front, gap, pre, inner, post, gap2, back);
    AroundInner(front, gap, pre, joined, post, gap2, back);
    hide NoComment, Around, Search, Before, After;
    NoCommentEnds(a, inner, b);
    assert a[|a| - 1] == '[' && b[0] == ']';
    NoCommentAppend(a, joined);
    NoCommentAppend(a + joined, b);
  }

  lemma {:induction false} NoCommentEnds(a: string, t: string, b: string)
    requires NoComment(a + t + b)
    ensures NoComment(a) && NoComment(t) && NoComment(b)
  {
    assert a + t + b == [] + a + (t + b);
    NoCommentSlice(a + t + b, [], a, t + b);
    NoCommentSlice(a + t + b, a, t, b);
    assert a + t + b == (a + t) + b + [];
    NoCommentSlice(a + t + b, a + t, b, []);
  }

  lemma {:induction false} AroundInner(front: Option<string>, gap: string, pre: string, inner: string, post: string,
                    gap2: string, back: Option<string>)
    ensures Around(front, gap, Search(pre, inner, post), gap2, back)
            == (Before(front) + gap + ("search(" + pre + "[")) + inner + (("]" + post + ")") + (gap2 + After(back)))
  {
    hide Search, Before, After;
    SearchParts(pre, inner, post);
    Regroup(Before(front) + gap, "search(" + pre + "[", inner, "]" + post + ")", gap2 + After(back));
  }

  // ---- dropping the whole segment ----

  lemma {:induction false} DropLast(upTo: string, gap: string, after: string)
    requires Blank(gap)
    ensures DropSearch(upTo + "," + gap, after) == upTo + after
  {
    hide FindLastChar;
    FindLastAt(upTo, ',', gap);
    assert (upTo + [','] + gap)[..|upTo|] == upTo;
  }

  lemma {:induction false} DropFirst(before: string, gap2: string, back: string)
    requires ',' !in before && ',' !in gap2
    ensures DropSearch(before, gap2 + ("," + back)) == before + TrimStart(back)
  {
    hide FindChar, TrimStart;
    assert gap2 + ("," + back) == gap2 + [','] + back;
    FindAt(gap2, ',', back);
    assert (gap2 + [','] + back)[|gap2| + 1..] == back;
  }

  lemma {:induction false} DropIs(
    indent: string, front: Option<string>, gap: string, gap2: string, back: Option<string>)
    requires Blank(indent) && Blank(gap) && Blank(gap2)
    ensures DropSearch(indent + "use " + (Before(front) + gap), gap2 + After(back))
            == if front.Some? then indent + "use " + (front.value + (gap2 + After(back)))
               else if back.Some? then indent + "use " + (gap + TrimStart(back.value))
               else []
  {
    hide DropSearch, TrimStart;
    var lead := indent + "use " + (Before(front) + gap);
    if front.Some? {
      assert lead == (indent + "use " + front.value) + "," + gap;
      DropLast(indent + "use " + front.value, gap, gap2 + After(back));
      Assoc(indent + "use ", front.value, gap2 + After(back));
    } else {
      assert Before(front) + gap == gap;
      assert ',' !in lead;
      if back.Some? {
        DropFirst(lead, gap2, back.value);
        Assoc(indent + "use ", gap, TrimStart(back.value));
      } else {
        DropNothing(lead, gap2);
        assert gap2 + After(back) == gap2;
      }
    }
  }

  lemma {:induction false} DropNothing(before: string, after: string)
    requires ',' !in before && ',' !in after
    ensures DropSearch(before, after) == []
  {
  }

  lemma {:induction false} DropSegments(
    indent: string, front: Option<string>, gap: string, mid: string, gap2: string, back: Option<string>)
    requires Blank(indent) && Blank(gap) && Blank(gap2)
    requires front.Some? ==> Cuts(Run(NEUTRAL, front.value), ',')
    requires NoComment(Around(front, gap, mid, gap2, back)) && mid != []
    ensures Segments(DropSearch(indent + "use " + (Before(front) + gap), gap2 + After(back)))
            == Settled(SegmentsIn(front) + SegmentsIn(back))
  {
    hide Segments, DropSearch, NoComment, Split, Cuts, Run, TrimStart, Settled;
    DropIs(indent, front, gap, gap2, back);
    if front.Some? {
      DropAfterFront(indent, front.value, gap, mid, gap2, back);
    } else if back.Some? {
      DropBeforeBack(indent, gap, mid, gap2, back.value);
      assert SegmentsIn(front) + SegmentsIn(back) == Split(back.value);
    } else {
      BlankHasNoSegments();
      assert SegmentsIn(front) + SegmentsIn(back) == [];
      SettledEmpty();
    }
  }

  lemma {:induction false} SettledEmpty()
    ensures Settled([]) == []
  {
  }

  lemma {:induction false} DropBeforeBack(indent: string, gap: string, mid: string, gap2: string, back: string)
    requires Blank(indent) && Blank(gap)
    requires NoComment(Around(None, gap, mid, gap2, Some(back)))
    ensures Segments(indent + "use " + (gap + TrimStart(back))) == Settled(Split(back))
  {
    var tail := TrimStart(back);
    var blanks := back[..|back| - |tail|];
    BackNoComment(gap, mid, gap2, back);
    hide Segments, NoComment, Split, Settled, Around, TrimStart;
    assert back == blanks + tail;
    assert back == blanks + tail + [];
    NoCommentSlice(back, blanks, tail, []);
    BlankNoComment(gap, tail);
    UseLineSegments(indent, gap + tail);
    SplitIgnoresLead(gap, tail);
    SplitIgnoresLead(blanks, tail);
  }

  lemma {:induction false} BlankNoComment(gap: string, tail: string)
    requires Blank(gap) && NoComment(tail)
    ensures NoComment(gap + tail)
  {
    NoCommentAppend(gap, tail);
  }

  lemma {:induction false} BackNoComment(gap: string, mid: string, gap2: string, back: string)
    requires NoComment(Around(None, gap, mid, gap2, Some(back)))
    ensures NoComment(back)
  {
    var head := "" + gap + mid;
    assert Around(None, gap, mid, gap2, Some(back)) == head + (gap2 + ",") + back by {
      assert gap2 + ("," + back) == (gap2 + ",") + back;
      Assoc(head, gap2 + ",", back);
    }
    NoCommentEnds(head, gap2 + ",", back);
  }

  lemma {:induction false} BlankHasNoSegments()
    ensures Segments([]) == []
  {
    CodeIs([], []);
    assert [] + [] == "";
    TrimOfTrimmed([]);
    BodyOf([]);
  }

  lemma {:induction false} SplitIgnoresLead(blanks: string, s: string)
    requires Blank(blanks)
    ensures Split(blanks + s) == Split(s)
  {
    BlankRun(NEUTRAL, blanks);
    PiecesAfter(NEUTRAL, [], blanks, s);
    LeadingBlank(NEUTRAL, blanks, [], s);
    assert [] + blanks == blanks == blanks + [];
  }

  lemma {:induction false} PiecesAfter(st: Scan, head: string, u: string, v: string)
    requires NoCut(st, u)
    ensures Pieces(st, head, u + v) == Pieces(Run(st, u), head + u, v)
    decreases |u|
  {
    if u == [] {
      assert u + v == v && head + u == head;
    } else {
      assert (u + v)[1..] == u[1..] + v;
      PiecesAfter(Step(st, u[0]), head + [u[0]], u[1..], v);
      assert head + [u[0]] + u[1..] == head + u;
    }
  }

  lemma {:induction false} AroundFront(front: string, gap: string, mid: string, gap2: string, back: Option<string>)
    ensures Around(Some(front), gap, mid, gap2, back) == front + ("," + gap + mid) + (gap2 + After(back))
  {
    hide After;
    assert Before(Some(front)) + gap + mid == front + ("," + gap + mid);
  }

  lemma {:induction false} FrontNoComment(front: string, gap: string, mid: string, gap2: string, back: Option<string>)
    requires Blank(gap2) && NoComment(Around(Some(front), gap, mid, gap2, back))
    ensures NoComment(front + (gap2 + After(back)))
  {
    hide NoComment, Around, Blank, After;
    var trail := gap2 + After(back);
    AroundFront(front, gap, mid, gap2, back);
    NoCommentEnds(front, "," + gap + mid, trail);
    TrailStarts(gap2, back);
    NoCommentAppend(front, trail);
  }

  lemma {:induction false} TrailStarts(gap2: string, back: Option<string>)
    requires Blank(gap2)
    ensures gap2 + After(back) != [] ==> (gap2 + After(back))[0] != '/'
  {
  }

  lemma {:induction false} DropAfterFront(
    indent: string, front: string, gap: string, mid: string, gap2: string, back: Option<string>)
    requires Blank(indent) && Blank(gap2)
    requires Cuts(Run(NEUTRAL, front), ',')
    requires NoComment(Around(Some(front), gap, mid, gap2, back))
    ensures Segments(indent + "use " + (front + (gap2 + After(back)))) == Settled(Split(front) + SegmentsIn(back))
  {
    hide Segments, Split, Cuts, Run, NoComment, Around, Settled, Blank;
    FrontNoComment(front, gap, mid, gap2, back);
    UseLineSegments(indent, front + (gap2 + After(back)));
    FrontAlone(front, gap2);
    Assoc(front, gap2, After(back));
    if back.Some? {
      SplitAtComma(front + gap2, back.value);
      Assoc(front + gap2, ",", back.value);
    } else {
      assert front + gap2 + After(back) == front + gap2;
      assert Split(front) + [] == Split(front);
    }
  }

  lemma {:induction false} FrontAlone(front: string, gap2: string)
    requires Cuts(Run(NEUTRAL, front), ',') && Blank(gap2)
    ensures Split(front + gap2) == Split(front) && Cuts(Run(NEUTRAL, front + gap2), ',')
  {
    TrailingBlank(NEUTRAL, [], front, gap2);
    RunAppend(NEUTRAL, front, gap2);
    BlankRun(Run(NEUTRAL, front), gap2);
  }

  // ---- the theorem ----

  /** A `use` line whose search projection is exactly `search(...)` with one
      bracket list, read by the splitter before and after the removal. */
  lemma {:induction false} RemovalCommutes(
    indent: string, front: Option<string>, gap: string, pre: string, inner: string,
    post: string, gap2: string, back: Option<string>, field: string)
    requires Blank(indent) && Blank(gap) && Blank(gap2)
    requires Plain(pre) && Plain(inner) && Plain(post)
    requires front.Some? ==> Cuts(Run(NEUTRAL, front.value), ',')
    requires NoComment(Around(front, gap, Search(pre, inner, post), gap2, back))
    requires
      var lead := indent + "use " + (Before(front) + gap);
      forall i | 0 <= i < |lead| ::
        !At(lead + Search(pre, inner, post) + (gap2 + After(back)), "search(", i)
    ensures
      var line := indent + "use " + (Before(front) + gap) + Search(pre, inner, post) + (gap2 + After(back));
      var kept := Kept(Items(inner), field);
      var r := WithoutField(line, field);
      Segments(line) == SegmentsIn(front) + [Search(pre, inner, post)] + SegmentsIn(back)
      && (r.None? <==> kept == Items(inner))
      && (r.Some? && Join(kept, ", ") != [] ==>
            Segments(r.value) == SegmentsIn(front) + [Search(pre, Join(kept, ", "), post)] + SegmentsIn(back)
            && Items(Join(kept, ", ")) == kept)
      && (r.Some? && Join(kept, ", ") == [] ==>
            Segments(r.value) == Settled(SegmentsIn(front) + SegmentsIn(back)))
  {
    hide Segments, Kept, Items, Join, At, NoComment, Plain, Cuts, Run, DropSearch, WithoutField, Settled, Search;
    var lead, trail := indent + "use " + (Before(front) + gap), gap2 + After(back);
    var kept := Kept(Items(inner), field);
    WithoutFieldOf(lead, pre, inner, post, trail, field);
    LineSegments(indent, front, gap, pre, inner, post, gap2, back);
    SwapInner(front, gap, pre, inner, post, gap2, back, []) by { NoCommentEmpty(); }
    KeptIsPlain(inner, field);
    if Join(kept, ", ") != [] {
      SwapInner(front, gap, pre, inner, post, gap2, back, Join(kept, ", "));
      LineSegments(indent, front, gap, pre, Join(kept, ", "), post, gap2, back);
      assert kept != [] by { JoinOfNone(", "); }
      BracketListFilters(inner, field);
    } else {
      assert Search(pre, inner, post) != [] by { SearchScans(pre, inner, post); SearchStarts(pre, inner, post); }
      DropSegments(indent, front, gap, Search(pre, inner, post), gap2, back);
    }
  }

  lemma {:induction false} NoCommentEmpty()
    ensures NoComment([])
  {
  }

  lemma {:induction false} SearchStarts(pre: string, inner: string, post: string)
    ensures |Search(pre, inner, post)| > 0
  {
  }

  lemma {:induction false} LineSegments(indent: string, front: Option<string>, gap: string, pre: string, inner: string,
                     post: string, gap2: string, back: Option<string>)
    requires Blank(indent) && Blank(gap) && Blank(gap2)
    requires Plain(pre) && Plain(inner) && Plain(post)
    requires front.Some? ==> Cuts(Run(NEUTRAL, front.value), ',')
    requires NoComment(Around(front, gap, Search(pre, inner, post), gap2, back))
    ensures Segments(indent + "use " + (Before(front) + gap) + Search(pre, inner, post) + (gap2 + After(back)))
            == SegmentsIn(front) + [Search(pre, inner, post)] + SegmentsIn(back)
  {
    hide Segments, NoComment, Plain, Cuts, Run, Search, NoCut;
    var mid := Search(pre, inner, post);
    SearchScans(pre, inner, post);
    SearchStarts(pre, inner, post);
    SplitAround(front, gap, mid, gap2, back);
    UseLineSegments(indent, Around(front, gap, mid, gap2, back));
    Assoc(indent + "use ", Before(front) + gap, mid);
    Assoc(indent + "use ", (Before(front) + gap) + mid, gap2 + After(back));
    var all := SegmentsIn(front) + [mid] + SegmentsIn(back);
    assert all[|SegmentsIn(front)|] == mid;
    assert all != [""];
  }
}
