/** Removing a field from a `use` line that goes on behind its projections: with
    a `for` selector at the top level, or with a comment. */
module TopLevelUse {
  import opened Text
  import opened Projections
  import opened FieldRemoval
  import opened UseLine

  // ---- removing the field ----

  /** What can open the rest of the line: the keyword `for`, or a comment. */
  predicate Opens(open: string) {
    open != [] && !IsSpace(open[0]) && ',' !in open
  }

  /** The keyword or the slashes, and what stands behind them. */
  datatype Tail = Tail(open: string, text: string)

  function Written(tail: Tail): string {
    tail.open + tail.text
  }

  /** The projections that are left beside the search projection. */
  function Beside(front: Option<string>, gap: string, gap2: string, back: Option<string>): Option<string> {
    if front.Some? then Some(front.value + (gap2 + After(back)))
    else if back.Some? then Some(gap + TrimStart(back.value))
    else None
  }

  /** What `DropSearch` leaves of a declaration. */
  function Left(indent: string, front: Option<string>, gap: string, gap2: string, back: Option<string>,
                tail: Tail): string {
    match Beside(front, gap, gap2, back)
    case Some(others) => indent + "use " + others + Written(tail)
    case None =>
      match FindChar(tail.text, ',')
      case None => []
      case Some(c) => indent + "use " + gap + TrimStart(tail.text[c + 1..])
  }

  lemma {:induction false} TrimStartThen(b: string, c: string)
    requires c != [] && !IsSpace(c[0])
    ensures TrimStart(b + c) == TrimStart(b) + c
  {
    hide TrimStart, IsSpace;
    var t := TrimStart(b);
    var blanks := b[..|b| - |t|];
    TrimStartSkips(blanks, t + c);
    assert b + c == blanks + (t + c);
  }

  lemma {:induction false} LeftIs(indent: string, front: Option<string>, gap: string, gap2: string,
                                  back: Option<string>, tail: Tail)
    requires Blank(indent) && Blank(gap) && Blank(gap2) && Opens(tail.open)
    ensures DropSearch(indent + "use " + (UseLine.Before(front) + gap), (gap2 + After(back)) + Written(tail))
            == Left(indent, front, gap, gap2, back, tail)
  {
    hide DropSearch, TrimStart, FindChar, Written, After, UseLine.Before, Blank, Opens;
    if front.Some? {
      LeftBehindFront(indent, front.value, gap, gap2 + After(back), tail);
    } else if back.Some? {
      LeftBeforeBack(indent, gap, gap2, back.value, tail);
    } else {
      LeftAlone(indent, gap, gap2, tail);
    }
  }

  lemma {:induction false} LeftBehindFront(indent: string, front: string, gap: string, rest: string, tail: Tail)
    requires Blank(gap)
    ensures DropSearch(indent + "use " + (UseLine.Before(Some(front)) + gap), rest + Written(tail))
            == indent + "use " + (front + rest) + Written(tail)
  {
    hide DropSearch, Written;
    assert indent + "use " + (UseLine.Before(Some(front)) + gap) == (indent + "use " + front) + "," + gap;
    DropLast(indent + "use " + front, gap, rest + Written(tail));
    Assoc(indent + "use ", front, rest);
    Assoc(indent + "use " + front, rest, Written(tail));
  }

  lemma {:induction false} LeftBeforeBack(indent: string, gap: string, gap2: string, back: string, tail: Tail)
    requires Blank(indent) && Blank(gap) && Blank(gap2) && Opens(tail.open)
    ensures DropSearch(indent + "use " + (UseLine.Before(None) + gap), (gap2 + After(Some(back))) + Written(tail))
            == indent + "use " + (gap + TrimStart(back)) + Written(tail)
  {
    hide DropSearch, TrimStart;
    var lead, clause := indent + "use " + gap, Written(tail);
    assert clause[0] == tail.open[0];
    assert UseLine.Before(None) + gap == gap;
    assert (gap2 + After(Some(back))) + clause == gap2 + ("," + (back + clause));
    assert ',' !in lead && ',' !in gap2;
    DropFirst(lead, gap2, back + clause);
    TrimStartThen(back, clause);
    hide *;
    Assoc(lead, TrimStart(back), clause);
    Assoc(indent + "use ", gap, TrimStart(back));
  }

  lemma {:induction false} LeftAlone(indent: string, gap: string, gap2: string, tail: Tail)
    requires Blank(indent) && Blank(gap) && Blank(gap2) && Opens(tail.open)
    ensures DropSearch(indent + "use " + (UseLine.Before(None) + gap), (gap2 + After(None)) + Written(tail))
            == match FindChar(tail.text, ',')
               case None => []
               case Some(c) => indent + "use " + gap + TrimStart(tail.text[c + 1..])
  {
    hide DropSearch, TrimStart, FindChar;
    var lead := indent + "use " + gap;
    assert UseLine.Before(None) + gap == gap;
    var open, text := gap2 + tail.open, tail.text;
    assert (gap2 + After(None)) + Written(tail) == open + text;
    assert ',' !in lead && ',' !in open;
    match FindChar(text, ',')
    case None => DropNothing(lead, open + text);
    case Some(c) =>
      assert text == text[..c] + ("," + text[c + 1..]);
      Assoc(open, text[..c], "," + text[c + 1..]);
      DropFirst(lead, open + text[..c], text[c + 1..]);
  }

  /** A line whose search projection is exactly `search(...)` with one bracket
      list, and which goes on with a selector or a comment. With fields left, the
      list is filtered and nothing else changes. When the list empties, the other
      projections and the rest of the line stay if there are others; if there are
      none, everything up to the first comma of the rest goes, or everything when
      it has no comma. */
  lemma {:induction false} TopLevelRemoval(indent: string, front: Option<string>, gap: string, pre: string,
                                           inner: string, post: string, gap2: string, back: Option<string>,
                                           tail: Tail, field: string)
    requires Blank(indent) && Blank(gap) && Blank(gap2) && Opens(tail.open)
    requires Plain(pre) && Plain(inner) && Plain(post)
    requires
      var lead := indent + "use " + (UseLine.Before(front) + gap);
      forall i | 0 <= i < |lead| ::
        !At(lead + Search(pre, inner, post) + ((gap2 + After(back)) + Written(tail)), "search(", i)
    ensures
      var lead, trail := indent + "use " + (UseLine.Before(front) + gap), (gap2 + After(back)) + Written(tail);
      var kept := Kept(Items(inner), field);
      WithoutField(lead + Search(pre, inner, post) + trail, field)
      == if kept == Items(inner) then None
         else if Join(kept, ", ") != [] then Some(lead + Search(pre, Join(kept, ", "), post) + trail)
         else Some(Left(indent, front, gap, gap2, back, tail))
  {
    hide *;
    var lead, trail := indent + "use " + (UseLine.Before(front) + gap), (gap2 + After(back)) + Written(tail);
    WithoutFieldOf(lead, pre, inner, post, trail, field);
    LeftIs(indent, front, gap, gap2, back, tail);
  }

  ghost predicate EndsWith(s: string, tail: string) {
    |tail| <= |s| && s[|s| - |tail|..] == tail
  }

  /** The selector or the comment survives exactly when another projection stands
      beside the search projection; the line goes away exactly when none does and
      what would survive has no comma. */
  lemma {:induction false} SelectorSurvivesIff(indent: string, front: Option<string>, gap: string, gap2: string,
                                               back: Option<string>, tail: Tail)
    requires Blank(indent) && Blank(gap) && Blank(gap2) && Opens(tail.open)
    ensures EndsWith(Left(indent, front, gap, gap2, back, tail), Written(tail)) <==> front.Some? || back.Some?
    ensures Left(indent, front, gap, gap2, back, tail) == []
            <==> front.None? && back.None? && ',' !in tail.text
  {
    hide TrimStart, FindChar;
    if front.None? && back.None? && ',' in tail.text {
      var c := FindChar(tail.text, ',').value;
      LostBeforeComma(indent + "use " + gap, TrimStart(tail.text[c + 1..]), tail, c);
    } else if front.Some? || back.Some? {
      var others := Beside(front, gap, gap2, back).value;
      EndsThere(indent + "use " + others, Written(tail));
    }
  }

  lemma {:induction false} EndsThere(a: string, b: string)
    ensures EndsWith(a + b, b)
  {
  }

  /** The comma at which the text was cut cannot be found again. */
  lemma {:induction false} LostBeforeComma(lead: string, rest: string, tail: Tail, c: nat)
    requires c < |tail.text| && tail.text[c] == ',' && ',' !in lead && |rest| <= |tail.text| - c - 1
    ensures !EndsWith(lead + rest, Written(tail))
  {
    var s, text, k := lead + rest, Written(tail), |tail.open| + c;
    if |text| <= |s| {
      assert s[|s| - |text|..][k] == s[|s| - |text| + k] == lead[|s| - |text| + k];
      assert text[k] == ',';
    }
  }

  /** The projections that are left are the others, in order. */
  lemma {:induction false} OthersAreKept(front: Option<string>, gap: string, gap2: string, back: Option<string>)
    requires Blank(gap) && Blank(gap2)
    requires front.Some? || back.Some?
    requires front.Some? ==> Cuts(Run(NEUTRAL, front.value), ',')
    ensures Split(Beside(front, gap, gap2, back).value) == SegmentsIn(front) + SegmentsIn(back)
  {
    hide Split, Cuts, Run, TrimStart, Blank;
    if front.Some? {
      FrontAlone(front.value, gap2);
      Assoc(front.value, gap2, After(back));
      SplitBack(front.value + gap2, back);
    } else {
      var tail := TrimStart(back.value);
      assert back.value == back.value[..|back.value| - |tail|] + tail;
      SplitIgnoresLead(gap, tail);
      SplitIgnoresLead(back.value[..|back.value| - |tail|], tail);
    }
  }

  /** With a comma behind the only projection, what stands behind that comma
      becomes a projection: a second target, or the end of a comment. */
  lemma {:induction false} TextBecomesProjection(field: string, open: string, first: string, second: string)
    requires IsIdentifier(field) && Opens(open) && ',' !in first && Trimmed(second)
    ensures WithoutField("use " + Search("fields: ", field, "")
                         + (" " + Written(Tail(open, first + ", " + second))), field)
            == Some("use " + second)
  {
    hide *;
    var tail := Tail(open, first + ", " + second);
    NoSearchInUse(Search("fields: ", field, "") + (" " + Written(tail)));
    Assoc("use ", Search("fields: ", field, ""), " " + Written(tail));
    OneField(field);
    JoinOfNone(", ");
    Simple(field, tail);
    TopLevelRemoval("", None, "", "fields: ", field, "", " ", None, tail, field);
    LeftOfTwo(open, first, second);
  }

  /** A search projection that is only mentioned in a comment takes the whole line
      with it when no comma stands around it. */
  lemma {:induction false} LoneMentionDeletes(lead: string, field: string, trail: string)
    requires IsIdentifier(field) && ',' !in lead && ',' !in trail
    requires forall i | 0 <= i < |lead| :: !At(lead + Search("fields: ", field, "") + trail, "search(", i)
    ensures WithoutField(lead + Search("fields: ", field, "") + trail, field) == Some("")
  {
    hide *;
    OneField(field);
    JoinOfNone(", ");
    Simple(field, Tail("//", ""));
    WithoutFieldOf(lead, "fields: ", field, "", trail, field);
    DropNothing(lead, trail);
  }

  lemma {:induction false} NoSearchInUse(rest: string)
    ensures forall i | 0 <= i < 4 :: !At("use " + rest, "search(", i)
  {
    var line := "use " + rest;
    forall i | 0 <= i < 4 ensures !At(line, "search(", i) {
      if i + 7 <= |line| {
        assert line[i..i + 7][0] == line[i] && line[i..i + 7][2] == line[i + 2];
        assert line[0] == 'u' && line[1] == 's' && line[2] == 'e' && line[3] == ' ';
      }
    }
  }

  /** The parts of the plain declaration. */
  lemma {:induction false} Simple(field: string, tail: Tail)
    requires IsIdentifier(field)
    ensures Plain("fields: ") && Plain(field) && Plain("") && Blank("") && Blank(" ")
    ensures "" + "use " + (UseLine.Before(None) + "") == "use "
    ensures (" " + After(None)) + Written(tail) == " " + Written(tail)
  {
    assert Plain(field) by { assert forall i | 0 <= i < |field| :: IsWordChar(field[i]); }
  }

  lemma {:induction false} OneField(field: string)
    requires IsIdentifier(field)
    ensures Items(field) == [field] && Kept(Items(field), field) == []
  {
    assert ',' !in field && Trimmed(field);
    SplitOne(field);
    hide TrimAll, SplitChar;
    WordIsFirst(field);
  }

  lemma {:induction false} WordIsFirst(field: string)
    requires forall i | 0 <= i < |field| :: IsWordChar(field[i])
    ensures FirstWord(field) == field
  {
    if field != [] { WordIsFirst(field[1..]); }
  }

  lemma {:induction false} LeftOfTwo(open: string, first: string, second: string)
    requires ',' !in first && Trimmed(second)
    ensures Left("", None, "", " ", None, Tail(open, first + ", " + second)) == "use " + second
  {
    hide FindChar, TrimStart, Written;
    SelectorCut(first, second);
    TrimStartSkips(" ", second) by { assert Blank(" "); }
    assert ("" + "use ") + "" == "use ";
  }

  lemma {:induction false} SelectorCut(first: string, second: string)
    requires ',' !in first
    ensures FindChar(first + ", " + second, ',') == Some(|first|)
    ensures (first + ", " + second)[|first| + 1..] == " " + second
  {
    hide *;
    assert first + ", " + second == first + [','] + (" " + second);
    FindAt(first, ',', " " + second);
  }

  /** Three lines: a target and the end of a comment become projections, and a
      line goes with the projection its comment mentions. */
  lemma {:induction false} LinesLost()
    ensures
      var search := Search("fields: ", "title", "");
      WithoutField("use " + search + (" " + Written(Tail("for", " Invoice" + ", " + "Payment"))), "title")
      == Some("use " + "Payment")
      && WithoutField("use " + search + (" " + Written(Tail("//", " by title" + ", " + "body"))), "title")
         == Some("use " + "body")
      && WithoutField("use dto // was " + search + "", "title") == Some("")
  {
    hide *;
    Titles();
    TextBecomesProjection("title", "for", " Invoice", "Payment");
    TextBecomesProjection("title", "//", " by title", "body");
    var lead := "use dto // was ";
    Assoc(lead, Search("fields: ", "title", ""), "");
    NoSearchInNote(Search("fields: ", "title", "") + "");
    LoneMentionDeletes(lead, "title", "");
  }

  lemma {:induction false} Titles()
    ensures IsIdentifier("title") && Opens("for") && Opens("//")
    ensures ',' !in " Invoice" && ',' !in " by title" && ',' !in "use dto // was " && ',' !in ""
    ensures Trimmed("Payment") && Trimmed("body")
  {
  }

  lemma {:induction false} NoSearchInNote(rest: string)
    ensures forall i | 0 <= i < 15 :: !At("use dto // was " + rest, "search(", i)
  {
    var before := "use dto // was ";
    var line := before + rest;
    assert forall i | 0 <= i < 15 :: before[i] == 's' ==> i == 1 || i == 13;
    forall i | 0 <= i < 15 ensures !At(line, "search(", i) {
      assert line[i] == before[i] && line[3] == ' ' && line[14] == ' ';
      if i + 7 <= |line| {
        assert line[i..i + 7][0] == line[i] && line[i..i + 7][1] == line[i + 1] && line[i..i + 7][2] == line[i + 2];
      }
    }
  }
}
