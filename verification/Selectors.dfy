/** Which entities a top-level `use ... for ...` is about, and which ones the
    cascade takes it to be about. */
module Selectors {
  import opened Text
  import opened IdentifierEdit
  import opened UseLine
  import opened FieldCascade

  // ---- a declaration as it is written ----

  /** Behind the names: what is exempt, and the comment. */
  function Tail(exempt: Option<string>, comment: Option<string>): string {
    (match exempt case None => "" case Some(e) => "except" + e)
    + (match comment case None => "" case Some(c) => "//" + c)
  }

  /** What stands before the keyword, the names, and the rest. */
  function Declaration(before: string, names: string, exempt: Option<string>, comment: Option<string>): string {
    before + "for" + (names + Tail(exempt, comment))
  }

  /** The declaration applies to the entity: it is named and not exempt. */
  predicate About(names: string, exempt: Option<string>, entity: string) {
    AnyReaches(SplitChar(names, ','), entity)
    && !(exempt.Some? && AnyReaches(SplitChar(exempt.value, ','), entity))
  }

  /** No `pat` starts in the first `end` characters. */
  predicate FreeOf(text: string, pat: string, end: nat) {
    forall i | 0 <= i < end :: !At(text, pat, i)
  }

  // ---- what is read ----

  function UpToExcept(text: string): string {
    match Find(text, "except") case None => text case Some(j) => text[..j]
  }

  /** Everything behind the first `for` up to the first `except` behind it. */
  lemma {:induction false} ReadBehindFor(before: string, after: string)
    requires FreeOf(before + "for" + after, "for", |before|)
    ensures TargetText(before + "for" + after) == Some(UpToExcept(after))
  {
    hide Find, FindFrom;
    var line := before + "for" + after;
    Mid(before, "for", after);
    FindIs(line, "for", |before|);
    assert line[|before| + 3..] == after;
  }

  /** A stretch in which no `except` starts is read whole. */
  lemma {:induction false} ReadsOn(head: string, text: string)
    requires FreeOf(head + text, "except", |head|)
    ensures UpToExcept(head + text) == head + UpToExcept(text)
  {
    hide FindFrom;
    var whole := head + text;
    forall k | |head| <= k ensures At(whole, "except", k) == At(text, "except", k - |head|) {
      ShiftAt(head, text, "except", k - |head|);
    }
    match Find(text, "except")
    case Some(j) =>
      FindIs(whole, "except", |head| + j);
      assert whole[..|head| + j] == head + text[..j];
    case None => assert Find(whole, "except").None?;
  }

  lemma {:induction false} ExceptStops(text: string)
    ensures UpToExcept("except" + text) == "" && UpToExcept("") == ""
  {
    hide FindFrom;
    assert ("except" + text)[0..6] == "except";
    FindIs("except" + text, "except", 0);
    assert Find("", "except").None?;
  }

  lemma {:induction false} SlashesReadOn(comment: string)
    ensures UpToExcept("//" + comment) == "//" + UpToExcept(comment)
  {
    hide UpToExcept;
    var text := "//" + comment;
    forall i | 0 <= i < 2 ensures !At(text, "except", i) {
      if i + 6 <= |text| { assert text[i..i + 6][0] == text[i] == '/'; }
    }
    ReadsOn("//", comment);
  }

  /** The names, and the comment with them when nothing is exempt. */
  function ReadText(names: string, exempt: Option<string>, comment: Option<string>): string {
    if exempt.None? && comment.Some? then names + ("//" + UpToExcept(comment.value)) else names
  }

  lemma {:induction false} ReadTextIs(names: string, exempt: Option<string>, comment: Option<string>)
    requires FreeOf(names + Tail(exempt, comment), "except", |names|)
    ensures UpToExcept(names + Tail(exempt, comment)) == ReadText(names, exempt, comment)
  {
    hide UpToExcept, FreeOf;
    ReadsOn(names, Tail(exempt, comment));
    match (exempt, comment)
    case (Some(e), _) =>
      var rest := match comment case None => "" case Some(c) => "//" + c;
      assert Tail(exempt, comment) == "except" + (e + rest) by { Assoc("except", e, rest); }
      ExceptStops(e + rest);
      assert names + "" == names;
    case (None, Some(c)) =>
      assert Tail(exempt, comment) == "//" + c;
      SlashesReadOn(c);
    case (None, None) =>
      assert Tail(exempt, comment) == "";
      ExceptStops("");
      assert names + "" == names;
  }

  // ---- the items that can name an entity ----

  /** The items of a comment behind its first comma, as far as it is read. */
  function CommentItems(comment: string): seq<string> {
    SplitChar(UpToExcept(comment), ',')[1..]
  }

  /** With a comment right behind the names, its items are read and the last name
      is not. */
  function ReadItems(names: string, exempt: Option<string>, comment: Option<string>): seq<string> {
    if exempt.None? && comment.Some? then AllButLast(SplitChar(names, ',')) + CommentItems(comment.value)
    else SplitChar(names, ',')
  }

  /** The last part of the one and the first of the other, put together. */
  function Merged(a: seq<string>, b: seq<string>): seq<string>
    requires a != [] && b != []
  {
    AllButLast(a) + [a[|a| - 1] + b[0]] + b[1..]
  }

  lemma {:induction false} MergedCons(x: string, a: seq<string>, b: seq<string>)
    requires a != [] && b != []
    ensures Merged([x] + a, b) == [x] + Merged(a, b)
  {
    assert AllButLast([x] + a) == [x] + AllButLast(a);
  }

  lemma {:induction false} MergedHead(c: char, a: seq<string>, b: seq<string>)
    requires a != [] && b != []
    ensures Merged([[c] + a[0]] + a[1..], b) == [[c] + Merged(a, b)[0]] + Merged(a, b)[1..]
  {
    if |a| == 1 {
      assert a == [a[0]] && AllButLast(a) == [];
      Assoc([c], a[0], b[0]);
      assert Merged(a, b) == [a[0] + b[0]] + b[1..];
      assert [[c] + a[0]] + a[1..] == [[c] + a[0]];
    } else {
      assert a == [a[0]] + a[1..];
      MergedCons(a[0], a[1..], b);
      MergedCons([c] + a[0], a[1..], b);
    }
  }

  lemma {:induction false} SplitCharConcat(a: string, c: char, b: string)
    ensures SplitChar(a + b, c) == Merged(SplitChar(a, c), SplitChar(b, c))
  {
    if a == [] {
      assert a + b == b;
      var rest := SplitChar(b, c);
      assert [] + rest[0] == rest[0] && rest == [rest[0]] + rest[1..];
      assert AllButLast([[]]) == [];
    } else {
      hide SplitChar, Merged;
      var first, rest := SplitChar(a[1..], c), SplitChar(b, c);
      SplitCharConcat(a[1..], c, b);
      SplitCharStep(a, c);
      assert (a + b)[1..] == a[1..] + b && (a + b)[0] == a[0];
      SplitCharStep(a + b, c);
      MergedCons([], first, rest);
      MergedHead(a[0], first, rest);
    }
  }

  lemma {:induction false} MergedIs(a: seq<string>, b: seq<string>)
    requires a != [] && b != []
    ensures Merged(a, b) == AllButLast(a) + [a[|a| - 1] + b[0]] + b[1..]
  {
  }

  lemma {:induction false} NothingBefore(a: seq<string>, b: seq<string>)
    ensures [] + a + b == a + b
  {
    assert [] + a == a;
  }

  lemma {:induction false} AnyAppend(a: seq<string>, b: seq<string>, entity: string)
    ensures AnyReaches(a + b, entity) <==> AnyReaches(a, entity) || AnyReaches(b, entity)
  {
    hide Reaches, Trim;
    var all := a + b;
    assert forall i | 0 <= i < |a| :: all[i] == a[i];
    assert forall i | 0 <= i < |b| :: all[|a| + i] == b[i];
    if AnyReaches(a, entity) {
      var i :| 0 <= i < |a| && Reaches(Trim(a[i]), entity);
      assert Reaches(Trim(all[i]), entity);
    }
    if AnyReaches(b, entity) {
      var i :| 0 <= i < |b| && Reaches(Trim(b[i]), entity);
      assert Reaches(Trim(all[|a| + i]), entity);
    }
    if AnyReaches(all, entity) {
      var i :| 0 <= i < |all| && Reaches(Trim(all[i]), entity);
      if i < |a| {
        assert Reaches(Trim(a[i]), entity);
      } else {
        assert all[i] == b[i - |a|];
        assert Reaches(Trim(b[i - |a|]), entity);
      }
    }
  }

  lemma {:induction false} AnyOne(t: string, entity: string)
    ensures AnyReaches([t], entity) <==> Reaches(Trim(t), entity)
  {
    hide Reaches, Trim;
    assert [t][0] == t;
    if Reaches(Trim(t), entity) { assert Reaches(Trim([t][0]), entity); }
  }

  /** A character that `java_to_label` keeps stays in the label. */
  lemma {:induction false} LabelHolds(s: string, index: nat, c: char)
    requires c in s && !('A' <= c <= 'Z') && c != '-'
    ensures c in LabelFrom(s, index)
  {
    if s[0] == c {
      assert LabelChar(c, index) == [c];
    } else {
      assert s == [s[0]] + s[1..];
      LabelHolds(s[1..], index + 1, c);
    }
  }

  /** No entity is named by a text with a character in it that no identifier
      has and no label loses. */
  lemma {:induction false} StrangerReachesNothing(t: string, c: char, entity: string)
    requires IsIdentifier(entity) && !IsWordChar(c) && c != '-' && c in t && t != "*"
    ensures !Reaches(t, entity)
  {
    hide LabelFrom;
    LabelsOfIdentifiers(entity, entity);
    LabelHolds(t, 0, c);
    assert c !in entity && c !in Label(entity);
  }

  lemma {:induction false} InCore(t: string, c: char)
    requires c in t && !IsSpace(c)
    ensures c in Trim(t)
  {
    hide Trim, IsSpace;
    var x, y := TrimTakesBlanks(t);
    var k :| 0 <= k < |t| && t[k] == c;
    var core := Trim(t);
    assert t == x + core + y;
    assert |x| <= k < |x| + |core|;
    assert core[k - |x|] == c;
  }

  /** The name that runs into a comment names nothing. */
  lemma {:induction false} SlashedReachesNothing(last: string, more: string, entity: string)
    requires IsIdentifier(entity)
    ensures !Reaches(Trim(last + ("//" + more)), entity)
  {
    hide Reaches, Trim, IsIdentifier;
    var t := last + ("//" + more);
    assert t[|last|] == '/';
    InCore(t, '/');
    StrangerReachesNothing(Trim(t), '/', entity);
  }

  lemma {:induction false} SlashesAreOnePart()
    ensures SplitChar("//", ',') == ["//"] && AllButLast(["//"]) == []
  {
    SplitCharPrefix("//", ',', []);
  }

  lemma {:induction false} FirstPart(c: string, text: string)
    requires SplitChar(c, ',') == [c]
    ensures SplitChar(c + text, ',') == [c + SplitChar(text, ',')[0]] + SplitChar(text, ',')[1..]
  {
    hide SplitChar;
    SplitCharConcat(c, ',', text);
    MergedIs([c], SplitChar(text, ','));
    assert AllButLast([c]) == [];
    NothingBefore([c + SplitChar(text, ',')[0]], SplitChar(text, ',')[1..]);
  }

  /** Two texts put together where the joined part names nothing. */
  lemma {:induction false} JoinedItems(a: string, b: string, entity: string)
    requires !Reaches(Trim(SplitChar(a, ',')[|SplitChar(a, ',')| - 1] + SplitChar(b, ',')[0]), entity)
    ensures AnyReaches(SplitChar(a + b, ','), entity)
            <==> AnyReaches(AllButLast(SplitChar(a, ',')), entity) || AnyReaches(SplitChar(b, ',')[1..], entity)
  {
    hide *;
    var first, second := SplitChar(a, ','), SplitChar(b, ',');
    var joined := first[|first| - 1] + second[0];
    SplitCharConcat(a, ',', b);
    MergedIs(first, second);
    AnyAppend(AllButLast(first) + [joined], second[1..], entity);
    AnyAppend(AllButLast(first), [joined], entity);
    AnyOne(joined, entity);
  }

  lemma {:induction false} ItemsAreRead(names: string, exempt: Option<string>, comment: Option<string>, entity: string)
    requires IsIdentifier(entity)
    ensures AnyReaches(SplitChar(ReadText(names, exempt, comment), ','), entity)
            <==> AnyReaches(ReadItems(names, exempt, comment), entity)
  {
    hide AnyReaches, SplitChar, UpToExcept, Reaches, Trim, IsIdentifier, AllButLast;
    if exempt.None? && comment.Some? {
      var more := UpToExcept(comment.value);
      var items, last := SplitChar(names, ','), SplitChar(names, ',')[|SplitChar(names, ',')| - 1];
      SlashesAreOnePart();
      FirstPart("//", more);
      PartsOfFirst("//" + SplitChar(more, ',')[0], SplitChar(more, ',')[1..]);
      SlashedReachesNothing(last, SplitChar(more, ',')[0], entity);
      JoinedItems(names, "//" + more, entity);
      AnyAppend(AllButLast(items), SplitChar(more, ',')[1..], entity);
    }
  }

  lemma {:induction false} PartsOfFirst(first: string, rest: seq<string>)
    ensures ([first] + rest)[0] == first && ([first] + rest)[1..] == rest
  {
  }

  lemma {:induction false} MatchesWhen(line: string, text: string, entity: string)
    requires TargetText(line) == Some(text)
    ensures TargetMatches(line, entity) <==> AnyReaches(SplitChar(text, ','), entity)
  {
    hide TargetText, AnyReaches, SplitChar;
  }

  // ---- the keyword is the first `for` ----

  /** What the cascade goes by, when no `for` stands before the keyword. */
  lemma {:induction false} KeywordReads(before: string, names: string, exempt: Option<string>, comment: Option<string>,
                                        entity: string)
    requires FreeOf(Declaration(before, names, exempt, comment), "for", |before|)
    requires FreeOf(names + Tail(exempt, comment), "except", |names|) && IsIdentifier(entity)
    ensures TargetMatches(Declaration(before, names, exempt, comment), entity)
            <==> AnyReaches(ReadItems(names, exempt, comment), entity)
  {
    hide FreeOf, UpToExcept, TargetText, TargetMatches, AnyReaches, SplitChar, ReadText, ReadItems, Tail, IsIdentifier;
    ReadBehindFor(before, names + Tail(exempt, comment));
    ReadTextIs(names, exempt, comment);
    MatchesWhen(Declaration(before, names, exempt, comment), ReadText(names, exempt, comment), entity);
    ItemsAreRead(names, exempt, comment, entity);
  }

  function LastOf(items: seq<string>): string
    requires items != []
  {
    items[|items| - 1]
  }

  lemma {:induction false} AnyLast(items: seq<string>, entity: string)
    requires items != []
    ensures AnyReaches(items, entity) <==> AnyReaches(AllButLast(items), entity) || Reaches(Trim(LastOf(items)), entity)
  {
    hide AnyReaches, Reaches, Trim;
    assert items == AllButLast(items) + [LastOf(items)];
    AnyAppend(AllButLast(items), [LastOf(items)], entity);
    AnyOne(LastOf(items), entity);
  }

  lemma {:induction false} AnyFirst(items: seq<string>, entity: string)
    requires items != []
    ensures AnyReaches(items, entity) <==> Reaches(Trim(items[0]), entity) || AnyReaches(items[1..], entity)
  {
    hide AnyReaches, Reaches, Trim;
    assert items == [items[0]] + items[1..];
    AnyAppend([items[0]], items[1..], entity);
    AnyOne(items[0], entity);
  }

  /** Exactly when the answer is right, with no `for` before the keyword. With
      exemptions: unless the entity is named and exempt, for these are not read.
      Without any, and without a comment: always. With a comment behind the names:
      when an earlier name is the entity's, or the last name and the items of the
      comment behind its first comma agree on it. */
  lemma {:induction false} KeywordRightIff(
    before: string, names: string, exempt: Option<string>, comment: Option<string>, entity: string)
    requires FreeOf(Declaration(before, names, exempt, comment), "for", |before|)
    requires FreeOf(names + Tail(exempt, comment), "except", |names|) && IsIdentifier(entity)
    ensures
      var items := SplitChar(names, ',');
      (TargetMatches(Declaration(before, names, exempt, comment), entity) <==> About(names, exempt, entity))
      <==> match (exempt, comment)
           case (Some(e), _) => !(AnyReaches(items, entity) && AnyReaches(SplitChar(e, ','), entity))
           case (None, None) => true
           case (None, Some(c)) =>
             AnyReaches(AllButLast(items), entity)
             || (AnyReaches(CommentItems(c), entity) <==> Reaches(Trim(LastOf(items)), entity))
  {
    hide TargetMatches, AnyReaches, SplitChar, Reaches, Trim, CommentItems, Declaration, FreeOf, IsIdentifier, LastOf;
    KeywordReads(before, names, exempt, comment, entity);
    var items := SplitChar(names, ',');
    AnyLast(items, entity);
    if exempt.None? && comment.Some? {
      AnyAppend(AllButLast(items), CommentItems(comment.value), entity);
    }
  }

  /** A declaration for one entity, with a comment in which no comma stands, is not
      taken to be about it. */
  lemma {:induction false} CommentHidesEntity(before: string, entity: string, comment: string)
    requires IsIdentifier(entity) && ',' !in comment
    requires FreeOf(before + "for" + (" " + entity + " //" + comment), "for", |before|)
    requires FreeOf(" " + entity + " //" + comment, "except", |entity| + 2)
    ensures !TargetMatches(before + "for" + (" " + entity + " //" + comment), entity)
  {
    hide TargetMatches, AnyReaches, SplitChar, FreeOf, UpToExcept, IsIdentifier;
    var names := " " + entity + " ";
    assert names + Tail(None, Some(comment)) == " " + entity + " //" + comment by { OneName(entity, comment); }
    KeywordReads(before, names, None, Some(comment), entity);
    assert ',' !in names by { NoCommaIn(entity); }
    SplitCharPrefix(names, ',', []);
    UpToExceptIsStart(comment);
    SplitCharPrefix(UpToExcept(comment), ',', []);
    NoneReach(names, UpToExcept(comment), entity);
  }

  lemma {:induction false} OneName(entity: string, comment: string)
    ensures (" " + entity + " ") + Tail(None, Some(comment)) == " " + entity + " //" + comment
  {
    assert Tail(None, Some(comment)) == "//" + comment;
    Assoc(" " + entity, " ", "//" + comment);
    assert " " + ("//" + comment) == " //" + comment;
    Assoc(" " + entity, " //", comment);
  }

  lemma {:induction false} NoCommaIn(entity: string)
    requires IsIdentifier(entity)
    ensures ',' !in " " + entity + " "
  {
  }

  lemma {:induction false} UpToExceptIsStart(text: string)
    ensures UpToExcept(text) <= text
  {
    hide Find;
  }

  lemma {:induction false} NoneReach(names: string, more: string, entity: string)
    ensures !AnyReaches(AllButLast([names]) + [more][1..], entity)
  {
    assert AllButLast([names]) == [] && [more][1..] == [];
  }

  // ---- `except` in a name ----

  /** A name with `except` in it is read up to there, and nothing behind it is: so
      the answer is right exactly when an earlier name is the entity's, or what is
      read of that name and the rest of the names agree on it. */
  lemma {:induction false} ExceptInNameRightIff(before: string, read: string, lost: string, comment: Option<string>,
                                                entity: string)
    requires
      var names := read + ("except" + lost);
      FreeOf(Declaration(before, names, None, comment), "for", |before|)
      && FreeOf(names + Tail(None, comment), "except", |read|)
    ensures
      var names := read + ("except" + lost);
      var items, broken := SplitChar(read, ','), SplitChar("except" + lost, ',');
      (TargetMatches(Declaration(before, names, None, comment), entity) <==> About(names, None, entity))
      <==> AnyReaches(AllButLast(items), entity)
           || (Reaches(Trim(LastOf(items)), entity)
               <==> Reaches(Trim(LastOf(items) + broken[0]), entity) || AnyReaches(broken[1..], entity))
  {
    hide TargetText, TargetMatches, AnyReaches, SplitChar, Reaches, Trim, FreeOf, UpToExcept;
    var names := read + ("except" + lost);
    var items, broken := SplitChar(read, ','), SplitChar("except" + lost, ',');
    var tail := Tail(None, comment);
    ReadBehindFor(before, names + tail);
    assert names + tail == read + ("except" + (lost + tail)) by {
      Assoc(read, "except" + lost, tail);
      Assoc("except", lost, tail);
    }
    ReadsOn(read, "except" + (lost + tail));
    ExceptStops(lost + tail);
    assert read + "" == read;
    MatchesWhen(Declaration(before, names, None, comment), read, entity);
    AnyLast(items, entity);
    SplitCharConcat(read, ',', "except" + lost);
    MergedIs(items, broken);
    var joined := LastOf(items) + broken[0];
    AnyAppend(AllButLast(items) + [joined], broken[1..], entity);
    AnyAppend(AllButLast(items), [joined], entity);
    AnyOne(joined, entity);
  }

  // ---- a `for` before the keyword ----

  /** The part that runs into the keyword names nothing. */
  lemma {:induction false} MergedReachesNothing(partial: string, first: string, entity: string)
    requires IsIdentifier(entity) && first != [] && IsSpace(first[0]) && !Blank(first)
    ensures !Reaches(Trim(partial + ("for" + first)), entity)
  {
    hide Reaches, Trim, IsIdentifier;
    var t := partial + ("for" + first);
    var x, y := TrimTakesBlanks(t);
    var core := Trim(t);
    var f := |partial|;
    assert t[f] == 'f' && t[f + 3] == first[0];
    var k :| 0 <= k < |first| && !IsSpace(first[k]);
    assert t[f + 3 + k] == first[k];
    BlankInside(x, core, y, f, f + 3, f + 3 + k);
    StrangerReachesNothing(core, first[0], entity) by { BlankIsStrange(first[0], core); }
  }

  lemma {:induction false} BlankInside(x: string, core: string, y: string, i: nat, j: nat, k: nat)
    requires Blank(x) && Blank(y) && i <= j <= k < |x + core + y|
    requires !IsSpace((x + core + y)[i]) && !IsSpace((x + core + y)[k])
    ensures (x + core + y)[j] in core
  {
    hide IsSpace;
    var t := x + core + y;
    assert |x| <= i && k < |x| + |core|;
    assert t[j] == core[j - |x|];
  }

  lemma {:induction false} ForIsOnePart()
    ensures SplitChar("for", ',') == ["for"] && AllButLast(["for"]) == []
  {
    SplitCharPrefix("for", ',', []);
  }

  lemma {:induction false} BlankIsStrange(blank: char, core: string)
    requires IsSpace(blank) && blank in core
    ensures !IsWordChar(blank) && blank != '-' && core != "*"
  {
  }

  /** What can name an entity behind the keyword, when that is not the first
      `for`: the first name is not read. */
  function LaterItems(names: string, exempt: Option<string>, comment: Option<string>): seq<string> {
    var items := SplitChar(names, ',');
    if exempt.None? && comment.Some? then
      (if |items| == 1 then [] else AllButLast(items)[1..]) + CommentItems(comment.value)
    else items[1..]
  }

  /** The first name, between the keyword and a comma, a comment or the end. */
  predicate NameFollows(names: string) {
    var first := SplitChar(names, ',')[0];
    first != [] && IsSpace(first[0]) && !Blank(first)
  }

  lemma {:induction false} ReadStarts(names: string, exempt: Option<string>, comment: Option<string>, entity: string)
    requires NameFollows(names) && IsIdentifier(entity)
    ensures
      var read := SplitChar(ReadText(names, exempt, comment), ',');
      read[0] != [] && IsSpace(read[0][0]) && !Blank(read[0])
      && (AnyReaches(read[1..], entity) <==> AnyReaches(LaterItems(names, exempt, comment), entity))
  {
    hide AnyReaches, SplitChar, UpToExcept, Reaches, Trim, IsIdentifier, AllButLast, IsSpace, Blank;
    if exempt.None? && comment.Some? {
      var more := UpToExcept(comment.value);
      var items := SplitChar(names, ',');
      var joined, rest := LastOf(items) + ("//" + SplitChar(more, ',')[0]), SplitChar(more, ',')[1..];
      SlashesAreOnePart();
      FirstPart("//", more);
      PartsOfFirst("//" + SplitChar(more, ',')[0], rest);
      SplitCharConcat(names, ',', "//" + more);
      MergedIs(items, SplitChar("//" + more, ','));
      SlashedReachesNothing(LastOf(items), SplitChar(more, ',')[0], entity);
      StartsAlike(items, joined, rest, "//" + SplitChar(more, ',')[0]);
      if |items| > 1 {
        AnyAppend(AllButLast(items)[1..] + [joined], rest, entity);
        AnyAppend(AllButLast(items)[1..], [joined], entity);
        AnyAppend(AllButLast(items)[1..], rest, entity);
        AnyOne(joined, entity);
      } else {
        NothingBefore(rest, []);
        assert [] + rest == rest;
      }
    }
  }

  lemma {:induction false} StartsAlike(items: seq<string>, joined: string, rest: seq<string>, more: string)
    requires items != [] && joined == LastOf(items) + more
    requires items[0] != [] && IsSpace(items[0][0]) && !Blank(items[0])
    ensures
      var all := AllButLast(items) + [joined] + rest;
      all[0] != [] && IsSpace(all[0][0]) && !Blank(all[0])
      && all[1..] == (if |items| == 1 then rest else AllButLast(items)[1..] + [joined] + rest)
  {
    var all := AllButLast(items) + [joined] + rest;
    if |items| == 1 {
      assert all == [joined] + rest;
      var k :| 0 <= k < |items[0]| && !IsSpace(items[0][k]);
      assert joined[k] == items[0][k] && joined[0] == items[0][0];
    } else {
      assert all[0] == items[0];
    }
  }

  /** With a `for` before the keyword, every item between the two but the last is
      read, and behind the keyword what `LaterItems` says. */
  lemma {:induction false} EarlyForReads(before: string, between: string, names: string, exempt: Option<string>,
                                         comment: Option<string>, entity: string)
    requires FreeOf(Declaration(before + "for" + between, names, exempt, comment), "for", |before|)
    requires FreeOf(between + "for" + (names + Tail(exempt, comment)), "except", |between| + 3 + |names|)
    requires NameFollows(names) && IsIdentifier(entity)
    ensures TargetMatches(Declaration(before + "for" + between, names, exempt, comment), entity)
            <==> AnyReaches(AllButLast(SplitChar(between, ',')), entity)
                 || AnyReaches(LaterItems(names, exempt, comment), entity)
  {
    hide *;
    var line := Declaration(before + "for" + between, names, exempt, comment);
    var text := ReadText(names, exempt, comment);
    EarlyRead(before, between, names, exempt, comment);
    MatchesWhen(line, between + ("for" + text), entity);
    ReadStarts(names, exempt, comment, entity);
    ForIsOnePart();
    FirstPart("for", text);
    PartsOfFirst("for" + SplitChar(text, ',')[0], SplitChar(text, ',')[1..]);
    MergedReachesNothing(SplitChar(between, ',')[|SplitChar(between, ',')| - 1], SplitChar(text, ',')[0], entity);
    JoinedItems(between, "for" + text, entity);
  }

  lemma {:induction false} EarlyRead(before: string, between: string, names: string, exempt: Option<string>,
                                     comment: Option<string>)
    requires FreeOf(Declaration(before + "for" + between, names, exempt, comment), "for", |before|)
    requires FreeOf(between + "for" + (names + Tail(exempt, comment)), "except", |between| + 3 + |names|)
    ensures TargetText(Declaration(before + "for" + between, names, exempt, comment))
            == Some(between + ("for" + ReadText(names, exempt, comment)))
  {
    hide TargetText, UpToExcept, ReadText, Tail, At;
    var rest := names + Tail(exempt, comment);
    var after := between + "for" + rest;
    assert Declaration(before + "for" + between, names, exempt, comment) == before + "for" + after by {
      Regrouped(before, between, rest);
    }
    ReadBehindFor(before, after);
    ReadsOn(between + "for", rest);
    forall i | 0 <= i < |names| ensures !At(rest, "except", i) { ShiftAt(between + "for", rest, "except", i); }
    ReadTextIs(names, exempt, comment);
    Assoc(between, "for", ReadText(names, exempt, comment));
  }

  lemma {:induction false} Regrouped(before: string, between: string, rest: string)
    ensures (before + "for" + between) + "for" + rest == before + "for" + (between + "for" + rest)
  {
    Assoc(before + "for", between, "for");
    Assoc(before + "for", between + "for", rest);
  }

  /** Exactly when the answer is right all the same. */
  lemma {:induction false} EarlyForRightIff(before: string, between: string, names: string, exempt: Option<string>,
                                            comment: Option<string>, entity: string)
    requires FreeOf(Declaration(before + "for" + between, names, exempt, comment), "for", |before|)
    requires FreeOf(between + "for" + (names + Tail(exempt, comment)), "except", |between| + 3 + |names|)
    requires NameFollows(names) && IsIdentifier(entity)
    ensures
      var items := SplitChar(names, ',');
      var strays := AnyReaches(AllButLast(SplitChar(between, ',')), entity);
      (TargetMatches(Declaration(before + "for" + between, names, exempt, comment), entity)
       <==> About(names, exempt, entity))
      <==> match (exempt, comment)
           case (Some(e), _) =>
             if AnyReaches(SplitChar(e, ','), entity) then !strays && !AnyReaches(items[1..], entity)
             else AnyReaches(items[1..], entity) || (strays <==> Reaches(Trim(items[0]), entity))
           case (None, None) =>
             AnyReaches(items[1..], entity) || (strays <==> Reaches(Trim(items[0]), entity))
           case (None, Some(c)) =>
             var noted := AnyReaches(CommentItems(c), entity);
             if |items| == 1 then strays || noted <==> Reaches(Trim(items[0]), entity)
             else
               AnyReaches(AllButLast(items)[1..], entity)
               || (strays || noted <==> Reaches(Trim(items[0]), entity) || Reaches(Trim(LastOf(items)), entity))
  {
    hide TargetMatches, AnyReaches, SplitChar, Reaches, Trim, CommentItems, Declaration, FreeOf;
    hide IsIdentifier, NameFollows;
    EarlyForReads(before, between, names, exempt, comment, entity);
    var items := SplitChar(names, ',');
    AnyFirst(items, entity);
    if exempt.None? && comment.Some? {
      var noted := CommentItems(comment.value);
      if |items| > 1 {
        AnyAppend(AllButLast(items)[1..], noted, entity);
        assert items[1..] == AllButLast(items)[1..] + [LastOf(items)];
        AnyAppend(AllButLast(items)[1..], [LastOf(items)], entity);
        AnyOne(LastOf(items), entity);
      } else {
        assert [] + noted == noted && items[1..] == [];
        Nobody(entity);
      }
    }
  }

  lemma {:induction false} Nobody(entity: string)
    ensures !AnyReaches([], entity)
  {
  }

  // ---- the targets as they are read ----

  /** The names are read as they are written exactly when no `for` stands before
      the keyword and no comment right behind the names. */
  lemma {:induction false} ReadsNamesIff(before: string, names: string, exempt: Option<string>, comment: Option<string>)
    requires FreeOf(names + Tail(exempt, comment), "except", |names|)
    requires
      var line := Declaration(before, names, exempt, comment);
      forall f, i | 0 <= f <= i < |before| && At(line, "for", f) :: !At(line, "except", i)
    ensures TargetText(Declaration(before, names, exempt, comment)) == Some(names)
            <==> FreeOf(Declaration(before, names, exempt, comment), "for", |before|) && (exempt.Some? || comment.None?)
  {
    hide TargetText, Find, FindFrom, UpToExcept, At, Tail;
    var line := Declaration(before, names, exempt, comment);
    if FreeOf(line, "for", |before|) {
      ReadBehindFor(before, names + Tail(exempt, comment));
      ReadTextIs(names, exempt, comment);
      LongerWithComment(names, exempt, comment);
    } else {
      var first := Find(line, "for").value;
      var between := EarlyParts(before, names + Tail(exempt, comment), first);
      ReadBehindFor(before[..first], between + "for" + (names + Tail(exempt, comment)));
      EarlyIsFree(before, between, names, Tail(exempt, comment), first);
      ReadsOn(between + "for", names + Tail(exempt, comment));
      ReadTextIs(names, exempt, comment);
      assert |ReadText(names, exempt, comment)| >= |names|;
    }
  }

  lemma {:induction false} LongerWithComment(names: string, exempt: Option<string>, comment: Option<string>)
    ensures ReadText(names, exempt, comment) == names <==> exempt.Some? || comment.None?
  {
    if exempt.None? && comment.Some? { assert |ReadText(names, exempt, comment)| > |names|; }
  }

  /** Where the first `for` stands before the keyword. */
  lemma {:induction false} EarlyParts(before: string, rest: string, first: nat) returns (between: string)
    requires At(before + "for" + rest, "for", first) && first < |before|
    ensures first + 3 <= |before| && between == before[first + 3..]
    ensures before + "for" + rest == before[..first] + "for" + (between + "for" + rest)
  {
    var line := before + "for" + rest;
    assert line[first..first + 3] == "for";
    assert line[first] == 'f' && line[first + 1] == 'o' && line[first + 2] == 'r';
    assert line[|before|] == 'f' && line[|before| + 1] == 'o';
    assert first + 3 <= |before|;
    between := before[first + 3..];
    assert before == before[..first] + "for" + between by {
      assert before[first..first + 3] == line[first..first + 3];
      SliceCut(before, 0, first, first + 3);
      SliceCut(before, 0, first + 3, |before|);
    }
    Regrouped(before[..first], between, rest);
  }

  lemma {:induction false} EarlyIsFree(before: string, between: string, names: string, tail: string, first: nat)
    requires first + 3 <= |before| && between == before[first + 3..]
    requires
      var line := before + "for" + (names + tail);
      At(line, "for", first) && line == before[..first] + "for" + (between + "for" + (names + tail))
      && forall f, i | 0 <= f <= i < |before| && At(line, "for", f) :: !At(line, "except", i)
    ensures FreeOf(between + "for" + (names + tail), "except", |between| + 3)
  {
    hide At;
    var line, after := before + "for" + (names + tail), between + "for" + (names + tail);
    forall i | 0 <= i < |between| + 3 ensures !At(after, "except", i) {
      ShiftAt(before[..first] + "for", after, "except", i);
      if i < |between| {
        assert !At(line, "except", first + 3 + i);
      } else {
        KeywordIsNoExcept(between, names + tail, i);
      }
    }
  }

  lemma {:induction false} KeywordIsNoExcept(between: string, rest: string, i: nat)
    requires |between| <= i < |between| + 3
    ensures !At(between + "for" + rest, "except", i)
  {
    var after := between + "for" + rest;
    assert after[|between|] == 'f' && after[|between| + 1] == 'o' && after[|between| + 2] == 'r';
    if i + 6 <= |after| { assert after[i..i + 6][0] == after[i]; }
  }

  // ---- lines that are read wrong ----

  /** A declaration for one entity, whose search field starts with `for`, is not
      taken to be about it. */
  lemma {:induction false} FieldHidesEntity(rest: string, entity: string)
    requires ',' !in rest && IsIdentifier(entity)
    requires FreeOf(rest + "]) for " + entity, "except", |rest| + 7 + |entity|)
    ensures !TargetMatches("use search(fields: [" + ("for" + rest) + "]) for " + entity, entity)
  {
    hide TargetMatches, AnyReaches, At, Declaration, Label, SplitChar, FreeOf, IsSpace, Blank, IsIdentifier;
    var before, between, names := "use search(fields: [", rest + "]) ", " " + entity;
    var line := Declaration(before + "for" + between, names, None, None);
    AroundKeyword(before, rest, entity);
    NoForInUse("for" + rest + "]) for " + entity);
    assert ',' !in between && ',' !in names by { Commas(rest, entity); }
    SplitCharPrefix(between, ',', []);
    SplitCharPrefix(names, ',', []);
    OneNameFollows(entity);
    EarlyForReads(before, between, names, None, None, entity);
    assert [names][1..] == [] && AllButLast([between]) == [];
    Nobody(entity);
  }

  lemma {:induction false} Commas(rest: string, entity: string)
    requires ',' !in rest && IsIdentifier(entity)
    ensures ',' !in rest + "]) " && ',' !in " " + entity
  {
  }

  lemma {:induction false} OneNameFollows(entity: string)
    requires IsIdentifier(entity) && SplitChar(" " + entity, ',') == [" " + entity]
    ensures NameFollows(" " + entity)
  {
    hide SplitChar;
    var first := " " + entity;
    assert first[1] == entity[0] && first[0] == ' ';
  }

  lemma {:induction false} AroundKeyword(before: string, rest: string, entity: string)
    ensures Declaration(before + "for" + (rest + "]) "), " " + entity, None, None)
            == before + ("for" + rest) + "]) for " + entity
    ensures Declaration(before + "for" + (rest + "]) "), " " + entity, None, None)
            == before + ("for" + rest + "]) for " + entity)
    ensures rest + "]) " + "for" + (" " + entity + Tail(None, None)) == rest + "]) for " + entity
  {
    assert " " + entity + Tail(None, None) == " " + entity;
  }

  lemma {:induction false} NoForInUse(rest: string)
    ensures FreeOf("use search(fields: [" + rest, "for", 20)
  {
    var before := "use search(fields: [";
    var line := before + rest;
    assert forall i | 0 <= i < 20 :: before[i] == 'f' ==> i == 11;
    forall i | 0 <= i < 20 ensures !At(line, "for", i) {
      assert line[i] == before[i];
      if i + 3 <= |line| { assert line[i..i + 3][0] == line[i] && line[i..i + 3][1] == line[i + 1]; }
      if i == 11 { assert line[12] == before[12] == 'i'; }
    }
  }

  lemma {:induction false} NoExceptIn(text: string)
    requires 'c' !in text
    ensures forall end :: FreeOf(text, "except", end)
  {
    forall i: nat ensures !At(text, "except", i) {
      if i + 6 <= |text| { assert text[i..i + 6][2] == text[i + 2]; }
    }
  }

  lemma {:induction false} NoForIn(text: string, rest: string)
    requires 'f' !in text
    ensures FreeOf(text + rest, "for", |text|)
  {
    forall i | 0 <= i < |text| ensures !At(text + rest, "for", i) {
      assert (text + rest)[i] == text[i];
      if i + 3 <= |text + rest| { assert (text + rest)[i..i + 3][0] == (text + rest)[i]; }
    }
  }

  /** Two such lines: a field that starts with `for`, and a comment. */
  lemma {:induction false} NoteIsMissed()
    ensures !TargetMatches("use search(fields: [" + ("for" + "mat") + "]) for " + "Note", "Note")
    ensures !TargetMatches("use dto " + "for" + (" " + "Note" + " //" + " index"), "Note")
  {
    hide *;
    NoteIsPlain();
    NoExceptIn("mat" + "]) for " + "Note");
    FieldHidesEntity("mat", "Note");
    NoExceptIn(" " + "Note" + " //" + " index");
    NoForIn("use dto ", "for" + (" " + "Note" + " //" + " index"));
    Assoc("use dto ", "for", " " + "Note" + " //" + " index");
    CommentHidesEntity("use dto ", "Note", " index");
  }

  lemma {:induction false} NoteIsPlain()
    ensures ',' !in "mat" && IsIdentifier("Note") && ',' !in " index" && 'f' !in "use dto "
    ensures 'c' !in "mat" + "]) for " + "Note" && 'c' !in " " + "Note" + " //" + " index"
  {
  }
}
