/** Taking one field out of the bracket lists that name it: a search
    projection's fields, an index or a unique constraint. */
module FieldRemoval {
  import opened Text
  import opened Projections
  import opened IdentifierEdit

  // ---- bracket lists ----

  function FirstWord(s: string): (w: string)
    ensures w <= s
  {
    if s == [] || IsSpace(s[0]) then [] else [s[0]] + FirstWord(s[1..])
  }

  /** Whether a trimmed list item is the field, by its name or its label. */
  predicate NamesField(item: string, field: string) {
    var column := FirstWord(item);
    column == field || column == Label(field) || Label(column) == Label(field)
  }

  function Items(content: string): (items: seq<string>)
    ensures items != []
  {
    TrimAll(SplitChar(content, ','))
  }

  function Kept(items: seq<string>, field: string): (kept: seq<string>)
    ensures |kept| <= |items|
    ensures |kept| == |items| ==> kept == items
    ensures forall i | 0 <= i < |kept| :: kept[i] in items && !NamesField(kept[i], field)
    ensures kept == items <==> forall i | 0 <= i < |items| :: !NamesField(items[i], field)
  {
    if items == [] then []
    else if NamesField(items[0], field) then Kept(items[1..], field)
    else [items[0]] + Kept(items[1..], field)
  }

  lemma {:induction false} KeptAppend(items: seq<string>, item: string, field: string)
    ensures Kept(items + [item], field)
            == Kept(items, field) + (if NamesField(item, field) then [] else [item])
  {
    hide NamesField;
    if items == [] {
      assert items + [item] == [item];
    } else {
      assert (items + [item])[1..] == items[1..] + [item];
      KeptAppend(items[1..], item, field);
    }
  }

  /** An item is the field exactly when its first word has the field's label. */
  lemma {:induction false} NamesFieldIffSameLabel(item: string, field: string)
    ensures NamesField(item, field) <==> Label(FirstWord(item)) == Label(field)
  {
    hide LabelFrom, FirstWord;
    LabelsAreLabels(field, 0);
    LabelsAreLabels(Label(field), 0);
  }

  /** What is kept is every item with another label. */
  lemma {:induction false} KeptExactly(items: seq<string>, field: string)
    ensures forall item :: item in Kept(items, field) <==> item in items && Label(FirstWord(item)) != Label(field)
  {
    hide NamesField, Label, FirstWord;
    if items != [] {
      KeptExactly(items[1..], field);
      NamesFieldIffSameLabel(items[0], field);
      assert forall item :: item in items <==> item == items[0] || item in items[1..];
    }
  }

  /** The first word of a text. */
  lemma {:induction false} FirstWordIs(word: string, rest: string)
    requires forall i | 0 <= i < |word| :: !IsSpace(word[i])
    requires rest != [] ==> IsSpace(rest[0])
    ensures FirstWord(word + rest) == word
  {
    if word == [] {
      assert word + rest == rest;
    } else {
      assert (word + rest)[1..] == word[1..] + rest;
      FirstWordIs(word[1..], rest);
    }
  }

  lemma {:induction false} ItemsAre(content: string, field: string)
    ensures Items(content) == TrimAll(SplitChar(content, ','))
    ensures Kept([], field) == []
  {
  }

  method RemoveFieldFromBracketList(content: string, field: string) returns (removed: bool, text: string)
    ensures removed <==> Kept(Items(content), field) != Items(content)
    ensures text == if removed then Join(Kept(Items(content), field), ", ") else content
  {
    hide *;
    ItemsAre(content, field);
    var items := SplitChar(content, ',');
    var kept := [];
    removed := false;
    ghost var all := Items(content);
    for i := 0 to |items|
      invariant kept == Kept(all[..i], field)
      invariant removed <==> exists k | 0 <= k < i :: NamesField(all[k], field)
    {
      var trimmed := Trim(items[i]);
      assert all[..i + 1] == all[..i] + [trimmed];
      KeptAppend(all[..i], trimmed, field);
      if NamesField(trimmed, field) {
        removed := true;
      } else {
        kept := kept + [trimmed];
      }
    }
    assert all[..|items|] == all;
    if !removed {
      return false, content;
    }
    text := Join(kept, ", ");
  }

  lemma {:induction false} SplitAfterJoinPlain(items: seq<string>)
    requires items != []
    requires forall i | 0 <= i < |items| :: ',' !in items[i] && Trimmed(items[i])
    ensures TrimAll(SplitChar(Join(items, ", "), ',')) == items
  {
    hide *;
    var first, rest := items[0], items[1..];
    JoinFirst(items, ", ");
    assert items == [first] + rest;
    if rest == [] {
      SplitOne(first);
    } else {
      SplitAfterJoinPlain(rest);
      SplitMore(first, Join(rest, ", "));
    }
  }

  lemma {:induction false} SplitOne(first: string)
    requires ',' !in first && Trimmed(first)
    ensures TrimAll(SplitChar(first, ',')) == [first]
  {
    hide SplitChar, TrimAll, Trim;
    TrimOfTrimmed(first);
    SplitCharPrefix(first, ',', []);
    TrimAllCons(first, []);
  }

  lemma {:induction false} SplitMore(first: string, more: string)
    requires ',' !in first && Trimmed(first)
    ensures TrimAll(SplitChar(first + ", " + more, ',')) == [first] + TrimAll(SplitChar(more, ','))
  {
    hide SplitChar, TrimAll, Trim;
    TrimOfTrimmed(first);
    assert first + ", " + more == first + [','] + (" " + more);
    SplitCharPrefix(first, ',', " " + more);
    SplitSpace(more);
    TrimAllCons(first, SplitChar(" " + more, ','));
  }

  lemma {:induction false} SplitSpace(more: string)
    ensures TrimAll(SplitChar(" " + more, ',')) == TrimAll(SplitChar(more, ','))
  {
    var parts := SplitChar(more, ',');
    assert (" " + more)[1..] == more;
    assert SplitChar(" " + more, ',') == [" " + parts[0]] + parts[1..];
    assert parts == [parts[0]] + parts[1..];
    TrimAllCons(" " + parts[0], parts[1..]);
    TrimAllCons(parts[0], parts[1..]);
    TrimIgnoresBlanks(" ", parts[0], []);
    assert " " + parts[0] + [] == " " + parts[0];
  }

  /** The rewritten list, read again, is the list without the field. */
  lemma {:induction false} BracketListFilters(content: string, field: string)
    requires Kept(Items(content), field) != []
    ensures Items(Join(Kept(Items(content), field), ", ")) == Kept(Items(content), field)
  {
    hide Kept, Trim, NamesField;
    var parts, kept := SplitChar(content, ','), Kept(Items(content), field);
    forall i | 0 <= i < |parts| ensures ',' !in Trim(parts[i]) && Trimmed(Trim(parts[i])) {
      var x, y := TrimTakesBlanks(parts[i]);
    }
    SplitAfterJoinPlain(kept);
  }

  // ---- the parenthesis that closes the search projection ----

  /** `depth` parentheses are open before `i`; where the last of them closes. */
  function ClosingParen(line: string, i: nat, depth: int): (r: Option<nat>)
    requires i <= |line|
    ensures r.Some? ==> i <= r.value < |line| && line[r.value] == ')'
    decreases |line| - i
  {
    if i == |line| then None
    else if line[i] == '(' then ClosingParen(line, i + 1, depth + 1)
    else if line[i] == ')' then (if depth == 1 then Some(i) else ClosingParen(line, i + 1, depth - 1))
    else ClosingParen(line, i + 1, depth)
  }

  function Count(s: string, c: char): nat {
    if s == [] then 0 else (if s[|s| - 1] == c then 1 else 0) + Count(s[..|s| - 1], c)
  }

  /** What is open after `s`. */
  function Depth(s: string): int {
    Count(s, '(') - Count(s, ')')
  }

  lemma {:induction false} DepthNext(line: string, open: nat, i: nat)
    requires open <= i < |line|
    ensures Depth(line[open..i + 1])
            == Depth(line[open..i]) + (if line[i] == '(' then 1 else if line[i] == ')' then -1 else 0)
  {
    var s := line[open..i + 1];
    assert s[|s| - 1] == line[i] && s[..|s| - 1] == line[open..i];
  }

  /** From inside the outermost parenthesis, the first place where as many are
      closed as were opened. */
  lemma {:induction false} ClosingFrom(line: string, open: nat, i: nat)
    requires open < i <= |line| && Depth(line[open..i]) > 0
    ensures
      var close := ClosingParen(line, i, Depth(line[open..i]));
      var end := if close.Some? then close.value else |line|;
      (close.Some? ==> i <= close.value < |line| && Depth(line[open..close.value + 1]) == 0)
      && forall k | i < k <= end :: Depth(line[open..k]) > 0
    decreases |line| - i
  {
    if i < |line| {
      hide Depth;
      DepthNext(line, open, i);
      if Depth(line[open..i + 1]) > 0 {
        ClosingFrom(line, open, i + 1);
      }
    }
  }

  /** Among `line[open..]`, the first stretch with as many closing as opening
      parentheses ends at `close`; there is none when there is no `close`. */
  ghost predicate Balances(line: string, open: nat, close: Option<nat>)
    requires open <= |line|
  {
    var end := if close.Some? then close.value else |line|;
    (close.Some? ==>
       open <= close.value < |line|
       && Count(line[open..close.value + 1], '(') == Count(line[open..close.value + 1], ')'))
    && forall k | open < k <= end && k <= |line| :: Count(line[open..k], '(') > Count(line[open..k], ')')
  }

  lemma {:induction false} ClosingBalances(line: string, open: nat)
    requires open < |line| && line[open] == '('
    ensures Balances(line, open, ClosingParen(line, open, 0))
  {
    assert line[open..open] == [];
    DepthNext(line, open, open);
    assert Depth(line[open..open + 1]) == 1;
    ClosingFrom(line, open, open + 1);
    forall k | 0 <= k <= |line| && open <= k
      ensures Depth(line[open..k]) == Count(line[open..k], '(') - Count(line[open..k], ')')
    {
    }
  }

  method FindClosingParen(line: string, open: nat) returns (close: Option<nat>)
    requires open <= |line|
    ensures close == ClosingParen(line, open, 0)
    ensures open < |line| && line[open] == '(' ==> Balances(line, open, close)
  {
    hide Balances;
    if open < |line| && line[open] == '(' { ClosingBalances(line, open); }
    var depth := 0;
    for i := open to |line|
      invariant ClosingParen(line, i, depth) == ClosingParen(line, open, 0)
    {
      if line[i] == '(' {
        depth := depth + 1;
      } else if line[i] == ')' {
        depth := depth - 1;
        if depth == 0 {
          return Some(i);
        }
      }
    }
    return None;
  }

  // ---- the use line ----

  /** What is written when the list empties: without the projection and the
      comma in front of it; failing that comma, without everything up to the
      first comma behind it; without any comma, nothing. */
  function DropSearch(before: string, after: string): string {
    match FindLastChar(before, ',')
    case Some(comma) => before[..comma] + after
    case None =>
      match FindChar(after, ',')
      case Some(comma) => before + TrimStart(after[comma + 1..])
      case None => []
  }

  /** Where the search projection and its bracket list stand. */
  datatype SearchList = SearchList(pos: nat, close: nat, open: nat, end: nat)

  function FindSearchList(line: string): (r: Option<SearchList>)
    ensures r.Some? ==> r.value.pos <= r.value.close < |line|
    ensures r.Some? ==> r.value.open < r.value.end < |line[r.value.pos..r.value.close + 1]|
  {
    match Find(line, "search(")
    case None => None
    case Some(pos) =>
      match ClosingParen(line, pos + 6, 0)
      case None => None
      case Some(close) =>
        var search := line[pos..close + 1];
        match (FindChar(search, '['), FindLastChar(search, ']'))
        case (Some(open), Some(end)) => if open >= end then None else Some(SearchList(pos, close, open, end))
        case _ => None
  }

  /** The line with its bracket list replaced, or without the projection when
      the new list is empty. */
  function WithList(line: string, at: SearchList, inner: string): string
    requires at.pos <= at.close < |line|
    requires at.open < at.end < |line[at.pos..at.close + 1]|
  {
    var search := line[at.pos..at.close + 1];
    if inner != [] then
      line[..at.pos] + (search[..at.open + 1] + inner + search[at.end..]) + line[at.close + 1..]
    else DropSearch(line[..at.pos], line[at.close + 1..])
  }

  function WithoutField(line: string, field: string): Option<string> {
    match FindSearchList(line)
    case None => None
    case Some(at) =>
      var items := Items(line[at.pos..at.close + 1][at.open + 1..at.end]);
      var kept := Kept(items, field);
      if kept == items then None else Some(WithList(line, at, Join(kept, ", ")))
  }

  lemma {:induction false} SearchListCases(line: string)
    ensures
      var found := Find(line, "search(");
      if found.None? then FindSearchList(line).None?
      else
        var paren := ClosingParen(line, found.value + 6, 0);
        if paren.None? then FindSearchList(line).None?
        else
          var search := line[found.value..paren.value + 1];
          var first, last := FindChar(search, '['), FindLastChar(search, ']');
          FindSearchList(line)
          == if first.Some? && last.Some? && first.value < last.value
             then Some(SearchList(found.value, paren.value, first.value, last.value)) else None
  {
    hide Find, ClosingParen, FindChar, FindLastChar;
  }

  lemma {:induction false} NoSearchList(line: string, field: string)
    requires FindSearchList(line).None?
    ensures WithoutField(line, field) == None
  {
    hide FindSearchList;
  }

  lemma {:induction false} WithoutFieldCases(line: string, field: string, at: SearchList)
    requires FindSearchList(line) == Some(at)
    ensures
      var items := Items(line[at.pos..at.close + 1][at.open + 1..at.end]);
      WithoutField(line, field)
      == if Kept(items, field) == items then None else Some(WithList(line, at, Join(Kept(items, field), ", ")))
  {
    hide FindSearchList, WithList, Items, Kept, Join;
  }

  method LocateSearchList(line: string) returns (r: Option<SearchList>)
    ensures r == FindSearchList(line)
  {
    hide Find, ClosingParen, FindChar, FindLastChar, FindSearchList;
    SearchListCases(line);
    var found := Find(line, "search(");
    if found.None? { return None; }
    var pos := found.value;
    var paren := FindClosingParen(line, pos + 6);
    if paren.None? { return None; }
    var search := line[pos..paren.value + 1];
    var first, last := FindChar(search, '['), FindLastChar(search, ']');
    if first.None? || last.None? || first.value >= last.value { return None; }
    return Some(SearchList(pos, paren.value, first.value, last.value));
  }

  method RemoveFieldFromUseLine(line: string, field: string) returns (r: Option<string>)
    ensures r == WithoutField(line, field)
  {
    hide *;
    var found := LocateSearchList(line);
    if found.None? {
      NoSearchList(line, field);
      return None;
    }
    var at := found.value;
    var search := line[at.pos..at.close + 1];
    WithoutFieldCases(line, field, at);
    var removed, inner := RemoveFieldFromBracketList(search[at.open + 1..at.end], field);
    if !removed { return None; }
    WithListIs(line, at, inner);
    if inner != [] {
      return Some(line[..at.pos] + (search[..at.open + 1] + inner + search[at.end..]) + line[at.close + 1..]);
    }
    return Some(DropSearch(line[..at.pos], line[at.close + 1..]));
  }

  lemma {:induction false} WithListIs(line: string, at: SearchList, inner: string)
    requires at.pos <= at.close < |line|
    requires at.open < at.end < |line[at.pos..at.close + 1]|
    ensures
      var search := line[at.pos..at.close + 1];
      inner != [] ==>
        WithList(line, at, inner)
        == line[..at.pos] + (search[..at.open + 1] + inner + search[at.end..]) + line[at.close + 1..]
    ensures inner == [] ==> WithList(line, at, inner) == DropSearch(line[..at.pos], line[at.close + 1..])
  {
    hide DropSearch;
  }

  // ---- index and unique constraints ----

  function WithoutConstraint(line: string, field: string): Option<string> {
    match (FindChar(line, '['), FindLastChar(line, ']'))
    case (Some(open), Some(end)) =>
      if open >= end then None
      else
        var items := Items(line[open + 1..end]);
        var kept := Kept(items, field);
        if kept == items then None
        else if Join(kept, ", ") != [] then Some(line[..open + 1] + Join(kept, ", ") + line[end..])
        else Some([])
    case _ => None
  }

  method RemoveFieldFromConstraintLine(line: string, field: string) returns (r: Option<string>)
    ensures r == WithoutConstraint(line, field)
  {
    hide FindChar, FindLastChar, Items, Kept, Join;
    var first, last := FindChar(line, '['), FindLastChar(line, ']');
    if first.None? || last.None? || first.value >= last.value { return None; }
    var open, end := first.value, last.value;
    var removed, inner := RemoveFieldFromBracketList(line[open + 1..end], field);
    if !removed { return None; }
    if inner != [] {
      return Some(line[..open + 1] + inner + line[end..]);
    }
    return Some([]);
  }

  lemma {:induction false} ConstraintWhere(line: string, field: string, open: nat, end: nat)
    requires FindChar(line, '[') == Some(open) && FindLastChar(line, ']') == Some(end) && open < end < |line|
    ensures
      var items := Items(line[open + 1..end]);
      var kept := Kept(items, field);
      WithoutConstraint(line, field)
      == if kept == items then None
         else if Join(kept, ", ") != [] then Some(line[..open + 1] + Join(kept, ", ") + line[end..])
         else Some([])
  {
    hide FindChar, FindLastChar, Items, Kept, Join;
  }

  /** A constraint line whose brackets are its own loses the field from the list
      between them, keeps what is around them, and goes away exactly when the
      list becomes empty. */
  lemma {:induction false} ConstraintFilters(head: string, inner: string, tail: string, field: string)
    requires '[' !in head && ']' !in tail
    ensures
      var before, after := head + ['['], [']'] + tail;
      var r, kept := WithoutConstraint(before + inner + after, field), Kept(Items(inner), field);
      (r.None? <==> kept == Items(inner))
      && (r.Some? && Join(kept, ", ") == [] ==> r.value == [])
      && (r.Some? && Join(kept, ", ") != [] ==>
            r.value == before + Join(kept, ", ") + after && Items(Join(kept, ", ")) == kept)
  {
    hide *;
    var before, after, kept := head + ['['], [']'] + tail, Kept(Items(inner), field);
    ConstraintOpens(head, inner, after);
    ConstraintCloses(before, inner, tail);
    Mid(before, inner, after);
    ConstraintWhere(before + inner + after, field, |head|, |before| + |inner|);
    if kept != [] {
      BracketListFilters(inner, field);
    } else {
      JoinOfNone(", ");
    }
  }

  /** A line in which no list opens before one closes is left alone. */
  lemma {:induction false} ConstraintStays(line: string, field: string)
    requires forall i, j | 0 <= i < j < |line| :: !(line[i] == '[' && line[j] == ']')
    ensures WithoutConstraint(line, field) == None
  {
    hide Items, Kept, Join;
  }

  lemma {:induction false} ConstraintOpens(head: string, inner: string, after: string)
    requires '[' !in head
    ensures FindChar((head + ['[']) + inner + after, '[') == Some(|head|)
  {
    hide *;
    Assoc(head + ['['], inner, after);
    FindAt(head, '[', inner + after);
  }

  lemma {:induction false} ConstraintCloses(before: string, inner: string, tail: string)
    requires ']' !in tail
    ensures FindLastChar(before + inner + ([']'] + tail), ']') == Some(|before| + |inner|)
  {
    hide *;
    Assoc(before + inner, [']'], tail);
    FindLastAt(before + inner, ']', tail);
  }
}
