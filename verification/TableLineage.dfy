/** The names a table has had, walked backwards over the rename statements of
    the migration history, and the migrations that belong to it. */
module TableLineage {
  import opened Text
  import opened WholeWord
  import opened Splitting

  /** A migration file as captured: its text, and whether its bytes were valid
      UTF-8 to begin with. */
  datatype Captured = Captured(text: string, utf8: bool)

  datatype Record = Record(version: string, path: string)

  datatype Rename = Rename(from: string, to: string)

  datatype Authority = Present | Absent | Pending | Drifted | Unknown

  type Files = map<string, Captured>

  // ---- reading one statement ----

  function WithoutSemicolons(s: string): (r: string)
    ensures r <= s
  {
    if s != [] && s[|s| - 1] == ';' then WithoutSemicolons(s[..|s| - 1]) else s
  }

  /** The last word before a position, if there is one. */
  function LastWord(s: string): (r: Option<string>)
    ensures r.None? <==> Blank(s)
  {
    var t := TrimEnd(s);
    if t == [] then
      assert Blank(s) by { assert s[|t|..] == s; }
      None
    else
      assert !IsSpace(s[|t| - 1]);
      Some(WordEnding(t))
  }

  function WordEnding(s: string): string {
    if s == [] || IsSpace(s[|s| - 1]) then [] else WordEnding(s[..|s| - 1]) + [s[|s| - 1]]
  }

  function RenameOf(line: string): Option<Rename> {
    match Find(line, " rename to ")
    case None => None
    case Some(i) =>
      match LastWord(line[..i])
      case None => None
      case Some(from) => Some(Rename(from, WithoutSemicolons(Trim(line[i + 11..]))))
  }

  /** The renames a migration's lines state. */
  function RenamesIn(text: string): set<Rename> {
    var lines := SplitChar(text, '\n');
    set line | line in lines && RenameOf(line).Some? :: RenameOf(line).value
  }

  ghost function AllRenames(history: seq<Record>, files: Files): set<Rename> {
    set r, e | r in history && r.path in files && e in RenamesIn(files[r.path].text) :: e
  }

  // ---- what a rename statement says ----

  /** A line around its first ` rename to `: the last word in front of it, and
      what stands behind it without white space and closing semicolons. */
  datatype Statement = Statement(head: string, from: string, gap: string,
                                 lead: string, to: string, semicolons: string, trail: string)

  function Written(s: Statement): string {
    (s.head + s.from + s.gap) + " rename to " + (s.lead + (s.to + s.semicolons) + s.trail)
  }

  ghost predicate Proper(s: Statement) {
    IsLastWord(s.head, s.from, s.gap) && IsTarget(s.lead, s.to, s.semicolons, s.trail)
    && forall i | 0 <= i < |s.head + s.from + s.gap| :: !At(Written(s), " rename to ", i)
  }

  ghost predicate IsLastWord(head: string, word: string, gap: string) {
    word != [] && (forall i | 0 <= i < |word| :: !IsSpace(word[i])) && Blank(gap)
    && (head == [] || IsSpace(head[|head| - 1]))
  }

  ghost predicate IsTarget(lead: string, name: string, semicolons: string, trail: string) {
    Blank(lead) && Blank(trail) && Trimmed(name + semicolons)
    && (name == [] || name[|name| - 1] != ';') && forall i | 0 <= i < |semicolons| :: semicolons[i] == ';'
  }

  lemma {:induction false} WithoutSemicolonsIs(name: string, semicolons: string)
    requires name == [] || name[|name| - 1] != ';'
    requires forall i | 0 <= i < |semicolons| :: semicolons[i] == ';'
    ensures WithoutSemicolons(name + semicolons) == name
  {
    if semicolons == [] {
      assert name + semicolons == name;
    } else {
      var fewer := semicolons[..|semicolons| - 1];
      assert (name + semicolons)[..|name + semicolons| - 1] == name + fewer;
      WithoutSemicolonsIs(name, fewer);
    }
  }

  lemma {:induction false} OnlySemicolonsGo(s: string)
    ensures
      var name := WithoutSemicolons(s);
      (name == [] || name[|name| - 1] != ';') && forall i | |name| <= i < |s| :: s[i] == ';'
  {
    if s != [] && s[|s| - 1] == ';' { OnlySemicolonsGo(s[..|s| - 1]); }
  }

  lemma {:induction false} WordEndingIs(head: string, word: string)
    requires forall i | 0 <= i < |word| :: !IsSpace(word[i])
    requires head == [] || IsSpace(head[|head| - 1])
    ensures WordEnding(head + word) == word
  {
    if word == [] {
      assert head + word == head;
    } else {
      var shorter := word[..|word| - 1];
      assert (head + word)[..|head + word| - 1] == head + shorter;
      WordEndingIs(head, shorter);
    }
  }

  lemma {:induction false} WordEndingEnds(s: string)
    ensures
      var word := WordEnding(s);
      |word| <= |s| && s == s[..|s| - |word|] + word && (forall i | 0 <= i < |word| :: !IsSpace(word[i]))
      && (|word| < |s| ==> IsSpace(s[|s| - |word| - 1])) && (s != [] && !IsSpace(s[|s| - 1]) ==> word != [])
  {
    if s != [] && !IsSpace(s[|s| - 1]) { WordEndingEnds(s[..|s| - 1]); }
  }

  lemma {:induction false} LastWordIs(head: string, word: string, gap: string)
    requires IsLastWord(head, word, gap)
    ensures LastWord(head + word + gap) == Some(word)
  {
    assert (head + word)[|head + word| - 1] == word[|word| - 1];
    TrimEndSkips(head + word, gap);
    WordEndingIs(head, word);
  }

  lemma {:induction false} LastWordWas(s: string) returns (head: string, word: string, gap: string)
    requires LastWord(s).Some?
    ensures word == LastWord(s).value && s == head + word + gap && IsLastWord(head, word, gap)
  {
    hide WordEnding, IsSpace;
    var t := TrimEnd(s);
    WordEndingEnds(t);
    word := WordEnding(t);
    head, gap := t[..|t| - |word|], s[|t|..];
    assert s == t + gap;
    assert t == head + word;
    assert head != [] ==> head[|head| - 1] == t[|t| - |word| - 1];
  }

  lemma {:induction false} TargetIs(lead: string, name: string, semicolons: string, trail: string)
    requires IsTarget(lead, name, semicolons, trail)
    ensures WithoutSemicolons(Trim(lead + (name + semicolons) + trail)) == name
  {
    hide WithoutSemicolons, Trim;
    TrimIs(lead, name + semicolons, trail);
    WithoutSemicolonsIs(name, semicolons);
  }

  lemma {:induction false} TargetWas(s: string)
    returns (lead: string, name: string, semicolons: string, trail: string)
    ensures name == WithoutSemicolons(Trim(s)) && s == lead + (name + semicolons) + trail
    ensures IsTarget(lead, name, semicolons, trail)
  {
    hide WithoutSemicolons, Trim;
    lead, trail := TrimTakesBlanks(s);
    var t := Trim(s);
    name := WithoutSemicolons(t);
    OnlySemicolonsGo(t);
    semicolons := t[|name|..];
    assert t == name + semicolons;
  }

  /** A line renames `a` to `b` exactly when it is such a statement. */
  lemma {:induction false} RenameOfIff(line: string, a: string, b: string)
    ensures RenameOf(line) == Some(Rename(a, b))
            <==> exists s :: Written(s) == line && Proper(s) && s.from == a && s.to == b
  {
    if RenameOf(line) == Some(Rename(a, b)) {
      StatementWas(line, a, b);
    }
    forall s | Written(s) == line && Proper(s) && s.from == a && s.to == b
      ensures RenameOf(line) == Some(Rename(a, b))
    {
      StatementReads(s);
    }
  }

  lemma {:induction false} StatementReads(s: Statement)
    requires Proper(s)
    ensures RenameOf(Written(s)) == Some(Rename(s.from, s.to))
  {
    hide LastWord, WithoutSemicolons, Trim, IsLastWord, IsTarget, Find;
    var front, back := s.head + s.from + s.gap, s.lead + (s.to + s.semicolons) + s.trail;
    Mid(front, " rename to ", back);
    FindIs(Written(s), " rename to ", |front|);
    LastWordIs(s.head, s.from, s.gap);
    TargetIs(s.lead, s.to, s.semicolons, s.trail);
  }

  lemma {:induction false} StatementWas(line: string, a: string, b: string)
    requires RenameOf(line) == Some(Rename(a, b))
    ensures exists s :: Written(s) == line && Proper(s) && s.from == a && s.to == b
  {
    hide LastWord, WithoutSemicolons, Trim, IsLastWord, IsTarget, Find;
    var i := Find(line, " rename to ").value;
    var head, from, gap := LastWordWas(line[..i]);
    var lead, to, semicolons, trail := TargetWas(line[i + 11..]);
    var s := Statement(head, from, gap, lead, to, semicolons, trail);
    assert line == line[..i] + line[i..i + 11] + line[i + 11..];
    assert Written(s) == line;
  }

  /** A captured migration holds a line that renames `a` to `b`. */
  ghost predicate Stated(history: seq<Record>, files: Files, a: string, b: string) {
    exists r, s: Statement ::
      r in history && r.path in files && IsLine(files[r.path].text, Written(s))
      && Proper(s) && s.from == a && s.to == b
  }

  lemma {:induction false} StatedIff(history: seq<Record>, files: Files, a: string, b: string)
    ensures Stated(history, files, a, b) <==> Rename(a, b) in AllRenames(history, files)
  {
    hide RenameOf, Proper, IsLine;
    forall r | r in history && r.path in files
      ensures Rename(a, b) in RenamesIn(files[r.path].text)
              <==> exists s: Statement ::
                     IsLine(files[r.path].text, Written(s)) && Proper(s) && s.from == a && s.to == b
    {
      InTextIff(files[r.path].text, a, b);
    }
  }

  lemma {:induction false} InTextIff(text: string, a: string, b: string)
    ensures Rename(a, b) in RenamesIn(text)
            <==> exists s: Statement :: IsLine(text, Written(s)) && Proper(s) && s.from == a && s.to == b
  {
    hide RenameOf, Proper, IsLine, Written;
    forall line ensures line in SplitChar(text, '\n') <==> IsLine(text, line) { LinesAre(text, line); }
    if Rename(a, b) in RenamesIn(text) {
      var line :| line in SplitChar(text, '\n') && RenameOf(line) == Some(Rename(a, b));
      RenameOfIff(line, a, b);
    }
    forall s: Statement | IsLine(text, Written(s)) && Proper(s) && s.from == a && s.to == b
      ensures Rename(a, b) in RenamesIn(text)
    {
      RenameOfIff(Written(s), a, b);
    }
  }

  // ---- reachability ----

  /** `name` becomes `table` in `n` renames. */
  ghost predicate BecomesIn(renames: set<Rename>, name: string, table: string, n: nat)
    decreases n
  {
    if n == 0 then name == table
    else exists e | e in renames && e.from == name :: BecomesIn(renames, e.to, table, n - 1)
  }

  ghost predicate Becomes(renames: set<Rename>, name: string, table: string) {
    exists n: nat :: BecomesIn(renames, name, table, n)
  }

  /** Names, each stated to become the next. */
  ghost predicate Chain(history: seq<Record>, files: Files, chain: seq<string>) {
    chain != [] && forall i | 0 <= i < |chain| - 1 :: Stated(history, files, chain[i], chain[i + 1])
  }

  /** The name became the table through stated renames, or is the table. */
  ghost predicate Became(history: seq<Record>, files: Files, name: string, table: string) {
    exists chain ::
      Chain(history, files, chain) && chain != [] && chain[0] == name && chain[|chain| - 1] == table
  }

  lemma {:induction false} ChainsReach(history: seq<Record>, files: Files, chain: seq<string>)
    requires Chain(history, files, chain)
    ensures BecomesIn(AllRenames(history, files), chain[0], chain[|chain| - 1], |chain| - 1)
  {
    hide AllRenames, Stated;
    if |chain| > 1 {
      var rest := chain[1..];
      forall i | 0 <= i < |rest| - 1 ensures Stated(history, files, rest[i], rest[i + 1]) {
        assert rest[i] == chain[i + 1] && rest[i + 1] == chain[i + 2];
      }
      ChainsReach(history, files, rest);
      StatedIff(history, files, chain[0], chain[1]);
      assert Rename(chain[0], chain[1]).from == chain[0];
    }
  }

  lemma {:induction false} ReachedByChain(history: seq<Record>, files: Files, name: string, table: string, n: nat)
    returns (chain: seq<string>)
    requires BecomesIn(AllRenames(history, files), name, table, n)
    ensures Chain(history, files, chain) && chain != [] && chain[0] == name && chain[|chain| - 1] == table
    decreases n
  {
    hide AllRenames, Stated;
    if n == 0 {
      chain := [name];
    } else {
      var e :| e in AllRenames(history, files) && e.from == name
        && BecomesIn(AllRenames(history, files), e.to, table, n - 1);
      var rest := ReachedByChain(history, files, e.to, table, n - 1);
      assert e == Rename(name, e.to);
      StatedIff(history, files, name, e.to);
      chain := [name] + rest;
    }
  }

  /** Reachability is such a chain. */
  lemma {:induction false} BecomesIffBecame(history: seq<Record>, files: Files, name: string, table: string)
    ensures Becomes(AllRenames(history, files), name, table) <==> Became(history, files, name, table)
  {
    hide AllRenames, Chain, BecomesIn;
    if Becomes(AllRenames(history, files), name, table) {
      var n: nat :| BecomesIn(AllRenames(history, files), name, table, n);
      var chain := ReachedByChain(history, files, name, table, n);
    }
    if Became(history, files, name, table) {
      var chain :| Chain(history, files, chain) && chain != [] && chain[0] == name && chain[|chain| - 1] == table;
      ChainsReach(history, files, chain);
    }
  }

  lemma {:induction false} OneMore(renames: set<Rename>, e: Rename, table: string)
    requires e in renames && Becomes(renames, e.to, table)
    ensures Becomes(renames, e.from, table)
  {
    var n: nat :| BecomesIn(renames, e.to, table, n);
    assert BecomesIn(renames, e.from, table, n + 1);
  }

  ghost predicate ClosedUnder(renames: set<Rename>, names: seq<string>, upTo: nat)
    requires upTo <= |names|
  {
    forall e | e in renames && e.to in names[..upTo] :: e.from in names
  }

  lemma {:induction false} ClosedHoldsAll(renames: set<Rename>, names: seq<string>, name: string, table: string, n: nat)
    requires ClosedUnder(renames, names, |names|) && table in names
    requires BecomesIn(renames, name, table, n)
    ensures name in names
    decreases n
  {
    assert names[..|names|] == names;
    if n > 0 {
      var e :| e in renames && e.from == name && BecomesIn(renames, e.to, table, n - 1);
      ClosedHoldsAll(renames, names, e.to, table, n - 1);
    }
  }

  // ---- the worklist ----

  predicate NoDuplicates(names: seq<string>) {
    forall i, j | 0 <= i < j < |names| :: names[i] != names[j]
  }

  lemma {:induction false} FitsIn(names: seq<string>, universe: set<string>)
    requires NoDuplicates(names) && forall x | x in names :: x in universe
    ensures |names| <= |universe|
  {
    if names != [] {
      var last, init := names[|names| - 1], names[..|names| - 1];
      assert forall x | x in init :: x in universe - {last};
      FitsIn(init, universe - {last});
    }
  }

  /** One captured migration, against the name being walked. */
  method AddEarlierNames(text: string, current: string, names: seq<string>) returns (r: seq<string>)
    requires NoDuplicates(names)
    ensures NoDuplicates(r) && names <= r
    ensures forall x :: x in r <==> x in names || Rename(x, current) in RenamesIn(text)
  {
    hide RenameOf, SplitChar;
    r := names;
    var lines := SplitChar(text, '\n');
    for n := 0 to |lines|
      invariant NoDuplicates(r) && names <= r
      invariant forall x | x in r :: x in names || Rename(x, current) in RenamesIn(text)
      invariant forall i | 0 <= i < n && RenameOf(lines[i]).Some? && RenameOf(lines[i]).value.to == current ::
                  RenameOf(lines[i]).value.from in r
    {
      var rename := RenameOf(lines[n]);
      if rename.Some? && rename.value.to == current && rename.value.from !in r {
        assert rename.value == Rename(rename.value.from, current);
        r := r + [rename.value.from];
      }
    }
    forall x | Rename(x, current) in RenamesIn(text) ensures x in r {
      var line :| line in lines && RenameOf(line) == Some(Rename(x, current));
      var i :| 0 <= i < |lines| && lines[i] == line;
    }
  }

  /** Every record against one name of the worklist. */
  method WalkName(history: seq<Record>, files: Files, current: string, names: seq<string>) returns (r: seq<string>)
    requires NoDuplicates(names)
    ensures NoDuplicates(r) && names <= r
    ensures forall x :: x in r <==> x in names || Rename(x, current) in AllRenames(history, files)
  {
    hide RenamesIn;
    r := names;
    for n := 0 to |history|
      invariant names <= r && NoDuplicates(r)
      invariant forall x | x in r :: x in names || Rename(x, current) in AllRenames(history, files)
      invariant forall i, x | 0 <= i < n && history[i].path in files
                              && Rename(x, current) in RenamesIn(files[history[i].path].text) :: x in r
    {
      var record := history[n];
      if record.path in files {
        r := AddEarlierNames(files[record.path].text, current, r);
      }
    }
    forall x | Rename(x, current) in AllRenames(history, files) ensures x in r {
      var record :| record in history && record.path in files
        && Rename(x, current) in RenamesIn(files[record.path].text);
      var i :| 0 <= i < |history| && history[i] == record;
    }
  }

  /** Ends on every history, cyclic renames included, with each name that ever
      became the table, once. */
  method Lineage(history: seq<Record>, files: Files, table: string) returns (names: seq<string>)
    ensures NoDuplicates(names)
    ensures forall name :: name in names <==> Became(history, files, name, table)
  {
    hide AllRenames, Becomes, Became;
    ghost var renames := AllRenames(history, files);
    ghost var universe := (set e | e in renames :: e.from) + {table};
    names := [table];
    ItselfBecomes(renames, table);
    var walked := 0;
    while walked < |names|
      invariant walked <= |names| && NoDuplicates(names) && table in names
      invariant forall x | x in names :: x in universe && Becomes(renames, x, table)
      invariant ClosedUnder(renames, names, walked)
      decreases |universe| - walked
    {
      FitsIn(names, universe);
      ghost var before := names;
      names := WalkName(history, files, names[walked], names);
      forall x | x in names && x !in before ensures x in universe && Becomes(renames, x, table) {
        assert Rename(x, before[walked]).from == x;
        OneMore(renames, Rename(x, before[walked]), table);
      }
      CloseOne(renames, before, names, walked);
      walked := walked + 1;
    }
    forall name | Becomes(renames, name, table) ensures name in names {
      ClosedMeansAll(renames, names, name, table);
    }
    forall name ensures name in names <==> Became(history, files, name, table) {
      BecomesIffBecame(history, files, name, table);
    }
  }

  lemma {:induction false} ItselfBecomes(renames: set<Rename>, table: string)
    ensures Becomes(renames, table, table)
  {
    assert BecomesIn(renames, table, table, 0);
  }

  lemma {:induction false} ClosedMeansAll(renames: set<Rename>, names: seq<string>, name: string, table: string)
    requires ClosedUnder(renames, names, |names|) && table in names && Becomes(renames, name, table)
    ensures name in names
  {
    var n: nat :| BecomesIn(renames, name, table, n);
    ClosedHoldsAll(renames, names, name, table, n);
  }

  lemma {:induction false} CloseOne(renames: set<Rename>, before: seq<string>, names: seq<string>, walked: nat)
    requires before <= names && walked < |before|
    requires ClosedUnder(renames, before, walked)
    requires forall x | Rename(x, before[walked]) in renames :: x in names
    ensures ClosedUnder(renames, names, walked + 1)
  {
    forall e | e in renames && e.to in names[..walked + 1] ensures e.from in names {
      assert names[..walked + 1] == before[..walked] + [before[walked]];
      if e.to == before[walked] {
        assert e == Rename(e.from, before[walked]);
      } else {
        assert e.to in before[..walked];
        assert e.from in before;
      }
    }
  }

  // ---- the migrations of the entity ----

  predicate Mentions(captured: Captured, names: seq<string>) {
    captured.utf8 && exists name | name in names :: MentionsTable(captured.text, name)
  }

  function MigrationAuthority(stored: bool, migrations: seq<string>, unreadable: bool): Authority {
    if !stored || unreadable then Unknown
    else if migrations == [] then Absent
    else Present
  }

  /** The versions of the records that satisfy a test, in order. */
  ghost function VersionsWhere(history: seq<Record>, listed: Record -> bool): seq<string> {
    if history == [] then []
    else
      var r := history[|history| - 1];
      VersionsWhere(history[..|history| - 1], listed) + (if listed(r) then [r.version] else [])
  }

  lemma {:induction false} SameVersions(history: seq<Record>, listed: Record -> bool, other: Record -> bool)
    requires forall r | r in history :: listed(r) == other(r)
    ensures VersionsWhere(history, listed) == VersionsWhere(history, other)
    ensures VersionsWhere(history, listed) == [] <==> !exists r | r in history :: listed(r)
  {
    if history != [] {
      var init, last := history[..|history| - 1], history[|history| - 1];
      assert history == init + [last];
      SameVersions(init, listed, other);
    }
  }

  /** With the positions of the listed records in order, their versions in that
      order. */
  lemma {:induction false} VersionsInOrder(history: seq<Record>, listed: Record -> bool, places: seq<nat>)
    requires forall i, j | 0 <= i < j < |places| :: places[i] < places[j]
    requires forall i | 0 <= i < |places| :: places[i] < |history|
    requires forall n: nat | n < |history| :: listed(history[n]) <==> n in places
    ensures
      var versions := VersionsWhere(history, listed);
      |versions| == |places| && forall i | 0 <= i < |places| :: versions[i] == history[places[i]].version
  {
    assert places != [] ==> places[0] < |history|;
    if history != [] {
      var init, n := history[..|history| - 1], |history| - 1;
      VersionsLast(history, listed);
      hide VersionsWhere;
      if n in places {
        LastPlace(places, n);
        var fewer := places[..|places| - 1];
        assert forall i | 0 <= i < |fewer| :: fewer[i] == places[i];
        forall m: nat | m < |init| ensures listed(init[m]) <==> m in fewer {
          assert init[m] == history[m];
          assert m in places <==> m in fewer || m == n;
        }
        VersionsInOrder(init, listed, fewer);
      } else {
        forall i | 0 <= i < |places| ensures places[i] < n { assert places[i] in places; }
        VersionsInOrder(init, listed, places);
      }
    }
  }

  lemma {:induction false} VersionsLast(history: seq<Record>, listed: Record -> bool)
    requires history != []
    ensures
      var r := history[|history| - 1];
      VersionsWhere(history, listed)
      == VersionsWhere(history[..|history| - 1], listed) + (if listed(r) then [r.version] else [])
  {
  }

  lemma {:induction false} LastPlace(places: seq<nat>, n: nat)
    requires forall i, j | 0 <= i < j < |places| :: places[i] < places[j]
    requires n in places && forall i | 0 <= i < |places| :: places[i] <= n
    ensures places[|places| - 1] == n && places == places[..|places| - 1] + [n]
    ensures forall i | 0 <= i < |places| - 1 :: places[i] < n
  {
    var k :| 0 <= k < |places| && places[k] == n;
    var last := places[|places| - 1];
    assert k == |places| - 1 || n < last;
  }

  method CollectMigrations(history: seq<Record>, files: Files, names: seq<string>)
    returns (migrations: seq<string>, unreadable: bool)
    ensures unreadable <==> exists r | r in history :: r.path !in files
    ensures migrations == VersionsWhere(history, r => Lists(files, names, r))
  {
    hide Mentions;
    migrations, unreadable := [], false;
    ghost var listed := r => Lists(files, names, r);
    for n := 0 to |history|
      invariant unreadable <==> exists i | 0 <= i < n :: history[i].path !in files
      invariant migrations == VersionsWhere(history[..n], listed)
    {
      var record := history[n];
      assert history[..n + 1][..n] == history[..n];
      if record.path in files {
        if Mentions(files[record.path], names) {
          migrations := migrations + [record.version];
        }
      } else {
        unreadable := true;
      }
    }
    assert history[..|history|] == history;
  }

  predicate Lists(files: Files, names: seq<string>, r: Record) {
    r.path in files && Mentions(files[r.path], names)
  }

  /** A record is listed exactly when its captured file names the table or a name
      that became it; one that was not captured makes the answer unknown. */
  method MigrationHistory(history: seq<Record>, files: Files, stored: bool, table: string)
    returns (migrations: seq<string>, authority: Authority)
    ensures migrations == if stored then VersionsWhere(history, r => Belongs(history, files, table, r)) else []
    ensures stored && (forall r | r in history :: r.path in files) ==>
              authority == (if exists r | r in history :: Belongs(history, files, table, r) then Present else Absent)
    ensures !stored || (exists r | r in history :: r.path !in files) ==> authority == Unknown
  {
    hide Mentions, Lists, Belongs, Became;
    migrations := [];
    var unreadable := false;
    if stored {
      var names := Lineage(history, files, table);
      migrations, unreadable := CollectMigrations(history, files, names);
      ghost var listed, belongs := r => Lists(files, names, r), r => Belongs(history, files, table, r);
      forall r | r in history ensures listed(r) == belongs(r) {
        NamesDecide(history, files, table, r, names);
      }
      SameVersions(history, listed, belongs);
    }
    authority := MigrationAuthority(stored, migrations, unreadable);
  }

  ghost predicate Belongs(history: seq<Record>, files: Files, table: string, r: Record) {
    r.path in files && files[r.path].utf8
    && exists name :: Became(history, files, name, table) && Names(files[r.path].text, name)
  }

  lemma {:induction false} NamesDecide(history: seq<Record>, files: Files, table: string, r: Record, names: seq<string>)
    requires forall name :: name in names <==> Became(history, files, name, table)
    ensures Lists(files, names, r) <==> Belongs(history, files, table, r)
  {
    hide MentionsTable, Names, Became;
    if r.path in files {
      var text := files[r.path].text;
      forall name ensures MentionsTable(text, name) <==> Names(text, name) { MentionsIffNames(text, name); }
    }
  }
}
