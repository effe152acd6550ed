/** How the editor digest lays a project's files end to end before hashing. */
module DigestFraming {
  import opened Text
  import opened Bytes
  import opened PathOrder

  const NUL: Byte := 0 as char
  const END: Byte := 0xFF as char

  type Files = map<ByteString, ByteString>

  datatype Entry = Entry(path: ByteString, body: ByteString)

  function Framed(e: Entry): ByteString {
    e.path + [NUL] + e.body + [END]
  }

  function FramedAll(entries: seq<Entry>): ByteString {
    if entries == [] then [] else FramedAll(entries[..|entries| - 1]) + Framed(entries[|entries| - 1])
  }

  /** One more file: its path, a zero byte, its body, a byte of all ones. */
  lemma {:induction false} OneMoreFile(entries: seq<Entry>, e: Entry)
    ensures FramedAll([]) == []
    ensures FramedAll(entries + [e]) == FramedAll(entries) + (e.path + [0 as char] + e.body + [255 as char])
  {
    assert (entries + [e])[..|entries|] == entries;
  }

  /** The loop that fills the hash input. */
  method FrameInput(entries: seq<Entry>) returns (input: ByteString)
    ensures input == FramedAll(entries)
  {
    input := [];
    for n := 0 to |entries|
      invariant input == FramedAll(entries[..n])
    {
      var e, sofar := entries[n], input;
      assert entries[..n + 1][..n] == entries[..n];
      input := input + e.path;
      input := input + [NUL];
      input := input + e.body;
      input := input + [END];
      assert input == sofar + Framed(e);
    }
    assert entries[..|entries|] == entries;
  }

  // ---- reading it back ----

  predicate Framable(e: Entry) {
    NUL !in e.path && END !in e.body
  }

  /** The entries a byte string frames, when it frames any. */
  function Entries(input: ByteString): Option<seq<Entry>>
    decreases |input|
  {
    if input == [] then Some([])
    else
      match FindChar(input, NUL)
      case None => None
      case Some(i) =>
        var rest := input[i + 1..];
        match FindChar(rest, END)
        case None => None
        case Some(j) =>
          match Entries(rest[j + 1..])
          case None => None
          case Some(more) => Some([Entry(input[..i], rest[..j])] + more)
  }

  function FramedForward(entries: seq<Entry>): ByteString {
    if entries == [] then [] else Framed(entries[0]) + FramedForward(entries[1..])
  }

  lemma {:induction false} ForwardAppend(entries: seq<Entry>, e: Entry)
    ensures FramedForward(entries + [e]) == FramedForward(entries) + Framed(e)
  {
    hide Framed;
    if entries == [] {
      assert entries + [e] == [e];
      assert FramedForward([e]) == Framed(e) + [];
    } else {
      assert (entries + [e])[1..] == entries[1..] + [e];
      ForwardAppend(entries[1..], e);
      Assoc(Framed(entries[0]), FramedForward(entries[1..]), Framed(e));
    }
  }

  lemma {:induction false} EitherWay(entries: seq<Entry>)
    ensures FramedAll(entries) == FramedForward(entries)
  {
    hide Framed;
    if entries != [] {
      var init, e := entries[..|entries| - 1], entries[|entries| - 1];
      EitherWay(init);
      ForwardAppend(init, e);
      assert entries == init + [e];
    }
  }

  /** Reading a framed list gives the list back. */
  lemma {:induction false} EntriesReadBack(entries: seq<Entry>)
    requires forall i | 0 <= i < |entries| :: Framable(entries[i])
    ensures Entries(FramedForward(entries)) == Some(entries)
  {
    if entries != [] {
      var e, tail := entries[0], FramedForward(entries[1..]);
      EntriesReadBack(entries[1..]);
      EntryReadsBack(e, tail);
      assert entries == [e] + entries[1..];
    }
  }

  lemma {:induction false} EntryReadsBack(e: Entry, tail: ByteString)
    requires Framable(e)
    ensures Framed(e) + tail != []
    ensures Entries(Framed(e) + tail)
            == match Entries(tail) case None => None case Some(more) => Some([e] + more)
  {
    var rest := e.body + [END] + tail;
    assert Framed(e) + tail == e.path + [NUL] + rest;
    FindAt(e.path, NUL, rest);
    FindAt(e.body, END, tail);
    hide FindChar;
  }

  /** Different lists of files never give the same hash input, when no path
      holds a NUL and no body an 0xFF byte. */
  lemma {:induction false} FramingIsInjective(a: seq<Entry>, b: seq<Entry>)
    requires forall i | 0 <= i < |a| :: Framable(a[i])
    requires forall i | 0 <= i < |b| :: Framable(b[i])
    requires FramedAll(a) == FramedAll(b)
    ensures a == b
  {
    EitherWay(a);
    EitherWay(b);
    EntriesReadBack(a);
    EntriesReadBack(b);
  }

  /** Text files under NUL-free paths are told apart. */
  lemma {:induction false} TextFilesAreTold(a: seq<Entry>, b: seq<Entry>)
    requires forall i | 0 <= i < |a| :: NUL !in a[i].path && ValidUtf8(a[i].body)
    requires forall i | 0 <= i < |b| :: NUL !in b[i].path && ValidUtf8(b[i].body)
    ensures FramedAll(a) == FramedAll(b) <==> a == b
  {
    forall i | 0 <= i < |a| ensures Framable(a[i]) { Utf8HasNoFF(a[i].body); }
    forall i | 0 <= i < |b| ensures Framable(b[i]) { Utf8HasNoFF(b[i].body); }
    if FramedAll(a) == FramedAll(b) { FramingIsInjective(a, b); }
  }

  /** The files of a map, by ascending path. */
  function PathsOf(files: Files): (paths: seq<ByteString>)
    ensures Ascending(paths) && |paths| == |files.Keys| && forall path :: path in paths <==> path in files
  {
    var paths := Sorted(files.Keys);
    assert forall i | 0 <= i < |paths| :: paths[i] in files.Keys;
    paths
  }

  function FilesOf(files: Files): (r: seq<Entry>)
    ensures |r| == |PathsOf(files)|
    ensures forall i | 0 <= i < |r| ::
              r[i].path == PathsOf(files)[i] && r[i].path in files && r[i].body == files[r[i].path]
  {
    var paths := PathsOf(files);
    seq(|paths|, i requires 0 <= i < |paths| => Entry(paths[i], files[paths[i]]))
  }

  /** Two different maps of text files never give the same hash input. */
  lemma {:induction false} FileMapsAreTold(a: Files, b: Files)
    requires forall path | path in a :: NUL !in path && ValidUtf8(a[path])
    requires forall path | path in b :: NUL !in path && ValidUtf8(b[path])
    ensures FramedAll(FilesOf(a)) == FramedAll(FilesOf(b)) <==> a == b
  {
    hide *;
    TextFilesAreTold(FilesOf(a), FilesOf(b));
    if FilesOf(a) == FilesOf(b) { SameMap(a, b); }
  }

  lemma {:induction false} SameMap(a: Files, b: Files)
    requires FilesOf(a) == FilesOf(b)
    ensures a == b
  {
    hide *;
    forall path ensures path in a ==> path in b && a[path] == b[path] { SameFile(a, b, path); }
    forall path ensures path in b ==> path in a { SameFile(b, a, path); }
    assert a.Keys == b.Keys;
  }

  lemma {:induction false} SameFile(a: Files, b: Files, path: ByteString)
    requires FilesOf(a) == FilesOf(b)
    ensures path in a ==> path in b && a[path] == b[path]
  {
    hide *;
    if path in a {
      var i :| 0 <= i < |PathsOf(a)| && PathsOf(a)[i] == path;
      assert FilesOf(a)[i].path == path;
    }
  }

  // ---- when a body is not text ----

  /** Paths the operating system and a string type allow. */
  predicate PlainPath(path: ByteString) {
    NUL !in path && ValidUtf8(path)
  }

  predicate PlainPaths(entries: seq<Entry>) {
    forall i | 0 <= i < |entries| :: PlainPath(entries[i].path)
  }

  /** The body reads as the end of one file, the path of a next one, and its
      start. */
  predicate SplitsAt(body: ByteString, i: nat, j: nat) {
    i < j < |body| && body[i] == END && body[j] == NUL && PlainPath(body[i + 1..j])
  }

  predicate Splits(body: ByteString) {
    exists i, j | 0 <= i < j < |body| :: SplitsAt(body, i, j)
  }

  /** The first NUL behind the 0xFF ends the path. */
  lemma {:induction false} NearestSplit(body: ByteString, i: nat, j: nat)
    requires i < j < |body| && body[i] == END && body[j] == NUL && ValidUtf8(body[i + 1..j])
    ensures Splits(body)
    decreases j
  {
    if k :| i < k < j && body[k] == NUL {
      Utf8Cut(body[i + 1..j], k - i - 1);
      assert body[i + 1..j][..k - i - 1] == body[i + 1..k];
      NearestSplit(body, i, k);
    } else {
      assert SplitsAt(body, i, j);
    }
  }

  /** A body splits exactly when text stands somewhere between an 0xFF and a
      NUL. */
  lemma {:induction false} SplitsIff(body: ByteString)
    ensures Splits(body)
            <==> exists i, j | 0 <= i < j < |body| :: body[i] == END && body[j] == NUL && ValidUtf8(body[i + 1..j])
  {
    if i, j :| 0 <= i < j < |body| && body[i] == END && body[j] == NUL && ValidUtf8(body[i + 1..j]) {
      NearestSplit(body, i, j);
    }
  }

  lemma {:induction false} FramedOne(e: Entry)
    ensures FramedForward([e]) == Framed(e)
  {
    hide Framed;
    assert FramedForward([e][1..]) == [];
  }

  /** Two files in a row are one file whose body holds the seam. */
  lemma {:induction false} SeamDoesNotShow(a: Entry, b: Entry, rest: seq<Entry>)
    ensures FramedForward([Entry(a.path, a.body + [END] + b.path + [NUL] + b.body)] + rest)
            == FramedForward([a, b] + rest)
  {
    var one, tail := Entry(a.path, a.body + [END] + b.path + [NUL] + b.body), FramedForward(rest);
    assert ([one] + rest)[1..] == rest && ([a, b] + rest)[1..] == [b] + rest && ([b] + rest)[1..] == rest;
    Seam(a.path + [NUL] + a.body, b.path + [NUL] + b.body);
    assert Framed(one) == a.path + [NUL] + (a.body + [END] + b.path + [NUL] + b.body) + [END];
    assert Framed(one) == Framed(a) + Framed(b);
    hide *;
    Assoc(Framed(a), Framed(b), tail);
    assert FramedForward([one] + rest) == Framed(one) + tail;
    assert FramedForward([b] + rest) == Framed(b) + tail;
    assert FramedForward([a, b] + rest) == Framed(a) + FramedForward([b] + rest);
  }

  lemma {:induction false} Seam(a: ByteString, b: ByteString)
    ensures a + [END] + b + [END] == (a + [END]) + (b + [END])
  {
  }

  lemma {:induction false} FirstPath(e: Entry, tail: ByteString, f: Entry, other: ByteString)
    requires NUL !in e.path && NUL !in f.path
    requires Framed(e) + tail == Framed(f) + other
    ensures e.path == f.path && e.body + [END] + tail == f.body + [END] + other
  {
    var x, y := e.body + [END] + tail, f.body + [END] + other;
    assert Framed(e) + tail == e.path + [NUL] + x;
    assert Framed(f) + other == f.path + [NUL] + y;
    FindAt(e.path, NUL, x);
    FindAt(f.path, NUL, y);
  }

  /** What else the bytes of one file can be: the file itself, or files of which
      the second one's path stands in its body after an 0xFF and before a NUL. */
  lemma {:induction false} OtherReading(e: Entry, other: seq<Entry>)
    requires PlainPath(e.path) && PlainPaths(other)
    requires FramedForward(other) == Framed(e)
    ensures other == [e]
            || (|other| >= 2 && other[0].path == e.path
                && exists i, j | 0 <= i < j < |e.body| :: SplitsAt(e.body, i, j) && e.body[i + 1..j] == other[1].path)
  {
    assert other != [];
    var f, tail := other[0], FramedForward(other[1..]);
    assert Framed(e) + [] == Framed(e);
    FirstPath(e, [], f, tail);
    assert e.body + [END] + [] == e.body + [END];
    if |other| == 1 {
      assert tail == [];
      assert f.body + [END] + [] == f.body + [END];
      assert (e.body + [END])[..|e.body|] == e.body && (f.body + [END])[..|f.body|] == f.body;
      assert other == [f];
    } else {
      var g, more := other[1], FramedForward(other[1..][1..]);
      assert other[1..][0] == g;
      SecondPath(e.body, f.body, g, more);
      assert PlainPath(g.path);
    }
  }

  lemma {:induction false} SecondPath(body: ByteString, first: ByteString, g: Entry, more: ByteString)
    requires body + [END] == first + [END] + (Framed(g) + more) && PlainPath(g.path)
    ensures
      var i, j := |first|, |first| + 1 + |g.path|;
      0 <= i < j < |body| && SplitsAt(body, i, j) && body[i + 1..j] == g.path
  {
    var i, j := |first|, |first| + 1 + |g.path|;
    var whole := body + [END];
    var rest := g.body + [END] + more;
    assert Framed(g) + more == g.path + [NUL] + rest;
    assert whole == first + [END] + g.path + [NUL] + rest;
    assert whole[i] == END && whole[j] == NUL && whole[i + 1..j] == g.path;
    assert j < |whole| - 1 && body[i + 1..j] == whole[i + 1..j];
  }

  /** A list of files is the only one with its bytes exactly when it is empty, or
      one file whose body holds no path between an 0xFF and a NUL. */
  lemma {:induction false} OnlyListIff(entries: seq<Entry>)
    requires PlainPaths(entries)
    ensures (forall other | PlainPaths(other) && FramedAll(other) == FramedAll(entries) :: other == entries)
            <==> entries == [] || (|entries| == 1 && !Splits(entries[0].body))
  {
    hide Framed, FramedAll, FramedForward, PlainPath, SplitsAt;
    if entries == [] {
      forall other | FramedAll(other) == FramedAll(entries) ensures other == entries { OnlyNothing(other); }
    } else if |entries| == 1 {
      assert entries == [entries[0]];
      if Splits(entries[0].body) {
        var i, j :| 0 <= i < j < |entries[0].body| && SplitsAt(entries[0].body, i, j);
        var other := SplitReading(entries[0], i, j);
        assert PlainPaths(other) && FramedAll(other) == FramedAll(entries) && other != entries;
      } else {
        forall other | PlainPaths(other) && FramedAll(other) == FramedAll(entries) ensures other == entries {
          OneReading(entries[0], other);
        }
      }
    } else {
      var other := MergedReading(entries);
      assert PlainPaths(other) && FramedAll(other) == FramedAll(entries) && other != entries;
    }
  }

  lemma {:induction false} OnlyNothing(other: seq<Entry>)
    ensures FramedAll(other) == FramedAll([]) ==> other == []
  {
  }

  lemma {:induction false} OneReading(e: Entry, other: seq<Entry>)
    requires PlainPath(e.path) && PlainPaths(other) && FramedAll(other) == FramedAll([e])
    requires !Splits(e.body)
    ensures other == [e]
  {
    EitherWay(other);
    EitherWay([e]);
    FramedOne(e);
    OtherReading(e, other);
  }

  /** The two files a splitting body can stand for. */
  lemma {:induction false} SplitReading(e: Entry, i: nat, j: nat) returns (other: seq<Entry>)
    requires SplitsAt(e.body, i, j)
    ensures other == [Entry(e.path, e.body[..i]), Entry(e.body[i + 1..j], e.body[j + 1..])]
    ensures FramedAll(other) == FramedAll([e])
    ensures PlainPath(e.path) ==> PlainPaths(other)
  {
    var a, b := Entry(e.path, e.body[..i]), Entry(e.body[i + 1..j], e.body[j + 1..]);
    assert e.body == a.body + [END] + b.path + [NUL] + b.body;
    SeamDoesNotShow(a, b, []);
    assert [e] + [] == [e] && [a, b] + [] == [a, b];
    other := [a, b];
    EitherWay(other);
    EitherWay([e]);
  }

  lemma {:induction false} MergedReading(entries: seq<Entry>) returns (other: seq<Entry>)
    requires |entries| >= 2 && PlainPaths(entries)
    ensures other == [Entry(entries[0].path,
                            entries[0].body + [END] + entries[1].path + [NUL] + entries[1].body)] + entries[2..]
    ensures FramedAll(other) == FramedAll(entries) && PlainPaths(other) && other != entries
  {
    var a, b, rest := entries[0], entries[1], entries[2..];
    other := [Entry(a.path, a.body + [END] + b.path + [NUL] + b.body)] + rest;
    assert entries == [a, b] + rest;
    hide FramedAll;
    SeamDoesNotShow(a, b, rest);
    EitherWay(other);
    EitherWay(entries);
    assert |other| < |entries|;
  }

  // ---- and for maps, which are what is framed ----

  predicate PlainMap(files: Files) {
    forall path | path in files :: PlainPath(path)
  }

  /** Some split of the body names a path that sorts behind the file's own. */
  predicate SplitsBehind(path: ByteString, body: ByteString) {
    exists i, j | 0 <= i < j < |body| :: SplitsAt(body, i, j) && Less(path, body[i + 1..j])
  }

  predicate AscendingPaths(entries: seq<Entry>) {
    forall i, j | 0 <= i < j < |entries| :: Less(entries[i].path, entries[j].path)
  }

  function MapOf(entries: seq<Entry>): Files {
    if entries == [] then map[] else MapOf(entries[1..])[entries[0].path := entries[0].body]
  }

  lemma {:induction false} MapOfHolds(entries: seq<Entry>)
    requires AscendingPaths(entries)
    ensures forall path | path in MapOf(entries) :: exists i | 0 <= i < |entries| :: entries[i].path == path
    ensures forall i | 0 <= i < |entries| ::
              entries[i].path in MapOf(entries) && MapOf(entries)[entries[i].path] == entries[i].body
  {
    hide Less;
    if entries != [] {
      var e, rest := entries[0], entries[1..];
      assert forall i | 0 <= i < |rest| :: rest[i] == entries[i + 1];
      MapOfHolds(rest);
      forall i | 0 <= i < |entries|
        ensures entries[i].path in MapOf(entries) && MapOf(entries)[entries[i].path] == entries[i].body
      {
        if i > 0 {
          assert rest[i - 1] == entries[i];
          LessIsStrict(e.path, entries[i].path);
        }
      }
    }
  }

  /** Ascending lists of files are the maps: listing a list's map gives it
      back. */
  lemma {:induction false} FilesOfMap(entries: seq<Entry>)
    requires AscendingPaths(entries)
    ensures FilesOf(MapOf(entries)) == entries
  {
    var files := MapOf(entries);
    var paths: seq<ByteString> := seq(|entries|, i requires 0 <= i < |entries| => entries[i].path);
    MapOfHolds(entries);
    hide Less, MapOf, PathsOf, FilesOf;
    forall path ensures path in paths <==> path in files {
      if path in files {
        var i :| 0 <= i < |entries| && entries[i].path == path;
        assert paths[i] == path;
      }
    }
    SamePaths(files, paths);
    assert |FilesOf(files)| == |entries|;
    forall i | 0 <= i < |entries| ensures FilesOf(files)[i] == entries[i] {
      assert FilesOf(files)[i].path == paths[i];
    }
  }

  lemma {:induction false} SamePaths(files: Files, paths: seq<ByteString>)
    requires Ascending(paths) && forall path :: path in paths <==> path in files
    ensures PathsOf(files) == paths
  {
    hide PathsOf, Less;
    forall p: string ensures p in PathsOf(files) <==> p in paths {
      if p in PathsOf(files) { var i :| 0 <= i < |PathsOf(files)| && PathsOf(files)[i] == p; }
      if p in paths { var i :| 0 <= i < |paths| && paths[i] == p; }
    }
    AscendingIsUnique(PathsOf(files), paths);
  }

  lemma {:induction false} FilesAscend(files: Files)
    ensures AscendingPaths(FilesOf(files))
    ensures PlainMap(files) ==> PlainPaths(FilesOf(files))
  {
    hide Less, PlainPath, PathsOf, FilesOf;
  }

  lemma {:induction false} MapIsPlain(entries: seq<Entry>)
    requires AscendingPaths(entries) && PlainPaths(entries)
    ensures PlainMap(MapOf(entries))
  {
    hide PlainPath, AscendingPaths, MapOf;
    MapOfHolds(entries);
  }

  /** Another ascending list with the bytes of a map is another map with
      them. */
  lemma {:induction false} AnotherMap(files: Files, entries: seq<Entry>)
    requires AscendingPaths(entries) && PlainPaths(entries)
    requires FramedAll(entries) == FramedAll(FilesOf(files)) && entries != FilesOf(files)
    ensures exists other :: PlainMap(other) && FramedAll(FilesOf(other)) == FramedAll(FilesOf(files)) && other != files
  {
    hide *;
    FilesOfMap(entries);
    MapIsPlain(entries);
    var other := MapOf(entries);
    assert PlainMap(other) && FramedAll(FilesOf(other)) == FramedAll(FilesOf(files)) && other != files;
  }

  lemma {:induction false} MergedAscends(entries: seq<Entry>, merged: seq<Entry>)
    requires |entries| >= 2 && AscendingPaths(entries)
    requires merged != [] && merged[0].path == entries[0].path && merged[1..] == entries[2..]
    ensures AscendingPaths(merged)
  {
    hide Less;
    forall i, j | 0 <= i < j < |merged| ensures Less(merged[i].path, merged[j].path) {
      assert merged[j] == merged[1..][j - 1] == entries[j + 1];
      if i > 0 { assert merged[i] == merged[1..][i - 1] == entries[i + 1]; }
    }
  }

  /** A map of files is the only one with its bytes exactly when it is empty, or
      one file whose body does not hold, between an 0xFF and a NUL, a path that
      sorts behind its own. */
  lemma {:induction false} OnlyMapIff(files: Files)
    requires PlainMap(files)
    ensures (forall other ::
               PlainMap(other) && FramedAll(FilesOf(other)) == FramedAll(FilesOf(files)) ==> other == files)
            <==> |FilesOf(files)| == 0
                 || (|FilesOf(files)| == 1 && !SplitsBehind(FilesOf(files)[0].path, FilesOf(files)[0].body))
  {
    hide *;
    var entries := FilesOf(files);
    FilesAscend(files);
    if |entries| >= 2 {
      var merged := MergedReading(entries);
      assert merged[1..] == entries[2..];
      MergedAscends(entries, merged);
      AnotherMap(files, merged);
    } else if |entries| == 1 && SplitsBehind(entries[0].path, entries[0].body) {
      var split := SplitBehindReading(entries[0]);
      assert entries == [entries[0]];
      AnotherMap(files, split);
    } else {
      forall other | PlainMap(other) && FramedAll(FilesOf(other)) == FramedAll(FilesOf(files)) ensures other == files {
        OnlyAscending(entries, other);
        SameMap(other, files);
      }
    }
  }

  lemma {:induction false} SplitBehindReading(e: Entry) returns (split: seq<Entry>)
    requires SplitsBehind(e.path, e.body)
    ensures |split| == 2 && AscendingPaths(split) && FramedAll(split) == FramedAll([e])
    ensures PlainPaths([e]) ==> PlainPaths(split)
  {
    hide FramedAll, SplitsAt, PlainPath, Less;
    var i, j :| 0 <= i < j < |e.body| && SplitsAt(e.body, i, j) && Less(e.path, e.body[i + 1..j]);
    split := SplitReading(e, i, j);
    assert PlainPaths([e]) ==> PlainPath([e][0].path);
  }

  lemma {:induction false} OnlyAscending(entries: seq<Entry>, other: Files)
    requires PlainMap(other) && FramedAll(FilesOf(other)) == FramedAll(entries)
    requires PlainPaths(entries)
    requires entries == [] || (|entries| == 1 && !SplitsBehind(entries[0].path, entries[0].body))
    ensures FilesOf(other) == entries
  {
    hide FramedAll, FramedForward, Framed, FilesOf, SplitsAt, PlainPath, Less;
    FilesAscend(other);
    if entries == [] {
      OnlyNothing(FilesOf(other));
    } else {
      assert entries == [entries[0]];
      EitherWay(FilesOf(other));
      EitherWay(entries);
      FramedOne(entries[0]);
      OtherReading(entries[0], FilesOf(other));
    }
  }

  lemma {:induction false} OneFile(path: ByteString, body: ByteString)
    ensures FilesOf(map[path := body]) == [Entry(path, body)]
  {
    var e := Entry(path, body);
    assert [e][1..] == [];
    assert MapOf([e]) == map[path := body];
    hide *;
    FilesOfMap([e]);
  }

  lemma {:induction false} TwoFiles(path: ByteString, next: ByteString, first: ByteString, second: ByteString)
    requires Less(path, next)
    ensures FilesOf(map[path := first, next := second]) == [Entry(path, first), Entry(next, second)]
  {
    hide FilesOf, Less;
    LessIsStrict(path, next);
    var a, b := Entry(path, first), Entry(next, second);
    assert [a, b][1..] == [b] && [b][1..] == [];
    assert MapOf([b]) == map[next := second];
    assert MapOf([a, b]) == map[path := first, next := second];
    FilesOfMap([a, b]);
  }

  /** Two maps with the same bytes: the body of the one file holds, between an
      0xFF and a NUL, the path of the other map's second file. */
  lemma {:induction false} BinaryMapsCollide(path: ByteString, next: ByteString, first: ByteString, second: ByteString)
    requires Less(path, next)
    ensures FramedAll(FilesOf(map[path := first + [END] + next + [NUL] + second]))
            == FramedAll(FilesOf(map[path := first, next := second]))
  {
    hide *;
    var a, b := Entry(path, first), Entry(next, second);
    var one := Entry(path, a.body + [END] + b.path + [NUL] + b.body);
    OneFile(path, one.body);
    TwoFiles(path, next, first, second);
    SeamDoesNotShow(a, b, []);
    assert [one] + [] == [one] && [a, b] + [] == [a, b];
    EitherWay([one]);
    EitherWay([a, b]);
  }
}
