/** `jails rename`: write every updated file, then remove every moved one. */
module TextualRename {
  import opened Text

  /** A Java source, by directory and type name, or any other file. */
  datatype File = Java(dir: string, stem: string) | Other(name: string)

  /** A file that exists may not be readable as text. */
  datatype Content = Readable(text: string) | Unreadable

  type Disk = map<File, Content>

  datatype Rewrite = Rewrite(source: File, text: string, destination: File)

  datatype Updated = Updated(text: string, hits: nat)

  datatype Refusal = WouldOverwrite(destination: File) | NothingNamed | NotConsented

  // ---- where a file goes ----

  const SUFFIXES: seq<string> := ["", "Test", "Tests", "IT"]

  function RenamedStem(stem: string, was: string, next: string, n: nat): string
    requires n <= |SUFFIXES|
    decreases |SUFFIXES| - n
  {
    if n == |SUFFIXES| then stem
    else if stem == was + SUFFIXES[n] then next + SUFFIXES[n]
    else RenamedStem(stem, was, next, n + 1)
  }

  function RenamedPath(file: File, was: string, next: string): File {
    match file
    case Java(dir, stem) => Java(dir, RenamedStem(stem, was, next, 0))
    case Other(_) => file
  }

  lemma {:induction false} RenamedStemIs(stem: string, was: string, next: string, n: nat)
    requires n <= |SUFFIXES|
    ensures RenamedStem(stem, was, next, n) == stem
            || exists i | n <= i < |SUFFIXES| ::
                 stem == was + SUFFIXES[i] && RenamedStem(stem, was, next, n) == next + SUFFIXES[i]
    decreases |SUFFIXES| - n
  {
    if n < |SUFFIXES| && stem != was + SUFFIXES[n] {
      RenamedStemIs(stem, was, next, n + 1);
    }
  }

  /** A Java file moves when its name is the type's, or that with one of the three
      companions' endings, and then keeps the ending; nothing else moves. */
  lemma {:induction false} RenamedPathIs(dir: string, stem: string, was: string, next: string, name: string)
    ensures RenamedPath(Java(dir, was), was, next) == Java(dir, next)
    ensures RenamedPath(Java(dir, was + "Test"), was, next) == Java(dir, next + "Test")
    ensures RenamedPath(Java(dir, was + "Tests"), was, next) == Java(dir, next + "Tests")
    ensures RenamedPath(Java(dir, was + "IT"), was, next) == Java(dir, next + "IT")
    ensures stem != was && stem != was + "Test" && stem != was + "Tests" && stem != was + "IT" ==>
              RenamedPath(Java(dir, stem), was, next) == Java(dir, stem)
    ensures RenamedPath(Other(name), was, next) == Other(name)
  {
    assert was + "" == was && next + "" == next;
    assert (was + "Tests")[|was| + 4] == 's';
    assert (was + "Test")[|was|] == 'T' && (was + "IT")[|was|] == 'I';
    forall text: string
      ensures RenamedStem(text, was, next, 0)
              == if text == was + "" then next + "" else if text == was + "Test" then next + "Test"
                 else if text == was + "Tests" then next + "Tests" else if text == was + "IT" then next + "IT" else text
    {
      RenamedStemCases(text, was, next);
    }
    hide RenamedStem;
  }

  lemma {:induction false} RenamedStemCases(text: string, was: string, next: string)
    ensures RenamedStem(text, was, next, 0)
            == if text == was + "" then next + "" else if text == was + "Test" then next + "Test"
               else if text == was + "Tests" then next + "Tests" else if text == was + "IT" then next + "IT" else text
  {
    assert RenamedStem(text, was, next, 4) == text;
    assert RenamedStem(text, was, next, 3) == if text == was + "IT" then next + "IT" else text;
    assert RenamedStem(text, was, next, 2)
           == if text == was + "Tests" then next + "Tests" else RenamedStem(text, was, next, 3);
    assert RenamedStem(text, was, next, 1)
           == if text == was + "Test" then next + "Test" else RenamedStem(text, was, next, 2);
  }

  /** Two files that move never move onto each other. */
  lemma {:induction false} MovesAreInjective(a: File, b: File, was: string, next: string)
    requires RenamedPath(a, was, next) != a && RenamedPath(b, was, next) != b
    requires RenamedPath(a, was, next) == RenamedPath(b, was, next)
    ensures a == b
  {
    RenamedStemIs(a.stem, was, next, 0);
    RenamedStemIs(b.stem, was, next, 0);
    var i :| 0 <= i < |SUFFIXES| && a.stem == was + SUFFIXES[i]
             && RenamedStem(a.stem, was, next, 0) == next + SUFFIXES[i];
    var j :| 0 <= j < |SUFFIXES| && b.stem == was + SUFFIXES[j]
             && RenamedStem(b.stem, was, next, 0) == next + SUFFIXES[j];
    assert SUFFIXES[i] == (next + SUFFIXES[i])[|next|..] == (next + SUFFIXES[j])[|next|..] == SUFFIXES[j];
  }

  // ---- the plan ----

  /** What `collect` promises the two phases. */
  ghost predicate Sound(disk: Disk, rewrites: seq<Rewrite>) {
    (forall i | 0 <= i < |rewrites| :: rewrites[i].source in disk && disk[rewrites[i].source].Readable?)
    && (forall i | 0 <= i < |rewrites| ::
          rewrites[i].destination != rewrites[i].source ==> rewrites[i].destination !in disk)
    && (forall i, j | 0 <= i < j < |rewrites| ::
          rewrites[i].source != rewrites[j].source && rewrites[i].destination != rewrites[j].destination)
  }

  /** The files the rename concerns: readable, not managed, naming the type or
      named after it. */
  predicate Concerned(
    disk: Disk, file: File, skipped: set<File>, update: string -> Updated, was: string, next: string
  ) {
    file in disk && disk[file].Readable? && file !in skipped
    && (update(disk[file].text).hits > 0 || RenamedPath(file, was, next) != file)
  }

  /** Every rewrite holds the updated text of its source and where it goes. */
  ghost predicate Updates(disk: Disk, sources: seq<File>, update: string -> Updated, was: string, next: string,
                          rewrites: seq<Rewrite>) {
    forall k | 0 <= k < |rewrites| ::
      rewrites[k].source in sources && rewrites[k].source in disk && disk[rewrites[k].source].Readable?
      && rewrites[k].text == update(disk[rewrites[k].source].text).text
      && rewrites[k].destination == RenamedPath(rewrites[k].source, was, next)
  }

  /** What the walk has gathered from the files `done`. */
  ghost predicate Gathered(disk: Disk, done: seq<File>, skipped: set<File>, update: string -> Updated,
                           was: string, next: string, rewrites: seq<Rewrite>) {
    Sound(disk, rewrites)
    && Updates(disk, done, update, was, next, rewrites)
    && (forall file | file in done ::
          Concerned(disk, file, skipped, update, was, next) <==> Sourced(rewrites, file))
    && (forall file | file in done && Concerned(disk, file, skipped, update, was, next) ::
          Free(disk, file, was, next))
  }

  predicate Sourced(rewrites: seq<Rewrite>, file: File) {
    exists k | 0 <= k < |rewrites| :: rewrites[k].source == file
  }

  /** Where the file goes is where it is, or nothing is there, readable or not. */
  predicate Free(disk: Disk, file: File, was: string, next: string) {
    RenamedPath(file, was, next) == file || RenamedPath(file, was, next) !in disk
  }

  /** No rewrite is of a managed file, or of one that neither names the type nor
      moves. */
  ghost predicate Spared(disk: Disk, skipped: set<File>, update: string -> Updated, rewrites: seq<Rewrite>) {
    forall k | 0 <= k < |rewrites| ::
      rewrites[k].source !in skipped && rewrites[k].source in disk && disk[rewrites[k].source].Readable?
      && (rewrites[k].destination != rewrites[k].source || update(disk[rewrites[k].source].text).hits > 0)
  }

  /** A readable file names the type, or is named after it. */
  ghost predicate Names(disk: Disk, file: File, update: string -> Updated, was: string, next: string) {
    file in disk && disk[file].Readable?
    && (update(disk[file].text).hits > 0 || RenamedPath(file, was, next) != file)
  }

  /** Something is where a file of the reader's would move. */
  ghost predicate Blocked(disk: Disk, sources: seq<File>, skipped: set<File>, was: string, next: string,
                          destination: File) {
    destination in disk
    && exists file | file in sources ::
         file !in skipped && destination != file && RenamedPath(file, was, next) == destination
  }

  lemma {:induction false} SparedAndNamed(disk: Disk, sources: seq<File>, skipped: set<File>,
                                          update: string -> Updated, was: string, next: string, rewrites: seq<Rewrite>)
    requires Updates(disk, sources, update, was, next, rewrites)
    requires forall file | file in sources ::
               Concerned(disk, file, skipped, update, was, next) <==> Sourced(rewrites, file)
    ensures Spared(disk, skipped, update, rewrites)
    ensures forall file | file in sources && file !in skipped && Names(disk, file, update, was, next) ::
              Sourced(rewrites, file)
  {
    hide RenamedPath;
    forall k | 0 <= k < |rewrites| ensures Concerned(disk, rewrites[k].source, skipped, update, was, next) {
      assert Sourced(rewrites, rewrites[k].source);
    }
  }

  lemma {:induction false} GatherNothing(disk: Disk, done: seq<File>, file: File, skipped: set<File>,
                                         update: string -> Updated, was: string, next: string, rewrites: seq<Rewrite>)
    requires Gathered(disk, done, skipped, update, was, next, rewrites) && file !in done
    requires !Concerned(disk, file, skipped, update, was, next)
    ensures Gathered(disk, done + [file], skipped, update, was, next, rewrites)
  {
    hide Concerned, Free, RenamedPath, Sound;
  }

  lemma {:induction false} SoundStep(disk: Disk, rewrites: seq<Rewrite>, more: Rewrite, was: string, next: string)
    requires Sound(disk, rewrites) && !Sourced(rewrites, more.source)
    requires more.source in disk && disk[more.source].Readable?
    requires more.destination == RenamedPath(more.source, was, next) && Free(disk, more.source, was, next)
    requires forall k | 0 <= k < |rewrites| :: rewrites[k].destination == RenamedPath(rewrites[k].source, was, next)
    ensures Sound(disk, rewrites + [more])
  {
    hide RenamedPath;
    forall k | 0 <= k < |rewrites| ensures rewrites[k].destination != more.destination {
      if rewrites[k].destination == more.destination
         && rewrites[k].source != rewrites[k].destination && more.destination != more.source {
        MovesAreInjective(rewrites[k].source, more.source, was, next);
      }
    }
  }

  lemma {:induction false} GatherOne(disk: Disk, done: seq<File>, file: File, skipped: set<File>,
                                     update: string -> Updated, was: string, next: string, rewrites: seq<Rewrite>)
    requires Gathered(disk, done, skipped, update, was, next, rewrites) && file !in done
    requires Concerned(disk, file, skipped, update, was, next) && Free(disk, file, was, next)
    ensures Gathered(disk, done + [file], skipped, update, was, next,
                     rewrites + [Rewrite(file, update(disk[file].text).text, RenamedPath(file, was, next))])
  {
    hide Free, RenamedPath, Sound;
    var more := Rewrite(file, update(disk[file].text).text, RenamedPath(file, was, next));
    SoundStep(disk, rewrites, more, was, next);
    var all := rewrites + [more];
    forall f ensures Sourced(all, f) <==> Sourced(rewrites, f) || f == file {
      assert all[|rewrites|].source == file;
      if k :| 0 <= k < |rewrites| && rewrites[k].source == f { assert all[k].source == f; }
    }
  }

  /** The walk over the sources: the rewrites it collects, or the first
      destination that is already taken. */
  method Collect(
    disk: Disk, sources: seq<File>, skipped: set<File>, update: string -> Updated, was: string, next: string)
    returns (r: Result<seq<Rewrite>, Refusal>)
    requires forall i, j | 0 <= i < j < |sources| :: sources[i] != sources[j]
    ensures r.Ok? ==> Sound(disk, r.value)
    ensures r.Ok? ==> forall file | file in sources ::
              Concerned(disk, file, skipped, update, was, next)
              <==> Sourced(r.value, file)
    ensures r.Ok? ==> Updates(disk, sources, update, was, next, r.value)
    ensures r.Err? ==> r.error.WouldOverwrite? && Blocked(disk, sources, skipped, was, next, r.error.destination)
    ensures r.Err? <==> exists file | file in sources ::
              Concerned(disk, file, skipped, update, was, next)
              && !Free(disk, file, was, next)
  {
    hide Gathered, Sourced, RenamedPath, Sound, Updates;
    var rewrites: seq<Rewrite> := [];
    NothingGathered(disk, skipped, update, was, next);
    for n := 0 to |sources|
      invariant Gathered(disk, sources[..n], skipped, update, was, next, rewrites)
    {
      var file := sources[n];
      assert sources[..n + 1] == sources[..n] + [file];
      if file !in disk || disk[file].Unreadable? || file in skipped {
        GatherNothing(disk, sources[..n], file, skipped, update, was, next, rewrites);
        continue;
      }
      var updated := update(disk[file].text);
      var destination := RenamedPath(file, was, next);
      if updated.hits == 0 && destination == file {
        GatherNothing(disk, sources[..n], file, skipped, update, was, next, rewrites);
        continue;
      }
      if destination != file && destination in disk {
        assert Concerned(disk, file, skipped, update, was, next) && !Free(disk, file, was, next);
        return Err(WouldOverwrite(destination));
      }
      GatherOne(disk, sources[..n], file, skipped, update, was, next, rewrites);
      rewrites := rewrites + [Rewrite(file, updated.text, destination)];
    }
    assert sources[..|sources|] == sources;
    GatheredMeans(disk, sources, skipped, update, was, next, rewrites);
    return Ok(rewrites);
  }

  lemma {:induction false} NothingGathered(disk: Disk, skipped: set<File>, update: string -> Updated,
                                           was: string, next: string)
    ensures Gathered(disk, [], skipped, update, was, next, [])
  {
  }

  lemma {:induction false} GatheredMeans(disk: Disk, sources: seq<File>, skipped: set<File>, update: string -> Updated,
                                         was: string, next: string, rewrites: seq<Rewrite>)
    requires Gathered(disk, sources, skipped, update, was, next, rewrites)
    ensures Sound(disk, rewrites)
    ensures forall file | file in sources ::
              Concerned(disk, file, skipped, update, was, next) <==> Sourced(rewrites, file)
    ensures forall file | file in sources && Concerned(disk, file, skipped, update, was, next) ::
              Free(disk, file, was, next)
    ensures Updates(disk, sources, update, was, next, rewrites)
  {
    hide Concerned, Sourced, Free, RenamedPath, Sound, Updates;
  }

  lemma {:induction false} NoneConcerned(disk: Disk, sources: seq<File>, skipped: set<File>,
                                         update: string -> Updated, was: string, next: string, rewrites: seq<Rewrite>)
    requires Updates(disk, sources, update, was, next, rewrites)
    requires forall file | file in sources ::
               Concerned(disk, file, skipped, update, was, next) <==> Sourced(rewrites, file)
    ensures rewrites == []
            <==> forall file | file in sources :: !Concerned(disk, file, skipped, update, was, next)
  {
    hide Concerned;
    if rewrites != [] { assert Sourced(rewrites, rewrites[0].source); }
  }

  // ---- the two phases ----

  /** Every file is still readable: under its old name as it was, or under its
      new name as it should be. */
  ghost predicate Recoverable(disk: Disk, rewrites: seq<Rewrite>, now: Disk) {
    (forall i | 0 <= i < |rewrites| ::
       Lookup(now, rewrites[i].source) == Lookup(disk, rewrites[i].source)
       || Lookup(now, rewrites[i].destination) == Some(Readable(rewrites[i].text)))
    && forall file :: !Listed(rewrites, file) ==> Lookup(now, file) == Lookup(disk, file)
  }

  ghost predicate Listed(rewrites: seq<Rewrite>, file: File) {
    exists i | 0 <= i < |rewrites| :: rewrites[i].source == file || rewrites[i].destination == file
  }

  /** The planned outcome: destinations hold the new texts, moved sources are
      gone, nothing else changed. */
  ghost predicate Planned(disk: Disk, rewrites: seq<Rewrite>, now: Disk) {
    (forall i | 0 <= i < |rewrites| :: Lookup(now, rewrites[i].destination) == Some(Readable(rewrites[i].text)))
    && (forall i | 0 <= i < |rewrites| ::
          rewrites[i].source != rewrites[i].destination ==> rewrites[i].source !in now)
    && forall file :: !Listed(rewrites, file) ==> Lookup(now, file) == Lookup(disk, file)
  }

  lemma {:induction false} PlannedIsUnique(disk: Disk, rewrites: seq<Rewrite>, a: Disk, b: Disk)
    requires Planned(disk, rewrites, a) && Planned(disk, rewrites, b)
    ensures a == b
  {
    forall file ensures Lookup(a, file) == Lookup(b, file) {
      if Listed(rewrites, file) {
        var i :| 0 <= i < |rewrites| && (rewrites[i].source == file || rewrites[i].destination == file);
        if rewrites[i].destination != file { assert rewrites[i].source != rewrites[i].destination; }
      }
    }
    assert forall file :: Lookup(a, file) == Lookup(b, file) ==> (file in a <==> file in b);
    forall file ensures (file in a <==> file in b) && (file in a ==> a[file] == b[file]) {
      assert Lookup(a, file) == Lookup(b, file);
    }
  }

  /** The disk under the rename, keeping every state it passed through. */
  class FileSystem {
    var files: Disk
    ghost var history: seq<Disk>

    method Put(file: File, text: string)
      modifies this
      ensures files == old(files)[file := Readable(text)]
      ensures history == old(history) + [files]
    {
      files := files[file := Readable(text)];
      history := history + [files];
    }

    method Remove(file: File)
      modifies this
      ensures files == old(files) - {file}
      ensures history == old(history) + [files]
    {
      files := files - {file};
      history := history + [files];
    }

    /** Refused or pretended, nothing is written. Otherwise the disk ends
        exactly as planned, and every state on the way is recoverable. */
    method Run(sources: seq<File>, skipped: set<File>, update: string -> Updated,
               was: string, next: string, pretend: bool, consented: bool)
      returns (r: Result<seq<Rewrite>, Refusal>)
      requires forall i, j | 0 <= i < j < |sources| :: sources[i] != sources[j]
      modifies this
      ensures r.Err? || pretend ==> files == old(files) && history == old(history)
      ensures r.Ok? && !pretend ==> Planned(old(files), r.value, files)
      ensures r.Ok? ==> Sound(old(files), r.value) && (pretend || consented)
      ensures |old(history)| <= |history| && history[..|old(history)|] == old(history)
      ensures r.Ok? ==> forall n | |old(history)| <= n < |history| :: Recoverable(old(files), r.value, history[n])
      ensures r.Ok? ==> Updates(old(files), sources, update, was, next, r.value)
      ensures r.Ok? ==> forall file | file in sources ::
                Concerned(old(files), file, skipped, update, was, next) <==> Sourced(r.value, file)
      ensures r == Err(NothingNamed)
              <==> forall file | file in sources :: !Concerned(old(files), file, skipped, update, was, next)
      ensures r.Err? && r.error.WouldOverwrite?
              <==> exists file | file in sources ::
                     Concerned(old(files), file, skipped, update, was, next) && !Free(old(files), file, was, next)
      ensures r == Err(NotConsented)
              <==> !pretend && !consented
                   && (exists file | file in sources :: Concerned(old(files), file, skipped, update, was, next))
                   && forall file | file in sources && Concerned(old(files), file, skipped, update, was, next) ::
                        Free(old(files), file, was, next)
      ensures r.Ok? ==> Spared(old(files), skipped, update, r.value)
      ensures r.Ok? ==>
                forall file | file in sources && file !in skipped && Names(old(files), file, update, was, next) ::
                  Sourced(r.value, file)
      ensures r.Err? && r.error.WouldOverwrite? ==>
                Blocked(old(files), sources, skipped, was, next, r.error.destination)
    {
      hide Written, Removed, Recoverable, Planned, Sound, Concerned, Sourced, Free, RenamedPath, Updates;
      hide Spared, Names, Blocked;
      r := Collect(files, sources, skipped, update, was, next);
      if r.Err? {
        return;
      }
      var rewrites := r.value;
      NoneConcerned(files, sources, skipped, update, was, next, rewrites);
      SparedAndNamed(files, sources, skipped, update, was, next, rewrites);
      if rewrites == [] {
        return Err(NothingNamed);
      }
      if pretend {
        return;
      }
      if !consented {
        return Err(NotConsented);
      }
      ghost var disk, past := files, history;
      NothingWritten(disk, rewrites);
      for n := 0 to |rewrites|
        invariant Written(disk, rewrites, n, files)
        invariant |past| <= |history| && history[..|past|] == past
        invariant forall k | |past| <= k < |history| :: Recoverable(disk, rewrites, history[k])
      {
        WriteStep(disk, rewrites, n, files);
        Put(rewrites[n].destination, rewrites[n].text);
      }
      AllWritten(disk, rewrites, files);
      for n := 0 to |rewrites|
        invariant Removed(disk, rewrites, n, files)
        invariant |past| <= |history| && history[..|past|] == past
        invariant forall k | |past| <= k < |history| :: Recoverable(disk, rewrites, history[k])
      {
        RemoveStep(disk, rewrites, n, files);
        if rewrites[n].source != rewrites[n].destination {
          Remove(rewrites[n].source);
        }
      }
      AllRemoved(disk, rewrites, files);
    }
  }

  /** After `n` writes: those destinations hold the new text, no other path
      has changed. */
  ghost predicate Written(disk: Disk, rewrites: seq<Rewrite>, n: nat, now: Disk) {
    n <= |rewrites|
    && (forall i | 0 <= i < n :: Lookup(now, rewrites[i].destination) == Some(Readable(rewrites[i].text)))
    && forall file ::
         (forall i | 0 <= i < n :: rewrites[i].destination != file) ==> Lookup(now, file) == Lookup(disk, file)
  }

  lemma {:induction false} WriteStep(disk: Disk, rewrites: seq<Rewrite>, n: nat, now: Disk)
    requires Sound(disk, rewrites) && n < |rewrites| && Written(disk, rewrites, n, now)
    ensures Written(disk, rewrites, n + 1, now[rewrites[n].destination := Readable(rewrites[n].text)])
    ensures Recoverable(disk, rewrites, now[rewrites[n].destination := Readable(rewrites[n].text)])
  {
    var after := now[rewrites[n].destination := Readable(rewrites[n].text)];
    assert Written(disk, rewrites, n + 1, after);
    WrittenIsRecoverable(disk, rewrites, n + 1, after);
  }

  lemma {:induction false} WrittenIsRecoverable(disk: Disk, rewrites: seq<Rewrite>, n: nat, now: Disk)
    requires Sound(disk, rewrites) && Written(disk, rewrites, n, now)
    ensures Recoverable(disk, rewrites, now)
  {
    forall i | 0 <= i < |rewrites|
      ensures Lookup(now, rewrites[i].source) == Lookup(disk, rewrites[i].source)
              || Lookup(now, rewrites[i].destination) == Some(Readable(rewrites[i].text))
    {
      if i >= n {
        forall j | 0 <= j < n ensures rewrites[j].destination != rewrites[i].source {
          if rewrites[j].destination == rewrites[j].source { assert rewrites[j].source != rewrites[i].source; }
        }
      }
    }
  }

  /** After the writes and `n` removals: every destination still holds the new
      text, and the first `n` moved sources are gone. */
  ghost predicate Removed(disk: Disk, rewrites: seq<Rewrite>, n: nat, now: Disk) {
    n <= |rewrites|
    && (forall i | 0 <= i < |rewrites| :: Lookup(now, rewrites[i].destination) == Some(Readable(rewrites[i].text)))
    && (forall i | 0 <= i < n :: rewrites[i].source != rewrites[i].destination ==> rewrites[i].source !in now)
    && forall file :: !Listed(rewrites, file) ==> Lookup(now, file) == Lookup(disk, file)
  }

  lemma {:induction false} NothingWritten(disk: Disk, rewrites: seq<Rewrite>)
    ensures Written(disk, rewrites, 0, disk)
  {
  }

  lemma {:induction false} AllRemoved(disk: Disk, rewrites: seq<Rewrite>, now: Disk)
    requires Removed(disk, rewrites, |rewrites|, now)
    ensures Planned(disk, rewrites, now)
  {
  }

  lemma {:induction false} AllWritten(disk: Disk, rewrites: seq<Rewrite>, now: Disk)
    requires Written(disk, rewrites, |rewrites|, now)
    ensures Removed(disk, rewrites, 0, now)
  {
  }

  /** A removed source is no one's destination. */
  lemma {:induction false} RemovalSparesDestinations(disk: Disk, rewrites: seq<Rewrite>, n: nat, i: nat)
    requires Sound(disk, rewrites) && n < |rewrites| && i < |rewrites|
    requires rewrites[n].source != rewrites[n].destination
    ensures rewrites[i].destination != rewrites[n].source
  {
    if rewrites[i].destination == rewrites[i].source && i != n {
      assert rewrites[i].source != rewrites[n].source;
    }
  }

  lemma {:induction false} RemoveStep(disk: Disk, rewrites: seq<Rewrite>, n: nat, now: Disk)
    requires Sound(disk, rewrites) && n < |rewrites| && Removed(disk, rewrites, n, now)
    ensures
      var after := if rewrites[n].source != rewrites[n].destination then now - {rewrites[n].source} else now;
      Removed(disk, rewrites, n + 1, after) && Recoverable(disk, rewrites, after)
  {
    var after := if rewrites[n].source != rewrites[n].destination then now - {rewrites[n].source} else now;
    if rewrites[n].source != rewrites[n].destination {
      forall i | 0 <= i < |rewrites|
        ensures Lookup(after, rewrites[i].destination) == Some(Readable(rewrites[i].text))
      {
        RemovalSparesDestinations(disk, rewrites, n, i);
      }
      assert Listed(rewrites, rewrites[n].source);
    }
  }
}
