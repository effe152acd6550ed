/** What follows a field when it is renamed or removed: every projection,
    index and unique constraint of its entity that names it. */
module FieldCascade {
  import opened Text
  import opened Documents
  import opened SpanEdits
  import opened IdentifierEdit
  import opened FieldRemoval

  // ---- one rewrite per piece, spliced in at once ----

  /** The new text of each piece that changes. */
  type Rewrites = seq<Option<string>>

  ghost predicate Fits(doc: seq<Piece>, rewrites: Rewrites) {
    |rewrites| == |doc|
    && forall i | 0 <= i < |doc| :: rewrites[i].Some? ==> doc[i].text != []
  }

  function Rewrite(doc: seq<Piece>, rewrites: Rewrites): (r: seq<Piece>)
    requires |rewrites| == |doc|
    ensures |r| == |doc|
    ensures forall i | 0 <= i < |doc| ::
              r[i] == match rewrites[i] case None => doc[i] case Some(text) => doc[i].(text := text)
  {
    seq(|doc|, i requires 0 <= i < |doc| =>
      match rewrites[i] case None => doc[i] case Some(text) => doc[i].(text := text))
  }

  ghost function EditOf(doc: seq<Piece>, rewrites: Rewrites, i: nat): Edit
    requires i < |doc| == |rewrites| && rewrites[i].Some?
  {
    Edit(SpanOf(doc, i), rewrites[i].value)
  }

  ghost function EditSet(doc: seq<Piece>, rewrites: Rewrites, done: set<nat>): set<Edit>
    requires |rewrites| == |doc|
  {
    set i | i in done && i < |doc| && rewrites[i].Some? :: EditOf(doc, rewrites, i)
  }

  lemma {:induction false} SpansInOrder(doc: seq<Piece>, i: nat, j: nat)
    requires i < j < |doc|
    ensures SpanOf(doc, i).end <= SpanOf(doc, j).start
  {
    assert doc[..j] == doc[..i + 1] + doc[i + 1..j];
    SourceAppend(doc[..i + 1], doc[i + 1..j]);
    SourceTakes(doc, i);
  }

  lemma {:induction false} SourceTakes(doc: seq<Piece>, i: nat)
    requires i < |doc|
    ensures Source(doc[..i + 1]) == Source(doc[..i]) + doc[i].text
  {
    assert doc[..i + 1] == doc[..i] + [doc[i]];
    SourceAppend(doc[..i], [doc[i]]);
    assert Source([doc[i]]) == doc[i].text + Source([]);
  }

  lemma {:induction false} EditsApply(doc: seq<Piece>, rewrites: Rewrites, done: set<nat>)
    requires Fits(doc, rewrites)
    ensures Applicable(Source(doc), EditSet(doc, rewrites, done))
  {
    hide SpanOf;
    forall e, f | e in EditSet(doc, rewrites, done) && f in EditSet(doc, rewrites, done) && e != f
      ensures e.span.end <= f.span.start || f.span.end <= e.span.start
    {
      var i: nat :| i in done && i < |doc| && rewrites[i].Some? && e == EditOf(doc, rewrites, i);
      var j: nat :| j in done && j < |doc| && rewrites[j].Some? && f == EditOf(doc, rewrites, j);
      if i < j { SpansInOrder(doc, i, j); } else if j < i { SpansInOrder(doc, j, i); }
    }
    forall e | e in EditSet(doc, rewrites, done) ensures e.span.start < e.span.end <= |Source(doc)| {
      var i: nat :| i in done && i < |doc| && rewrites[i].Some? && e == EditOf(doc, rewrites, i);
      assert Source(doc)[e.span.start..e.span.end] == doc[i].text;
    }
  }

  /** No rewrite is left out. */
  ghost predicate Covers(rewrites: Rewrites, done: set<nat>) {
    forall i | 0 <= i < |rewrites| :: rewrites[i].Some? ==> i in done
  }

  lemma {:induction false} RewriteTail(doc: seq<Piece>, rewrites: Rewrites, i: nat)
    requires Fits(doc, rewrites) && i < |doc|
    ensures Source(Rewrite(doc, rewrites)[i..])
            == Rewrite(doc, rewrites)[i].text + Source(Rewrite(doc, rewrites)[i + 1..])
  {
    hide Rewrite;
    var all := Rewrite(doc, rewrites);
    assert all[i..][0] == all[i] && all[i..][1..] == all[i + 1..];
  }

  lemma {:induction false} NothingMore(doc: seq<Piece>, rewrites: Rewrites, edits: set<Edit>)
    requires Fits(doc, rewrites) && Applicable(Source(doc), edits)
    ensures Spliced(Source(doc), edits, |Source(doc)|) == Source(Rewrite(doc, rewrites)[|doc|..])
  {
  }

  /** Splicing every rewrite into the source is rewriting the pieces. */
  lemma {:induction false} SplicedPieces(doc: seq<Piece>, rewrites: Rewrites, done: set<nat>, i: nat)
    requires Fits(doc, rewrites) && Covers(rewrites, done) && i <= |doc|
    requires Applicable(Source(doc), EditSet(doc, rewrites, done))
    requires |Source(doc[..i])| <= |Source(doc)|
    ensures Spliced(Source(doc), EditSet(doc, rewrites, done), |Source(doc[..i])|)
            == Source(Rewrite(doc, rewrites)[i..])
    decreases |doc| - i
  {
    hide Source, Rewrite, EditSet, Spliced, Applicable, Covers;
    if i == |doc| {
      assert doc[..i] == doc;
      NothingMore(doc, rewrites, EditSet(doc, rewrites, done));
    } else {
      SourceTakes(doc, i);
      PieceStep(doc, rewrites, done, i);
      SplicedPieces(doc, rewrites, done, i + 1);
      RewriteTail(doc, rewrites, i);
    }
  }

  lemma {:induction false} PieceStep(doc: seq<Piece>, rewrites: Rewrites, done: set<nat>, i: nat)
    requires Fits(doc, rewrites) && Covers(rewrites, done) && i < |doc|
    requires Applicable(Source(doc), EditSet(doc, rewrites, done))
    ensures
      var edits, span := EditSet(doc, rewrites, done), SpanOf(doc, i);
      Spliced(Source(doc), edits, span.start)
      == Rewrite(doc, rewrites)[i].text + Spliced(Source(doc), edits, span.end)
  {
    var edits, span := EditSet(doc, rewrites, done), SpanOf(doc, i);
    if rewrites[i].Some? {
      var e := EditOf(doc, rewrites, i);
      assert e in edits;
      SplicedAt(Source(doc), edits, e);
    } else {
      NoEditInside(doc, rewrites, done, i);
      KeepUntilEdit(Source(doc), edits, span.start, span.end);
    }
  }

  lemma {:induction false} NoEditInside(doc: seq<Piece>, rewrites: Rewrites, done: set<nat>, i: nat)
    requires Fits(doc, rewrites) && i < |doc| && rewrites[i].None?
    ensures forall e | e in EditSet(doc, rewrites, done) ::
              !(SpanOf(doc, i).start <= e.span.start < SpanOf(doc, i).end)
  {
    hide SpanOf;
    forall e | e in EditSet(doc, rewrites, done)
      ensures !(SpanOf(doc, i).start <= e.span.start < SpanOf(doc, i).end)
    {
      var j: nat :| j in done && j < |doc| && rewrites[j].Some? && e == EditOf(doc, rewrites, j);
      assert Source(doc)[e.span.start..e.span.end] == doc[j].text;
      if i < j { SpansInOrder(doc, i, j); } else { SpansInOrder(doc, j, i); }
    }
  }

  // ---- collecting the edits ----

  ghost predicate Collected(doc: seq<Piece>, rewrites: Rewrites, edits: seq<Edit>, done: set<nat>) {
    Fits(doc, rewrites) && Distinct(edits) && SetOf(edits) == EditSet(doc, rewrites, done)
  }

  lemma {:induction false} CollectOne(doc: seq<Piece>, rewrites: Rewrites, edits: seq<Edit>, done: set<nat>, i: nat)
    requires Collected(doc, rewrites, edits, done) && i < |doc| && i !in done
    ensures rewrites[i].Some? ==>
              Collected(doc, rewrites, edits + [EditOf(doc, rewrites, i)], done + {i})
    ensures rewrites[i].None? ==> Collected(doc, rewrites, edits, done + {i})
  {
    hide SpanOf;
    if rewrites[i].Some? {
      var e := EditOf(doc, rewrites, i);
      assert Source(doc)[e.span.start..e.span.end] == doc[i].text;
      forall f | f in edits ensures f != e {
        assert f in EditSet(doc, rewrites, done);
        var j: nat :| j in done && j < |doc| && rewrites[j].Some? && f == EditOf(doc, rewrites, j);
        if i < j { SpansInOrder(doc, i, j); } else { SpansInOrder(doc, j, i); }
        assert Source(doc)[f.span.start..f.span.end] == doc[j].text;
      }
      assert EditSet(doc, rewrites, done + {i}) == EditSet(doc, rewrites, done) + {e};
      assert SetOf(edits + [e]) == SetOf(edits) + {e};
    } else {
      assert EditSet(doc, rewrites, done + {i}) == EditSet(doc, rewrites, done);
    }
  }

  /** A finished collection, applied, is the rewritten document. */
  lemma {:induction false} CollectedIsRewritten(doc: seq<Piece>, rewrites: Rewrites, edits: seq<Edit>, done: set<nat>)
    requires Collected(doc, rewrites, edits, done) && Covers(rewrites, done)
    ensures Applicable(Source(doc), SetOf(edits))
    ensures Spliced(Source(doc), SetOf(edits), 0) == Source(Rewrite(doc, rewrites))
  {
    EditsApply(doc, rewrites, done);
    assert doc[..0] == [];
    SplicedPieces(doc, rewrites, done, 0);
    assert Rewrite(doc, rewrites)[0..] == Rewrite(doc, rewrites);
  }

  // ---- which pieces follow ----

  /** A selector's target names the entity: by name, by label or by `*`. */
  predicate Reaches(target: string, entity: string) {
    target == "*" || target == entity || target == Label(entity) || Label(target) == Label(entity)
  }

  /** Besides `*`, a target is read by its label alone. */
  lemma {:induction false} ReachesIffSameLabel(target: string, entity: string)
    ensures Reaches(target, entity) <==> target == "*" || Label(target) == Label(entity)
  {
    hide LabelFrom;
    LabelsAreLabels(entity, 0);
    LabelsAreLabels(Label(entity), 0);
  }

  predicate AnyReaches(targets: seq<string>, entity: string) {
    exists i | 0 <= i < |targets| :: Reaches(Trim(targets[i]), entity)
  }

  /** What is taken for the targets: everything behind the first `for` of the
      text, wherever that stands, up to the first `except`. */
  function TargetText(text: string): Option<string> {
    match Find(text, "for")
    case None => None
    case Some(i) =>
      var after := text[i + 3..];
      match Find(after, "except") case None => Some(after) case Some(j) => Some(after[..j])
  }

  /** `target_matches_entity`. */
  predicate TargetMatches(text: string, entity: string) {
    match TargetText(text)
    case None => false
    case Some(targets) => AnyReaches(SplitChar(targets, ','), entity)
  }

  function Renamed(text: string, field: string, nextName: string): string {
    Concat(SubstituteBoth(Tokens(text), field, nextName))
  }

  function Changed(before: string, after: string): Option<string> {
    if after == before then None else Some(after)
  }

  function RenameOf(piece: Piece, entity: string, field: string, nextName: string): Option<string> {
    match piece.role
    case Member(owner, kind) =>
      if owner == Label(entity) && (kind == "use" || kind == "index" || kind == "unique")
      then Changed(piece.text, Renamed(piece.text, field, nextName)) else None
    case Declaration(kind) =>
      if kind == "use" && TargetMatches(piece.text, entity)
      then Changed(piece.text, Renamed(piece.text, field, nextName)) else None
    case Trivia => None
  }

  function RemovalOf(piece: Piece, entity: string, field: string): Option<string> {
    match piece.role
    case Member(owner, kind) =>
      if owner != Label(entity) then None
      else if kind == "use" then WithoutField(piece.text, field)
      else if kind == "index" || kind == "unique" then WithoutConstraint(piece.text, field)
      else None
    case Declaration(kind) =>
      if kind == "use" && TargetMatches(piece.text, entity) then WithoutField(piece.text, field) else None
    case Trivia => None
  }

  function RenameRewrites(doc: seq<Piece>, entity: string, field: string, nextName: string): (r: Rewrites)
    ensures |r| == |doc|
    ensures forall i | 0 <= i < |doc| :: r[i] == RenameOf(doc[i], entity, field, nextName)
    ensures forall i | 0 <= i < |doc| :: r[i].Some? ==> doc[i].text != []
  {
    assert Tokens([]) == [];
    seq(|doc|, i requires 0 <= i < |doc| => RenameOf(doc[i], entity, field, nextName))
  }

  function RemovalRewrites(doc: seq<Piece>, entity: string, field: string): (r: Rewrites)
    ensures |r| == |doc|
    ensures forall i | 0 <= i < |doc| :: r[i] == RemovalOf(doc[i], entity, field)
    ensures forall i | 0 <= i < |doc| :: r[i].Some? ==> doc[i].text != []
  {
    seq(|doc|, i requires 0 <= i < |doc| => RemovalOf(doc[i], entity, field))
  }

  // ---- what is left of a piece ----

  /** A `use` line that the cascade follows: a member of the entity, or a
      declaration about it. */
  ghost predicate UseOf(role: Role, text: string, entity: string) {
    role == Member(Label(entity), "use") || (role == Declaration("use") && TargetMatches(text, entity))
  }

  ghost predicate ConstraintOf(role: Role, entity: string) {
    role == Member(Label(entity), "index") || role == Member(Label(entity), "unique")
  }

  /** Kind by kind: the field is renamed in every line that follows, and every
      other piece is as it was. */
  ghost predicate RenameFollowed(was: Piece, now: Piece, entity: string, field: string, nextName: string) {
    now.role == was.role
    && now.text == if UseOf(was.role, was.text, entity) || ConstraintOf(was.role, entity)
                   then Renamed(was.text, field, nextName) else was.text
  }

  /** Kind by kind: what the removal makes of a `use` line and of a constraint
      line; every other piece is as it was. */
  ghost predicate RemovalFollowed(was: Piece, now: Piece, entity: string, field: string) {
    now.role == was.role
    && (UseOf(was.role, was.text, entity) ==>
          match WithoutField(was.text, field) case Some(text) => now.text == text case None => now == was)
    && (ConstraintOf(was.role, entity) ==>
          match WithoutConstraint(was.text, field) case Some(text) => now.text == text case None => now == was)
    && (!UseOf(was.role, was.text, entity) && !ConstraintOf(was.role, entity) ==> now == was)
  }

  ghost predicate AllRenamed(doc: seq<Piece>, after: seq<Piece>, entity: string, field: string, nextName: string) {
    |after| == |doc| && forall i | 0 <= i < |doc| :: RenameFollowed(doc[i], after[i], entity, field, nextName)
  }

  ghost predicate AllRemoved(doc: seq<Piece>, after: seq<Piece>, entity: string, field: string) {
    |after| == |doc| && forall i | 0 <= i < |doc| :: RemovalFollowed(doc[i], after[i], entity, field)
  }

  lemma {:induction false} RenameFollows(doc: seq<Piece>, entity: string, field: string, nextName: string)
    ensures AllRenamed(doc, Rewrite(doc, RenameRewrites(doc, entity, field, nextName)), entity, field, nextName)
  {
    hide Renamed, TargetMatches, Label;
  }

  lemma {:induction false} RemovalFollows(doc: seq<Piece>, entity: string, field: string)
    ensures AllRemoved(doc, Rewrite(doc, RemovalRewrites(doc, entity, field)), entity, field)
  {
    hide WithoutField, WithoutConstraint, TargetMatches, Label;
  }

  /** An index or unique constraint of the entity, with its own brackets: the
      items with the field's label go out of the list, the rest is kept, and the
      line goes when no text is left in the list. */
  lemma {:induction false} ConstraintFollows(was: Piece, now: Piece, entity: string, field: string,
                                             head: string, inner: string, tail: string)
    requires RemovalFollowed(was, now, entity, field)
    requires was.role == Member(Label(entity), "index") || was.role == Member(Label(entity), "unique")
    requires was.text == head + ['['] + inner + ([']'] + tail) && '[' !in head && ']' !in tail
    ensures
      var items, kept := Items(inner), Kept(Items(inner), field);
      if kept == items then now == was
      else if Join(kept, ", ") == [] then now.text == []
      else now.text == head + ['['] + Join(kept, ", ") + ([']'] + tail) && Items(Join(kept, ", ")) == kept
    ensures forall item | item in Kept(Items(inner), field) :: Label(FirstWord(item)) != Label(field)
    ensures forall item | item in Items(inner) && Label(FirstWord(item)) != Label(field) ::
              item in Kept(Items(inner), field)
  {
    hide WithoutConstraint, WithoutField, TargetMatches, Label, Items, Kept, Join, NamesField;
    ConstraintFilters(head, inner, tail, field);
    KeptExactly(Items(inner), field);
  }

  // ---- the two cascades ----

  /** Members first, then top-level declarations, each changed text one edit;
      the result is the document with exactly those pieces rewritten. */
  method CascadeFieldRename(doc: seq<Piece>, entity: string, field: string, nextName: string)
    returns (source: string)
    requires IsIdentifier(field) && IsIdentifier(nextName)
    ensures source == Source(Rewrite(doc, RenameRewrites(doc, entity, field, nextName)))
    ensures exists after :: AllRenamed(doc, after, entity, field, nextName) && source == Source(after)
  {
    hide Source, SpanOf, EditSet, RenameOf, Renamed, Rewrite, TargetMatches, Label, AllRenamed;
    RenameFollows(doc, entity, field, nextName);
    ghost var rewrites := RenameRewrites(doc, entity, field, nextName);
    ghost var done: set<nat> := {};
    var edits := [];
    NothingCollected(doc, rewrites);
    for i := 0 to |doc|
      invariant Collected(doc, rewrites, edits, done)
      invariant forall k | k in done :: k < i && doc[k].role.Member?
      invariant forall k | 0 <= k < i && doc[k].role.Member? :: k in done
    {
      var piece := doc[i];
      RenameCases(piece, entity, field, nextName);
      if piece.role.Member? {
        CollectOne(doc, rewrites, edits, done, i);
        done := done + {i};
        if piece.role.owner == Label(entity)
           && (piece.role.kind == "use" || piece.role.kind == "index" || piece.role.kind == "unique") {
          var rewritten := RenameBoth(piece.text, field, nextName);
          if rewritten != piece.text {
            edits := edits + [Edit(SpanOf(doc, i), rewritten)];
          }
        }
      }
    }
    for i := 0 to |doc|
      invariant Collected(doc, rewrites, edits, done)
      invariant forall k | k in done :: k < |doc| && (doc[k].role.Declaration? ==> k < i)
      invariant forall k | 0 <= k < |doc| && doc[k].role.Member? :: k in done
      invariant forall k | 0 <= k < i && doc[k].role.Declaration? :: k in done
    {
      var piece := doc[i];
      RenameCases(piece, entity, field, nextName);
      if piece.role.Declaration? {
        CollectOne(doc, rewrites, edits, done, i);
        done := done + {i};
        if piece.role.kind == "use" && TargetMatches(piece.text, entity) {
          var rewritten := RenameBoth(piece.text, field, nextName);
          if rewritten != piece.text {
            edits := edits + [Edit(SpanOf(doc, i), rewritten)];
          }
        }
      }
    }
    forall i | 0 <= i < |doc| ensures rewrites[i].Some? ==> i in done {
      RenameCases(doc[i], entity, field, nextName);
    }
    CollectedIsRewritten(doc, rewrites, edits, done);
    source := ApplyEdits(Source(doc), edits);
  }

  method CascadeFieldRemove(doc: seq<Piece>, entity: string, field: string) returns (source: string)
    ensures source == Source(Rewrite(doc, RemovalRewrites(doc, entity, field)))
    ensures exists after :: AllRemoved(doc, after, entity, field) && source == Source(after)
  {
    hide Source, SpanOf, EditSet, WithoutField, WithoutConstraint, Rewrite, TargetMatches, Label, AllRemoved;
    RemovalFollows(doc, entity, field);
    ghost var rewrites := RemovalRewrites(doc, entity, field);
    ghost var done: set<nat> := {};
    var edits := [];
    NothingCollected(doc, rewrites);
    for i := 0 to |doc|
      invariant Collected(doc, rewrites, edits, done)
      invariant forall k | k in done :: k < i && doc[k].role.Member?
      invariant forall k | 0 <= k < i && doc[k].role.Member? :: k in done
    {
      var piece := doc[i];
      if piece.role.Member? {
        CollectOne(doc, rewrites, edits, done, i);
        done := done + {i};
        if piece.role.owner == Label(entity) {
          var rewritten := None;
          if piece.role.kind == "use" {
            rewritten := RemoveFieldFromUseLine(piece.text, field);
          } else if piece.role.kind == "index" || piece.role.kind == "unique" {
            rewritten := RemoveFieldFromConstraintLine(piece.text, field);
          }
          if rewritten.Some? {
            edits := edits + [Edit(SpanOf(doc, i), rewritten.value)];
          }
        }
      }
    }
    for i := 0 to |doc|
      invariant Collected(doc, rewrites, edits, done)
      invariant forall k | k in done :: k < |doc| && (doc[k].role.Declaration? ==> k < i)
      invariant forall k | 0 <= k < |doc| && doc[k].role.Member? :: k in done
      invariant forall k | 0 <= k < i && doc[k].role.Declaration? :: k in done
    {
      var piece := doc[i];
      if piece.role.Declaration? {
        CollectOne(doc, rewrites, edits, done, i);
        done := done + {i};
        if piece.role.kind == "use" && TargetMatches(piece.text, entity) {
          var rewritten := RemoveFieldFromUseLine(piece.text, field);
          if rewritten.Some? {
            edits := edits + [Edit(SpanOf(doc, i), rewritten.value)];
          }
        }
      }
    }
    CollectedIsRewritten(doc, rewrites, edits, done);
    source := ApplyEdits(Source(doc), edits);
  }

  lemma {:induction false} NothingCollected(doc: seq<Piece>, rewrites: Rewrites)
    requires Fits(doc, rewrites)
    ensures Collected(doc, rewrites, [], {})
  {
  }

  lemma {:induction false} RenameCases(piece: Piece, entity: string, field: string, nextName: string)
    ensures RenameOf(piece, entity, field, nextName)
            == if (piece.role.Member? && piece.role.owner == Label(entity)
                   && (piece.role.kind == "use" || piece.role.kind == "index" || piece.role.kind == "unique"))
                  || (piece.role.Declaration? && piece.role.kind == "use" && TargetMatches(piece.text, entity))
               then Changed(piece.text, Concat(SubstituteBoth(Tokens(piece.text), field, nextName)))
               else None
  {
  }

  // ---- undoing a rename ----

  /** A rename followed by its reverse restores a text in which the new names
      were free, unless the new name is its own label: then the Java name and
      the label of the field become one word, and a text that used the label
      does not come back. */
  lemma {:induction false} CascadeBack(text: string, field: string, nextName: string)
    requires IsIdentifier(field) && IsIdentifier(nextName)
    requires nextName !in Tokens(text) && Label(nextName) !in Tokens(text)
    ensures Renamed(Renamed(text, field, nextName), nextName, field) == text
            <==> (Label(nextName) != nextName || Label(field) == field || Label(field) !in Tokens(text))
  {
    hide Tokens, Label, Concat, IsIdentifier, Separated, SwapBoth, SubstituteBoth;
    var ts := Tokens(text);
    var there := SubstituteBoth(ts, field, nextName);
    var back := SubstituteBoth(there, nextName, field);
    LabelsOfIdentifiers(field, nextName);
    TokensAreSeparated(text);
    BothStaySeparated(ts, field, nextName);
    BothStaySeparated(there, nextName, field);
    TokensOfConcat(there);
    TokensOfConcat(back);
    forall i | 0 <= i < |ts|
      ensures back[i] == ts[i]
              <==> (Label(nextName) != nextName || Label(field) == field || Label(field) != ts[i])
    {
      TokenBack(ts[i], field, nextName);
    }
    if Label(nextName) != nextName || Label(field) == field || Label(field) !in ts {
      assert back == ts;
    } else {
      var i :| 0 <= i < |ts| && ts[i] == Label(field);
      assert back[i] != ts[i];
    }
  }

  lemma {:induction false} TokenBack(token: string, field: string, nextName: string)
    requires token != nextName && token != Label(nextName)
    requires Label(Label(field)) == Label(field) && Label(Label(nextName)) == Label(nextName)
    ensures SwapBoth(SwapBoth(token, field, nextName), nextName, field) == token
            <==> (Label(nextName) != nextName || Label(field) == field || Label(field) != token)
  {
    hide Label;
  }

  lemma {:induction false} LabelsOfIdentifiers(field: string, nextName: string)
    requires IsIdentifier(field) && IsIdentifier(nextName)
    ensures IsIdentifier(Label(field)) && IsIdentifier(Label(nextName))
    ensures Label(Label(field)) == Label(field) && Label(Label(nextName)) == Label(nextName)
  {
    LabelsAreLabels(field, 0);
    LabelsAreLabels(nextName, 0);
    LabelsAreLabels(Label(field), 0);
    LabelsAreLabels(Label(nextName), 0);
  }

  lemma {:induction false} BothKeepsKind(token: string, field: string, nextName: string)
    requires IsIdentifier(field) && IsIdentifier(nextName) && IsIdentifier(Label(nextName))
    requires IsIdentifier(Label(field)) && IsToken(token)
    ensures IsIdentifier(SwapBoth(token, field, nextName)) <==> IsIdentifier(token)
    ensures IsToken(SwapBoth(token, field, nextName))
  {
    hide Label, IsIdentifier, IsWordChar;
  }

  lemma {:induction false} BothStaySeparated(ts: seq<string>, field: string, nextName: string)
    requires Separated(ts) && IsIdentifier(field) && IsIdentifier(nextName) && IsIdentifier(Label(nextName))
    requires IsIdentifier(Label(field))
    ensures Separated(SubstituteBoth(ts, field, nextName))
  {
    hide Label, IsIdentifier, IsToken, SwapBoth, SubstituteBoth;
    var r := SubstituteBoth(ts, field, nextName);
    forall i | 0 <= i < |r| ensures IsToken(r[i]) && (IsIdentifier(r[i]) <==> IsIdentifier(ts[i])) {
      BothKeepsKind(ts[i], field, nextName);
    }
  }
}
