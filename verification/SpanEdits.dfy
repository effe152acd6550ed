/** Span edits on a source text, applied back to front. */
module SpanEdits {
  import opened Text

  datatype Span = Span(start: nat, end: nat)

  datatype Edit = Edit(span: Span, replacement: string)

  /** `String::replace_range`. */
  function Splice(source: string, span: Span, replacement: string): string
    requires span.start <= span.end <= |source|
  {
    source[..span.start] + replacement + source[span.end..]
  }

  // ---- the specification: all edits at once ----

  ghost predicate Applicable(source: string, edits: set<Edit>) {
    (forall e | e in edits :: e.span.start < e.span.end <= |source|)
    && forall e, f | e in edits && f in edits && e != f ::
         e.span.end <= f.span.start || f.span.end <= e.span.start
  }

  ghost predicate StartsAt(edits: set<Edit>, e: Edit, i: nat) {
    e in edits && e.span.start == i
  }

  /** One walk over the source: where an edit starts its replacement is
      written and its span skipped, every other byte is kept. */
  ghost function Spliced(source: string, edits: set<Edit>, i: nat): string
    requires Applicable(source, edits) && i <= |source|
    decreases |source| - i
  {
    if i == |source| then []
    else if e: Edit :| StartsAt(edits, e, i) then e.replacement + Spliced(source, edits, e.span.end)
    else [source[i]] + Spliced(source, edits, i + 1)
  }

  ghost function SetOf(edits: seq<Edit>): set<Edit> {
    set e | e in edits
  }

  lemma {:induction false} KeepUntilEdit(source: string, edits: set<Edit>, i: nat, j: nat)
    requires Applicable(source, edits) && i <= j <= |source|
    requires forall e | e in edits :: !(i <= e.span.start < j)
    ensures Spliced(source, edits, i) == source[i..j] + Spliced(source, edits, j)
    decreases j - i
  {
    if i < j {
      assert !exists e :: StartsAt(edits, e, i);
      KeepUntilEdit(source, edits, i + 1, j);
      assert source[i..j] == [source[i]] + source[i + 1..j];
      Assoc([source[i]], source[i + 1..j], Spliced(source, edits, j));
    } else {
      assert source[i..j] == [];
    }
  }

  lemma {:induction false} SplicedAt(source: string, edits: set<Edit>, e: Edit)
    requires Applicable(source, edits) && e in edits
    ensures Spliced(source, edits, e.span.start) == e.replacement + Spliced(source, edits, e.span.end)
  {
    assert StartsAt(edits, e, e.span.start);
    assert forall f | StartsAt(edits, f, e.span.start) :: f == e;
  }

  lemma {:induction false} SplicedCopies(source: string, edits: set<Edit>, i: nat)
    requires Applicable(source, edits) && i < |source|
    requires forall f | f in edits :: f.span.start != i
    ensures Spliced(source, edits, i) == [source[i]] + Spliced(source, edits, i + 1)
  {
    assert !exists f :: StartsAt(edits, f, i);
  }

  /** Behind its span, an edit no longer matters. */
  lemma {:induction false} OnlyLaterEdits(source: string, edits: set<Edit>, e: Edit, i: nat)
    requires Applicable(source, edits + {e}) && Applicable(source, edits)
    requires e.span.start < i <= |source|
    ensures Spliced(source, edits + {e}, i) == Spliced(source, edits, i)
    decreases |source| - i
  {
    if i < |source| {
      if f :| f in edits && f.span.start == i {
        hide Spliced;
        SplicedAt(source, edits, f);
        SplicedAt(source, edits + {e}, f);
        OnlyLaterEdits(source, edits, e, f.span.end);
      } else {
        hide Spliced;
        SplicedCopies(source, edits, i);
        SplicedCopies(source, edits + {e}, i);
        OnlyLaterEdits(source, edits, e, i + 1);
      }
    }
  }

  /** One more edit in front of all the others is one `replace_range`. */
  lemma {:induction false} SpliceInFront(source: string, edits: set<Edit>, e: Edit)
    requires Applicable(source, edits + {e}) && Applicable(source, edits)
    requires forall f | f in edits :: e.span.end <= f.span.start
    requires e.span.start < e.span.end <= |source|
    ensures e.span.end <= |Spliced(source, edits, 0)|
    ensures Splice(Spliced(source, edits, 0), e.span, e.replacement)
            == Spliced(source, edits + {e}, 0)
  {
    var all, start, end := edits + {e}, e.span.start, e.span.end;
    var rest := Spliced(source, edits, end);
    KeepUntilEdit(source, edits, 0, end);
    KeepUntilEdit(source, all, 0, start);
    assert StartsAt(all, e, start);
    assert forall f | StartsAt(all, f, start) :: f == e;
    OnlyLaterEdits(source, edits, e, end);
    assert Spliced(source, all, start) == e.replacement + rest;
    var current := source[0..end] + rest;
    hide Spliced;
    assert current[..start] == source[0..start] && current[end..] == rest;
    Assoc(source[0..start], e.replacement, rest);
  }

  // ---- sorting by descending start ----

  ghost predicate Descending(edits: seq<Edit>) {
    forall j, k | 0 <= j < k < |edits| :: edits[j].span.start >= edits[k].span.start
  }

  function Insert(e: Edit, sorted: seq<Edit>): (r: seq<Edit>)
    ensures multiset(r) == multiset{e} + multiset(sorted)
  {
    if sorted == [] || e.span.start >= sorted[0].span.start then [e] + sorted
    else
      assert sorted == [sorted[0]] + sorted[1..];
      [sorted[0]] + Insert(e, sorted[1..])
  }

  lemma {:induction false} InsertHolds(e: Edit, sorted: seq<Edit>)
    ensures forall k | 0 <= k < |Insert(e, sorted)| :: Insert(e, sorted)[k] == e || Insert(e, sorted)[k] in sorted
  {
    if sorted != [] && e.span.start < sorted[0].span.start { InsertHolds(e, sorted[1..]); }
  }

  lemma {:induction false} InsertKeepsOrder(e: Edit, sorted: seq<Edit>)
    requires Descending(sorted)
    ensures Descending(Insert(e, sorted))
  {
    if sorted != [] && e.span.start < sorted[0].span.start {
      InsertKeepsOrder(e, sorted[1..]);
      InsertHolds(e, sorted[1..]);
    }
  }

  /** `sort_by_key(Reverse(start))`. */
  function SortDescending(edits: seq<Edit>): (r: seq<Edit>)
    ensures multiset(r) == multiset(edits)
  {
    if edits == [] then []
    else
      assert edits == [edits[0]] + edits[1..];
      Insert(edits[0], SortDescending(edits[1..]))
  }

  lemma {:induction false} SortOrders(edits: seq<Edit>)
    ensures Descending(SortDescending(edits))
  {
    if edits != [] {
      SortOrders(edits[1..]);
      InsertKeepsOrder(edits[0], SortDescending(edits[1..]));
    }
  }

  ghost predicate Distinct(edits: seq<Edit>) {
    forall j, k | 0 <= j < k < |edits| :: edits[j] != edits[k]
  }

  lemma {:induction false} SameMembers(a: seq<Edit>, b: seq<Edit>)
    requires multiset(a) == multiset(b)
    ensures SetOf(a) == SetOf(b)
  {
    forall e ensures e in a <==> e in b {
      assert e in a <==> e in multiset(a);
      assert e in b <==> e in multiset(b);
    }
  }

  lemma {:induction false} DistinctCounts(a: seq<Edit>)
    ensures |SetOf(a)| <= |a|
    ensures Distinct(a) <==> |SetOf(a)| == |a|
  {
    if a != [] {
      var rest := a[1..];
      DistinctCounts(rest);
      assert SetOf(a) == SetOf(rest) + {a[0]};
      if Distinct(rest) && a[0] !in rest {
        assert Distinct(a);
      }
      if a[0] in rest {
        var k :| 0 <= k < |rest| && rest[k] == a[0];
        assert a[k + 1] == a[0];
        assert SetOf(a) == SetOf(rest);
      }
    }
  }

  lemma {:induction false} SameDistinct(a: seq<Edit>, b: seq<Edit>)
    requires multiset(a) == multiset(b) && Distinct(a)
    ensures Distinct(b)
  {
    SameMembers(a, b);
    DistinctCounts(a);
    DistinctCounts(b);
    assert |a| == |multiset(a)| && |b| == |multiset(b)|;
  }

  // ---- back to front ----

  lemma {:induction false} NoEdits(source: string)
    ensures SetOf([]) == {} && Applicable(source, {}) && Spliced(source, {}, 0) == source
  {
    KeepUntilEdit(source, {}, 0, |source|);
    assert Spliced(source, {}, |source|) == [];
    assert source[0..|source|] == source;
  }

  lemma {:induction false} NextEdit(source: string, sorted: seq<Edit>, n: nat)
    requires Distinct(sorted) && Descending(sorted) && n < |sorted|
    requires Applicable(source, SetOf(sorted))
    ensures Applicable(source, SetOf(sorted[..n])) && Applicable(source, SetOf(sorted[..n + 1]))
    ensures sorted[n].span.start <= sorted[n].span.end <= |Spliced(source, SetOf(sorted[..n]), 0)|
    ensures Splice(Spliced(source, SetOf(sorted[..n]), 0), sorted[n].span, sorted[n].replacement)
            == Spliced(source, SetOf(sorted[..n + 1]), 0)
  {
    hide Spliced, Splice;
    var e, done := sorted[n], SetOf(sorted[..n]);
    assert e in SetOf(sorted) && done <= SetOf(sorted);
    assert SetOf(sorted[..n + 1]) == done + {e};
    forall f | f in done ensures e.span.end <= f.span.start {
      var k :| 0 <= k < n && sorted[k] == f;
    }
    SpliceInFront(source, done, e);
  }

  /** Whatever order the edits were collected in, applying them one by one
      from the back is the simultaneous splice. */
  method ApplyEdits(source: string, edits: seq<Edit>) returns (current: string)
    requires Distinct(edits) && Applicable(source, SetOf(edits))
    ensures current == Spliced(source, SetOf(edits), 0)
  {
    hide Spliced, SortDescending, Splice, SetOf, Distinct, Descending, Applicable;
    current := source;
    NoEdits(source);
    if edits == [] {
      return;
    }
    var sorted := SortDescending(edits);
    SameMembers(edits, sorted);
    SameDistinct(edits, sorted);
    SortOrders(edits);
    assert sorted[..0] == [];
    for n := 0 to |sorted|
      invariant Applicable(source, SetOf(sorted[..n]))
      invariant current == Spliced(source, SetOf(sorted[..n]), 0)
    {
      var e := sorted[n];
      NextEdit(source, sorted, n);
      current := Splice(current, e.span, e.replacement);
    }
    assert sorted[..|sorted|] == sorted;
  }
}
