/** The order of a `BTreeSet` of paths, and walking a set in that order. */
module PathOrder {

  predicate Less(a: string, b: string) {
    b != [] && (a == [] || a[0] < b[0] || (a[0] == b[0] && Less(a[1..], b[1..])))
  }

  /** They agree up to `k`, where one ends or has the lesser character. */
  ghost predicate FirstDifference(a: string, b: string, k: nat) {
    k <= |a| && k < |b| && a[..k] == b[..k] && (k == |a| || a[k] < b[k])
  }

  /** At the first place where two paths differ, the one that ends there or has
      the lesser character comes first. */
  lemma {:induction false} LessIsLexicographic(a: string, b: string)
    ensures Less(a, b)
            <==> exists k: nat :: FirstDifference(a, b, k)
  {
    forall k: nat ensures FirstDifference(a, b, k) <==> (if k == 0 then
                            b != [] && (a == [] || a[0] < b[0])
                          else a != [] && b != [] && a[0] == b[0] && FirstDifference(a[1..], b[1..], k - 1)) {
      DifferenceStep(a, b, k);
    }
    if a != [] && b != [] {
      LessIsLexicographic(a[1..], b[1..]);
      hide FirstDifference;
      if k: nat :| FirstDifference(a[1..], b[1..], k) { assert a[0] == b[0] ==> FirstDifference(a, b, k + 1); }
      assert a[0] < b[0] ==> FirstDifference(a, b, 0);
    } else {
      assert FirstDifference(a, b, 0) <==> a == [] && b != [];
    }
  }

  lemma {:induction false} DifferenceStep(a: string, b: string, k: nat)
    ensures FirstDifference(a, b, k)
            <==> if k == 0 then b != [] && (a == [] || a[0] < b[0])
                 else a != [] && b != [] && a[0] == b[0] && FirstDifference(a[1..], b[1..], k - 1)
  {
    if 0 < k <= |a| && k < |b| {
      assert a[..k] == [a[0]] + a[1..][..k - 1] && b[..k] == [b[0]] + b[1..][..k - 1];
      assert k < |a| ==> a[k] == a[1..][k - 1];
      assert b[k] == b[1..][k - 1];
      assert a[..k][0] == a[0] && b[..k][0] == b[0];
      assert a[..k][1..] == a[1..][..k - 1] && b[..k][1..] == b[1..][..k - 1];
    }
  }

  lemma {:induction false} LessIsTotal(a: string, b: string)
    ensures a == b || Less(a, b) || Less(b, a)
  {
    if a != [] && b != [] && a[0] == b[0] {
      LessIsTotal(a[1..], b[1..]);
      if a[1..] == b[1..] { assert a == [a[0]] + a[1..] == b; }
    }
  }

  lemma {:induction false} LessIsTransitive(a: string, b: string, c: string)
    requires Less(a, b) && Less(b, c)
    ensures Less(a, c)
  {
    if a != [] && a[0] == b[0] && b[0] == c[0] {
      LessIsTransitive(a[1..], b[1..], c[1..]);
    }
  }

  lemma {:induction false} LessIsStrict(a: string, b: string)
    requires Less(a, b)
    ensures a != b && !Less(b, a)
  {
    if a != [] && a[0] == b[0] {
      LessIsStrict(a[1..], b[1..]);
    }
  }

  predicate IsLeast(p: string, s: set<string>) {
    p in s && forall q | q in s :: q == p || Less(p, q)
  }

  lemma {:induction false} LeastExists(s: set<string>) returns (p: string)
    requires s != {}
    ensures IsLeast(p, s)
    decreases |s|
  {
    p :| p in s;
    var rest := s - {p};
    if rest != {} {
      var q := LeastExists(rest);
      LessIsTotal(p, q);
      if Less(q, p) {
        p := q;
      } else {
        forall r | r in rest && r != q ensures Less(p, r) { LessIsTransitive(p, q, r); }
      }
    }
  }

  lemma {:induction false} LeastIsUnique(p: string, q: string, s: set<string>)
    requires IsLeast(p, s) && IsLeast(q, s)
    ensures p == q
  {
    if p != q { LessIsStrict(p, q); }
  }

  function Least(s: set<string>): (p: string)
    requires s != {}
    ensures IsLeast(p, s)
  {
    assert exists p :: IsLeast(p, s) by { var p := LeastExists(s); }
    assert forall p, q | IsLeast(p, s) && IsLeast(q, s) :: p == q by {
      forall p, q | IsLeast(p, s) && IsLeast(q, s) ensures p == q { LeastIsUnique(p, q, s); }
    }
    var p :| p in s && IsLeast(p, s);
    p
  }

  predicate Ascending(xs: seq<string>) {
    forall i, j | 0 <= i < j < |xs| :: Less(xs[i], xs[j])
  }

  /** The elements in ascending order, each once. */
  function Sorted(s: set<string>): (r: seq<string>)
    ensures Ascending(r) && |r| == |s| && forall p :: p in r <==> p in s
    decreases |s|
  {
    if s == {} then []
    else
      var p := Least(s);
      var rest := Sorted(s - {p});
      assert forall i | 0 <= i < |rest| :: rest[i] in s - {p};
      [p] + rest
  }

  /** Ascending sequences are determined by their elements. */
  lemma {:induction false} AscendingIsUnique(a: seq<string>, b: seq<string>)
    requires Ascending(a) && Ascending(b) && forall p :: p in a <==> p in b
    ensures a == b
  {
    assert (a != [] ==> a[0] in a) && (b != [] ==> b[0] in b);
    if a != [] && b != [] {
      SameHead(a, b);
      forall p ensures p in a[1..] <==> p in b[1..] {
        HeadNotInTail(a);
        HeadNotInTail(b);
        assert p in a <==> p == a[0] || p in a[1..];
        assert p in b <==> p == b[0] || p in b[1..];
      }
      AscendingIsUnique(a[1..], b[1..]);
      assert a == [a[0]] + a[1..] && b == [b[0]] + b[1..];
    }
  }

  lemma {:induction false} HeadNotInTail(a: seq<string>)
    requires Ascending(a) && a != []
    ensures a[0] !in a[1..]
  {
    forall i | 0 <= i < |a[1..]| ensures a[1..][i] != a[0] {
      LessIsStrict(a[0], a[i + 1]);
    }
  }

  lemma {:induction false} SameHead(a: seq<string>, b: seq<string>)
    requires Ascending(a) && Ascending(b) && a != [] && b != []
    requires forall p :: p in a <==> p in b
    ensures a[0] == b[0]
  {
    assert a[0] in b && b[0] in a;
    var i :| 0 <= i < |b| && b[i] == a[0];
    var j :| 0 <= j < |a| && a[j] == b[0];
    if i > 0 && j > 0 {
      LessIsStrict(b[0], a[0]);
    }
  }
}
