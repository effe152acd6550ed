/** Where the findings of a schema comparison come from, read off the two trees
    themselves. */
module SchemaFindings {
  import opened Text
  import opened Json
  import opened SchemaCompatibility

  /** One step down in both trees: a key they share, or an index in both. */
  ghost predicate Below(a: Value, b: Value, step: string, x: Value, y: Value) {
    (a.Obj? && b.Obj? && step in a.fields && step in b.fields && x == a.fields[step] && y == b.fields[step])
    || (a.Arr? && b.Arr?
        && exists i | 0 <= i < |a.items| && i < |b.items| ::
             step == Decimal(i) && x == a.items[i] && y == b.items[i])
  }

  /** The same way down both trees ends at `x` and `y`. */
  ghost predicate Leads(a: Value, b: Value, way: seq<string>, x: Value, y: Value)
    decreases |way|, 0
  {
    if way == [] then x == a && y == b else LeadsOn(a, b, way[0], way[1..], x, y)
  }

  ghost predicate LeadsOn(a: Value, b: Value, step: string, rest: seq<string>, x: Value, y: Value)
    decreases |rest|, 1
  {
    exists u, v :: Below(a, b, step, u, v) && Leads(u, v, rest, x, y)
  }

  ghost predicate TypeIs(v: Value, name: string) {
    v.Obj? && "type" in v.fields && v.fields["type"] == Str(name)
  }

  ghost predicate Allows(v: Value, value: Value) {
    v.Obj? && "enum" in v.fields && v.fields["enum"].Arr? && value in v.fields["enum"].items
  }

  /** What two nodes tell: they have two types, the old one named first, or an
      `enum` lost a value. */
  ghost predicate NodeTells(x: Value, y: Value, f: Finding) {
    match f
    case NarrowedType(_, _, before, after) => before != after && TypeIs(x, before) && TypeIs(y, after)
    case RemovedEnumValue(_, _, value) => Allows(x, value) && !Allows(y, value)
    case _ => false
  }

  ghost predicate IsAt(f: Finding, op: string, root: seq<string>) {
    (f.NarrowedType? || f.RemovedEnumValue?) && f.op == op && root <= f.pointer
  }

  /** The finding is about two nodes below the same way down from `root`. */
  ghost predicate NodesTell(op: string, root: seq<string>, a: Value, b: Value, f: Finding) {
    IsAt(f, op, root) && exists x, y :: Leads(a, b, f.pointer[|root|..], x, y) && NodeTells(x, y, f)
  }

  lemma {:induction false} OwnBreaks(op: string, root: seq<string>, a: Value, b: Value, f: Finding)
    ensures f in TypeBreaks(op, root, a, b) + EnumBreaks(op, root, a, b)
            <==> IsAt(f, op, root) && f.pointer == root && NodeTells(a, b, f)
  {
  }

  lemma {:induction false} LeadsStep(a: Value, b: Value, way: seq<string>, x: Value, y: Value)
    requires way != []
    ensures Leads(a, b, way, x, y) <==> LeadsOn(a, b, way[0], way[1..], x, y)
  {
    hide LeadsOn;
  }

  lemma {:induction false} LeadsBy(a: Value, b: Value, step: string, u: Value, v: Value, rest: seq<string>,
                                   x: Value, y: Value)
    requires Below(a, b, step, u, v) && Leads(u, v, rest, x, y)
    ensures LeadsOn(a, b, step, rest, x, y)
  {
    hide Leads, Below;
  }

  lemma {:induction false} LeadsOver(a: Value, b: Value, step: string, rest: seq<string>, x: Value, y: Value)
    returns (u: Value, v: Value)
    requires LeadsOn(a, b, step, rest, x, y)
    ensures Below(a, b, step, u, v) && Leads(u, v, rest, x, y)
  {
    hide Leads, Below;
    u, v :| Below(a, b, step, u, v) && Leads(u, v, rest, x, y);
  }

  lemma {:induction false} OneStepOn(op: string, root: seq<string>, step: string, f: Finding)
    requires IsAt(f, op, root + [step])
    ensures IsAt(f, op, root) && f.pointer[|root|..] != []
    ensures f.pointer[|root|..][0] == step && f.pointer[|root|..][1..] == f.pointer[|root + [step]|..]
  {
    assert f.pointer[..|root|] == (root + [step])[..|root|];
    assert f.pointer[|root|] == (root + [step])[|root|];
  }

  lemma {:induction false} FirstStep(op: string, root: seq<string>, f: Finding)
    requires IsAt(f, op, root) && f.pointer != root
    ensures f.pointer[|root|..] != [] && IsAt(f, op, root + [f.pointer[|root|..][0]])
  {
    assert f.pointer == root + f.pointer[|root|..];
  }

  /** A finding is at the root, or below one step. */
  lemma {:induction false} TellsBelow(op: string, root: seq<string>, a: Value, b: Value, f: Finding)
    ensures NodesTell(op, root, a, b, f)
            <==> (IsAt(f, op, root) && f.pointer == root && NodeTells(a, b, f))
                 || exists step, u, v :: Below(a, b, step, u, v) && NodesTell(op, root + [step], u, v, f)
  {
    hide Below, NodeTells, Leads, LeadsOn;
    AtRoot(a, b);
    if NodesTell(op, root, a, b, f) && f.pointer != root {
      FirstStep(op, root, f);
      var way := f.pointer[|root|..];
      var x, y :| Leads(a, b, way, x, y) && NodeTells(x, y, f);
      LeadsStep(a, b, way, x, y);
      var u, v := LeadsOver(a, b, way[0], way[1..], x, y);
      OneStepOn(op, root, way[0], f);
      assert NodesTell(op, root + [way[0]], u, v, f);
    }
    forall step, u, v | Below(a, b, step, u, v) && NodesTell(op, root + [step], u, v, f)
      ensures NodesTell(op, root, a, b, f)
    {
      OneStepOn(op, root, step, f);
      var x, y :| Leads(u, v, f.pointer[|root + [step]|..], x, y) && NodeTells(x, y, f);
      LeadsStep(a, b, f.pointer[|root|..], x, y);
      LeadsBy(a, b, step, u, v, f.pointer[|root + [step]|..], x, y);
    }
    if IsAt(f, op, root) && f.pointer == root { assert f.pointer[|root|..] == []; }
  }

  lemma {:induction false} AtRoot(a: Value, b: Value)
    ensures forall x, y :: Leads(a, b, [], x, y) <==> x == a && y == b
  {
  }

  lemma {:induction false} BreaksBelow(op: string, root: seq<string>, a: Value, b: Value, f: Finding)
    ensures f in SchemaBreaks(op, root, a, b)
            <==> f in TypeBreaks(op, root, a, b) + EnumBreaks(op, root, a, b)
                 || exists step, u, v :: Below(a, b, step, u, v) && f in SchemaBreaks(op, root + [step], u, v)
  {
    hide TypeBreaks, EnumBreaks, Decimal;
    if a.Obj? && b.Obj? {
      forall k | k in a.fields && k in b.fields && f in SchemaBreaks(op, root + [k], a.fields[k], b.fields[k])
        ensures exists step, u, v :: Below(a, b, step, u, v) && f in SchemaBreaks(op, root + [step], u, v)
      {
        assert Below(a, b, k, a.fields[k], b.fields[k]);
      }
    } else if a.Arr? && b.Arr? {
      forall i | 0 <= i < Shorter(a.items, b.items)
                 && f in SchemaBreaks(op, root + [Decimal(i)], a.items[i], b.items[i])
        ensures exists step, u, v :: Below(a, b, step, u, v) && f in SchemaBreaks(op, root + [step], u, v)
      {
        assert Below(a, b, Decimal(i), a.items[i], b.items[i]);
      }
    }
  }

  /** The comparison finds exactly what the nodes of the two trees tell. */
  lemma {:induction false} FindsExactly(op: string, root: seq<string>, a: Value, b: Value, f: Finding)
    ensures f in SchemaBreaks(op, root, a, b) <==> NodesTell(op, root, a, b, f)
    decreases a
  {
    hide SchemaBreaks, NodesTell, NodeTells, IsAt, Below, TypeBreaks, EnumBreaks, Decimal;
    OwnBreaks(op, root, a, b, f);
    TellsBelow(op, root, a, b, f);
    BreaksBelow(op, root, a, b, f);
    forall step, u, v | Below(a, b, step, u, v)
      ensures f in SchemaBreaks(op, root + [step], u, v) <==> NodesTell(op, root + [step], u, v, f)
    {
      StepIsSmaller(a, b, step, u, v);
      FindsExactly(op, root + [step], u, v, f);
    }
  }

  lemma {:induction false} StepIsSmaller(a: Value, b: Value, step: string, u: Value, v: Value)
    requires Below(a, b, step, u, v)
    ensures u < a
  {
  }
}
