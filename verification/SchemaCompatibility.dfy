/** The recursive schema comparison of the contract checker, and exactly when
    two clean comparisons in a row make a third one clean. */
module SchemaCompatibility {
  import opened Text
  import opened Json

  datatype Finding =
    | RemovedOperation(op: string)
    | RemovedResponse(status: string, op: string)
    | NewlyRequiredInput(parameter: string, op: string)
    | NewlyRequiredBody(op: string)
    | StricterSecurity(op: string)
    | NarrowedType(op: string, pointer: seq<string>, before: string, after: string)
    | RemovedEnumValue(op: string, pointer: seq<string>, value: Value)

  // ---- what compare_schema reports ----

  function TypeBreaks(op: string, pointer: seq<string>, a: Value, b: Value): set<Finding> {
    match (StrAt(a, "type"), StrAt(b, "type"))
    case (Some(before), Some(after)) =>
      if before != after then {NarrowedType(op, pointer, before, after)} else {}
    case _ => {}
  }

  predicate EnumHas(b: Value, v: Value) {
    ArrAt(b, "enum").Some? && v in ArrAt(b, "enum").value
  }

  function EnumBreaks(op: string, pointer: seq<string>, a: Value, b: Value): set<Finding> {
    match ArrAt(a, "enum")
    case None => {}
    case Some(values) =>
      set v | v in values && !EnumHas(b, v) :: RemovedEnumValue(op, pointer, v)
  }

  /** Where zipping two arrays stops. */
  function Shorter(a: seq<Value>, b: seq<Value>): (n: nat)
    ensures n <= |a| && n <= |b| && (n == |a| || n == |b|)
  {
    if |a| < |b| then |a| else |b|
  }

  ghost function SchemaBreaks(op: string, pointer: seq<string>, a: Value, b: Value): set<Finding>
    decreases a, 1
  {
    TypeBreaks(op, pointer, a, b) + EnumBreaks(op, pointer, a, b)
    + (if a.Obj? && b.Obj? then KeyBreaks(op, pointer, a, b, a.fields.Keys)
       else if a.Arr? && b.Arr? then ItemBreaks(op, pointer, a, b, Shorter(a.items, b.items))
       else {})
  }

  ghost function KeyBreaks(op: string, pointer: seq<string>, a: Value, b: Value, keys: set<string>): set<Finding>
    requires a.Obj? && b.Obj? && keys <= a.fields.Keys
    decreases a, 0
  {
    set k, f | k in keys && k in b.fields && f in SchemaBreaks(op, pointer + [k], a.fields[k], b.fields[k]) :: f
  }

  ghost function ItemBreaks(op: string, pointer: seq<string>, a: Value, b: Value, n: nat): set<Finding>
    requires a.Arr? && b.Arr? && n <= |a.items| && n <= |b.items|
    decreases a, 0
  {
    set i, f | 0 <= i < n && f in SchemaBreaks(op, pointer + [Decimal(i)], a.items[i], b.items[i]) :: f
  }

  lemma {:induction false} NextKey(op: string, pointer: seq<string>, a: Value, b: Value, keys: set<string>, key: string)
    requires a.Obj? && b.Obj? && keys <= a.fields.Keys && key in a.fields
    ensures KeyBreaks(op, pointer, a, b, keys + {key})
            == KeyBreaks(op, pointer, a, b, keys)
               + (if key in b.fields then SchemaBreaks(op, pointer + [key], a.fields[key], b.fields[key]) else {})
  {
    hide SchemaBreaks;
  }

  lemma {:induction false} NextItem(op: string, pointer: seq<string>, a: Value, b: Value, n: nat)
    requires a.Arr? && b.Arr? && n < |a.items| && n < |b.items|
    ensures ItemBreaks(op, pointer, a, b, n + 1)
            == ItemBreaks(op, pointer, a, b, n) + SchemaBreaks(op, pointer + [Decimal(n)], a.items[n], b.items[n])
  {
    hide SchemaBreaks, Decimal;
    forall f | f in SchemaBreaks(op, pointer + [Decimal(n)], a.items[n], b.items[n])
      ensures f in ItemBreaks(op, pointer, a, b, n + 1)
    {
    }
  }

  method CompareSchema(op: string, pointer: seq<string>, a: Value, b: Value, findings: set<Finding>)
    returns (r: set<Finding>)
    ensures r == findings + SchemaBreaks(op, pointer, a, b)
    decreases a
  {
    r := findings + TypeBreaks(op, pointer, a, b);
    r := r + EnumBreaks(op, pointer, a, b);
    ghost var own := r;
    if a.Obj? && b.Obj? {
      var keys := a.fields.Keys;
      while keys != {}
        invariant keys <= a.fields.Keys
        invariant r == own + KeyBreaks(op, pointer, a, b, a.fields.Keys - keys)
      {
        var key :| key in keys;
        if key in b.fields {
          r := CompareSchema(op, pointer + [key], a.fields[key], b.fields[key], r);
        }
        NextKey(op, pointer, a, b, a.fields.Keys - keys, key);
        assert a.fields.Keys - (keys - {key}) == (a.fields.Keys - keys) + {key};
        keys := keys - {key};
      }
      assert a.fields.Keys - {} == a.fields.Keys;
    } else if a.Arr? && b.Arr? {
      for i := 0 to Shorter(a.items, b.items)
        invariant r == own + ItemBreaks(op, pointer, a, b, i)
      {
        NextItem(op, pointer, a, b, i);
        r := CompareSchema(op, pointer + [Decimal(i)], a.items[i], b.items[i], r);
      }
    }
  }

  // ---- clean comparisons ----

  predicate TypeOk(a: Value, b: Value) {
    StrAt(a, "type").Some? && StrAt(b, "type").Some? ==> StrAt(a, "type") == StrAt(b, "type")
  }

  predicate EnumOk(a: Value, b: Value) {
    ArrAt(a, "enum").Some? ==> forall v | v in ArrAt(a, "enum").value :: EnumHas(b, v)
  }

  /** Nothing to report at this node or below. */
  ghost predicate Clean(a: Value, b: Value)
    decreases a
  {
    TypeOk(a, b) && EnumOk(a, b)
    && (a.Obj? && b.Obj? ==>
          forall k | k in a.fields && k in b.fields :: Clean(a.fields[k], b.fields[k]))
    && (a.Arr? && b.Arr? ==>
          forall i | 0 <= i < Shorter(a.items, b.items) :: Clean(a.items[i], b.items[i]))
  }

  /** The walk reports nothing exactly when the comparison is clean. */
  lemma {:induction false} CleanIffNoBreaks(op: string, pointer: seq<string>, a: Value, b: Value)
    ensures Clean(a, b) <==> SchemaBreaks(op, pointer, a, b) == {}
    decreases a
  {
    EnumOkIffNoBreaks(op, pointer, a, b);
    hide EnumOk, EnumBreaks, Decimal;
    if a.Obj? && b.Obj? {
      forall k | k in a.fields && k in b.fields
        ensures Clean(a.fields[k], b.fields[k])
                <==> SchemaBreaks(op, pointer + [k], a.fields[k], b.fields[k]) == {}
      {
        CleanIffNoBreaks(op, pointer + [k], a.fields[k], b.fields[k]);
      }
      KeyBreaksEmpty(op, pointer, a, b);
    } else if a.Arr? && b.Arr? {
      forall i | 0 <= i < Shorter(a.items, b.items)
        ensures Clean(a.items[i], b.items[i])
                <==> SchemaBreaks(op, pointer + [Decimal(i)], a.items[i], b.items[i]) == {}
      {
        CleanIffNoBreaks(op, pointer + [Decimal(i)], a.items[i], b.items[i]);
      }
      ItemBreaksEmpty(op, pointer, a, b);
    }
  }

  lemma {:induction false} EnumOkIffNoBreaks(op: string, pointer: seq<string>, a: Value, b: Value)
    ensures EnumOk(a, b) <==> EnumBreaks(op, pointer, a, b) == {}
  {
    if !EnumOk(a, b) {
      var v :| v in ArrAt(a, "enum").value && !EnumHas(b, v);
      assert RemovedEnumValue(op, pointer, v) in EnumBreaks(op, pointer, a, b);
    }
  }

  lemma {:induction false} KeyBreaksEmpty(op: string, pointer: seq<string>, a: Value, b: Value)
    requires a.Obj? && b.Obj?
    ensures KeyBreaks(op, pointer, a, b, a.fields.Keys) == {}
            <==> forall k | k in a.fields && k in b.fields ::
                   SchemaBreaks(op, pointer + [k], a.fields[k], b.fields[k]) == {}
  {
    hide SchemaBreaks;
    forall k | k in a.fields && k in b.fields
               && SchemaBreaks(op, pointer + [k], a.fields[k], b.fields[k]) != {}
      ensures KeyBreaks(op, pointer, a, b, a.fields.Keys) != {}
    {
      var f :| f in SchemaBreaks(op, pointer + [k], a.fields[k], b.fields[k]);
      assert f in KeyBreaks(op, pointer, a, b, a.fields.Keys);
    }
  }

  lemma {:induction false} ItemBreaksEmpty(op: string, pointer: seq<string>, a: Value, b: Value)
    requires a.Arr? && b.Arr?
    ensures ItemBreaks(op, pointer, a, b, Shorter(a.items, b.items)) == {}
            <==> forall i | 0 <= i < Shorter(a.items, b.items) ::
                   SchemaBreaks(op, pointer + [Decimal(i)], a.items[i], b.items[i]) == {}
  {
    hide SchemaBreaks, Decimal;
    forall i | 0 <= i < Shorter(a.items, b.items)
               && SchemaBreaks(op, pointer + [Decimal(i)], a.items[i], b.items[i]) != {}
      ensures ItemBreaks(op, pointer, a, b, Shorter(a.items, b.items)) != {}
    {
      var f :| f in SchemaBreaks(op, pointer + [Decimal(i)], a.items[i], b.items[i]);
      assert f in ItemBreaks(op, pointer, a, b, Shorter(a.items, b.items));
    }
  }

  lemma {:induction false} CleanReflexive(a: Value)
    ensures Clean(a, a)
    decreases a
  {
    if a.Obj? {
      forall k | k in a.fields ensures Clean(a.fields[k], a.fields[k]) {
        CleanReflexive(a.fields[k]);
      }
    } else if a.Arr? {
      forall i | 0 <= i < |a.items| ensures Clean(a.items[i], a.items[i]) {
        CleanReflexive(a.items[i]);
      }
    }
  }

  // ---- what a value is sensitive to ----

  /** Carries a non-empty `enum` array, so only an object with one is clean
      against it. */
  predicate Strict(v: Value) {
    ArrAt(v, "enum").Some? && ArrAt(v, "enum").value != []
  }

  /** No later document can break it: no string `type` and no non-empty `enum`
      at any depth. */
  ghost predicate Inert(v: Value)
    decreases v
  {
    StrAt(v, "type").None? && !Strict(v)
    && (v.Obj? ==> forall k | k in v.fields :: Inert(v.fields[k]))
    && (v.Arr? ==> forall i | 0 <= i < |v.items| :: Inert(v.items[i]))
  }

  lemma {:induction false} InertIsClean(a: Value, c: Value)
    requires Inert(a)
    ensures Clean(a, c)
    decreases a
  {
    if a.Obj? && c.Obj? {
      forall k | k in a.fields && k in c.fields ensures Clean(a.fields[k], c.fields[k]) {
        InertIsClean(a.fields[k], c.fields[k]);
      }
    } else if a.Arr? && c.Arr? {
      forall i | 0 <= i < Shorter(a.items, c.items) ensures Clean(a.items[i], c.items[i]) {
        InertIsClean(a.items[i], c.items[i]);
      }
    }
  }

  /** Every scalar of `c`, but for a `type`, is one that `b` has under the same
      key. */
  predicate OnlyGrows(b: Value, c: Value) {
    c.Obj? ==>
      forall k | k in c.fields ::
        k == "type" || c.fields[k].Obj? || c.fields[k].Arr? || Get(b, k) == Some(c.fields[k])
  }

  /** Item by item, as far as `b` has items. */
  predicate ItemsOnlyGrow(b: Value, c: Value) {
    c.Arr? ==>
      forall j | 0 <= j < |c.items| ::
        OnlyGrows(if b.Arr? && j < |b.items| then b.items[j] else Null, c.items[j])
  }

  predicate KeepsKeys(b: Value, c: Value) {
    b.Obj? && c.Obj? ==> b.fields.Keys <= c.fields.Keys
  }

  /** A value that breaks `a`, of the same kind as `a`. */
  ghost function Foil(a: Value): (c: Value)
    requires !Inert(a)
    ensures !Clean(a, c) && (a.Obj? ==> c.Obj?) && (a.Arr? ==> c.Arr?) && (a.Obj? || a.Arr?)
    ensures OnlyGrows(Null, c) && ItemsOnlyGrow(Null, c)
    decreases a
  {
    if StrAt(a, "type").Some? then
      var c := Obj(map["type" := Str(StrAt(a, "type").value + "x")]);
      assert StrAt(c, "type").value[|StrAt(a, "type").value|] == 'x';
      c
    else if Strict(a) then
      assert !EnumHas(Obj(map[]), ArrAt(a, "enum").value[0]);
      Obj(map[])
    else if k: string :| a.Obj? && k in a.fields && !Inert(a.fields[k]) then
      var c := Obj(map[k := Foil(a.fields[k])]);
      assert k in c.fields && !Clean(a.fields[k], c.fields[k]);
      c
    else
      assert a.Arr?;
      var i: nat :| i < |a.items| && !Inert(a.items[i]);
      var c := Arr(seq(i, _ => Null) + [Foil(a.items[i])]);
      assert c.items[i] == Foil(a.items[i]) && i < Shorter(a.items, c.items);
      c
  }

  // ---- composing two clean comparisons ----

  /** What `b` must keep of `a` for every later document that is clean against
      `b` to be clean against `a`. A part of `a` that nothing can break may be
      dropped; where `b` holds a strict object, nothing of another kind can
      follow it. */
  ghost predicate Covers(a: Value, b: Value)
    decreases a, 0
  {
    match a
    case Obj(fields) =>
      if b.Obj? then
        (StrAt(a, "type").Some? ==>
           StrAt(b, "type").Some? || (Get(b, "type").Some? && Strict(Get(b, "type").value)))
        && forall k | k in fields :: KeyCovers(fields[k], b, k)
      else Inert(a)
    case Arr(items) =>
      if b.Arr? then
        forall i | 0 <= i < |items| :: if i < |b.items| then Covers(items[i], b.items[i]) else Inert(items[i])
      else Strict(b) || Inert(a)
    case _ => true
  }

  ghost predicate KeyCovers(child: Value, b: Value, k: string)
    requires b.Obj?
    decreases child, 1
  {
    if k !in b.fields then Inert(child)
    else (k == "enum" && Strict(b) && !child.Arr?) || Covers(child, b.fields[k])
  }

  lemma {:induction false} StrictMeets(a: Value, c: Value)
    requires Clean(a, c) && Strict(a)
    ensures Strict(c) && c.Obj?
  {
    assert ArrAt(a, "enum").value[0] in ArrAt(a, "enum").value;
    assert EnumHas(c, ArrAt(a, "enum").value[0]);
  }

  /** Two clean comparisons make a third, when the middle document covers the
      first. */
  lemma {:induction false} Composes(a: Value, b: Value, c: Value)
    requires Clean(a, b) && Clean(b, c) && Covers(a, b)
    ensures Clean(a, c)
    decreases a
  {
    if a.Obj? {
      if !b.Obj? {
        InertIsClean(a, c);
      } else if c.Obj? {
        NodeComposes(a, b, c);
        forall k | k in a.fields && k in c.fields ensures Clean(a.fields[k], c.fields[k]) {
          assert KeyCovers(a.fields[k], b, k);
          if k !in b.fields {
            InertIsClean(a.fields[k], c.fields[k]);
          } else if k == "enum" && Strict(b) && !a.fields[k].Arr? {
            EnumSlotComposes(a, b, c);
          } else {
            Composes(a.fields[k], b.fields[k], c.fields[k]);
          }
        }
      } else {
        NodeComposes(a, b, c);
      }
    } else if a.Arr? && c.Arr? {
      if b.Arr? {
        forall i | 0 <= i < Shorter(a.items, c.items) ensures Clean(a.items[i], c.items[i]) {
          if i < |b.items| {
            assert i < Shorter(a.items, b.items) && i < Shorter(b.items, c.items);
            Composes(a.items[i], b.items[i], c.items[i]);
          } else {
            InertIsClean(a.items[i], c.items[i]);
          }
        }
      } else {
        if Strict(b) { StrictMeets(b, c); } else { InertIsClean(a, c); }
      }
    }
  }

  lemma {:induction false} NodeComposes(a: Value, b: Value, c: Value)
    requires a.Obj? && b.Obj? && Clean(a, b) && Clean(b, c) && Covers(a, b)
    ensures TypeOk(a, c) && EnumOk(a, c)
  {
    if StrAt(a, "type").Some? && StrAt(b, "type").None? && StrAt(c, "type").Some? {
      assert Clean(b.fields["type"], c.fields["type"]);
      StrictMeets(b.fields["type"], c.fields["type"]);
      assert false;
    }
    if Strict(a) {
      StrictMeets(a, b);
      StrictMeets(b, c);
    }
  }

  /** An `enum` that is not an array cannot break against the array that must
      follow. */
  lemma {:induction false} EnumSlotComposes(a: Value, b: Value, c: Value)
    requires a.Obj? && b.Obj? && c.Obj? && Clean(a, b) && Clean(b, c)
    requires Strict(b) && "enum" in a.fields && !a.fields["enum"].Arr?
    ensures Get(c, "enum").Some? && Clean(a.fields["enum"], Get(c, "enum").value)
  {
    StrictMeets(b, c);
    var inner, slot := a.fields["enum"], Get(c, "enum").value;
    assert Clean(inner, b.fields["enum"]);
    if Strict(inner) { StrictMeets(inner, b.fields["enum"]); }
    assert slot.Arr?;
  }

  // ---- the condition is exact ----

  /** A document that follows `b` cleanly and breaks `a`. */
  lemma {:induction false} Escapes(a: Value, b: Value) returns (c: Value)
    requires Clean(a, b) && !Covers(a, b)
    ensures Clean(b, c) && !Clean(a, c)
    ensures (a.Obj? ==> c.Obj?) && (a.Arr? ==> c.Arr?) && (a.Obj? || a.Arr?)
    ensures OnlyGrows(b, c) && ItemsOnlyGrow(b, c) && KeepsKeys(b, c)
    decreases a
  {
    if a.Obj? {
      if !b.Obj? {
        c := Foil(a);
        NothingToSay(b, c);
      } else {
        c := EscapeObject(a, b);
      }
    } else {
      assert a.Arr?;
      if b.Arr? {
        c := EscapeArray(a, b);
      } else {
        c := Foil(a);
        NothingToSay(b, c);
      }
    }
  }

  lemma {:induction false} NothingToSay(b: Value, c: Value)
    requires !Strict(b) || c.Obj?
    requires (b.Obj? && c.Arr? && !Strict(b)) || (!b.Obj? && c.Obj?) || (!b.Obj? && !b.Arr? && c.Arr?)
    ensures Clean(b, c)
  {
  }

  lemma {:induction false} EscapeArray(a: Value, b: Value) returns (c: Value)
    requires a.Arr? && b.Arr? && Clean(a, b) && !Covers(a, b)
    ensures Clean(b, c) && !Clean(a, c) && c.Arr? && ItemsOnlyGrow(b, c)
    decreases a, 0
  {
    var i: nat :| i < |a.items|
      && !(if i < |b.items| then Covers(a.items[i], b.items[i]) else Inert(a.items[i]));
    if i < |b.items| {
      assert i < Shorter(a.items, b.items);
      var w := Escapes(a.items[i], b.items[i]);
      c := Arr(b.items[i := w]);
    } else {
      c := Arr(b.items + seq(i - |b.items|, _ => Null) + [Foil(a.items[i])]);
      assert c.items[i] == Foil(a.items[i]);
    }
    assert i < Shorter(a.items, c.items) && !Clean(a.items[i], c.items[i]);
    forall j | 0 <= j < Shorter(b.items, c.items) ensures Clean(b.items[j], c.items[j]) {
      if c.items[j] == b.items[j] { CleanReflexive(b.items[j]); }
    }
    forall j | 0 <= j < |c.items|
      ensures OnlyGrows(if j < |b.items| then b.items[j] else Null, c.items[j])
    {
      if j < |b.items| && j != i { assert c.items[j] == b.items[j]; }
    }
  }

  lemma {:induction false} EscapeObject(a: Value, b: Value) returns (c: Value)
    requires a.Obj? && b.Obj? && Clean(a, b) && !Covers(a, b)
    ensures Clean(b, c) && !Clean(a, c) && c.Obj? && OnlyGrows(b, c) && KeepsKeys(b, c)
    decreases a, 1
  {
    if k :| k in a.fields && !KeyCovers(a.fields[k], b, k) {
      var w := EscapeKey(a, b, k);
      c := Obj(b.fields[k := w]);
    } else {
      var w := EscapeType(a, b);
      c := Obj(b.fields["type" := w]);
    }
  }

  /** What stood under a key before. */
  function Slot(b: Value, k: string): Value {
    match Get(b, k) case None => Null case Some(v) => v
  }

  /** One key of `b` changed or added. */
  lemma {:induction false} EscapeKey(a: Value, b: Value, k: string) returns (w: Value)
    requires a.Obj? && b.Obj? && Clean(a, b) && k in a.fields && !KeyCovers(a.fields[k], b, k)
    ensures
      var c := Obj(b.fields[k := w]);
      Clean(b, c) && !Clean(a, c) && OnlyGrows(b, c)
    ensures (a.fields[k].Obj? ==> w.Obj?) && (a.fields[k].Arr? ==> w.Arr?) && (a.fields[k].Obj? || a.fields[k].Arr?)
    ensures k != "enum" ==> OnlyGrows(Slot(b, k), w) && ItemsOnlyGrow(Slot(b, k), w) && KeepsKeys(Slot(b, k), w)
    decreases a, 0
  {
    var child := a.fields[k];
    if k in b.fields {
      w := Escapes(child, b.fields[k]);
      if k == "enum" && Strict(b) {
        w := Lengthened(child, b.fields[k], w);
      }
    } else {
      w := Foil(child);
    }
    var c := Obj(b.fields[k := w]);
    assert k in a.fields && k in c.fields && !Clean(a.fields[k], c.fields[k]);
    OneKeyChanged(b, k, w);
  }

  /** Another `type` where `b` has none. */
  lemma {:induction false} EscapeType(a: Value, b: Value) returns (w: Value)
    requires a.Obj? && b.Obj? && Clean(a, b) && StrAt(a, "type").Some? && StrAt(b, "type").None?
    requires Get(b, "type").Some? ==> !Strict(Get(b, "type").value)
    ensures
      var c := Obj(b.fields["type" := w]);
      Clean(b, c) && !Clean(a, c) && OnlyGrows(b, c)
  {
    var s := StrAt(a, "type").value;
    w := Str(s + "x");
    var c := Obj(b.fields["type" := w]);
    assert (s + "x")[|s|] == 'x';
    assert StrAt(c, "type") == Some(s + "x");
    assert !TypeOk(a, c);
    if "type" in b.fields { assert Clean(b.fields["type"], w); }
    OneKeyChanged(b, "type", w);
  }

  /** An escaping `enum` array, lengthened so that no old value is missing. */
  lemma {:induction false} Lengthened(a: Value, b: Value, w: Value) returns (c: Value)
    requires a.Arr? && b.Arr? && w.Arr? && Clean(b, w) && !Clean(a, w)
    ensures c.Arr? && Clean(b, c) && !Clean(a, c)
    ensures forall v | v in b.items :: v in c.items
  {
    var padding := if |w.items| < |b.items| then b.items[|w.items|..] else [];
    c := Arr(w.items + padding + b.items);
    assert forall i | 0 <= i < |w.items| :: c.items[i] == w.items[i];
    forall j | 0 <= j < Shorter(b.items, c.items) ensures Clean(b.items[j], c.items[j]) {
      if j < |w.items| {
        assert j < Shorter(b.items, w.items);
      } else {
        assert c.items[j] == b.items[j];
        CleanReflexive(b.items[j]);
      }
    }
    var i :| 0 <= i < Shorter(a.items, w.items) && !Clean(a.items[i], w.items[i]);
    assert i < Shorter(a.items, c.items) && !Clean(a.items[i], c.items[i]);
  }

  /** Changing or adding one key keeps a clean comparison with the original,
      as long as that key itself stays clean and any strict `enum` is kept. */
  lemma {:induction false} OneKeyChanged(b: Value, k: string, w: Value)
    requires b.Obj?
    requires k in b.fields ==> Clean(b.fields[k], w)
    requires k == "type" && StrAt(b, "type").Some? && w.Str? ==> w == b.fields["type"]
    requires k == "enum" && Strict(b) ==> w.Arr? && forall v | v in ArrAt(b, "enum").value :: v in w.items
    ensures Clean(b, Obj(b.fields[k := w]))
  {
    var c := Obj(b.fields[k := w]);
    forall j | j in b.fields && j in c.fields ensures Clean(b.fields[j], c.fields[j]) {
      if j != k { CleanReflexive(b.fields[j]); }
    }
    assert TypeOk(b, c);
    assert EnumOk(b, c);
  }

  /** Exactly when clean comparisons compose: `b` covers `a`. */
  lemma {:induction false} ComposesIffCovers(a: Value, b: Value)
    requires Clean(a, b)
    ensures Covers(a, b) <==> forall c :: Clean(b, c) ==> Clean(a, c)
  {
    if Covers(a, b) {
      forall c | Clean(b, c) ensures Clean(a, c) { Composes(a, b, c); }
    } else {
      var c := Escapes(a, b);
    }
  }

  // ---- the condition a reader would check ----

  /** Keys, array lengths and string `type`s kept at every depth. */
  ghost predicate KeepsShape(a: Value, b: Value)
    decreases a
  {
    match a
    case Obj(fields) =>
      b.Obj? && (StrAt(a, "type").Some? ==> StrAt(b, "type").Some?)
      && forall k | k in fields :: k in b.fields && KeepsShape(fields[k], b.fields[k])
    case Arr(items) =>
      b.Arr? && |items| <= |b.items|
      && forall i | 0 <= i < |items| && i < |b.items| :: KeepsShape(items[i], b.items[i])
    case _ => true
  }

  lemma {:induction false} KeepingShapeCovers(a: Value, b: Value)
    requires KeepsShape(a, b)
    ensures Covers(a, b)
    decreases a
  {
    if a.Obj? {
      forall k | k in a.fields ensures KeyCovers(a.fields[k], b, k) {
        KeepingShapeCovers(a.fields[k], b.fields[k]);
      }
    } else if a.Arr? {
      forall i | 0 <= i < |a.items| ensures Covers(a.items[i], b.items[i]) {
        KeepingShapeCovers(a.items[i], b.items[i]);
      }
    }
  }
}
