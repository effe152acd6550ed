/** The compatibility check between two HTTP contracts. */
module Contract {
  import opened Text
  import opened Json
  import opened SchemaCompatibility

  const HTTP_METHODS := {"get", "post", "put", "patch", "delete", "head", "options"}

  function Upper(s: string): string {
    seq(|s|, i requires 0 <= i < |s| => if 'a' <= s[i] <= 'z' then s[i] - 'a' + 'A' else s[i])
  }

  function OperationName(verb: string, path: string): string {
    Upper(verb) + " " + path
  }

  // ---- one operation ----

  function ResponseBreaks(op: string, a: Value, b: Value): set<Finding> {
    match ObjAt(a, "responses")
    case None => {}
    case Some(before) =>
      set status | status in before.Keys
                   && (ObjAt(b, "responses").None? || status !in ObjAt(b, "responses").value)
        :: RemovedResponse(status, op)
  }

  /** `in:name` of every parameter marked required. */
  function RequiredParameters(operation: Value): set<string> {
    match ArrAt(operation, "parameters")
    case None => {}
    case Some(parameters) =>
      set p | p in parameters && TrueAt(p, "required") && StrAt(p, "in").Some? && StrAt(p, "name").Some?
        :: StrAt(p, "in").value + ":" + StrAt(p, "name").value
  }

  predicate BodyRequired(operation: Value) {
    Get(operation, "requestBody").Some? && TrueAt(Get(operation, "requestBody").value, "required")
  }

  function InputBreaks(op: string, a: Value, b: Value): set<Finding> {
    (set p | p in RequiredParameters(b) - RequiredParameters(a) :: NewlyRequiredInput(p, op))
    + (if BodyRequired(b) && !BodyRequired(a) then {NewlyRequiredBody(op)} else {})
  }

  function SecurityBreaks(op: string, a: Value, b: Value): set<Finding> {
    var before, after := ArrAt(a, "security"), ArrAt(b, "security");
    if after.Some? && after.value != []
       && (before.None? || before.value == [] || before != after)
    then {StricterSecurity(op)} else {}
  }

  ghost function OperationBreaks(op: string, a: Value, b: Value): set<Finding> {
    ResponseBreaks(op, a, b) + InputBreaks(op, a, b) + SecurityBreaks(op, a, b)
    + SchemaBreaks(op, ["$"], a, b)
  }

  // ---- whole documents ----

  /** The findings one HTTP method of one path contributes. */
  ghost function VerbBreaks(path: string, verb: string, item: map<string, Value>, current: Option<Value>): set<Finding>
    requires verb in item
  {
    var op := OperationName(verb, path);
    if verb !in HTTP_METHODS then {}
    else if current.Some? && current.value.Obj? && verb in current.value.fields
    then OperationBreaks(op, item[verb], current.value.fields[verb])
    else {RemovedOperation(op)}
  }

  ghost function ItemBreaksOver(
    path: string, item: map<string, Value>, current: Option<Value>, verbs: set<string>
  ): set<Finding>
    requires verbs <= item.Keys
  {
    set verb, f | verb in verbs && f in VerbBreaks(path, verb, item, current) :: f
  }

  ghost function PathBreaks(path: string, item: Value, current: Option<Value>): set<Finding> {
    if item.Obj? then ItemBreaksOver(path, item.fields, current, item.fields.Keys) else {}
  }

  ghost function DocumentBreaks(a: map<string, Value>, b: map<string, Value>, paths: set<string>): set<Finding>
    requires paths <= a.Keys
  {
    set path, f | path in paths && f in PathBreaks(path, a[path], Lookup(b, path)) :: f
  }

  method CompareItem(path: string, item: map<string, Value>, current: Option<Value>, findings: set<Finding>)
    returns (r: set<Finding>)
    ensures r == findings + ItemBreaksOver(path, item, current, item.Keys)
  {
    hide ResponseBreaks, InputBreaks, SecurityBreaks, SchemaBreaks;
    r := findings;
    var verbs := item.Keys;
    while verbs != {}
      invariant verbs <= item.Keys
      invariant r == findings + ItemBreaksOver(path, item, current, item.Keys - verbs)
    {
      var verb :| verb in verbs;
      NextVerb(path, item, current, item.Keys - verbs, verb);
      assert item.Keys - (verbs - {verb}) == (item.Keys - verbs) + {verb};
      verbs := verbs - {verb};
      if verb in HTTP_METHODS {
        var op := OperationName(verb, path);
        if current.None? || !current.value.Obj? || verb !in current.value.fields {
          r := r + {RemovedOperation(op)};
        } else {
          var before, after := item[verb], current.value.fields[verb];
          r := r + ResponseBreaks(op, before, after);
          r := r + InputBreaks(op, before, after);
          r := r + SecurityBreaks(op, before, after);
          r := CompareSchema(op, ["$"], before, after, r);
        }
      }
    }
    assert item.Keys - {} == item.Keys;
  }

  lemma {:induction false} NextVerb(
    path: string, item: map<string, Value>, current: Option<Value>, verbs: set<string>, verb: string)
    requires verbs <= item.Keys && verb in item
    ensures ItemBreaksOver(path, item, current, verbs + {verb})
            == ItemBreaksOver(path, item, current, verbs) + VerbBreaks(path, verb, item, current)
  {
    hide VerbBreaks;
  }

  lemma {:induction false} NextPath(a: map<string, Value>, b: map<string, Value>, paths: set<string>, path: string)
    requires paths <= a.Keys && path in a
    ensures DocumentBreaks(a, b, paths + {path})
            == DocumentBreaks(a, b, paths) + PathBreaks(path, a[path], Lookup(b, path))
  {
    hide PathBreaks;
  }

  // ---- compatibility as a relation ----

  ghost predicate OperationOk(a: Value, b: Value) {
    (ObjAt(a, "responses").Some? && ObjAt(a, "responses").value != map[] ==>
       ObjAt(b, "responses").Some? && ObjAt(a, "responses").value.Keys <= ObjAt(b, "responses").value.Keys)
    && RequiredParameters(b) <= RequiredParameters(a)
    && (BodyRequired(b) ==> BodyRequired(a))
    && (ArrAt(b, "security").Some? && ArrAt(b, "security").value != [] ==> ArrAt(a, "security") == ArrAt(b, "security"))
    && Clean(a, b)
  }

  /** Operations of `a` and `b` under the same path and HTTP method. */
  function Operation(document: Value, path: string, verb: string): Option<Value> {
    match ObjAt(document, "paths")
    case None => None
    case Some(paths) =>
      if path in paths && verb in HTTP_METHODS then Get(paths[path], verb) else None
  }

  /** Every operation of `a` is still in `b`, and asks no more of a caller. */
  ghost predicate Compatible(a: Value, b: Value) {
    forall path, verb | Operation(a, path, verb).Some? ::
      Operation(b, path, verb).Some?
      && OperationOk(Operation(a, path, verb).value, Operation(b, path, verb).value)
  }

  lemma {:induction false} OperationOkIffNoBreaks(op: string, a: Value, b: Value)
    ensures OperationOk(a, b) <==> OperationBreaks(op, a, b) == {}
  {
    CleanIffNoBreaks(op, ["$"], a, b);
    ResponsesOk(op, a, b);
    InputsOk(op, a, b);
    hide SchemaBreaks, Clean, ResponseBreaks, InputBreaks, RequiredParameters, BodyRequired;
  }

  lemma {:induction false} ResponsesOk(op: string, a: Value, b: Value)
    ensures ResponseBreaks(op, a, b) == {}
            <==> (ObjAt(a, "responses").Some? && ObjAt(a, "responses").value != map[] ==>
                    ObjAt(b, "responses").Some? && ObjAt(a, "responses").value.Keys <= ObjAt(b, "responses").value.Keys)
  {
    if ObjAt(a, "responses").Some? {
      var before := ObjAt(a, "responses").value;
      forall status | status in before && (ObjAt(b, "responses").None? || status !in ObjAt(b, "responses").value)
        ensures ResponseBreaks(op, a, b) != {}
      {
        assert RemovedResponse(status, op) in ResponseBreaks(op, a, b);
      }
      if before != map[] { var status :| status in before; }
    }
  }

  lemma {:induction false} InputsOk(op: string, a: Value, b: Value)
    ensures InputBreaks(op, a, b) == {}
            <==> RequiredParameters(b) <= RequiredParameters(a) && (BodyRequired(b) ==> BodyRequired(a))
  {
    hide RequiredParameters, BodyRequired;
    forall p | p in RequiredParameters(b) && p !in RequiredParameters(a) ensures InputBreaks(op, a, b) != {} {
      assert NewlyRequiredInput(p, op) in InputBreaks(op, a, b);
    }
    if BodyRequired(b) && !BodyRequired(a) {
      assert NewlyRequiredBody(op) in InputBreaks(op, a, b);
    }
  }

  lemma {:induction false} CompatibleIffNoBreaks(baseline: Value, current: Value)
    requires ObjAt(baseline, "paths").Some? && ObjAt(current, "paths").Some?
    ensures
      var a, b := ObjAt(baseline, "paths").value, ObjAt(current, "paths").value;
      Compatible(baseline, current) <==> DocumentBreaks(a, b, a.Keys) == {}
  {
    hide OperationOk, OperationBreaks, Upper;
    var a, b := ObjAt(baseline, "paths").value, ObjAt(current, "paths").value;
    forall path, verb | Operation(baseline, path, verb).Some?
      ensures VerbBreaks(path, verb, a[path].fields, Lookup(b, path)) == {}
              <==> Operation(current, path, verb).Some?
                   && OperationOk(Operation(baseline, path, verb).value, Operation(current, path, verb).value)
    {
      if Operation(current, path, verb).Some? {
        OperationOkIffNoBreaks(OperationName(verb, path), Operation(baseline, path, verb).value,
                               Operation(current, path, verb).value);
      } else {
        assert RemovedOperation(OperationName(verb, path))
               in VerbBreaks(path, verb, a[path].fields, Lookup(b, path));
      }
    }
    VerbBreaksCollect(baseline, current);
  }

  lemma {:induction false} VerbBreaksCollect(baseline: Value, current: Value)
    requires ObjAt(baseline, "paths").Some? && ObjAt(current, "paths").Some?
    ensures
      var a, b := ObjAt(baseline, "paths").value, ObjAt(current, "paths").value;
      DocumentBreaks(a, b, a.Keys) == {}
      <==> forall path, verb | Operation(baseline, path, verb).Some? ::
             VerbBreaks(path, verb, a[path].fields, Lookup(b, path)) == {}
  {
    hide OperationBreaks, Upper;
    var a, b := ObjAt(baseline, "paths").value, ObjAt(current, "paths").value;
    forall path, verb | Operation(baseline, path, verb).Some?
                        && VerbBreaks(path, verb, a[path].fields, Lookup(b, path)) != {}
      ensures DocumentBreaks(a, b, a.Keys) != {}
    {
      var f :| f in VerbBreaks(path, verb, a[path].fields, Lookup(b, path));
      assert f in PathBreaks(path, a[path], Lookup(b, path));
      assert f in DocumentBreaks(a, b, a.Keys);
    }
    if f :| f in DocumentBreaks(a, b, a.Keys) {
      var path :| path in a && f in PathBreaks(path, a[path], Lookup(b, path));
      var verb :| verb in a[path].fields && f in VerbBreaks(path, verb, a[path].fields, Lookup(b, path));
      assert Operation(baseline, path, verb).Some?;
    }
  }

  /** A contract is compatible with itself. */
  lemma {:induction false} Reflexive(a: Value)
    ensures Compatible(a, a)
  {
    forall path, verb | Operation(a, path, verb).Some?
      ensures OperationOk(Operation(a, path, verb).value, Operation(a, path, verb).value)
    {
      CleanReflexive(Operation(a, path, verb).value);
    }
  }

  /** Compatibility composes when the middle contract covers every operation of
      the first. */
  lemma {:induction false} CompatibilityComposes(a: Value, b: Value, c: Value)
    requires Compatible(a, b) && Compatible(b, c)
    requires forall path, verb | Operation(a, path, verb).Some? && Operation(b, path, verb).Some? ::
               Covers(Operation(a, path, verb).value, Operation(b, path, verb).value)
    ensures Compatible(a, c)
  {
    hide RequiredParameters, BodyRequired;
    forall path, verb | Operation(a, path, verb).Some?
      ensures Operation(c, path, verb).Some?
              && OperationOk(Operation(a, path, verb).value, Operation(c, path, verb).value)
    {
      var x, y := Operation(a, path, verb).value, Operation(b, path, verb).value;
      var z := Operation(c, path, verb).value;
      Composes(x, y, z);
    }
  }

  // ---- without the cover ----

  function Document(operation: Value): Value {
    Obj(map["paths" := Obj(map["/orders" := Obj(map["post" := operation])])])
  }

  lemma {:induction false} OneOperation(x: Value, y: Value)
    ensures Compatible(Document(x), Document(y)) <==> OperationOk(x, y)
  {
    hide OperationOk;
    assert Operation(Document(x), "/orders", "post") == Some(x);
    assert Operation(Document(y), "/orders", "post") == Some(y);
    forall path, verb | Operation(Document(x), path, verb).Some?
      ensures Operation(Document(x), path, verb) == Some(x) && Operation(Document(y), path, verb) == Some(y)
    {
    }
  }

  function Typed(t: string): Value {
    Obj(map["type" := Str(t)])
  }

  lemma {:induction false} UntypedIsCompatible(t: string)
    ensures OperationOk(Typed(t), Obj(map[])) && OperationOk(Obj(map[]), Typed(t))
  {
    var x, y := Typed(t), Obj(map[]);
    assert RequiredParameters(x) == {} && RequiredParameters(y) == {};
    assert Get(y, "type").None? && Get(y, "enum").None? && Get(y, "security").None? && Get(y, "responses").None?;
  }

  lemma {:induction false} OtherTypeIsNot(s: string, t: string)
    requires s != t
    ensures !OperationOk(Typed(s), Typed(t))
  {
    assert StrAt(Typed(s), "type") == Some(s) && StrAt(Typed(t), "type") == Some(t);
    assert !TypeOk(Typed(s), Typed(t));
  }

  /** Dropping a `type` and then adding another one passes both checks and
      fails the direct one. */
  lemma {:induction false} CompositionNeedsCover(s: string, t: string)
    requires s != t
    ensures Compatible(Document(Typed(s)), Document(Obj(map[])))
    ensures Compatible(Document(Obj(map[])), Document(Typed(t)))
    ensures !Compatible(Document(Typed(s)), Document(Typed(t)))
  {
    hide *;
    UntypedIsCompatible(s);
    UntypedIsCompatible(t);
    OtherTypeIsNot(s, t);
    OneOperation(Typed(s), Obj(map[]));
    OneOperation(Obj(map[]), Typed(t));
    OneOperation(Typed(s), Typed(t));
  }
}
