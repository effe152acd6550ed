/** Exactly when the compatibility of whole contracts composes. */
module OperationCompatibility {
  import opened Text
  import opened Json
  import opened SchemaCompatibility
  import opened Contract

  // ---- what the other checks hold fast ----

  /** A later document must keep these responses. */
  predicate KeepsResponses(b: Value) {
    ObjAt(b, "responses").Some? && ObjAt(b, "responses").value != map[]
  }

  /** Nothing a later document can break: the child is covered; or it is a list of
      security requirements, which may only stay or go; or it is a list under
      `responses`, where an object must stay. */
  ghost predicate KeyHolds(child: Value, b: Value, k: string)
    requires b.Obj?
  {
    KeyCovers(child, b, k)
    || (k == "security" && child.Arr?)
    || (k == "responses" && child.Arr? && KeepsResponses(b))
  }

  /** What an operation `b` must keep of `a`. */
  ghost predicate OperationCovers(a: Value, b: Value) {
    match a
    case Obj(fields) =>
      if b.Obj? then
        (StrAt(a, "type").Some? ==>
           StrAt(b, "type").Some? || (Get(b, "type").Some? && Strict(Get(b, "type").value)))
        && forall k | k in fields :: KeyHolds(fields[k], b, k)
      else
        StrAt(a, "type").None? && !Strict(a)
        && forall k | k in fields :: Inert(fields[k]) || (k == "security" && fields[k].Arr?)
    case Arr(_) => KeepsResponses(b) || Covers(a, b)
    case _ => true
  }

  // ---- covered operations compose ----

  /** What a list of security requirements can become. */
  lemma {:induction false} SecurityComposes(a: Value, b: Value, c: Value)
    requires OperationOk(a, b) && OperationOk(b, c) && ArrAt(a, "security").Some? && Get(c, "security").Some?
    ensures Clean(Get(a, "security").value, Get(c, "security").value)
  {
    hide RequiredParameters, BodyRequired;
    var before := Get(a, "security").value;
    if ArrAt(c, "security").Some? && ArrAt(c, "security").value != [] {
      assert Get(c, "security") == Get(b, "security") == Get(a, "security");
      CleanReflexive(before);
    }
  }

  lemma {:induction false} ObjectComposes(a: Value, b: Value, c: Value)
    requires OperationOk(a, b) && OperationOk(b, c) && OperationCovers(a, b) && a.Obj? && b.Obj? && c.Obj?
    ensures Clean(a, c)
  {
    hide RequiredParameters, BodyRequired;
    RootComposes(a, b, c);
    forall k | k in a.fields && k in c.fields ensures Clean(a.fields[k], c.fields[k]) {
      var child := a.fields[k];
      assert KeyHolds(child, b, k);
      if k == "security" && child.Arr? {
        SecurityComposes(a, b, c);
      } else if k == "responses" && child.Arr? && KeepsResponses(b) {
        assert c.fields[k].Obj?;
      } else if k !in b.fields {
        InertIsClean(child, c.fields[k]);
      } else if k == "enum" && Strict(b) && !child.Arr? {
        EnumSlotComposes(a, b, c);
      } else {
        Composes(child, b.fields[k], c.fields[k]);
      }
    }
  }

  lemma {:induction false} RootComposes(a: Value, b: Value, c: Value)
    requires Clean(a, b) && Clean(b, c) && a.Obj? && b.Obj?
    requires StrAt(a, "type").Some? ==>
               StrAt(b, "type").Some? || (Get(b, "type").Some? && Strict(Get(b, "type").value))
    ensures TypeOk(a, c) && EnumOk(a, c)
  {
    if StrAt(a, "type").Some? && StrAt(b, "type").None? && c.Obj? && "type" in c.fields {
      assert Clean(b.fields["type"], c.fields["type"]);
      StrictMeets(b.fields["type"], c.fields["type"]);
    }
    if Strict(a) {
      StrictMeets(a, b);
      StrictMeets(b, c);
    }
  }

  lemma {:induction false} OperationComposes(a: Value, b: Value, c: Value)
    requires OperationOk(a, b) && OperationOk(b, c) && OperationCovers(a, b)
    ensures OperationOk(a, c)
  {
    hide RequiredParameters, BodyRequired;
    OthersCompose(a, b, c);
    match a
    case Obj(fields) =>
      if b.Obj? && c.Obj? {
        ObjectComposes(a, b, c);
      } else if b.Obj? {
        RootComposes(a, b, c);
      } else if c.Obj? {
        forall k | k in fields && k in c.fields ensures Clean(fields[k], c.fields[k]) {
          if k == "security" && fields[k].Arr? {
            SecurityComposes(a, b, c);
          } else {
            InertIsClean(fields[k], c.fields[k]);
          }
        }
      }
    case Arr(_) =>
      if Covers(a, b) { Composes(a, b, c); }
    case _ =>
      Composes(a, b, c);
  }

  lemma {:induction false} OthersCompose(a: Value, b: Value, c: Value)
    requires OperationOk(a, b) && OperationOk(b, c)
    ensures Clean(a, c) ==> OperationOk(a, c)
  {
    hide RequiredParameters, BodyRequired, Clean;
  }

  // ---- and what is not covered escapes ----

  predicate Requires(p: Value) {
    TrueAt(p, "required") && StrAt(p, "in").Some? && StrAt(p, "name").Some?
  }

  lemma {:induction false} GrowingRequiresNothing(b: Value, c: Value)
    requires OnlyGrows(b, c) && Requires(c)
    ensures Requires(b) && StrAt(b, "in") == StrAt(c, "in") && StrAt(b, "name") == StrAt(c, "name")
  {
  }

  /** Parameters that only grow are required only if they were. */
  lemma {:induction false} ParametersGrow(b: Value, c: Value)
    requires ItemsOnlyGrow(Slot(b, "parameters"), Slot(c, "parameters"))
    ensures RequiredParameters(c) <= RequiredParameters(b)
  {
    forall name | name in RequiredParameters(c) ensures name in RequiredParameters(b) {
      var items := ArrAt(c, "parameters").value;
      var p :| p in items && Requires(p) && name == StrAt(p, "in").value + ":" + StrAt(p, "name").value;
      var j :| 0 <= j < |items| && items[j] == p;
      var slot := Slot(b, "parameters");
      var was := if slot.Arr? && j < |slot.items| then slot.items[j] else Null;
      GrowingRequiresNothing(was, p);
      assert was in ArrAt(b, "parameters").value;
    }
  }

  lemma {:induction false} SameParameters(b: Value, c: Value)
    requires Get(b, "parameters") == Get(c, "parameters")
    ensures RequiredParameters(c) == RequiredParameters(b)
  {
  }

  lemma {:induction false} BodyGrows(b: Value, c: Value)
    requires OnlyGrows(Slot(b, "requestBody"), Slot(c, "requestBody"))
    ensures BodyRequired(c) ==> BodyRequired(b)
  {
  }

  /** One key of an operation changed, so that the other checks say nothing. */
  lemma {:induction false} OneKeyIsOk(b: Value, k: string, w: Value)
    requires b.Obj? && Clean(b, Obj(b.fields[k := w]))
    requires k == "parameters" ==> ItemsOnlyGrow(Slot(b, k), w)
    requires k == "requestBody" ==> OnlyGrows(Slot(b, k), w)
    requires k == "security" ==> !w.Arr?
    requires k == "responses" && KeepsResponses(b) ==> w.Obj? && KeepsKeys(Slot(b, k), w)
    ensures OperationOk(b, Obj(b.fields[k := w]))
  {
    hide RequiredParameters, BodyRequired, Clean;
    var c := Obj(b.fields[k := w]);
    if k == "parameters" { ParametersGrow(b, c); } else { SameParameters(b, c); }
    if k == "requestBody" { BodyGrows(b, c); } else { SameBody(b, c); }
  }

  lemma {:induction false} SameBody(b: Value, c: Value)
    requires Get(b, "requestBody") == Get(c, "requestBody")
    ensures BodyRequired(c) == BodyRequired(b)
  {
  }

  lemma {:induction false} EscapeFromObject(a: Value, b: Value) returns (c: Value)
    requires a.Obj? && b.Obj? && OperationOk(a, b) && !OperationCovers(a, b)
    ensures OperationOk(b, c) && !Clean(a, c)
  {
    hide RequiredParameters, BodyRequired, Clean, KeyCovers, OnlyGrows, ItemsOnlyGrow, KeepsKeys;
    if k :| k in a.fields && !KeyHolds(a.fields[k], b, k) {
      var w := EscapeKey(a, b, k);
      ResponsesStay(a, b, k);
      OneKeyIsOk(b, k, w);
      c := Obj(b.fields[k := w]);
    } else {
      var w := EscapeType(a, b);
      OneKeyIsOk(b, "type", w);
      c := Obj(b.fields["type" := w]);
    }
  }

  /** Where responses must stay, only an object can be uncovered. */
  lemma {:induction false} ResponsesStay(a: Value, b: Value, k: string)
    requires a.Obj? && b.Obj? && k in a.fields && !KeyHolds(a.fields[k], b, k)
    ensures k == "responses" && KeepsResponses(b) ==> !a.fields[k].Arr?
    ensures k == "security" ==> !a.fields[k].Arr?
  {
    hide KeyCovers;
  }

  /** An object of one key, against anything that is no object. */
  lemma {:induction false} EscapeFromOther(a: Value, b: Value) returns (c: Value)
    requires a.Obj? && !b.Obj? && OperationOk(a, b) && !OperationCovers(a, b)
    ensures OperationOk(b, c) && !Clean(a, c)
  {
    hide RequiredParameters, BodyRequired, Inert;
    if StrAt(a, "type").Some? {
      var s := StrAt(a, "type").value;
      c := Obj(map["type" := Str(s + "x")]);
      assert (s + "x")[|s|] == 'x';
      SingleKeyIsOk(b, "type", Str(s + "x"));
    } else if Strict(a) {
      c := Obj(map[]);
      assert !EnumHas(c, ArrAt(a, "enum").value[0]);
      NoKeyIsOk(b);
    } else {
      var k :| k in a.fields && !Inert(a.fields[k]) && !(k == "security" && a.fields[k].Arr?);
      var w := Foil(a.fields[k]);
      c := Obj(map[k := w]);
      assert k in c.fields && !Clean(a.fields[k], c.fields[k]);
      SingleKeyIsOk(b, k, w);
    }
  }

  lemma {:induction false} NoKeyIsOk(b: Value)
    requires !b.Obj?
    ensures OperationOk(b, Obj(map[]))
  {
  }

  lemma {:induction false} SingleKeyIsOk(b: Value, k: string, w: Value)
    requires !b.Obj?
    requires k == "parameters" ==> ItemsOnlyGrow(Null, w)
    requires k == "requestBody" ==> OnlyGrows(Null, w)
    requires k == "security" ==> !w.Arr?
    ensures OperationOk(b, Obj(map[k := w]))
  {
    hide RequiredParameters, BodyRequired;
    var c := Obj(map[k := w]);
    if k == "parameters" { ParametersGrow(b, c); } else { SameParameters(b, c); }
    if k == "requestBody" { BodyGrows(b, c); } else { SameBody(b, c); }
  }

  /** A list, where no responses must stay. */
  lemma {:induction false} EscapeFromList(a: Value, b: Value) returns (c: Value)
    requires a.Arr? && OperationOk(a, b) && !OperationCovers(a, b)
    ensures OperationOk(b, c) && !Clean(a, c)
  {
    hide Covers, Clean;
    c := Escapes(a, b);
    ListIsOk(b, c);
  }

  lemma {:induction false} ListIsOk(b: Value, c: Value)
    requires c.Arr? && Clean(b, c) && !KeepsResponses(b)
    ensures OperationOk(b, c)
  {
    hide Clean;
  }

  /** For compatible operations `a` and `b`, every operation compatible after `b`
      is compatible after `a` exactly when `b` covers `a`, counting what the checks
      of responses, parameters, bodies and security hold fast. */
  lemma {:induction false} OperationComposesIff(a: Value, b: Value)
    requires OperationOk(a, b)
    ensures OperationCovers(a, b) <==> forall c :: OperationOk(b, c) ==> OperationOk(a, c)
  {
    hide OperationOk, OperationCovers;
    if OperationCovers(a, b) {
      forall c | OperationOk(b, c) ensures OperationOk(a, c) { OperationComposes(a, b, c); }
    } else {
      var c := OperationEscapes(a, b);
    }
  }

  lemma {:induction false} OperationEscapes(a: Value, b: Value) returns (c: Value)
    requires OperationOk(a, b) && !OperationCovers(a, b)
    ensures OperationOk(b, c) && !OperationOk(a, c)
  {
    hide RequiredParameters, BodyRequired, Clean, Covers, KeyHolds;
    if a.Obj? && b.Obj? {
      c := EscapeFromObject(a, b);
    } else if a.Obj? {
      c := EscapeFromOther(a, b);
    } else {
      c := EscapeFromList(a, b);
    }
  }

  // ---- whole contracts ----

  /** Every operation of `a` is covered by the one of `b`. */
  ghost predicate ContractCovers(a: Value, b: Value) {
    forall path, verb | Operation(a, path, verb).Some? && Operation(b, path, verb).Some? ::
      OperationCovers(Operation(a, path, verb).value, Operation(b, path, verb).value)
  }

  /** The document with one operation replaced. */
  function WithOperation(b: Value, path: string, verb: string, operation: Value): Value
    requires Operation(b, path, verb).Some?
  {
    var paths := ObjAt(b, "paths").value;
    Obj(b.fields["paths" := Obj(paths[path := Obj(paths[path].fields[verb := operation])])])
  }

  lemma {:induction false} OthersStay(b: Value, path: string, verb: string, operation: Value, p: string, v: string)
    requires Operation(b, path, verb).Some?
    ensures Operation(WithOperation(b, path, verb, operation), p, v)
            == if p == path && v == verb then Some(operation) else Operation(b, p, v)
  {
  }

  lemma {:induction false} OperationIsOkItself(x: Value)
    ensures OperationOk(x, x)
  {
    CleanReflexive(x);
    hide RequiredParameters, BodyRequired, Clean;
  }

  /** Exactly when the compatibility of contracts composes: every contract
      compatible after `b` is compatible after `a` if and only if every operation of
      `b` covers the one of `a`. */
  lemma {:induction false} ContractComposesIff(a: Value, b: Value)
    requires Compatible(a, b)
    ensures ContractCovers(a, b) <==> forall c :: Compatible(b, c) ==> Compatible(a, c)
  {
    hide OperationOk, OperationCovers, Operation;
    if ContractCovers(a, b) {
      forall c | Compatible(b, c) ensures Compatible(a, c) { ContractComposes(a, b, c); }
    } else {
      var path, verb :| Operation(a, path, verb).Some? && Operation(b, path, verb).Some?
        && !OperationCovers(Operation(a, path, verb).value, Operation(b, path, verb).value);
      var x, y := Operation(a, path, verb).value, Operation(b, path, verb).value;
      var z := OperationEscapes(x, y);
      var c := WithOperation(b, path, verb, z);
      forall p, v ensures Operation(c, p, v) == if p == path && v == verb then Some(z) else Operation(b, p, v) {
        OthersStay(b, path, verb, z, p, v);
      }
      forall p, v | Operation(b, p, v).Some?
        ensures Operation(c, p, v).Some? && OperationOk(Operation(b, p, v).value, Operation(c, p, v).value)
      {
        OperationIsOkItself(Operation(b, p, v).value);
      }
      assert Compatible(b, c);
      assert Operation(c, path, verb) == Some(z);
      assert !Compatible(a, c);
    }
  }

  lemma {:induction false} ContractComposes(a: Value, b: Value, c: Value)
    requires Compatible(a, b) && Compatible(b, c) && ContractCovers(a, b)
    ensures Compatible(a, c)
  {
    hide OperationOk, OperationCovers, Operation;
    forall path, verb | Operation(a, path, verb).Some?
      ensures Operation(c, path, verb).Some?
              && OperationOk(Operation(a, path, verb).value, Operation(c, path, verb).value)
    {
      OperationComposes(Operation(a, path, verb).value, Operation(b, path, verb).value, Operation(c, path, verb).value);
    }
  }
}
