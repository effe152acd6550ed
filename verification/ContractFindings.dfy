/** What the contract check reports, read off the two documents themselves. */
module ContractFindings {
  import opened Text
  import opened Json
  import opened SchemaCompatibility
  import opened SchemaFindings
  import opened Contract

  /** The document has this operation under this path and method. */
  ghost predicate Offers(document: Value, path: string, verb: string, operation: Value) {
    document.Obj? && "paths" in document.fields && document.fields["paths"].Obj?
    && path in document.fields["paths"].fields
    && var item := document.fields["paths"].fields[path];
       item.Obj? && verb in item.fields && item.fields[verb] == operation
  }

  /** How a finding names the operation of an HTTP method. */
  ghost predicate Titled(verb: string, path: string, op: string) {
    (verb == "get" && op == "GET " + path) || (verb == "post" && op == "POST " + path)
    || (verb == "put" && op == "PUT " + path) || (verb == "patch" && op == "PATCH " + path)
    || (verb == "delete" && op == "DELETE " + path) || (verb == "head" && op == "HEAD " + path)
    || (verb == "options" && op == "OPTIONS " + path)
  }

  ghost predicate Answers(operation: Value, status: string) {
    operation.Obj? && "responses" in operation.fields && operation.fields["responses"].Obj?
    && status in operation.fields["responses"].fields
  }

  /** A required parameter reads as `input`, its place and its name. */
  ghost predicate AsksFor(operation: Value, input: string) {
    operation.Obj? && "parameters" in operation.fields && operation.fields["parameters"].Arr?
    && exists p | p in operation.fields["parameters"].items :: Holds(p, "required", Bool(true)) && ReadsAs(p, input)
  }

  ghost predicate ReadsAs(p: Value, input: string) {
    p.Obj? && "in" in p.fields && p.fields["in"].Str? && "name" in p.fields && p.fields["name"].Str?
    && input == p.fields["in"].s + ":" + p.fields["name"].s
  }

  ghost predicate AsksForBody(operation: Value) {
    operation.Obj? && "requestBody" in operation.fields
    && Holds(operation.fields["requestBody"], "required", Bool(true))
  }

  /** A demand the baseline does not make. */
  ghost predicate Stricter(x: Value, y: Value) {
    exists demands | demands != [] :: Holds(y, "security", Arr(demands)) && !Holds(x, "security", Arr(demands))
  }

  /** What the two versions of one operation tell. */
  ghost predicate OperationTells(x: Value, y: Value, f: Finding) {
    match f
    case RemovedOperation(_) => false
    case RemovedResponse(status, _) => Answers(x, status) && !Answers(y, status)
    case NewlyRequiredInput(input, _) => AsksFor(y, input) && !AsksFor(x, input)
    case NewlyRequiredBody(_) => AsksForBody(y) && !AsksForBody(x)
    case StricterSecurity(_) => Stricter(x, y)
    case _ => NodesTell(f.op, ["$"], x, y, f)
  }

  /** The finding is about an operation of the baseline that the current document
      no longer has, or about what became of it. */
  ghost predicate Told(baseline: Value, current: Value, f: Finding) {
    exists path, verb, x ::
      Offers(baseline, path, verb, x) && Titled(verb, path, f.op)
      && if f.RemovedOperation? then !exists y :: Offers(current, path, verb, y)
         else exists y :: Offers(current, path, verb, y) && OperationTells(x, y, f)
  }

  // ---- one operation ----

  lemma {:induction false} TitlesAre(verb: string, path: string, op: string)
    ensures Titled(verb, path, op) <==> verb in HTTP_METHODS && op == OperationName(verb, path)
  {
    assert Upper("get") == "GET" && Upper("post") == "POST" && Upper("put") == "PUT" && Upper("patch") == "PATCH";
    assert Upper("delete") == "DELETE" && Upper("head") == "HEAD" && Upper("options") == "OPTIONS";
    hide Upper;
    forall v, u | u == v + " " ensures v + " " + path == u + path {}
    assert "GET" + " " == "GET " && "POST" + " " == "POST " && "PUT" + " " == "PUT " && "PATCH" + " " == "PATCH ";
    assert "DELETE" + " " == "DELETE " && "HEAD" + " " == "HEAD " && "OPTIONS" + " " == "OPTIONS ";
  }

  lemma {:induction false} AsksForIff(operation: Value, input: string)
    ensures AsksFor(operation, input) <==> input in RequiredParameters(operation)
  {
  }

  lemma {:induction false} AsksForBodyIff(operation: Value)
    ensures AsksForBody(operation) <==> BodyRequired(operation)
  {
  }

  lemma {:induction false} ResponseFindings(op: string, x: Value, y: Value, f: Finding)
    ensures f in ResponseBreaks(op, x, y)
            <==> f.RemovedResponse? && f.op == op && Answers(x, f.status) && !Answers(y, f.status)
  {
  }

  lemma {:induction false} InputFindings(op: string, x: Value, y: Value, f: Finding)
    ensures f in InputBreaks(op, x, y)
            <==> (f.NewlyRequiredInput? && f.op == op && AsksFor(y, f.parameter) && !AsksFor(x, f.parameter))
                 || (f.NewlyRequiredBody? && f.op == op && AsksForBody(y) && !AsksForBody(x))
  {
    hide RequiredParameters, AsksFor, AsksForBody, BodyRequired;
    AsksForBodyIff(x);
    AsksForBodyIff(y);
    if f.NewlyRequiredInput? {
      AsksForIff(x, f.parameter);
      AsksForIff(y, f.parameter);
    }
  }

  lemma {:induction false} SecurityFindings(op: string, x: Value, y: Value, f: Finding)
    ensures f in SecurityBreaks(op, x, y) <==> f.StricterSecurity? && f.op == op && Stricter(x, y)
  {
    var after := ArrAt(y, "security");
    if after.Some? { assert Holds(y, "security", Arr(after.value)); }
  }

  lemma {:induction false} NodesOnly(op: string, x: Value, y: Value, f: Finding)
    ensures NodesTell(op, ["$"], x, y, f) ==> (f.NarrowedType? || f.RemovedEnumValue?) && f.op == op
  {
    hide Leads, NodeTells;
  }

  lemma {:induction false} OperationFindings(op: string, x: Value, y: Value, f: Finding)
    ensures f in OperationBreaks(op, x, y) <==> f.op == op && OperationTells(x, y, f)
  {
    hide SchemaBreaks, NodesTell, ResponseBreaks, InputBreaks, SecurityBreaks;
    hide Answers, AsksFor, AsksForBody, Stricter;
    FindsExactly(op, ["$"], x, y, f);
    NodesOnly(op, x, y, f);
    ResponseFindings(op, x, y, f);
    InputFindings(op, x, y, f);
    SecurityFindings(op, x, y, f);
  }

  // ---- the whole comparison ----

  lemma {:induction false} OffersIff(document: Value, path: string, verb: string, x: Value)
    ensures verb in HTTP_METHODS && Offers(document, path, verb, x) <==> Operation(document, path, verb) == Some(x)
  {
  }

  /** What the documents say of one path and method of the baseline. */
  ghost predicate Tells(baseline: Value, current: Value, path: string, verb: string, f: Finding)
    requires Operation(baseline, path, verb).Some?
  {
    f.op == OperationName(verb, path)
    && if f.RemovedOperation? then Operation(current, path, verb).None?
       else Operation(current, path, verb).Some?
            && OperationTells(Operation(baseline, path, verb).value, Operation(current, path, verb).value, f)
  }

  lemma {:induction false} VerbFindings(path: string, verb: string, baseline: Value, current: Value, f: Finding)
    requires ObjAt(baseline, "paths").Some? && ObjAt(current, "paths").Some?
    requires Operation(baseline, path, verb).Some?
    ensures
      var a, b := ObjAt(baseline, "paths").value, ObjAt(current, "paths").value;
      f in VerbBreaks(path, verb, a[path].fields, Lookup(b, path)) <==> Tells(baseline, current, path, verb, f)
  {
    hide OperationBreaks, OperationTells, OperationName;
    if Operation(current, path, verb).Some? {
      OperationFindings(OperationName(verb, path), Operation(baseline, path, verb).value,
                        Operation(current, path, verb).value, f);
      NothingRemoved(Operation(baseline, path, verb).value, Operation(current, path, verb).value, f);
    }
  }

  lemma {:induction false} NothingRemoved(x: Value, y: Value, f: Finding)
    ensures OperationTells(x, y, f) ==> !f.RemovedOperation?
  {
  }

  lemma {:induction false} DocumentFindings(baseline: Value, current: Value, f: Finding)
    requires ObjAt(baseline, "paths").Some? && ObjAt(current, "paths").Some?
    ensures
      var a, b := ObjAt(baseline, "paths").value, ObjAt(current, "paths").value;
      f in DocumentBreaks(a, b, a.Keys)
      <==> exists path, verb | Operation(baseline, path, verb).Some? :: Tells(baseline, current, path, verb, f)
  {
    hide OperationBreaks, Upper, Tells;
    var a, b := ObjAt(baseline, "paths").value, ObjAt(current, "paths").value;
    forall path, verb | Operation(baseline, path, verb).Some? && Tells(baseline, current, path, verb, f)
      ensures f in DocumentBreaks(a, b, a.Keys)
    {
      VerbFindings(path, verb, baseline, current, f);
      assert f in PathBreaks(path, a[path], Lookup(b, path));
    }
    if f in DocumentBreaks(a, b, a.Keys) {
      var path :| path in a && f in PathBreaks(path, a[path], Lookup(b, path));
      var verb :| verb in a[path].fields && f in VerbBreaks(path, verb, a[path].fields, Lookup(b, path));
      assert Operation(baseline, path, verb).Some?;
      VerbFindings(path, verb, baseline, current, f);
    }
  }

  /** The check reports exactly what the documents tell. */
  lemma {:induction false} ReportsExactly(baseline: Value, current: Value, f: Finding)
    requires ObjAt(baseline, "paths").Some? && ObjAt(current, "paths").Some?
    ensures
      var a, b := ObjAt(baseline, "paths").value, ObjAt(current, "paths").value;
      f in DocumentBreaks(a, b, a.Keys) <==> Told(baseline, current, f)
  {
    hide Operation, OperationTells, Offers, Titled, DocumentBreaks, OperationName;
    DocumentFindings(baseline, current, f);
    forall path, verb, x
      ensures verb in HTTP_METHODS && Offers(baseline, path, verb, x) <==> Operation(baseline, path, verb) == Some(x)
      ensures verb in HTTP_METHODS && Offers(current, path, verb, x) <==> Operation(current, path, verb) == Some(x)
    {
      OffersIff(baseline, path, verb, x);
      OffersIff(current, path, verb, x);
    }
    forall path, verb ensures Titled(verb, path, f.op) <==> verb in HTTP_METHODS && f.op == OperationName(verb, path) {
      TitlesAre(verb, path, f.op);
    }
  }

  // ---- operation by operation ----

  lemma {:induction false} TitleNamesOne(verb: string, path: string, v: string, p: string, op: string)
    requires Titled(verb, path, op) && Titled(v, p, op)
    ensures verb == v && path == p
  {
    hide *;
    TitleReads(verb, path, op);
    TitleReads(v, p, op);
  }

  lemma {:induction false} TitleReads(verb: string, path: string, op: string)
    requires Titled(verb, path, op)
    ensures
      var gap := FindChar(op, ' ');
      gap.Some? && verb == Lower(op[..gap.value]) && path == op[gap.value + 1..]
  {
    hide FindChar;
    TitlesAre(verb, path, op);
    forall v | v in HTTP_METHODS ensures ' ' !in Upper(v) && Lower(Upper(v)) == v {
      assert forall i | 0 <= i < |v| :: 'a' <= v[i] <= 'z';
    }
    FindAt(Upper(verb), ' ', path);
  }

  /** For every path and method both documents keep: the findings about it are
      exactly what its two versions tell. */
  lemma {:induction false} KeptOperation(baseline: Value, current: Value, path: string, verb: string, op: string,
                                         x: Value, y: Value, f: Finding)
    requires Titled(verb, path, op) && Offers(baseline, path, verb, x) && Offers(current, path, verb, y)
    requires f.op == op
    ensures Told(baseline, current, f) <==> OperationTells(x, y, f)
  {
    hide OperationTells, Titled;
    forall p, v | Titled(v, p, op) ensures v == verb && p == path { TitleNamesOne(verb, path, v, p, op); }
    assert f.RemovedOperation? ==> !OperationTells(x, y, f) by { NothingRemoved(x, y, f); }
  }

  // ---- the check ----

  datatype ContractError = NoBaselinePaths | NoCurrentPaths

  ghost predicate HasPaths(document: Value) {
    document.Obj? && "paths" in document.fields && document.fields["paths"].Obj?
  }

  /** Every finding the documents tell, and nothing else; a document without a
      `paths` object is refused. */
  method CompatibilityBreaks(baseline: Value, current: Value) returns (r: Result<set<Finding>, ContractError>)
    ensures !HasPaths(baseline) ==> r == Err(NoBaselinePaths)
    ensures HasPaths(baseline) && !HasPaths(current) ==> r == Err(NoCurrentPaths)
    ensures HasPaths(baseline) && HasPaths(current) ==>
              r.Ok? && forall f :: f in r.value <==> Told(baseline, current, f)
    ensures r.Ok? ==> (r.value == {} <==> Compatible(baseline, current))
  {
    var before, after := ObjAt(baseline, "paths"), ObjAt(current, "paths");
    if before.None? { return Err(NoBaselinePaths); }
    if after.None? { return Err(NoCurrentPaths); }
    var a, b := before.value, after.value;
    var findings := {};
    var paths := a.Keys;
    while paths != {}
      invariant paths <= a.Keys
      invariant findings == DocumentBreaks(a, b, a.Keys - paths)
    {
      var path :| path in paths;
      NextPath(a, b, a.Keys - paths, path);
      assert a.Keys - (paths - {path}) == (a.Keys - paths) + {path};
      paths := paths - {path};
      var item := a[path];
      if item.Obj? {
        findings := CompareItem(path, item.fields, Lookup(b, path), findings);
      }
    }
    assert a.Keys - {} == a.Keys;
    CompatibleIffNoBreaks(baseline, current);
    forall f ensures f in findings <==> Told(baseline, current, f) { ReportsExactly(baseline, current, f); }
    return Ok(findings);
  }
}
