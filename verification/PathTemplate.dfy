/** Filling a route's path parameters, by replacing the first one over and over
    until none is left. */
module PathTemplate {
  import opened Text
  import opened Bytes
  import opened PathOrder
  import opened PercentEncoding

  datatype PathError = Unmatched | Missing(name: ByteString) | Extra(name: ByteString)

  type Params = map<ByteString, ByteString>

  // ---- the specification: one walk over the original path ----

  /** The variables of a template in order, or none when a brace is not
      closed. */
  function Variables(path: ByteString): Option<seq<ByteString>>
    decreases |path|
  {
    match FindChar(path, '{')
    case None => Some([])
    case Some(i) =>
      var after := path[i + 1..];
      match FindChar(after, '}')
      case None => None
      case Some(j) =>
        match Variables(after[j + 1..])
        case None => None
        case Some(names) => Some([after[..j]] + names)
  }

  function Expand(path: ByteString, params: Params): Result<ByteString, PathError>
    decreases |path|
  {
    match FindChar(path, '{')
    case None => Ok(path)
    case Some(i) =>
      var after := path[i + 1..];
      match FindChar(after, '}')
      case None => Err(Unmatched)
      case Some(j) =>
        if after[..j] !in params then Err(Missing(after[..j]))
        else
          match Expand(after[j + 1..], params)
          case Err(e) => Err(e)
          case Ok(rest) => Ok(path[..i] + PercentEncode(params[after[..j]]) + rest)
  }

  /** Expansion succeeds exactly when every brace is closed and every variable
      has a value, and then no brace is left open. */
  lemma {:induction false} ExpandSucceeds(path: ByteString, params: Params)
    ensures Expand(path, params).Ok?
            <==> Variables(path).Some? && forall name | name in Variables(path).value :: name in params
    ensures Expand(path, params).Ok? ==> '{' !in Expand(path, params).value
    decreases |path|
  {
    hide PercentEncode, FindChar;
    var open := FindChar(path, '{');
    if open.Some? {
      var after := path[open.value + 1..];
      var close := FindChar(after, '}');
      if close.Some? {
        var name, rest := after[..close.value], after[close.value + 1..];
        ExpandSucceeds(rest, params);
        if name in params { EncodingIsCanonical(params[name]); }
        if Variables(rest).Some? {
          assert forall x :: x in [name] + Variables(rest).value <==> x == name || x in Variables(rest).value;
        }
      }
    }
  }

  // ---- the loop ----

  /** `done` has been expanded, `rest` is still as it was in the path. */
  ghost predicate Reached(path: ByteString, params: Params, done: ByteString, rest: ByteString, used: set<ByteString>) {
    '{' !in done
    && (Expand(path, params) == match Expand(rest, params) case Err(e) => Err(e) case Ok(r) => Ok(done + r))
    && (Variables(path).Some? <==> Variables(rest).Some?)
    && (Variables(rest).Some? ==>
          forall x :: x in Variables(path).value <==> x in used || x in Variables(rest).value)
    && used <= params.Keys
  }

  /** The output so far is an expanded part and `left` bytes of the path. */
  ghost predicate Stage(path: ByteString, params: Params, output: ByteString, used: set<ByteString>, left: nat) {
    exists done: ByteString, rest: ByteString ::
      output == done + rest && |rest| == left && Reached(path, params, done, rest, used)
  }

  lemma {:induction false} FindPast(done: ByteString, rest: ByteString)
    requires '{' !in done
    ensures FindChar(done + rest, '{')
            == match FindChar(rest, '{') case None => None case Some(i) => Some(|done| + i)
  {
    hide FindChar;
    if done == [] {
      assert done + rest == rest;
    } else {
      assert done + rest == [done[0]] + (done[1..] + rest);
      FindSkip(done[0], done[1..] + rest, '{');
      FindPast(done[1..], rest);
    }
  }

  /** One variable of the walk. */
  lemma {:induction false} ExpandPast(rest: ByteString, params: Params, i: nat, j: nat)
    requires FindChar(rest, '{') == Some(i) && FindChar(rest[i + 1..], '}') == Some(j)
    ensures
      var name, next := rest[i + 1..][..j], rest[i + 1..][j + 1..];
      (Variables(rest) == match Variables(next) case None => None case Some(names) => Some([name] + names))
      && (name in params ==>
            Expand(rest, params)
            == match Expand(next, params)
               case Err(e) => Err(e)
               case Ok(r) => Ok(rest[..i] + PercentEncode(params[name]) + r))
  {
    hide FindChar, PercentEncode;
  }

  lemma {:induction false} NoBrace(done: ByteString, rest: ByteString, i: nat, code: ByteString)
    requires '{' !in done && '{' !in code && FindChar(rest, '{') == Some(i)
    ensures '{' !in done + rest[..i] + code
  {
    hide FindChar;
  }

  lemma {:induction false} ReachNext(path: ByteString, params: Params, done: ByteString, rest: ByteString,
                                     used: set<ByteString>, i: nat, j: nat)
    requires Reached(path, params, done, rest, used)
    requires FindChar(rest, '{') == Some(i) && FindChar(rest[i + 1..], '}') == Some(j)
    requires rest[i + 1..][..j] in params
    ensures
      var name := rest[i + 1..][..j];
      Reached(path, params, done + rest[..i] + PercentEncode(params[name]), rest[i + 1..][j + 1..], used + {name})
  {
    hide PercentEncode, FindChar, Expand, Variables;
    var name, next := rest[i + 1..][..j], rest[i + 1..][j + 1..];
    var code := PercentEncode(params[name]);
    EncodingIsCanonical(params[name]);
    NoBrace(done, rest, i, code);
    ExpandPast(rest, params, i, j);
    if Expand(next, params).Ok? {
      var tail := Expand(next, params).value;
      Assoc(done, rest[..i] + code, tail);
      Assoc(done, rest[..i], code);
    }
  }

  lemma {:induction false} StartReached(path: ByteString, params: Params)
    ensures Reached(path, params, [], path, {})
  {
    hide Variables;
    if Expand(path, params).Ok? {
      assert [] + Expand(path, params).value == Expand(path, params).value;
    }
  }

  /** No brace is left: the output is the expansion, and the names used are the
      variables of the path. */
  lemma {:induction false} ReachedEnd(path: ByteString, params: Params, done: ByteString, rest: ByteString,
                                      used: set<ByteString>)
    requires Reached(path, params, done, rest, used)
    requires FindChar(rest, '{').None?
    ensures Expand(path, params) == Ok(done + rest) && '{' !in done + rest
    ensures Variables(path).Some? && used <= params.Keys
    ensures forall name :: name in used <==> name in Variables(path).value
  {
    hide FindChar;
  }

  /** A brace is not closed, or its name has no value. */
  lemma {:induction false} ReachedError(path: ByteString, params: Params, done: ByteString, rest: ByteString,
                                        used: set<ByteString>, i: nat)
    requires Reached(path, params, done, rest, used)
    requires FindChar(rest, '{') == Some(i)
    ensures
      var after := rest[i + 1..];
      var close := FindChar(after, '}');
      if close.None? then Expand(path, params) == Err(Unmatched)
      else after[..close.value] !in params ==> Expand(path, params) == Err(Missing(after[..close.value]))
  {
    hide FindChar;
  }

  /** Every brace is closed, and the parameters are exactly the variables. */
  ghost predicate NamesExactly(path: ByteString, params: Params) {
    Variables(path).Some? && forall name :: name in params <==> name in Variables(path).value
  }

  lemma {:induction false} ErrorsAreNotExact(path: ByteString, params: Params)
    ensures Expand(path, params).Err? ==> !NamesExactly(path, params)
  {
    hide Expand, Variables;
    ExpandSucceeds(path, params);
  }

  /** The parameters that no variable takes. */
  ghost function Unused(path: ByteString, params: Params): set<ByteString>
    requires Variables(path).Some?
  {
    set name | name in params && name !in Variables(path).value
  }

  /** A `BTreeMap` yields the least key first. */
  function FirstName(names: set<ByteString>): (name: ByteString)
    requires names != {}
    ensures IsLeast(name, names)
  {
    Least(names)
  }

  lemma {:induction false} AreUnused(path: ByteString, params: Params, used: set<ByteString>)
    requires Variables(path).Some? && used <= params.Keys
    requires forall name :: name in used <==> name in Variables(path).value
    ensures params.Keys - used == Unused(path, params)
    ensures params.Keys - used == {} <==> NamesExactly(path, params)
  {
    hide Variables;
    forall name ensures name in params.Keys - used <==> name in params && name !in Variables(path).value {}
    assert params.Keys - used == {} ==> params.Keys == used;
  }

  /** Rescanning from the start after every replacement is the one walk: it
      ends, because no replacement brings in a brace. */
  method SubstitutePath(path: ByteString, params: Params) returns (r: Result<ByteString, PathError>)
    ensures r.Ok? <==> NamesExactly(path, params)
    ensures r.Ok? ==> r == Expand(path, params) && '{' !in r.value
    ensures r.Err? && !r.error.Extra? ==> r == Expand(path, params)
    ensures r.Err? && r.error.Extra? ==>
              Expand(path, params).Ok? && Variables(path).Some?
              && IsLeast(r.error.name, Unused(path, params))
  {
    hide *;
    var output := path;
    var used: set<ByteString> := {};
    ghost var left: nat := |path|;
    FirstStage(path, params);
    ErrorsAreNotExact(path, params);
    while true
      invariant Stage(path, params, output, used, left)
      decreases left
    {
      StageCases(path, params, output, used, left);
      var open := FindChar(output, '{');
      if open.None? {
        break;
      }
      var start: nat := open.value;
      var close := FindChar(output[start + 1..], '}');
      if close.None? {
        return Err(Unmatched);
      }
      var end := start + 1 + close.value;
      var name := output[start + 1..end];
      if name !in params {
        return Err(Missing(name));
      }
      left := NextStage(path, params, output, used, left, start, close.value);
      output := output[..start] + PercentEncode(params[name]) + output[end + 1..];
      used := used + {name};
    }
    var extra := params.Keys - used;
    AreUnused(path, params, used);
    if extra != {} {
      return Err(Extra(FirstName(extra)));
    }
    return Ok(output);
  }

  lemma {:induction false} FirstStage(path: ByteString, params: Params)
    ensures Stage(path, params, path, {}, |path|)
  {
    hide Reached;
    StartReached(path, params);
    assert [] + path == path;
  }

  lemma {:induction false} StageCases(path: ByteString, params: Params, output: ByteString, used: set<ByteString>,
                                      left: nat)
    requires Stage(path, params, output, used, left)
    ensures FindChar(output, '{').None? ==>
              Expand(path, params) == Ok(output) && '{' !in output
              && Variables(path).Some? && used <= params.Keys
              && forall name :: name in used <==> name in Variables(path).value
    ensures FindChar(output, '{').Some? ==>
              var start := FindChar(output, '{').value;
              var close := FindChar(output[start + 1..], '}');
              if close.None? then Expand(path, params) == Err(Unmatched)
              else
                var name := output[start + 1..start + 1 + close.value];
                name !in params ==> Expand(path, params) == Err(Missing(name))
  {
    hide Reached, FindChar, Expand, Variables;
    var done: ByteString, rest: ByteString :|
      output == done + rest && |rest| == left && Reached(path, params, done, rest, used);
    FindAfter(path, params, done, rest, used);
    if FindChar(output, '{').None? {
      ReachedEnd(path, params, done, rest, used);
    } else {
      var i := FindChar(rest, '{').value;
      ReachedError(path, params, done, rest, used, i);
      AfterBrace(done, rest, i);
      var close := FindChar(rest[i + 1..], '}');
      if close.Some? { NameIs(output, |done| + i + 1, close.value); }
    }
  }

  lemma {:induction false} NextStage(path: ByteString, params: Params, output: ByteString, used: set<ByteString>,
                                     left: nat, start: nat, j: nat)
    returns (less: nat)
    requires Stage(path, params, output, used, left)
    requires FindChar(output, '{') == Some(start) && FindChar(output[start + 1..], '}') == Some(j)
    requires output[start + 1..start + 1 + j] in params
    ensures less < left
    ensures
      var name := output[start + 1..start + 1 + j];
      Stage(path, params, output[..start] + PercentEncode(params[name]) + output[start + 1 + j + 1..],
            used + {name}, less)
  {
    hide Reached, FindChar, PercentEncode;
    var done: ByteString, rest: ByteString :|
      output == done + rest && |rest| == left && Reached(path, params, done, rest, used);
    less := NextReached(path, params, done, rest, used, start, j);
  }

  lemma {:induction false} NextReached(path: ByteString, params: Params, done: ByteString, rest: ByteString,
                                       used: set<ByteString>, start: nat, j: nat)
    returns (less: nat)
    requires Reached(path, params, done, rest, used)
    requires
      var output := done + rest;
      FindChar(output, '{') == Some(start) && FindChar(output[start + 1..], '}') == Some(j)
      && output[start + 1..start + 1 + j] in params
    ensures less < |rest|
    ensures
      var output := done + rest;
      var name := output[start + 1..start + 1 + j];
      Stage(path, params, output[..start] + PercentEncode(params[name]) + output[start + 1 + j + 1..],
            used + {name}, less)
  {
    hide *;
    FindAfter(path, params, done, rest, used);
    var i := FindChar(rest, '{').value;
    AfterBrace(done, rest, i);
    NameIs(done + rest, start + 1, j);
    var name, more := rest[i + 1..][..j], rest[i + 1..][j + 1..];
    ReachNext(path, params, done, rest, used, i, j);
    MoveOn(done, rest, i, j, PercentEncode(params[name]));
    AreStage(path, params, done + rest[..i] + PercentEncode(params[name]), more, used + {name});
    less := |more|;
  }

  lemma {:induction false} AreStage(path: ByteString, params: Params, done: ByteString, rest: ByteString,
                                    used: set<ByteString>)
    requires Reached(path, params, done, rest, used)
    ensures Stage(path, params, done + rest, used, |rest|)
  {
    hide Reached;
  }

  lemma {:induction false} FindAfter(path: ByteString, params: Params, done: ByteString, rest: ByteString,
                                     used: set<ByteString>)
    requires Reached(path, params, done, rest, used)
    ensures FindChar(done + rest, '{')
            == match FindChar(rest, '{') case None => None case Some(i) => Some(|done| + i)
  {
    hide FindChar;
    FindPast(done, rest);
  }

  lemma {:induction false} NameIs(output: ByteString, start: nat, j: nat)
    requires start + j <= |output|
    ensures output[start..start + j] == output[start..][..j]
  {
  }

  lemma {:induction false} AfterBrace(done: ByteString, rest: ByteString, i: nat)
    requires i < |rest|
    ensures (done + rest)[|done| + i + 1..] == rest[i + 1..]
  {
  }

  lemma {:induction false} MoveOn(done: ByteString, rest: ByteString, i: nat, j: nat, code: ByteString)
    requires i + 1 + j + 1 <= |rest|
    ensures
      var output := done + rest;
      var start := |done| + i;
      output[..start] + code + output[start + 1 + j + 1..] == done + rest[..i] + code + rest[i + 1..][j + 1..]
  {
    var output := done + rest;
    assert output[..|done| + i] == done + rest[..i];
    assert output[|done| + i + 1 + j + 1..] == rest[i + 1..][j + 1..];
  }

  // ---- what the walk means ----

  /** Literal text and the variable after it. */
  datatype Part = Part(literal: ByteString, name: ByteString)

  function TemplateText(parts: seq<Part>, tail: ByteString): ByteString {
    if parts == [] then tail
    else parts[0].literal + ['{'] + (parts[0].name + ['}'] + TemplateText(parts[1..], tail))
  }

  function Filled(parts: seq<Part>, tail: ByteString, params: Params): ByteString
    requires forall i | 0 <= i < |parts| :: parts[i].name in params
  {
    if parts == [] then tail
    else parts[0].literal + PercentEncode(params[parts[0].name]) + Filled(parts[1..], tail, params)
  }

  function NamesOf(parts: seq<Part>): seq<ByteString> {
    if parts == [] then [] else [parts[0].name] + NamesOf(parts[1..])
  }

  lemma {:induction false} PartFills(part: Part, rest: ByteString, params: Params)
    requires '{' !in part.literal && '}' !in part.name
    ensures
      var text := part.literal + ['{'] + (part.name + ['}'] + rest);
      (Variables(text) == match Variables(rest) case None => None case Some(names) => Some([part.name] + names))
      && (part.name in params ==>
            Expand(text, params)
            == match Expand(rest, params)
               case Err(e) => Err(e)
               case Ok(r) => Ok(part.literal + PercentEncode(params[part.name]) + r))
  {
    hide *;
    var after := part.name + ['}'] + rest;
    var text := part.literal + ['{'] + after;
    FindAt(part.literal, '{', after);
    FindAt(part.name, '}', rest);
    ExpandPast(text, params, |part.literal|, |part.name|);
  }

  /** Every variable of a template is replaced by its encoded value, and the
      text between them is kept. */
  lemma {:induction false} ExpandFills(parts: seq<Part>, tail: ByteString, params: Params)
    requires forall i | 0 <= i < |parts| :: '{' !in parts[i].literal && '}' !in parts[i].name
    requires '{' !in tail
    ensures Variables(TemplateText(parts, tail)) == Some(NamesOf(parts))
    ensures (forall i | 0 <= i < |parts| :: parts[i].name in params) ==>
              Expand(TemplateText(parts, tail), params) == Ok(Filled(parts, tail, params))
  {
    hide PercentEncode, FindChar, Expand, Variables;
    if parts != [] {
      ExpandFills(parts[1..], tail, params);
      PartFills(parts[0], TemplateText(parts[1..], tail), params);
    } else {
      NothingToFill(tail, params);
    }
  }

  lemma {:induction false} ErrorsCarry(parts: seq<Part>, tail: ByteString, params: Params, e: PathError)
    requires forall i | 0 <= i < |parts| ::
               '{' !in parts[i].literal && '}' !in parts[i].name && parts[i].name in params
    requires Expand(tail, params) == Err(e)
    ensures Expand(TemplateText(parts, tail), params) == Err(e)
  {
    hide PercentEncode, FindChar, Expand, Variables;
    if parts != [] {
      ErrorsCarry(parts[1..], tail, params, e);
      PartFills(parts[0], TemplateText(parts[1..], tail), params);
    }
  }

  /** The first variable without a value is the one reported, whatever stands
      behind it; a brace that is not closed is reported when every variable before
      it has a value. */
  lemma {:induction false} FirstFailure(parts: seq<Part>, literal: ByteString, name: ByteString, rest: ByteString,
                                        params: Params)
    requires forall i | 0 <= i < |parts| ::
               '{' !in parts[i].literal && '}' !in parts[i].name && parts[i].name in params
    requires '{' !in literal && '}' !in name
    ensures name !in params ==>
              Expand(TemplateText(parts, literal + ['{'] + (name + ['}'] + rest)), params) == Err(Missing(name))
    ensures Expand(TemplateText(parts, literal + ['{'] + name), params) == Err(Unmatched)
  {
    hide *;
    var after := name + ['}'] + rest;
    FindAt(literal, '{', after);
    FindAt(name, '}', rest);
    FindAt(literal, '{', name);
    ExpandErrs(literal + ['{'] + after, params, |literal|);
    ExpandErrs(literal + ['{'] + name, params, |literal|);
    NotFound(name, '}');
    if name !in params { ErrorsCarry(parts, literal + ['{'] + after, params, Missing(name)); }
    ErrorsCarry(parts, literal + ['{'] + name, params, Unmatched);
  }

  lemma {:induction false} NotFound(s: ByteString, c: Byte)
    requires c !in s
    ensures FindChar(s, c).None?
  {
  }

  lemma {:induction false} ExpandErrs(path: ByteString, params: Params, i: nat)
    requires FindChar(path, '{') == Some(i)
    ensures
      var after := path[i + 1..];
      var close := FindChar(after, '}');
      (close.None? ==> Expand(path, params) == Err(Unmatched))
      && (close.Some? && after[..close.value] !in params ==> Expand(path, params) == Err(Missing(after[..close.value])))
  {
    hide FindChar;
  }

  lemma {:induction false} NothingToFill(tail: ByteString, params: Params)
    requires '{' !in tail
    ensures Variables(tail) == Some([]) && Expand(tail, params) == Ok(tail)
  {
    hide FindChar;
  }
}
