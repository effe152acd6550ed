/** The session seen from the client: the JSON it sends, and what it is shown and
    answered over every run. */
module LspConversation {
  import opened Text
  import opened Bytes
  import opened Json
  import opened LspServer

  // ---- what the client says of its buffers ----

  ghost predicate Calls(message: Value, name: string) {
    Holds(message, "method", Str(name))
  }

  /** The parameters, and the document they are about. */
  ghost predicate IsAbout(message: Value, params: Value, item: Value, uri: string) {
    Holds(message, "params", params) && Holds(params, "textDocument", item) && Holds(item, "uri", Str(uri))
  }

  ghost predicate Opens(message: Value, uri: string, text: string) {
    Calls(message, "textDocument/didOpen")
    && exists params, item :: IsAbout(message, params, item, uri) && Holds(item, "text", Str(text))
  }

  /** Whatever changes stand before the last one. */
  ghost predicate Changes(message: Value, uri: string, text: string) {
    Calls(message, "textDocument/didChange")
    && exists params, item :: IsAbout(message, params, item, uri) && EndsWithText(params, text)
  }

  ghost predicate EndsWithText(params: Value, text: string) {
    params.Obj? && "contentChanges" in params.fields && params.fields["contentChanges"].Arr?
    && var changes := params.fields["contentChanges"].items;
       changes != [] && Holds(changes[|changes| - 1], "text", Str(text))
  }

  ghost predicate Sends(message: Value, uri: string, text: string) {
    Opens(message, uri, text) || Changes(message, uri, text)
  }

  ghost predicate Closes(message: Value, uri: string) {
    Calls(message, "textDocument/didClose") && exists params, item :: IsAbout(message, params, item, uri)
  }

  lemma {:induction false} MethodIff(message: Value, name: string)
    requires name != []
    ensures Method(message) == name <==> Calls(message, name)
  {
  }

  lemma {:induction false} UriIff(message: Value, uri: string)
    ensures DocumentUri(Get(message, "params")) == Some(uri)
            <==> exists params, item :: IsAbout(message, params, item, uri)
    ensures forall params, item | IsAbout(message, params, item, uri) ::
              Get(message, "params") == Some(params) && Get(params, "textDocument") == Some(item)
  {
    if DocumentUri(Get(message, "params")) == Some(uri) {
      var params := Get(message, "params").value;
      assert IsAbout(message, params, Get(params, "textDocument").value, uri);
    }
  }

  lemma {:induction false} OpenedIff(message: Value, uri: string, text: string)
    requires Calls(message, "textDocument/didOpen")
    ensures DocumentUri(Get(message, "params")) == Some(uri) && OpenedText(Get(message, "params")) == Some(text)
            <==> Opens(message, uri, text)
  {
    UriIff(message, uri);
    hide IsAbout, DocumentUri;
  }

  lemma {:induction false} ChangedIff(message: Value, uri: string, text: string)
    requires Calls(message, "textDocument/didChange")
    ensures DocumentUri(Get(message, "params")) == Some(uri) && ChangedText(Get(message, "params")) == Some(text)
            <==> Changes(message, uri, text)
  {
    UriIff(message, uri);
    hide IsAbout, DocumentUri, ChangedText, EndsWithText;
    forall params ensures ChangedText(Some(params)) == Some(text) <==> EndsWithText(params, text) {
      LastTextIff(params, text);
    }
    NothingChanged(text);
  }

  lemma {:induction false} LastTextIff(params: Value, text: string)
    ensures ChangedText(Some(params)) == Some(text) <==> EndsWithText(params, text)
  {
  }

  lemma {:induction false} NothingChanged(text: string)
    ensures ChangedText(None) != Some(text)
  {
  }

  /** What a message does to a buffer is what it says. */
  lemma {:induction false} EventIff(message: Value, uri: string, text: string)
    ensures EventOf(message) == Some(Held(uri, text)) <==> Sends(message, uri, text)
    ensures EventOf(message) == Some(Closed(uri)) <==> Closes(message, uri)
  {
    hide DocumentUri, OpenedText, ChangedText, IsAbout, Method, Calls;
    MethodIff(message, "textDocument/didOpen");
    MethodIff(message, "textDocument/didChange");
    MethodIff(message, "textDocument/didClose");
    UriIff(message, uri);
    if Calls(message, "textDocument/didOpen") { OpenedIff(message, uri, text); }
    if Calls(message, "textDocument/didChange") { ChangedIff(message, uri, text); }
  }

  // ---- what it is shown ----

  /** The last diagnostics that were published for a document. */
  ghost predicate Shows(output: seq<Outgoing>, uri: string, diagnostics: seq<Value>) {
    exists k | 0 <= k < |output| ::
      output[k] == Publish(uri, diagnostics)
      && forall j | k < j < |output| :: !(output[j].Publish? && output[j].uri == uri)
  }

  lemma {:induction false} ShowsIff(output: seq<Outgoing>, uri: string, diagnostics: seq<Value>)
    ensures LastPublished(output, uri) == Some(diagnostics) <==> Shows(output, uri, diagnostics)
  {
    if output != [] {
      var init, said := output[..|output| - 1], output[|output| - 1];
      ShowsIff(init, uri, diagnostics);
      hide LastPublished;
      LastPublishedAppend(init, said, uri);
      assert output == init + [said];
      if said.Publish? && said.uri == uri {
        if said.diagnostics == diagnostics { assert output[|output| - 1] == Publish(uri, diagnostics); }
      } else {
        if k :| 0 <= k < |init| && init[k] == Publish(uri, diagnostics)
                && forall j | k < j < |init| :: !(init[j].Publish? && init[j].uri == uri) {
          assert output[k] == Publish(uri, diagnostics);
        }
      }
    }
  }

  /** No message speaks of the document. */
  ghost predicate Silent(messages: seq<Value>, uri: string) {
    forall k | 0 <= k < |messages| ::
      !Closes(messages[k], uri) && forall text :: !Sends(messages[k], uri, text)
  }

  lemma {:induction false} LastEventAfter(before: seq<Value>, message: Value, after: seq<Value>, uri: string)
    requires EventOf(message).Some? && EventOf(message).value.uri == uri && Silent(after, uri)
    ensures LastEvent(before + [message] + after, uri) == EventOf(message)
  {
    hide EventOf, Closes, Sends;
    var all := before + [message] + after;
    if after != [] {
      var last := after[|after| - 1];
      assert all[|all| - 1] == last && all[..|all| - 1] == before + [message] + after[..|after| - 1];
      SaysNothing(last, uri);
      LastEventAfter(before, message, after[..|after| - 1], uri);
    }
  }

  lemma {:induction false} SaysNothing(message: Value, uri: string)
    requires !Closes(message, uri) && forall text :: !Sends(message, uri, text)
    ensures EventOf(message).Some? ==> EventOf(message).value.uri != uri
  {
    hide EventOf, Closes, Sends;
    var event := EventOf(message);
    if event.Some? {
      EventIff(message, event.value.uri, if event.value.Held? then event.value.text else "");
    }
  }

  lemma {:induction false} NoEvent(messages: seq<Value>, uri: string)
    requires Silent(messages, uri)
    ensures LastEvent(messages, uri) == None
  {
    hide EventOf, Closes, Sends;
    if messages != [] {
      SaysNothing(messages[|messages| - 1], uri);
      NoEvent(messages[..|messages| - 1], uri);
    }
  }

  /** Over every run: after the last text the client sent of a document, that text
      is held and its diagnostics are shown. */
  lemma {:induction false} SentIsHeldAndShown(services: Services, before: seq<Value>, message: Value,
                                              after: seq<Value>, uri: string, text: string)
    requires Sends(message, uri, text) && Silent(after, uri)
    ensures
      var (state, output) := Run(services, before + [message] + after);
      uri in state.documents && state.documents[uri] == text && Shows(output, uri, services.diagnose(text))
  {
    hide *;
    EventIff(message, uri, text);
    LastEventAfter(before, message, after, uri);
    DiagnosticsTrackBuffers(services, before + [message] + after, uri);
    ShowsIff(Run(services, before + [message] + after).1, uri, services.diagnose(text));
  }

  /** After the client closed it, nothing is held and nothing is shown. */
  lemma {:induction false} ClosedIsCleared(services: Services, before: seq<Value>, message: Value,
                                           after: seq<Value>, uri: string)
    requires Closes(message, uri) && Silent(after, uri)
    ensures
      var (state, output) := Run(services, before + [message] + after);
      uri !in state.documents && Shows(output, uri, [])
  {
    hide *;
    EventIff(message, uri, "");
    LastEventAfter(before, message, after, uri);
    DiagnosticsTrackBuffers(services, before + [message] + after, uri);
    ShowsIff(Run(services, before + [message] + after).1, uri, []);
  }

  /** Of a document it never spoke of, nothing is held and nothing was ever
      published. */
  lemma {:induction false} UnspokenIsUnknown(services: Services, messages: seq<Value>, uri: string)
    requires Silent(messages, uri)
    ensures
      var (state, output) := Run(services, messages);
      uri !in state.documents && forall diagnostics :: !Shows(output, uri, diagnostics)
  {
    hide *;
    NoEvent(messages, uri);
    DiagnosticsTrackBuffers(services, messages, uri);
    forall diagnostics ensures !Shows(Run(services, messages).1, uri, diagnostics) {
      ShowsIff(Run(services, messages).1, uri, diagnostics);
    }
  }

  // ---- what it is answered ----

  /** A line and a character, both natural numbers below two to the power of 64. */
  ghost predicate Positioned(params: Value, row: int, column: int) {
    0 <= row < 0x1_0000_0000_0000_0000 && 0 <= column < 0x1_0000_0000_0000_0000
    && params.Obj? && "position" in params.fields
    && Holds(params.fields["position"], "line", Num(Int(row)))
    && Holds(params.fields["position"], "character", Num(Int(column)))
  }

  /** The request is about this line and character of a held text. */
  ghost predicate Points(documents: map<string, string>, message: Value, place: Place) {
    exists params, item, uri ::
      IsAbout(message, params, item, uri) && Positioned(params, place.row, place.column)
      && uri in documents && documents[uri] == place.text
  }

  lemma {:induction false} PositionIff(params: Value, row: int, column: int)
    ensures Positioned(params, row, column)
            <==> Get(params, "position").Some?
                 && Natural(Get(Get(params, "position").value, "line")) == Some(row)
                 && Natural(Get(Get(params, "position").value, "character")) == Some(column)
  {
  }

  lemma {:induction false} PlaceCases(documents: map<string, string>, params: Option<Value>, place: Place)
    ensures PlaceOf(documents, params) == Some(place)
            <==> DocumentUri(params).Some? && DocumentUri(params).value in documents
                 && documents[DocumentUri(params).value] == place.text
                 && Positioned(params.value, place.row, place.column)
  {
    if params.Some? { PositionIff(params.value, place.row, place.column); }
    hide Natural, Positioned;
  }

  lemma {:induction false} PointsIff(documents: map<string, string>, message: Value, place: Place)
    ensures PlaceOf(documents, Get(message, "params")) == Some(place) <==> Points(documents, message, place)
  {
    hide PlaceOf, DocumentUri, IsAbout, Positioned;
    PlaceCases(documents, Get(message, "params"), place);
    var found := DocumentUri(Get(message, "params"));
    if found.Some? { UriIff(message, found.value); }
    forall params, item, uri | IsAbout(message, params, item, uri)
      ensures found == Some(uri) && Get(message, "params") == Some(params)
    {
      UriIff(message, uri);
    }
  }

  /** What one more request adds to the output, by method: the place it is about
      goes to the service, or none when it names no held text or no position. */
  lemma {:induction false} RequestIsAnswered(services: Services, messages: seq<Value>, message: Value, id: Value,
                                             place: Option<Place>)
    requires Holds(message, "id", id)
    requires
      var documents := Run(services, messages).0.documents;
      match place
      case Some(p) => Points(documents, message, p)
      case None => forall p :: !Points(documents, message, p)
    ensures
      var ((state, output), (next, more)) := (Run(services, messages), Run(services, messages + [message]));
      (Calls(message, "textDocument/completion") ==>
         next == state && more == output + [Respond(id, Result(services.complete(place)))])
      && (Calls(message, "textDocument/hover") ==>
            next == state && more == output + [Respond(id, Result(services.hover(place)))])
      && (Calls(message, "textDocument/definition") ==>
            next == state && more == output + [Respond(id, Result(services.define(place, state.project)))])
  {
    var (state, output) := Run(services, messages);
    RunStep(services, messages, message);
    hide Run, DocumentUri, PlaceOf, Points;
    if place.Some? {
      PointsIff(state.documents, message, place.value);
    } else if PlaceOf(state.documents, Get(message, "params")).Some? {
      PointsIff(state.documents, message, PlaceOf(state.documents, Get(message, "params")).value);
    }
  }

  /** The other requests: the handshake loads the project, the shutdown is noted,
      and a method that is not known is refused, after what it says of a buffer. */
  lemma {:induction false} OtherRequests(services: Services, messages: seq<Value>, message: Value, id: Value)
    requires Holds(message, "id", id)
    ensures
      var ((state, output), (next, more)) := (Run(services, messages), Run(services, messages + [message]));
      (Calls(message, "initialize") ==>
         next == state.(project := services.load(Get(message, "params")))
         && more == output + [Respond(id, Result(services.capabilities))])
      && (Calls(message, "shutdown") ==>
            next == state.(shuttingDown := true) && more == output + [Respond(id, Result(Null))])
      && ((forall name | Calls(message, name) ::
             name != "initialize" && name != "shutdown" && name != "textDocument/completion"
             && name != "textDocument/hover" && name != "textDocument/definition") ==>
            next.project == state.project && next.shuttingDown == state.shuttingDown
            && |more| > 0 && more[|more| - 1] == Respond(id, MethodNotFound))
  {
    RunStep(services, messages, message);
    hide Run, DocumentUri, PlaceOf;
    assert Method(message) != [] ==> Calls(message, Method(message));
  }

  // ---- where it ends ----

  /** The bodies that are JSON, in order. */
  ghost function Parsed(services: Services, bodies: seq<ByteString>): seq<Value> {
    if bodies == [] then []
    else
      var message := services.parse(bodies[|bodies| - 1]);
      Parsed(services, bodies[..|bodies| - 1]) + (if message.Some? then [message.value] else [])
  }

  ghost predicate IsExit(services: Services, body: ByteString) {
    services.parse(body).Some? && Calls(services.parse(body).value, "exit")
  }

  lemma {:induction false} ParsedFirst(services: Services, body: ByteString, rest: seq<ByteString>)
    ensures Parsed(services, [body] + rest)
            == (match services.parse(body) case None => [] case Some(message) => [message]) + Parsed(services, rest)
  {
    if rest == [] {
      assert [body] + rest == [body] && [body][..0] == [];
    } else {
      var all := [body] + rest;
      assert all[..|all| - 1] == [body] + rest[..|rest| - 1];
      ParsedFirst(services, body, rest[..|rest| - 1]);
    }
  }

  /** The messages that are acted on are all of them up to the first `exit`. */
  lemma {:induction false} ActsUpToExit(services: Services, before: seq<ByteString>, body: ByteString,
                                        rest: seq<ByteString>)
    requires forall k | 0 <= k < |before| :: !IsExit(services, before[k])
    ensures Handled(services, before) == Parsed(services, before) && !Exits(services, before)
    ensures IsExit(services, body) ==>
              Handled(services, before + [body] + rest) == Parsed(services, before)
              && Exits(services, before + [body] + rest)
  {
    hide Handled, Exits, Method, Calls;
    NoBodies(services);
    forall k | 0 <= k < |before|
      ensures services.parse(before[k]).Some? ==> Method(services.parse(before[k]).value) != "exit"
    {
      if services.parse(before[k]).Some? { MethodIff(services.parse(before[k]).value, "exit"); }
    }
    if before == [] {
      assert before + [body] + rest == [body] + rest;
      BodyFirst(services, body, rest);
      if IsExit(services, body) { MethodIff(services.parse(body).value, "exit"); }
    } else {
      var first, more := before[0], before[1..];
      assert before == [first] + more && before + [body] + rest == [first] + (more + [body] + rest);
      ActsUpToExit(services, more, body, rest);
      BodyFirst(services, first, more);
      BodyFirst(services, first, more + [body] + rest);
      ParsedFirst(services, first, more);
    }
  }
}
