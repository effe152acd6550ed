/** The language server's session: the open buffers, and what it says about
    them, over every run. */
module LspServer {
  import opened Text
  import opened Bytes
  import opened Json
  import opened LspFraming

  /** What the server asks of the rest of the program. */
  datatype Services = Services(
    parse: ByteString -> Option<Value>,
    diagnose: string -> seq<Value>,
    load: Option<Value> -> Option<string>,
    capabilities: Value,
    complete: (Option<Place>) -> Value,
    hover: (Option<Place>) -> Value,
    define: (Option<Place>, Option<string>) -> Value)

  /** A position in an open buffer. */
  datatype Place = Place(text: string, row: int, column: int)

  datatype Answer = Result(value: Value) | MethodNotFound

  datatype Outgoing =
    | Publish(uri: string, diagnostics: seq<Value>)
    | Respond(id: Value, answer: Answer)

  datatype State = State(documents: map<string, string>, project: Option<string>, shuttingDown: bool)

  const INITIAL := State(map[], None, false)

  // ---- reading a message ----

  function Method(message: Value): string {
    match StrAt(message, "method") case Some(s) => s case None => ""
  }

  function DocumentUri(params: Option<Value>): Option<string> {
    if params.None? then None
    else match Get(params.value, "textDocument")
      case None => None
      case Some(item) => StrAt(item, "uri")
  }

  /** `didOpen`: the whole text. */
  function OpenedText(params: Option<Value>): Option<string> {
    if params.None? then None
    else match Get(params.value, "textDocument")
      case None => None
      case Some(item) => StrAt(item, "text")
  }

  /** `didChange`: the text of the last change. */
  function ChangedText(params: Option<Value>): Option<string> {
    if params.None? then None
    else match ArrAt(params.value, "contentChanges")
      case None => None
      case Some(changes) => if changes == [] then None else StrAt(changes[|changes| - 1], "text")
  }

  function Natural(v: Option<Value>): Option<int> {
    match v
    case Some(Num(Int(i))) => if 0 <= i < USIZE_LIMIT then Some(i) else None
    case _ => None
  }

  function PlaceOf(documents: map<string, string>, params: Option<Value>): Option<Place> {
    var uri := DocumentUri(params);
    if uri.None? then None
    else match Get(params.value, "position")
      case None => None
      case Some(position) =>
        var row, column := Natural(Get(position, "line")), Natural(Get(position, "character"));
        if row.Some? && column.Some? && uri.value in documents
        then Some(Place(documents[uri.value], row.value, column.value)) else None
  }

  // ---- the server ----

  class Server {
    var documents: map<string, string>
    var project: Option<string>
    var shuttingDown: bool

    constructor ()
      ensures Now() == INITIAL
    {
      documents, project, shuttingDown := map[], None, false;
    }

    ghost function Now(): State
      reads this
    {
      State(documents, project, shuttingDown)
    }

    method PublishFor(services: Services, uri: string) returns (notes: seq<Outgoing>)
      ensures notes == if uri in documents then [Publish(uri, services.diagnose(documents[uri]))] else []
    {
      if uri !in documents {
        return [];
      }
      return [Publish(uri, services.diagnose(documents[uri]))];
    }

    method Notify(services: Services, name: string, params: Option<Value>) returns (notes: seq<Outgoing>)
      modifies this
      ensures project == old(project) && shuttingDown == old(shuttingDown)
      ensures match BufferEvent(name, params)
              case None => documents == old(documents) && notes == []
              case Some(Held(uri, text)) =>
                documents == old(documents)[uri := text] && notes == [Publish(uri, services.diagnose(text))]
              case Some(Closed(uri)) =>
                documents == old(documents) - {uri} && notes == [Publish(uri, [])]
    {
      notes := [];
      if name == "textDocument/didOpen" {
        var uri, text := DocumentUri(params), OpenedText(params);
        if uri.Some? && text.Some? {
          documents := documents[uri.value := text.value];
          notes := PublishFor(services, uri.value);
        }
      } else if name == "textDocument/didChange" {
        var uri, text := DocumentUri(params), ChangedText(params);
        if uri.Some? && text.Some? {
          documents := documents[uri.value := text.value];
          notes := PublishFor(services, uri.value);
        }
      } else if name == "textDocument/didClose" {
        var uri := DocumentUri(params);
        if uri.Some? {
          documents := documents - {uri.value};
          notes := [Publish(uri.value, [])];
        }
      }
    }

    method Request(services: Services, name: string, params: Option<Value>) returns (answer: Answer)
      modifies this
      ensures documents == old(documents)
      ensures (answer, project, shuttingDown)
              == Answered(services, old(documents), old(project), old(shuttingDown), name, params)
    {
      if name == "initialize" {
        project := services.load(params);
        answer := Result(services.capabilities);
      } else if name == "shutdown" {
        shuttingDown := true;
        answer := Result(Null);
      } else if name == "textDocument/completion" {
        answer := Result(services.complete(PlaceOf(documents, params)));
      } else if name == "textDocument/hover" {
        answer := Result(services.hover(PlaceOf(documents, params)));
      } else if name == "textDocument/definition" {
        answer := Result(services.define(PlaceOf(documents, params), project));
      } else {
        answer := MethodNotFound;
      }
    }

    /** One parsed message: what the server says of its own, then the answer
        when an id asks for one. */
    method Handle(services: Services, message: Value) returns (said: seq<Outgoing>)
      modifies this
      ensures (Now(), said) == Step(services, old(Now()), message)
    {
      hide PlaceOf, BufferEvent;
      var name, params := Method(message), Get(message, "params");
      said := Notify(services, name, params);
      var id := Get(message, "id");
      if id.Some? {
        var answer := Request(services, name, params);
        said := said + [Respond(id.value, answer)];
      }
    }
  }

  function Answered(services: Services, documents: map<string, string>, project: Option<string>, down: bool,
                    name: string, params: Option<Value>): (Answer, Option<string>, bool) {
    if name == "initialize" then (Result(services.capabilities), services.load(params), down)
    else if name == "shutdown" then (Result(Null), project, true)
    else if name == "textDocument/completion" then
      (Result(services.complete(PlaceOf(documents, params))), project, down)
    else if name == "textDocument/hover" then
      (Result(services.hover(PlaceOf(documents, params))), project, down)
    else if name == "textDocument/definition" then
      (Result(services.define(PlaceOf(documents, params), project)), project, down)
    else (MethodNotFound, project, down)
  }

  // ---- what a message does to a buffer ----

  datatype Buffer = Held(uri: string, text: string) | Closed(uri: string)

  function BufferEvent(name: string, params: Option<Value>): Option<Buffer> {
    var uri := DocumentUri(params);
    if uri.None? then None
    else if name == "textDocument/didOpen" then
      (match OpenedText(params) case Some(text) => Some(Held(uri.value, text)) case None => None)
    else if name == "textDocument/didChange" then
      (match ChangedText(params) case Some(text) => Some(Held(uri.value, text)) case None => None)
    else if name == "textDocument/didClose" then Some(Closed(uri.value))
    else None
  }

  function EventOf(message: Value): Option<Buffer> {
    BufferEvent(Method(message), Get(message, "params"))
  }

  // ---- the loop ----

  /** The messages the loop acts on: the bodies that are JSON, up to `exit`. */
  function Handled(services: Services, bodies: seq<ByteString>): seq<Value> {
    if bodies == [] then []
    else match services.parse(bodies[0])
      case None => Handled(services, bodies[1..])
      case Some(message) =>
        if Method(message) == "exit" then [] else [message] + Handled(services, bodies[1..])
  }

  predicate Exits(services: Services, bodies: seq<ByteString>) {
    exists i | 0 <= i < |bodies| ::
      services.parse(bodies[i]).Some? && Method(services.parse(bodies[i]).value) == "exit"
  }

  function NotesOf(services: Services, message: Value): seq<Outgoing> {
    match EventOf(message)
    case None => []
    case Some(Held(uri, text)) => [Publish(uri, services.diagnose(text))]
    case Some(Closed(uri)) => [Publish(uri, [])]
  }

  function Step(services: Services, state: State, message: Value): (State, seq<Outgoing>) {
    var documents := match EventOf(message)
      case None => state.documents
      case Some(Held(uri, text)) => state.documents[uri := text]
      case Some(Closed(uri)) => state.documents - {uri};
    var id := Get(message, "id");
    if id.None? then (state.(documents := documents), NotesOf(services, message))
    else
      var (answer, project, down) := Answered(services, documents, state.project, state.shuttingDown,
                                              Method(message), Get(message, "params"));
      (State(documents, project, down), NotesOf(services, message) + [Respond(id.value, answer)])
  }

  function Run(services: Services, messages: seq<Value>): (State, seq<Outgoing>) {
    if messages == [] then (INITIAL, [])
    else
      var (state, output) := Run(services, messages[..|messages| - 1]);
      var (next, more) := Step(services, state, messages[|messages| - 1]);
      (next, output + more)
  }

  lemma {:induction false} RunStep(services: Services, messages: seq<Value>, message: Value)
    ensures
      var (state, output) := Run(services, messages);
      var (next, more) := Step(services, state, message);
      Run(services, messages + [message]) == (next, output + more)
  {
    assert (messages + [message])[..|messages|] == messages;
  }

  lemma {:induction false} NothingDone(services: Services)
    ensures Run(services, []) == (INITIAL, [])
  {
  }

  /** Reading one message takes the first body off the session. */
  lemma {:induction false} SessionStep(stream: ByteString)
    ensures match ReadFrom(stream, None)
            case EndOfInput => ReadAll(stream) == Session([], None)
            case Broken(failure) => ReadAll(stream) == Session([], Some(failure))
            case Message(body, rest) =>
              ReadAll(stream) == Session([body] + ReadAll(rest).bodies, ReadAll(rest).failure)
  {
  }

  lemma {:induction false} BodyFirst(services: Services, body: ByteString, rest: seq<ByteString>)
    ensures
      var parsed := services.parse(body);
      Handled(services, [body] + rest)
      == (if parsed.None? then Handled(services, rest)
          else if Method(parsed.value) == "exit" then []
          else [parsed.value] + Handled(services, rest))
    ensures
      var parsed := services.parse(body);
      Exits(services, [body] + rest)
      <==> (parsed.Some? && Method(parsed.value) == "exit") || Exits(services, rest)
  {
    hide Method;
    var all := [body] + rest;
    assert all[1..] == rest && all[0] == body;
    if i :| 0 <= i < |rest| && services.parse(rest[i]).Some? && Method(services.parse(rest[i]).value) == "exit" {
      assert all[i + 1] == rest[i];
    }
  }

  lemma {:induction false} NoBodies(services: Services)
    ensures Handled(services, []) == [] && !Exits(services, [])
  {
  }

  /** The loop over a stream does what `Run` does on the messages in it, and
      fails only where the stream breaks before an `exit`. */
  method Serve(services: Services, stream: ByteString) returns (output: seq<Outgoing>, failed: Option<Failure>)
    ensures
      var session := ReadAll(stream);
      output == Run(services, Handled(services, session.bodies)).1
      && failed == if Exits(services, session.bodies) then None else session.failure
  {
    hide Step, ReadFrom, ReadAll, Method, Exits, Handled, Run;
    var server := new Server();
    var reader := new Reader(stream);
    output := [];
    ghost var done: seq<Value> := [];
    ghost var session := ReadAll(stream);
    NothingDone(services);
    NoBodies(services);
    while true
      invariant fresh(server) && fresh(reader)
      invariant Run(services, done) == (server.Now(), output)
      invariant done + Handled(services, ReadAll(reader.pending).bodies) == Handled(services, session.bodies)
      invariant Exits(services, ReadAll(reader.pending).bodies) == Exits(services, session.bodies)
      invariant ReadAll(reader.pending).failure == session.failure
      decreases |reader.pending|
    {
      SessionStep(reader.pending);
      assert done + [] == done;
      var read := reader.ReadMessage();
      if read.Err? {
        return output, Some(read.error);
      }
      if read.value.None? {
        return output, None;
      }
      var body := read.value.value;
      ghost var rest := ReadAll(reader.pending).bodies;
      BodyFirst(services, body, rest);
      var parsed := services.parse(body);
      if parsed.None? {
        continue;
      }
      var message := parsed.value;
      if Method(message) == "exit" {
        return output, None;
      }
      RunStep(services, done, message);
      Assoc(done, [message], Handled(services, rest));
      var said := server.Handle(services, message);
      output := output + said;
      done := done + [message];
    }
  }

  // ---- what every run keeps ----

  /** The last thing the messages say about a buffer. */
  function LastEvent(messages: seq<Value>, uri: string): Option<Buffer> {
    if messages == [] then None
    else
      var event := EventOf(messages[|messages| - 1]);
      if event.Some? && event.value.uri == uri then event
      else LastEvent(messages[..|messages| - 1], uri)
  }

  /** The diagnostics a client currently shows for a buffer. */
  function LastPublished(output: seq<Outgoing>, uri: string): Option<seq<Value>> {
    if output == [] then None
    else
      var said := output[|output| - 1];
      if said.Publish? && said.uri == uri then Some(said.diagnostics)
      else LastPublished(output[..|output| - 1], uri)
  }

  lemma {:induction false} LastPublishedAppend(output: seq<Outgoing>, said: Outgoing, uri: string)
    ensures LastPublished(output + [said], uri)
            == if said.Publish? && said.uri == uri then Some(said.diagnostics) else LastPublished(output, uri)
  {
    assert (output + [said])[..|output|] == output;
  }

  /** After every run, the buffer a URI names is the text the client last sent
      for it, and the diagnostics last published for it are those of that text,
      or none once it is closed. */
  lemma {:induction false} DiagnosticsTrackBuffers(services: Services, messages: seq<Value>, uri: string)
    ensures
      var (state, output) := Run(services, messages);
      match LastEvent(messages, uri)
      case None => uri !in state.documents && LastPublished(output, uri) == None
      case Some(Held(_, text)) =>
        uri in state.documents && state.documents[uri] == text
        && LastPublished(output, uri) == Some(services.diagnose(text))
      case Some(Closed(_)) => uri !in state.documents && LastPublished(output, uri) == Some([])
  {
    if messages != [] {
      var init, message := messages[..|messages| - 1], messages[|messages| - 1];
      DiagnosticsTrackBuffers(services, init, uri);
      var (state, output) := Run(services, init);
      StepTracks(services, state, output, message, uri);
    }
  }

  lemma {:induction false} StepTracks(
    services: Services, state: State, output: seq<Outgoing>, message: Value, uri: string)
    ensures
      var (next, more) := Step(services, state, message);
      var event := EventOf(message);
      if event.Some? && event.value.uri == uri then
        match event.value
        case Held(_, text) =>
          uri in next.documents && next.documents[uri] == text
          && LastPublished(output + more, uri) == Some(services.diagnose(text))
        case Closed(_) => uri !in next.documents && LastPublished(output + more, uri) == Some([])
      else
        (uri in next.documents <==> uri in state.documents)
        && (uri in state.documents ==> next.documents[uri] == state.documents[uri])
        && LastPublished(output + more, uri) == LastPublished(output, uri)
  {
    hide EventOf, Answered, LastPublished;
    var notes := NotesOf(services, message);
    var (next, more) := Step(services, state, message);
    if notes == [] {
      assert output + notes == output;
    } else {
      LastPublishedAppend(output, notes[0], uri);
      assert notes == [notes[0]];
    }
    if Get(message, "id").Some? {
      var said := more[|more| - 1];
      assert output + more == (output + notes) + [said];
      LastPublishedAppend(output + notes, said, uri);
    } else {
      assert more == notes;
    }
  }

  function Ids(output: seq<Outgoing>): seq<Value> {
    if output == [] then []
    else
      var said := output[|output| - 1];
      Ids(output[..|output| - 1]) + (if said.Respond? then [said.id] else [])
  }

  function Asked(messages: seq<Value>): seq<Value> {
    if messages == [] then []
    else
      var id := Get(messages[|messages| - 1], "id");
      Asked(messages[..|messages| - 1]) + (if id.Some? then [id.value] else [])
  }

  lemma {:induction false} IdsAppend(output: seq<Outgoing>, said: Outgoing)
    ensures Ids(output + [said]) == Ids(output) + (if said.Respond? then [said.id] else [])
  {
    assert (output + [said])[..|output|] == output;
  }

  /** Every message with an id is answered once, in the order they came, and
      nothing else is. */
  lemma {:induction false} EveryIdIsAnswered(services: Services, messages: seq<Value>)
    ensures Ids(Run(services, messages).1) == Asked(messages)
  {
    if messages != [] {
      var init, message := messages[..|messages| - 1], messages[|messages| - 1];
      EveryIdIsAnswered(services, init);
      var (state, output) := Run(services, init);
      StepAnswers(services, state, output, message);
    }
  }

  lemma {:induction false} StepAnswers(services: Services, state: State, output: seq<Outgoing>, message: Value)
    ensures
      var id := Get(message, "id");
      Ids(output + Step(services, state, message).1) == Ids(output) + (if id.Some? then [id.value] else [])
  {
    hide EventOf, Answered, Ids;
    var notes, more := NotesOf(services, message), Step(services, state, message).1;
    if notes == [] {
      assert output + notes == output;
    } else {
      IdsAppend(output, notes[0]);
      assert notes == [notes[0]];
      assert Ids(output) + [] == Ids(output);
    }
    if Get(message, "id").Some? {
      var said := more[|more| - 1];
      assert output + more == (output + notes) + [said];
      IdsAppend(output + notes, said);
    } else {
      assert more == notes;
      assert Ids(output) + [] == Ids(output);
    }
  }
}
