/**
 * `exports.handler`: the serverless function that evaluates an uploaded
 * Proyecto Participativo Organizativo (PPO) against the reference documents.
 *
 * The decision skeleton is modelled: which response the event gets, and
 * the sequence of outside calls made on the way (the five reference loads,
 * then at most one call to the language model). JSON parsing, base64
 * decoding and the model are parameters, and so is the file system.
 */
module Handler {
  import opened Results
  import opened Extract
  import opened Loader
  import Prompt

  /** The model the handler asks for. */
  const ModelName := "gemini-1.5-flash"

  /** The properties of the event the handler reads (`methodField` is `event.method`); `None` is a property that is absent. */
  datatype Event = Event(httpMethod: Option<string>, methodField: Option<string>, body: Option<string>)

  /** JavaScript truthiness of an optional string: present and not empty. */
  predicate Truthy(v: Option<string>)
  {
    v.Some? && v.value != ""
  }

  /** The request method: `httpMethod` when it is truthy, `method` otherwise. */
  function Method(e: Event): Option<string>
  {
    if Truthy(e.httpMethod) then e.httpMethod else e.methodField
  }

  /** The fields of the parsed request body; a score is kept as the text it interpolates to. */
  datatype Body = Body(
    archivo: Option<string>, nombre: Option<string>,
    c1: Option<string>, c2: Option<string>, c3: Option<string>)

  /** `${v}` in a template literal: an absent property reads `undefined`. */
  function Interpolated(v: Option<string>): string
  {
    if v.None? then "undefined" else v.value
  }

  /** The libraries the handler calls. */
  datatype Services = Services(
    parse: Option<string> -> Result<Body>, // `JSON.parse(event.body)`; fails also on a body that is `null`
    base64: string -> Bytes,                // `Buffer.from(archivo, 'base64')`
    generate: string -> Result<string>)     // `model.generateContent(prompt)` and `response.text()`

  /** An outside call, in the order the handler makes them. */
  datatype Call = LoadReference(name: string) | GenerateContent(model: string, prompt: string)

  /** The JSON object in the response body. */
  datatype Payload =
    | Failure(error: string)
    | FailureDetail(error: string, detalle: string)
    | Message(mensaje: string)

  /** `json` says whether the response carries the `Content-Type: application/json` header. */
  datatype Response = Response(statusCode: nat, json: bool, payload: Payload)

  datatype Outcome = Outcome(response: Response, calls: seq<Call>)

  const MethodNotAllowed := Response(405, false, Failure("Method Not Allowed"))
  const MissingFile := Response(400, false, Failure("Falta el archivo PPO"))

  /** The `catch` of the handler: any failure after the method check. */
  function InternalError(message: string): Response
  {
    Response(500, false, FailureDetail("Error interno del servidor", message))
  }

  /** The five reference loads, in the order of the `Promise.all` array. */
  const ReferenceLoads: seq<Call> := [
    LoadReference(ReferenceNames[0]), LoadReference(ReferenceNames[1]), LoadReference(ReferenceNames[2]),
    LoadReference(ReferenceNames[3]), LoadReference(ReferenceNames[4])]

  /** The texts of the five reference documents, empty where a document could not be read. */
  function ReferenceTexts(fs: FileSystem, d: Decoders): (refs: seq<string>)
    ensures |refs| == |ReferenceNames|
    ensures forall i | 0 <= i < |refs| :: refs[i] == LoadFixed(fs, d, ReferenceNames[i])
  {
    seq(|ReferenceNames|, i requires 0 <= i < |ReferenceNames| => LoadFixed(fs, d, ReferenceNames[i]))
  }

  /** What fills the prompt's holes: the reference texts, the project's text and the three scores. */
  function PromptInputs(refs: seq<string>, project: string, body: Body): Prompt.Inputs
    requires |refs| == 5
  {
    Prompt.Inputs(refs[0], refs[1], refs[2], refs[3], refs[4], project,
      Interpolated(body.c1), Interpolated(body.c2), Interpolated(body.c3))
  }

  /** The handler: the response and the outside calls made to reach it. */
  function Handle(s: Services, fs: FileSystem, d: Decoders, e: Event): (o: Outcome)
    ensures o.response.statusCode in {200, 400, 405, 500}
    ensures o.response.statusCode == 405 <==> Method(e) != Some("POST")
    ensures o.response.statusCode == 405 <==> o.calls == []
    ensures o.response.statusCode != 405 ==> ReferenceLoads <= o.calls && |o.calls| <= |ReferenceLoads| + 1
  {
    if Method(e) != Some("POST") then Outcome(MethodNotAllowed, [])
    else
      var refs := ReferenceTexts(fs, d);
      var parsed := s.parse(e.body);
      if parsed.Err? then Outcome(InternalError(parsed.message), ReferenceLoads)
      else
        var body := parsed.value;
        if !Truthy(body.archivo) then Outcome(MissingFile, ReferenceLoads)
        else
          var project := ExtractText(d, s.base64(body.archivo.value), body.nombre);
          if project.Err? then Outcome(InternalError(project.message), ReferenceLoads)
          else
            var prompt := Prompt.Template(PromptInputs(refs, project.value, body));
            var calls := ReferenceLoads + [GenerateContent(ModelName, prompt)];
            var reply := s.generate(prompt);
            if reply.Err? then Outcome(InternalError(reply.message), calls)
            else Outcome(Response(200, true, Message(reply.value)), calls)
  }

  /** The body of a POST event that parses. */
  predicate Parsed(s: Services, e: Event)
  {
    Method(e) == Some("POST") && s.parse(e.body).Ok?
  }

  /** The body carries a file and a file name: the project's text can be extracted. */
  predicate Evaluable(s: Services, e: Event)
  {
    Parsed(s, e) && Truthy(s.parse(e.body).value.archivo) && s.parse(e.body).value.nombre.Some?
  }

  /** The text of the uploaded project of an evaluable event. */
  function ProjectText(s: Services, d: Decoders, e: Event): string
    requires Evaluable(s, e)
  {
    var body := s.parse(e.body).value;
    ExtractText(d, s.base64(body.archivo.value), body.nombre).value
  }

  /** What fills the prompt for an evaluable event. */
  function InputsOf(s: Services, fs: FileSystem, d: Decoders, e: Event): Prompt.Inputs
    requires Evaluable(s, e)
  {
    PromptInputs(ReferenceTexts(fs, d), ProjectText(s, d, e), s.parse(e.body).value)
  }

  /** The prompt the handler builds for an evaluable event. */
  function PromptOf(s: Services, fs: FileSystem, d: Decoders, e: Event): string
    requires Evaluable(s, e)
  {
    Prompt.Template(InputsOf(s, fs, d, e))
  }

  /** A present, non-empty `httpMethod` decides alone; otherwise `method` does. */
  lemma MethodChoice(s: Services, fs: FileSystem, d: Decoders, e: Event)
    ensures Truthy(e.httpMethod) ==>
      (Handle(s, fs, d, e).response.statusCode == 405 <==> e.httpMethod.value != "POST")
    ensures !Truthy(e.httpMethod) ==>
      (Handle(s, fs, d, e).response.statusCode == 405 <==> e.methodField != Some("POST"))
  {
  }

  /** The 400 response: a POST whose body parses but has no file. The model is not called. */
  lemma MissingFileResponse(s: Services, fs: FileSystem, d: Decoders, e: Event)
    ensures var o := Handle(s, fs, d, e);
      (o.response == MissingFile <==> Parsed(s, e) && !Truthy(s.parse(e.body).value.archivo)) &&
      (o.response.statusCode == 400 <==> o.response == MissingFile) &&
      (o.response == MissingFile ==> o.calls == ReferenceLoads)
  {
  }

  /** The model is called, once and with the configured model, exactly for an evaluable event, and with its prompt. */
  lemma ModelCall(s: Services, fs: FileSystem, d: Decoders, e: Event)
    ensures var o := Handle(s, fs, d, e);
      (|o.calls| == |ReferenceLoads| + 1 <==> Evaluable(s, e)) &&
      (Evaluable(s, e) ==> o.calls[|ReferenceLoads|] == GenerateContent(ModelName, PromptOf(s, fs, d, e)))
  {
  }

  /** The 200 response: the model answered an evaluable event; its text is the message, sent as JSON. */
  lemma SuccessResponse(s: Services, fs: FileSystem, d: Decoders, e: Event)
    ensures var o := Handle(s, fs, d, e);
      (o.response.statusCode == 200 <==> Evaluable(s, e) && s.generate(PromptOf(s, fs, d, e)).Ok?) &&
      (o.response.statusCode == 200 ==>
        o.response == Response(200, true, Message(s.generate(PromptOf(s, fs, d, e)).value)))
  {
  }

  /**
   * Every 500 response carries the fixed error and, as its detail, the
   * message of what failed: the body's parse, the missing file name, or the
   * model.
   */
  lemma InternalErrorDetail(s: Services, fs: FileSystem, d: Decoders, e: Event)
    ensures var o := Handle(s, fs, d, e);
      o.response.statusCode == 500 ==>
        o.response.payload.FailureDetail? &&
        o.response.payload.error == "Error interno del servidor" &&
        o.response == InternalError(
          if s.parse(e.body).Err? then s.parse(e.body).message
          else if !Evaluable(s, e) then NameMissingMessage
          else s.generate(PromptOf(s, fs, d, e)).message)
  {
  }

  /** A file without a name fails in `extraerTexto` before the model is called. */
  lemma MissingNameResponse(s: Services, fs: FileSystem, d: Decoders, e: Event)
    requires Parsed(s, e)
    requires Truthy(s.parse(e.body).value.archivo) && s.parse(e.body).value.nombre.None?
    ensures Handle(s, fs, d, e) == Outcome(InternalError(NameMissingMessage), ReferenceLoads)
  {
  }

  /** The prompt holds the evaluated project's text whole, right after its heading. */
  lemma PromptCarriesProject(s: Services, fs: FileSystem, d: Decoders, e: Event)
    requires Evaluable(s, e)
    ensures InputsOf(s, fs, d, e).proyecto == ProjectText(s, d, e)
    ensures Prompt.PlacesInput(PromptOf(s, fs, d, e), InputsOf(s, fs, d, e), 5)
  {
    Prompt.TemplatePlacesInputs(InputsOf(s, fs, d, e), 5);
  }

  /**
   * The prompt holds the `i`-th reference text whole, right after its
   * label, and that text is what loading the `i`-th reference document gave.
   */
  lemma PromptCarriesReference(s: Services, fs: FileSystem, d: Decoders, e: Event, i: nat)
    requires Evaluable(s, e) && i < |ReferenceNames|
    ensures Prompt.Values(InputsOf(s, fs, d, e))[i] == LoadFixed(fs, d, ReferenceNames[i])
    ensures Prompt.PlacesInput(PromptOf(s, fs, d, e), InputsOf(s, fs, d, e), i)
  {
    var x := InputsOf(s, fs, d, e);
    ReferenceInput(ReferenceTexts(fs, d), ProjectText(s, d, e), s.parse(e.body).value, i);
    Prompt.TemplatePlacesInputs(x, i);
  }

  /** The first five holes take the reference texts in load order. */
  lemma ReferenceInput(refs: seq<string>, project: string, body: Body, i: nat)
    requires |refs| == 5 && i < 5
    ensures Prompt.Values(PromptInputs(refs, project, body))[i] == refs[i]
  {
  }

  /**
   * Missing reference documents do not stop the evaluation: with none of
   * them on disk the prompt is built with empty texts in their place.
   */
  lemma MissingReferencesTolerated(s: Services, fs: FileSystem, d: Decoders, e: Event)
    requires forall name :: !fs.present(name)
    requires Evaluable(s, e)
    ensures var body := s.parse(e.body).value;
      PromptOf(s, fs, d, e) == Prompt.Template(Prompt.Inputs("", "", "", "", "",
        ProjectText(s, d, e), Interpolated(body.c1), Interpolated(body.c2), Interpolated(body.c3)))
  {
    var refs := ReferenceTexts(fs, d);
    assert refs[0] == "" && refs[1] == "" && refs[2] == "" && refs[3] == "" && refs[4] == "";
  }

  /** A GET request is refused and nothing is loaded or asked. */
  lemma GetRefused(s: Services, fs: FileSystem, d: Decoders, body: Option<string>)
    ensures Handle(s, fs, d, Event(Some("GET"), Some("POST"), body)) == Outcome(MethodNotAllowed, [])
  {
  }

  /** An empty `httpMethod` falls back to `method`. */
  lemma EmptyHttpMethodFallsBack(s: Services, fs: FileSystem, d: Decoders, body: Option<string>)
    ensures Handle(s, fs, d, Event(Some(""), Some("POST"), body)).response.statusCode != 405
  {
  }
}
