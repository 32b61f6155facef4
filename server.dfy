/**
 * The backend: `POST /parse` (validation, placeholder mode, the request to
 * the transcription model, text extraction with its non-blank fallback),
 * `GET /health`, and the 404 handler for everything else. The model call is
 * a parameter: a function from the request sent to what came back.
 */
module Server {
  import opened Wrappers
  import opened JsString
  import opened Markers

  /** A parsed JSON value, as `express.json()` leaves it in `req.body`. */
  datatype Json =
    | JNull
    | JBool(b: bool)
    | JNumber(n: int)
    | JString(s: string)
    | JArray(items: seq<Json>)
    | JObject(fields: map<string, Json>)

  /** `process.env.OPENAI_API_KEY`, if set. */
  datatype Config = Config(apiKey: Option<string>)

  /** A client is created, and live transcription used, exactly when the key is set and not empty. */
  predicate Live(config: Config) {
    config.apiKey.Some? && config.apiKey.value != ""
  }

  datatype ResponseBody =
    | MarkdownBody(markdown: string)
    | ErrorBody(error: string)
    | HealthBody(status: string, model: string)
    | NoBody

  datatype HttpResponse = HttpResponse(status: nat, body: ResponseBody)

  const ImagesRequired := "images array required"
  const UpstreamFailed := "Failed to process images"
  const NotFoundError := "Not found"

  /** The `images` field of an object body; any other body has none. */
  function ImagesField(body: Json): Option<Json> {
    if body.JObject? && "images" in body.fields then Some(body.fields["images"]) else None
  }

  /**
   * A missing field, one that is not an array, or an empty array answers
   * 400; anything else passes with its list of images.
   */
  function Validate(body: Json): (r: Result<seq<Json>, HttpResponse>)
    ensures r.Success? <==> ImagesField(body).Some? && ImagesField(body).value.JArray? && ImagesField(body).value.items != []
    ensures r.Success? ==> r.value == ImagesField(body).value.items
    ensures r.Failure? ==> r.error == HttpResponse(400, ErrorBody(ImagesRequired))
  {
    match ImagesField(body)
    case Some(JArray(items)) =>
      if |items| == 0 then Failure(HttpResponse(400, ErrorBody(ImagesRequired))) else Success(items)
    case _ => Failure(HttpResponse(400, ErrorBody(ImagesRequired)))
  }

  /**
   * The fixed answer of placeholder mode for a batch of `count` images: the
   * template text with the batch size written in decimal where
   * `${images.length}` stands.
   */
  function Placeholder(count: nat): string {
    PlaceholderHead + "Received " + Decimal(count) + PlaceholderTail + Marker + "\n"
  }

  /** The template up to the batch size. */
  const PlaceholderHead :=
    "# Sample Notes (Placeholder Mode)" + "\n\nOpenAI API key not configured." + "\n\n- "

  /**
   * The template from the batch size to the marker, in pieces short enough
   * for the facts about each piece to be checked one by one.
   */
  const PlaceholderTail := TailPiece1 + TailPiece2 + TailPiece3 + TailPiece4

  const TailPiece1 := " image(s)\n- This is fallback "
  const TailPiece2 := "static content\n- Add your key "
  const TailPiece3 := "in backend/.env as OPENAI_API_KEY"
  const TailPiece4 := "\n\nExample uncertain segment: "

  lemma PlaceholderLiterals()
    ensures '[' !in PlaceholderHead && '[' !in "Received " && '[' !in PlaceholderTail
    ensures PlaceholderTail[..9] == " image(s)" && PlaceholderHead[0] == '#'
  {
    HeadLiteral();
    TailLiteral();
    TailStart();
  }

  lemma HeadLiteral()
    ensures '[' !in PlaceholderHead && PlaceholderHead[0] == '#'
  {
  }

  lemma TailLiteral()
    ensures '[' !in PlaceholderTail
  {
    TailPiecesFree();
    NoBracketInJoin(TailPiece1, TailPiece2, TailPiece3, TailPiece4);
  }

  lemma TailPiecesFree()
    ensures '[' !in TailPiece1 && '[' !in TailPiece2
    ensures '[' !in TailPiece3 && '[' !in TailPiece4
  {
    Piece1Free();
    Piece2Free();
    Piece3Free();
    Piece4Free();
  }

  lemma Piece1Free()
    ensures '[' !in TailPiece1
  {
  }

  lemma Piece2Free()
    ensures '[' !in TailPiece2
  {
  }

  lemma Piece3Free()
    ensures '[' !in TailPiece3
  {
  }

  lemma Piece4Free()
    ensures '[' !in TailPiece4
  {
  }

  lemma NoBracketInJoin(a: string, b: string, c: string, d: string)
    requires '[' !in a && '[' !in b && '[' !in c && '[' !in d
    ensures '[' !in a + b + c + d
  {
  }

  lemma TailStart()
    ensures PlaceholderTail[..9] == " image(s)"
  {
    assert TailPiece1[..9] == " image(s)";
    assert PlaceholderTail == TailPiece1 + (TailPiece2 + TailPiece3 + TailPiece4);
  }

  /** The numeral of the batch size has no bracket in it. */
  lemma DecimalHasNoBracket(n: nat)
    ensures '[' !in Decimal(n)
  {
    forall k | 0 <= k < |Decimal(n)| ensures Decimal(n)[k] != '[' {
      assert IsDigit(Decimal(n)[k]);
    }
  }

  /**
   * The placeholder reports the batch size as "Received N image(s)", is not
   * blank, and holds exactly one marker, so the client opens the dialog with
   * one segment.
   */
  lemma PlaceholderFacts(count: nat)
    ensures Contains(Placeholder(count), "Received " + Decimal(count) + " image(s)")
    ensures CountMarkers(Placeholder(count)) == 1
    ensures !IsBlank(Placeholder(count))
  {
    PlaceholderReportsCount(count);
    PlaceholderOneMarker(count);
    PlaceholderLiterals();
    AsciiWhitespace('#');
    assert Placeholder(count)[0] == '#';
  }

  lemma PlaceholderReportsCount(count: nat)
    ensures Contains(Placeholder(count), "Received " + Decimal(count) + " image(s)")
  {
    TailStart();
    ContainsMiddle(PlaceholderHead, "Received ", Decimal(count), PlaceholderTail, Marker, "\n", 9);
  }

  /** The text from the start of the second piece to `k` characters into the fourth is found in the whole. */
  lemma ContainsMiddle(a: string, b: string, c: string, d: string, e: string, f: string, k: nat)
    requires k <= |d|
    ensures Contains(a + b + c + d + e + f, b + c + d[..k])
  {
    var text := a + b + c + d + e + f;
    var needle := b + c + d[..k];
    var rest := d[k..] + e + f;
    assert d == d[..k] + d[k..];
    assert text == a + needle + rest;
    SliceOfMiddle(a, needle, rest);
    OccurrenceIsContained(text, needle, |a|);
  }

  lemma SliceOfMiddle(a: string, b: string, c: string)
    ensures (a + b + c)[|a|..|a| + |b|] == b
  {
  }

  lemma PlaceholderOneMarker(count: nat)
    ensures CountMarkers(Placeholder(count)) == 1
  {
    PlaceholderLiterals();
    DecimalHasNoBracket(count);
    var head := PlaceholderHead + "Received " + Decimal(count) + PlaceholderTail;
    assert '[' !in head;
    NoBracketIsFree(head);
    ShortIsFree("\n");
    CountTwoSegments(head, "\n");
  }

  /** The instruction that opens the user turn. */
  const Instruction := "Transcribe and structure these handwritten note pages into clean Markdown following the rules."

  /** One item of the user turn. */
  datatype ContentItem = Text(text: string) | ImageUrl(url: Json)

  /** `userContent`: the instruction, then one `image_url` item per image. */
  function UserContent(images: seq<Json>): (content: seq<ContentItem>)
    ensures |content| == |images| + 1
    ensures content[0] == Text(Instruction)
  {
    [Text(Instruction)] + seq(|images|, k requires 0 <= k < |images| => ImageUrl(images[k]))
  }

  /** The image URLs of a user turn, in order; text items are passed over. */
  function ImagesOf(content: seq<ContentItem>): seq<Json>
    decreases |content|
  {
    if content == [] then []
    else
      var rest := ImagesOf(content[1..]);
      match content[0]
      case Text(_) => rest
      case ImageUrl(url) => [url] + rest
  }

  /** The user turn carries every image exactly once, in the order given, after the one instruction. */
  lemma {:induction false} UserContentCarriesImages(images: seq<Json>)
    ensures ImagesOf(UserContent(images)) == images
    ensures forall k :: 1 <= k < |UserContent(images)| ==> UserContent(images)[k] == ImageUrl(images[k - 1])
  {
    var content := UserContent(images);
    assert content[0] == Text(Instruction);
    assert ImagesOf(content) == ImagesOf(content[1..]);
    ImageItemsCarry(content[1..], images);
  }

  lemma {:induction false} ImageItemsCarry(items: seq<ContentItem>, images: seq<Json>)
    requires |items| == |images|
    requires forall k :: 0 <= k < |items| ==> items[k] == ImageUrl(images[k])
    ensures ImagesOf(items) == images
    decreases |items|
  {
    if items != [] {
      ImageItemsCarry(items[1..], images[1..]);
      assert images == [images[0]] + images[1..];
    }
  }

  /** The one request sent in live mode. */
  datatype UpstreamRequest = UpstreamRequest(model: string, temperature: real, user: seq<ContentItem>)

  function RequestFor(images: seq<Json>): UpstreamRequest {
    UpstreamRequest("gpt-4o-mini", 0.2, UserContent(images))
  }

  /** One entry of `response.output`; `text` is empty when the entry has none. */
  datatype OutputItem = OutputItem(kind: string, text: string)

  /**
   * The model's answer: `output` when it is an array, and the flat
   * `output_text` (empty when absent).
   */
  datatype ProducerResponse = ProducerResponse(output: Option<seq<OutputItem>>, outputText: string)

  /** What the call to the model gave: an exception, or an answer. */
  datatype Upstream = Threw | Returned(response: ProducerResponse)

  /** An entry whose text is kept: type `output_text` and a non-empty `text`. */
  predicate Kept(item: OutputItem) {
    item.kind == "output_text" && item.text != ""
  }

  /** The kept texts, concatenated in list order. */
  function OutputTexts(items: seq<OutputItem>): string
    decreases |items|
  {
    if items == [] then ""
    else
      var last := items[|items| - 1];
      OutputTexts(items[..|items| - 1]) + (if Kept(last) then last.text else "")
  }

  /** The concatenation runs over the list piece by piece. */
  lemma {:induction false} OutputTextsAppend(xs: seq<OutputItem>, ys: seq<OutputItem>)
    ensures OutputTexts(xs + ys) == OutputTexts(xs) + OutputTexts(ys)
    decreases |ys|
  {
    if ys == [] {
      assert xs + ys == xs;
    } else {
      var init := ys[..|ys| - 1];
      var last := ys[|ys| - 1];
      assert (xs + ys)[..|xs + ys| - 1] == xs + init;
      assert (xs + ys)[|xs + ys| - 1] == last;
      OutputTextsAppend(xs, init);
    }
  }

  /** An entry that is not kept changes nothing, wherever it stands. */
  lemma IgnoredItemAddsNothing(xs: seq<OutputItem>, item: OutputItem, ys: seq<OutputItem>)
    requires !Kept(item)
    ensures OutputTexts(xs + [item] + ys) == OutputTexts(xs) + OutputTexts(ys)
  {
    OutputTextsAppend(xs + [item], ys);
    assert (xs + [item])[..|xs|] == xs;
  }

  /** The array shape wins; the flat text is read only when `output` is not an array. */
  function Extracted(response: ProducerResponse): string {
    match response.output
    case Some(items) => OutputTexts(items)
    case None => response.outputText
  }

  /** The fallback for a blank transcript: a heading saying nothing came back, then one marker. */
  const NoTranscription := NoTranscriptionHead + Marker

  const NoTranscriptionHead := "# (No transcription returned)\n\n"

  /** The transcript sent back: the extracted text, or the fallback when that is blank. */
  function Transcription(response: ProducerResponse): string {
    var text := Extracted(response);
    if Trim(text) == [] then NoTranscription else text
  }

  /** The fallback holds exactly one marker and is not blank. */
  lemma NoTranscriptionFacts()
    ensures CountMarkers(NoTranscription) == 1
    ensures !IsBlank(NoTranscription)
  {
    NoTranscriptionHeadLiteral();
    OneMarkerAfter(NoTranscriptionHead);
  }

  lemma NoTranscriptionHeadLiteral()
    ensures '[' !in NoTranscriptionHead && NoTranscriptionHead != [] && NoTranscriptionHead[0] == '#'
  {
  }

  /** A heading without brackets, followed by the marker: one marker, and not blank. */
  lemma OneMarkerAfter(head: string)
    requires '[' !in head && head != [] && head[0] == '#'
    ensures CountMarkers(head + Marker) == 1
    ensures !IsBlank(head + Marker)
  {
    NoBracketIsFree(head);
    ShortIsFree("");
    assert head + Marker == head + Marker + "";
    CountTwoSegments(head, "");
    AsciiWhitespace('#');
    assert (head + Marker)[0] == '#';
  }

  /** Two marker-free pieces joined by a marker hold one marker. */
  lemma CountTwoSegments(a: string, b: string)
    requires Free(a) && Free(b)
    ensures CountMarkers(a + Marker + b) == 1
  {
    assert Join([a, b]) == a + Marker + b by {
      assert [a, b][1..] == [b];
    }
    SegmentsJoin([a, b]);
  }

  /**
   * The transcript is never blank: a blank extraction, from either shape,
   * becomes the fallback with its one marker, and any other is sent as it
   * is. With an `output` array the flat text plays no part.
   */
  lemma TranscriptionNeverBlank(response: ProducerResponse)
    ensures !IsBlank(Transcription(response))
    ensures IsBlank(Extracted(response)) ==>
      Transcription(response) == NoTranscription && CountMarkers(Transcription(response)) == 1
    ensures !IsBlank(Extracted(response)) ==> Transcription(response) == Extracted(response)
    ensures response.output.Some? ==>
      Transcription(response) == Transcription(ProducerResponse(response.output, ""))
  {
    NoTranscriptionFacts();
  }

  /** The extraction loop and the fallback: the text of each kept entry is appended in turn. */
  method ExtractMarkdown(response: ProducerResponse) returns (markdown: string)
    ensures markdown == Transcription(response)
  {
    markdown := "";
    if response.output.Some? {
      var items := response.output.value;
      var i := 0;
      while i < |items|
        invariant 0 <= i <= |items|
        invariant markdown == OutputTexts(items[..i])
      {
        if items[i].kind == "output_text" && items[i].text != "" {
          markdown := markdown + items[i].text;
        }
        assert items[..i + 1][..i] == items[..i];
        i := i + 1;
      }
      assert items[..i] == items;
    } else if response.outputText != "" {
      markdown := response.outputText;
    }
    if Trim(markdown) == [] {
      markdown := NoTranscription;
    }
  }

  /** What `POST /parse` answers. */
  function ParseResponse(config: Config, body: Json, call: UpstreamRequest -> Upstream): HttpResponse {
    match Validate(body)
    case Failure(rejection) => rejection
    case Success(images) =>
      if !Live(config) then HttpResponse(200, MarkdownBody(Placeholder(|images|)))
      else match call(RequestFor(images))
        case Threw => HttpResponse(500, ErrorBody(UpstreamFailed))
        case Returned(response) => HttpResponse(200, MarkdownBody(Transcription(response)))
  }

  /**
   * The `/parse` handler. It sends at most one request to the model, and
   * only for a valid body in live mode: a rejected body or placeholder mode
   * never reaches the model, and a failed call is not retried.
   */
  method Parse(config: Config, body: Json, call: UpstreamRequest -> Upstream)
    returns (res: HttpResponse, sent: seq<UpstreamRequest>)
    ensures res == ParseResponse(config, body, call)
    ensures Validate(body).Success? && Live(config) ==> sent == [RequestFor(Validate(body).value)]
    ensures !(Validate(body).Success? && Live(config)) ==> sent == []
  {
    sent := [];
    var checked := Validate(body);
    if checked.Failure? {
      return checked.error, sent;
    }
    var images := checked.value;
    if !Live(config) {
      return HttpResponse(200, MarkdownBody(Placeholder(|images|))), sent;
    }
    var request := RequestFor(images);
    sent := [request];
    var outcome := call(request);
    match outcome {
      case Threw =>
        res := HttpResponse(500, ErrorBody(UpstreamFailed));
      case Returned(response) =>
        var markdown := ExtractMarkdown(response);
        res := HttpResponse(200, MarkdownBody(markdown));
    }
  }

  /**
   * The status of `/parse`: 400 exactly for a body without a non-empty
   * `images` array, 500 exactly when the model call threw, 200 otherwise,
   * and a 200 always carries a transcript that is not blank.
   */
  lemma ParseOutcomes(config: Config, body: Json, call: UpstreamRequest -> Upstream)
    ensures var res := ParseResponse(config, body, call);
      && (res.status == 400 <==> Validate(body).Failure?)
      && (res.status == 400 ==> res.body == ErrorBody(ImagesRequired))
      && (res.status == 500 <==> Validate(body).Success? && Live(config) && call(RequestFor(Validate(body).value)).Threw?)
      && (res.status == 500 ==> res.body == ErrorBody(UpstreamFailed))
      && (res.status == 200 ==> res.body.MarkdownBody? && !IsBlank(res.body.markdown))
      && (res.status == 400 || res.status == 500 || res.status == 200)
  {
    match Validate(body)
    case Failure(_) =>
    case Success(images) =>
      if !Live(config) {
        PlaceholderFacts(|images|);
      } else {
        match call(RequestFor(images))
        case Threw =>
        case Returned(response) =>
          TranscriptionNeverBlank(response);
      }
  }

  /** In placeholder mode a valid batch of `n` images gets the placeholder for `n`, with its one marker. */
  lemma PlaceholderMode(config: Config, body: Json, call: UpstreamRequest -> Upstream)
    requires !Live(config) && Validate(body).Success?
    ensures var n := |Validate(body).value|; var res := ParseResponse(config, body, call);
      && res == HttpResponse(200, MarkdownBody(Placeholder(n)))
      && Contains(res.body.markdown, "Received " + Decimal(n) + " image(s)")
      && CountMarkers(res.body.markdown) == 1
  {
    PlaceholderFacts(|Validate(body).value|);
  }

  /** `GET /health`: status "ok", and the mode. */
  function Health(config: Config): HttpResponse {
    HttpResponse(200, HealthBody("ok", if Live(config) then "live" else "placeholder"))
  }

  /** The health check says "live" exactly when the key is set, and "placeholder" exactly when it is not. */
  lemma HealthReportsMode(config: Config)
    ensures Health(config).status == 200 && Health(config).body.status == "ok"
    ensures Health(config).body.model == "live" <==> Live(config)
    ensures Health(config).body.model == "placeholder" <==> !Live(config)
  {
    assert "live" != "placeholder";
  }

  datatype Verb = Get | Head | Post | Options | OtherVerb(name: string)

  datatype Request = Request(verb: Verb, path: string, body: Json)

  /** Express matches a route path ignoring ASCII case, with an optional trailing slash. */
  predicate PathMatches(path: string, route: string) {
    var p := ToLowerAscii(path);
    p == route || p == route + "/"
  }

  datatype Route = Preflight | HealthRoute | ParseRoute | Unmatched

  /**
   * `cors()` runs first and answers every preflight; a `GET` route also
   * answers `HEAD`; whatever is left reaches the final handler.
   */
  function RouteOf(verb: Verb, path: string): Route {
    if verb == Options then Preflight
    else if (verb == Get || verb == Head) && PathMatches(path, "/health") then HealthRoute
    else if verb == Post && PathMatches(path, "/parse") then ParseRoute
    else Unmatched
  }

  /** The server as a whole, for one request. */
  method Handle(config: Config, request: Request, call: UpstreamRequest -> Upstream)
    returns (res: HttpResponse, sent: seq<UpstreamRequest>)
    ensures RouteOf(request.verb, request.path) == Preflight ==> res == HttpResponse(204, NoBody) && sent == []
    ensures RouteOf(request.verb, request.path) == HealthRoute ==> res == Health(config) && sent == []
    ensures RouteOf(request.verb, request.path) == ParseRoute ==> res == ParseResponse(config, request.body, call) && |sent| <= 1
    ensures RouteOf(request.verb, request.path) == Unmatched ==> res == HttpResponse(404, ErrorBody(NotFoundError)) && sent == []
  {
    sent := [];
    match RouteOf(request.verb, request.path) {
      case Preflight =>
        res := HttpResponse(204, NoBody);
      case HealthRoute =>
        res := Health(config);
      case ParseRoute =>
        res, sent := Parse(config, request.body, call);
      case Unmatched =>
        res := HttpResponse(404, ErrorBody(NotFoundError));
    }
  }

  /** `GET /nope` is not found. */
  lemma UnknownPathNotFound()
    ensures RouteOf(Get, "/nope") == Unmatched
  {
    assert ToLowerAscii("/nope")[1] == 'n';
  }

  /**
   * Route paths match in any letter case, with or without one trailing
   * slash, and a `GET` route answers `HEAD` too: for every path, `GET` and
   * `HEAD` reach the health check exactly when the path lowers to `/health`
   * or `/health/`, and are not found otherwise.
   */
  lemma HealthPathIgnoresCase(p: string)
    ensures RouteOf(Head, p) == RouteOf(Get, p)
    ensures RouteOf(Get, p) == if ToLowerAscii(p) == "/health" || ToLowerAscii(p) == "/health/" then HealthRoute else Unmatched
  {
  }

  /** For every path, `POST` reaches `/parse` exactly when the path lowers to `/parse` or `/parse/`, and is not found otherwise. */
  lemma ParsePathIgnoresCase(p: string)
    ensures RouteOf(Post, p) == if ToLowerAscii(p) == "/parse" || ToLowerAscii(p) == "/parse/" then ParseRoute else Unmatched
  {
  }

  /**
   * For every path: `OPTIONS` is always the preflight, `POST` never reaches
   * the health check, `GET` and `HEAD` never reach `/parse`, and any other
   * verb is not found.
   */
  lemma RoutesKeepTheirVerbs(p: string, name: string)
    ensures RouteOf(Options, p) == Preflight
    ensures RouteOf(Post, p) != HealthRoute
    ensures RouteOf(Get, p) != ParseRoute && RouteOf(Head, p) != ParseRoute
    ensures RouteOf(OtherVerb(name), p) == Unmatched
  {
  }

  /** `GET /HEALTH/` still reaches the health check. */
  lemma UpperCaseHealthPath()
    ensures RouteOf(Get, "/HEALTH/") == HealthRoute
  {
    var p := ToLowerAscii("/HEALTH/");
    assert p == "/health/" by {
      forall k | 0 <= k < |p| ensures p[k] == "/health/"[k] {
      }
    }
    HealthPathIgnoresCase("/HEALTH/");
  }

  /** `GET /parse` and `POST /health` are not found. */
  lemma WrongVerbsNotFound()
    ensures RouteOf(Get, "/parse") == Unmatched
    ensures RouteOf(Post, "/health") == Unmatched
  {
    ParseNotHealth();
    HealthNotParse();
  }

  lemma ParseNotHealth()
    ensures !PathMatches("/parse", "/health")
  {
    assert ToLowerAscii("/parse")[1] == 'p';
  }

  lemma HealthNotParse()
    ensures !PathMatches("/health", "/parse")
  {
    assert ToLowerAscii("/health")[1] == 'h';
  }
}
