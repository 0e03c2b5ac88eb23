/**
  The request handlers of the HTTP service, as pure functions. What the
  process reads once at start-up (whether the crew imported, the two API keys)
  is a `Config`; `datetime.now()` is a parameter; the crew run is a function
  from its inputs to its outcome; the `news` folder is a set of names, a map
  from name to content, or a directory listing, as each handler needs.
*/
module Api {
  import opened Wrappers
  import opened Strings
  import opened Timestamps
  import opened PdfWriterTool

  datatype Config = Config(crewAvailable: bool, openaiKey: Option<string>, serperKey: Option<string>)

  /** Python truthiness of an `os.getenv` result: an unset and an empty variable are both false. */
  function Loaded(key: Option<string>): (b: bool)
    ensures key.None? ==> !b
    ensures key == Some("") ==> !b
    ensures key.Some? && |key.value| > 0 ==> b
  {
    key.Some? && key.value != ""
  }

  /** Both start-up checks that `generate_news` makes pass. */
  predicate Ready(cfg: Config) {
    cfg.crewAvailable && Loaded(cfg.openaiKey)
  }

  /** The body of `POST /generate-news`. */
  datatype TopicRequest = TopicRequest(topic: string, currentYear: string)

  const DefaultCurrentYear := "2025"

  /** Builds the request the way the model validation does, `current_year` being optional. */
  function MakeTopicRequest(topic: string, currentYear: Option<string>): (r: TopicRequest)
    ensures r.topic == topic
    ensures currentYear.Some? ==> r.currentYear == currentYear.value
    ensures currentYear.None? ==> r.currentYear == "2025"
  {
    TopicRequest(topic, if currentYear.Some? then currentYear.value else DefaultCurrentYear)
  }

  /** The three flags that `/` and `/health` report. */
  datatype Flags = Flags(crewAvailable: bool, openaiKeyLoaded: bool, serperKeyLoaded: bool)

  datatype RootReply = RootReply(message: string, flags: Flags)

  datatype HealthReply = HealthReply(status: string, flags: Flags)

  function ReportedFlags(cfg: Config): Flags {
    Flags(cfg.crewAvailable, Loaded(cfg.openaiKey), Loaded(cfg.serperKey))
  }

  /** `GET /`: the service name, whether the crew imported, and whether each key is set. */
  function Root(cfg: Config): (r: RootReply)
    ensures r.message == "AI News Generator API"
    ensures r.flags.crewAvailable == cfg.crewAvailable
    ensures r.flags.openaiKeyLoaded <==> cfg.openaiKey.Some? && cfg.openaiKey.value != ""
    ensures r.flags.serperKeyLoaded <==> cfg.serperKey.Some? && cfg.serperKey.value != ""
  {
    RootReply("AI News Generator API", ReportedFlags(cfg))
  }

  /** `GET /health`: always healthy, with the same flags as `GET /`. */
  function HealthCheck(cfg: Config): (r: HealthReply)
    ensures r.status == "healthy"
    ensures r.flags == Root(cfg).flags
  {
    HealthReply("healthy", ReportedFlags(cfg))
  }

  /** What a handler answers: an HTTP error or a JSON body. */
  datatype Reply<T> = Ok(body: T) | HttpError(status: int, detail: string)

  /** The body of a successful generation call; `pdf_filename` is present only when the PDF exists. */
  datatype GenerateReply = GenerateReply(message: string, pdfFilename: Option<string>, result: string)

  const CrewUnavailableDetail := "Crew not available - check imports"
  const OpenAiKeyMissingDetail := "OpenAI API key not found in environment variables"
  const GeneratedMessage := "News generated successfully"
  const NoPdfMessage := "No PDF generated"

  /** The name of the article written at `now`, without extension: `%Y-%m-%d_%H-%M-%S_news_article`. */
  function ArticleName(now: DateTime): (name: string)
    requires Valid(now)
    ensures |name| == 32
    ensures '/' !in name
    ensures !EndsWith(name, PdfSuffix)
    ensures name[..19] == Strftime(now)
    ensures name[19..] == "_news_article"
  {
    var name := Strftime(now) + "_news_article";
    assert name[28..] == "icle";
    name
  }

  /** Article names are equal exactly when the moments agree to the second. */
  lemma ArticleNameInjective(t1: DateTime, t2: DateTime)
    requires Valid(t1) && Valid(t2)
    ensures ArticleName(t1) == ArticleName(t2) <==> t1 == t2
  {
    StrftimeInjective(t1, t2);
  }

  /** The `inputs` dictionary handed to `crew.kickoff`. */
  datatype PipelineInputs = PipelineInputs(topic: string, currentYear: string, filename: string)

  /** What running the crew did: it raised with a message, or returned a result and wrote some files. */
  datatype PipelineOutcome = Raised(error: string) | Returned(result: string, written: set<string>)

  /** The inputs for a request at `now`: the request's fields unchanged and the article name without extension. */
  function InputsFor(request: TopicRequest, now: DateTime): (inputs: PipelineInputs)
    requires Valid(now)
    ensures inputs.topic == request.topic && inputs.currentYear == request.currentYear
    ensures inputs.filename == ArticleName(now) && !EndsWith(inputs.filename, PdfSuffix)
  {
    PipelineInputs(request.topic, request.currentYear, ArticleName(now))
  }

  /**
    `POST /generate-news`. `existing` holds the names in the news folder
    before the run; the file checked for afterwards is the article name
    with `.pdf` appended.
  */
  function GenerateNews(cfg: Config, request: TopicRequest, now: DateTime,
                        kickoff: PipelineInputs -> PipelineOutcome, existing: set<string>): (r: Reply<GenerateReply>)
    requires Valid(now)
    // guard order: crew first, then the OpenAI key; neither consults the pipeline
    ensures !cfg.crewAvailable ==> r == HttpError(500, CrewUnavailableDetail)
    ensures cfg.crewAvailable && !Loaded(cfg.openaiKey) ==> r == HttpError(500, OpenAiKeyMissingDetail)
    // once past the guards, an exception from the run becomes a 500 carrying its message
    ensures Ready(cfg) && kickoff(InputsFor(request, now)).Raised?
            ==> r == HttpError(500, kickoff(InputsFor(request, now)).error)
    // a body is returned exactly when the guards pass and the run returns, and it carries the run's result
    ensures r.Ok? <==> Ready(cfg) && kickoff(InputsFor(request, now)).Returned?
    ensures r.Ok? ==> r.body.result == kickoff(InputsFor(request, now)).result
    // the PDF is reported exactly when the expected file is in the folder after the run
    ensures r.Ok? ==> (r.body.pdfFilename.Some?
                       <==> ArticleName(now) + PdfSuffix in existing + kickoff(InputsFor(request, now)).written)
    ensures r.Ok? && r.body.pdfFilename.Some?
            ==> r.body.pdfFilename.value == ArticleName(now) + PdfSuffix && r.body.message == GeneratedMessage
    ensures r.Ok? && r.body.pdfFilename.None? ==> r.body.message == NoPdfMessage
  {
    if !cfg.crewAvailable then HttpError(500, CrewUnavailableDetail)
    else if !Loaded(cfg.openaiKey) then HttpError(500, OpenAiKeyMissingDetail)
    else
      var filename := ArticleName(now);
      var inputs := PipelineInputs(request.topic, request.currentYear, filename);
      match kickoff(inputs)
      case Raised(e) => HttpError(500, e)
      case Returned(result, written) =>
        var pdfName := filename + PdfSuffix;
        if pdfName in existing + written then Ok(GenerateReply(GeneratedMessage, Some(pdfName), result))
        else Ok(GenerateReply(NoPdfMessage, None, result))
  }

  /** Without the crew or the OpenAI key the answer does not depend on the pipeline or the folder: it is never run. */
  lemma GuardsSkipPipeline(cfg: Config, request: TopicRequest, now: DateTime,
                           k1: PipelineInputs -> PipelineOutcome, k2: PipelineInputs -> PipelineOutcome,
                           existing1: set<string>, existing2: set<string>)
    requires Valid(now) && !Ready(cfg)
    ensures GenerateNews(cfg, request, now, k1, existing1) == GenerateNews(cfg, request, now, k2, existing2)
    ensures GenerateNews(cfg, request, now, k1, existing1).HttpError?
    ensures GenerateNews(cfg, request, now, k1, existing1).status == 500
  {
  }

  /** The Serper key is not consulted by `generate_news`. */
  lemma SerperKeyIgnored(cfg: Config, serperKey: Option<string>, request: TopicRequest, now: DateTime,
                         kickoff: PipelineInputs -> PipelineOutcome, existing: set<string>)
    requires Valid(now)
    ensures GenerateNews(cfg, request, now, kickoff, existing)
         == GenerateNews(cfg.(serperKey := serperKey), request, now, kickoff, existing)
  {
  }

  /**
    The crew and OpenAI flags of `/` are both set exactly when `generate_news`
    passes its guards: for a run that returns, exactly when a body comes back.
  */
  lemma RootFlagsMatchGuards(cfg: Config, request: TopicRequest, now: DateTime,
                             kickoff: PipelineInputs -> PipelineOutcome, existing: set<string>)
    requires Valid(now)
    ensures Root(cfg).flags.crewAvailable && Root(cfg).flags.openaiKeyLoaded <==> Ready(cfg)
    ensures kickoff(InputsFor(request, now)).Returned?
            ==> (Root(cfg).flags.crewAvailable && Root(cfg).flags.openaiKeyLoaded
                 <==> GenerateNews(cfg, request, now, kickoff, existing).Ok?)
  {
  }

  /** `GET /download-pdf/{filename}`: the stored document, or 404 exactly when the name is absent. */
  function DownloadPdf(files: map<string, seq<string>>, filename: string): (r: Reply<seq<string>>)
    ensures r.HttpError? <==> filename !in files
    ensures r.HttpError? ==> r.status == 404 && r.detail == "PDF not found"
    ensures r.Ok? ==> r.body == files[filename]
  {
    if filename !in files then HttpError(404, "PDF not found") else Ok(files[filename])
  }

  /** `a` is `b` with some elements left out and the rest in their order. */
  predicate IsSubsequence(a: seq<string>, b: seq<string>)
    decreases |b|
  {
    if |a| == 0 then true
    else if |b| == 0 then false
    else if a[0] == b[0] then IsSubsequence(a[1..], b[1..])
    else IsSubsequence(a, b[1..])
  }

  /**
    `GET /list-pdfs`: the entries of the listing that end in `.pdf`, in
    listing order, each as often as it is listed, and nothing else.
  */
  function ListPdfs(listing: seq<string>): (pdfs: seq<string>)
    ensures IsSubsequence(pdfs, listing)
    ensures forall i :: 0 <= i < |pdfs| ==> EndsWith(pdfs[i], PdfSuffix)
    ensures forall name :: multiset(pdfs)[name] == if EndsWith(name, PdfSuffix) then multiset(listing)[name] else 0
    decreases |listing|
  {
    if |listing| == 0 then []
    else
      var rest := ListPdfs(listing[1..]);
      assert listing == [listing[0]] + listing[1..];
      if EndsWith(listing[0], PdfSuffix) then [listing[0]] + rest else rest
  }

  /** `/list-pdfs` over a listing of the folder names it finds exactly the PDF names of the folder. */
  lemma ListPdfsOfFolder(listing: seq<string>, names: set<string>)
    requires forall name :: name in listing <==> name in names
    ensures forall name :: name in ListPdfs(listing) <==> name in names && EndsWith(name, PdfSuffix)
  {
    var pdfs := ListPdfs(listing);
    forall name
      ensures name in pdfs <==> name in names && EndsWith(name, PdfSuffix)
    {
      assert name in pdfs <==> multiset(pdfs)[name] > 0;
      assert name in listing <==> multiset(listing)[name] > 0;
    }
  }
}
