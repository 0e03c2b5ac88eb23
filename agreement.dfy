/**
  How the two halves of the core meet: the service hands the crew an article
  name, the crew's writer step stores the document under the cleaned form of
  that name, and the service then looks for the name with `.pdf` appended.
*/
module Agreement {
  import opened Wrappers
  import opened Strings
  import opened Timestamps
  import opened Api
  import opened PdfWriterTool

  /** The name the service checks for is exactly the name the writer produces from the name it was given. */
  lemma CheckedNameIsWrittenName(now: DateTime)
    requires Valid(now)
    ensures Sanitize(ArticleName(now)) == ArticleName(now) + PdfSuffix
    ensures |Sanitize(ArticleName(now))| == 36
  {
    SanitizePlainName(ArticleName(now));
  }

  /**
    If the crew returns after its writer stored the document under the
    unchanged article name, the service reports success with that file.
  */
  lemma WriterOutputIsFound(cfg: Config, request: TopicRequest, now: DateTime,
                            kickoff: PipelineInputs -> PipelineOutcome, existing: set<string>)
    requires Valid(now) && Ready(cfg)
    requires kickoff(InputsFor(request, now)).Returned?
    requires Sanitize(InputsFor(request, now).filename) in kickoff(InputsFor(request, now)).written
    ensures GenerateNews(cfg, request, now, kickoff, existing)
         == Ok(GenerateReply(GeneratedMessage, Some(ArticleName(now) + PdfSuffix),
                             kickoff(InputsFor(request, now)).result))
  {
    CheckedNameIsWrittenName(now);
  }

  /**
    After the writer stored `content` under a name, downloading the cleaned
    name yields its lines, and those lines give back `content`.
  */
  lemma DownloadAfterWrite(files: map<string, seq<string>>, filename: string, content: string)
    ensures var stored := files[Sanitize(filename) := Split(content, '\n')];
            && DownloadPdf(stored, Sanitize(filename)) == Ok(Split(content, '\n'))
            && Join(DownloadPdf(stored, Sanitize(filename)).body, '\n') == content
  {
    JoinSplit(content, '\n');
  }

  /**
    Once a `.pdf` name is stored, the folder holds it, downloading it gives
    what was stored, and every listing of the folder shows it.
  */
  lemma StoredPdfIsServed(files: map<string, seq<string>>, name: string, lines: seq<string>)
    requires EndsWith(name, PdfSuffix)
    ensures var stored := files[name := lines];
            && name in stored
            && DownloadPdf(stored, name) == Ok(lines)
            && forall listing: seq<string> :: (forall n :: n in listing <==> n in stored) ==> name in ListPdfs(listing)
  {
    EveryListingShows(files[name := lines], name);
  }

  /** Every listing of a folder that holds a `.pdf` name shows that name in `/list-pdfs`. */
  lemma EveryListingShows(files: map<string, seq<string>>, name: string)
    requires name in files && EndsWith(name, PdfSuffix)
    ensures forall listing: seq<string> :: (forall n :: n in listing <==> n in files) ==> name in ListPdfs(listing)
  {
    forall listing: seq<string> | forall n :: n in listing <==> n in files
      ensures name in ListPdfs(listing)
    {
      ListPdfsOfFolder(listing, files.Keys);
    }
  }

  /** The crew of a "quantum computing" request writes under the name it is given: the reply names the file. */
  lemma HelloWorldReply(cfg: Config, now: DateTime, existing: set<string>)
    requires Valid(now) && Ready(cfg)
    ensures var kickoff := (inputs: PipelineInputs) => Returned("done", {Sanitize(inputs.filename)});
            GenerateNews(cfg, MakeTopicRequest("quantum computing", Some("2025")), now, kickoff, existing)
            == Ok(GenerateReply(GeneratedMessage, Some(ArticleName(now) + PdfSuffix), "done"))
  {
    var kickoff := (inputs: PipelineInputs) => Returned("done", {Sanitize(inputs.filename)});
    WriterOutputIsFound(cfg, MakeTopicRequest("quantum computing", Some("2025")), now, kickoff, existing);
  }

  /**
    After "Hello world" is stored under the generated name in a folder holding
    `files`: the folder holds the name the service checks for, downloading it
    gives the single line, and every listing of the folder shows it.
  */
  lemma HelloWorldFolder(now: DateTime, files: map<string, seq<string>>)
    requires Valid(now)
    ensures var stored := files[Sanitize(ArticleName(now)) := Split("Hello world", '\n')];
            && ArticleName(now) + PdfSuffix in stored
            && DownloadPdf(stored, ArticleName(now) + PdfSuffix) == Ok(["Hello world"])
            && forall listing: seq<string> :: (forall n :: n in listing <==> n in stored)
                 ==> ArticleName(now) + PdfSuffix in ListPdfs(listing)
  {
    var name := ArticleName(now) + PdfSuffix;
    assert Sanitize(ArticleName(now)) == name by {
      CheckedNameIsWrittenName(now);
    }
    assert Split("Hello world", '\n') == ["Hello world"] by {
      SplitPlain("Hello world", '\n');
    }
    assert EndsWith(name, PdfSuffix) by {
      EndsWithAppended(ArticleName(now), PdfSuffix);
    }
    StoredPdfIsServed(files, name, ["Hello world"]);
  }

  /**
    The writer storing "Hello world" under the generated name: afterwards the
    folder holds the name the service checks for, downloading it gives the
    single line, and every listing of the folder shows it.
  */
  method HelloWorldWrite(folder: NewsFolder, projectRoot: string, now: DateTime) returns (message: string)
    requires Valid(now)
    modifies folder
    ensures ArticleName(now) + PdfSuffix in folder.files
    ensures DownloadPdf(folder.files, ArticleName(now) + PdfSuffix) == Ok(["Hello world"])
    ensures forall listing: seq<string> :: (forall n :: n in listing <==> n in folder.files)
              ==> ArticleName(now) + PdfSuffix in ListPdfs(listing)
  {
    message := Run(folder, projectRoot, ArticleName(now), "Hello world");
    HelloWorldFolder(now, old(folder.files));
  }

  /** Running the writer twice with the same name and content leaves the folder as one run does, with the same message. */
  method RewriteTwice(folder: NewsFolder, projectRoot: string, filename: string, content: string)
    returns (first: string, second: string)
    modifies folder
    ensures folder.files == old(folder.files)[Sanitize(filename) := Split(content, '\n')]
    ensures first == second
  {
    first := Run(folder, projectRoot, filename, content);
    second := Run(folder, projectRoot, filename, content);
    RewriteIsIdempotent(old(folder.files), filename, content);
  }
}
