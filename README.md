# AI News Generator backend: a Dafny model of its naming, writing and request logic

The service takes a news topic over HTTP and runs a crew of agents: search, scrape, write, save as PDF. It then reports whether the expected PDF exists, and it serves and lists the PDFs in a fixed `news` folder. This project models the part of it that has logic of its own:

- **The PDF writer tool** (`PDFWriterTool._run`). It cleans the requested file name: it keeps the POSIX basename and appends `.pdf` if missing. It renders the content one cell per line, and it stores the document directly inside the `news` folder, replacing any file of the same name. It returns `"PDF saved at <path>"`.
  - The rendered document is reduced to its sequence of cells.
  - The folder is a `map` from file name to cells, held in a `NewsFolder` object that the writer updates in place.
- **The request handlers** (`api.py`). They are pure functions over:
  - a `Config`: whether the crew imported, and the OpenAI and Serper keys;
  - the current time, as a parameter;
  - the crew run, as a function from its inputs record to its outcome. The run either raised, or it returned a result and wrote some file names;
  - the folder, as a set of names, a map, or a directory listing, depending on the handler.
- **The filename test** (`test_filename.py`). It generates the timestamped article name and appends `.pdf`.
- **Cross-file agreement.** The service generates the name `%Y-%m-%d_%H-%M-%S_news_article`. That name has no `/` and does not end in `.pdf`. So the writer stores the document under exactly `name + ".pdf"`, which is the file the service looks for afterwards.

Modules: `Wrappers` (Option), `Strings` (Python's `endswith`, `split`, `join`), `Paths` (`os.path.basename`, `os.path.join`), `Timestamps` (`strftime` and its inverse), `PdfWriterTool`, `Api`, `TestFilename`, `Agreement`.

Behaviour the model keeps as the code has it, though one might expect otherwise:

- Only the OpenAI key is checked before a run. The Serper key is reported but never required (`Api.SerperKeyIgnored`).
- Every refusal is status 500, not a distinct "service unavailable".
- A second write under the same name silently overwrites the file. Files are not immutable.
- `current_year` defaults to `"2025"`.

## Model

| member | source | states |
|---|---|---|
| `Strings.EndsWith` | src/ai_project1/tools/custom_tool.py:34 | `s.endswith(suffix)` holds exactly when `s` is some prefix followed by `suffix`; every string ends with `""` |
| `Strings.EndsWithAppended` | src/ai_project1/tools/custom_tool.py:35 | a name with `.pdf` appended ends with `.pdf`, whatever the name |
| `Strings.Split` | src/ai_project1/tools/custom_tool.py:20 | `content.split("\n")` yields at least one piece, and no piece contains the separator |
| `Strings.JoinSplit` | src/ai_project1/tools/custom_tool.py:20-21 | joining the cells with `\n` gives back the content exactly |
| `Strings.SplitCount` | src/ai_project1/tools/custom_tool.py:20-21 | the number of cells is the number of newlines plus one |
| `Strings.SplitJoin` | src/ai_project1/tools/custom_tool.py:20-21 | splitting a join of newline-free lines gives back those lines: split and join are inverse both ways |
| `Paths.LastSlash` | src/ai_project1/tools/custom_tool.py:33 | `rfind('/')`: -1 or the index of a `/`, with no `/` after it |
| `Paths.Basename` | src/ai_project1/tools/custom_tool.py:33 | the basename is the longest suffix without `/`: a suffix, free of `/`, and either the whole path or preceded by `/` |
| `Paths.JoinPath` | src/ai_project1/tools/custom_tool.py:41 | `os.path.join` ends with its last component |
| `Paths.BasenameOfPlain` | src/ai_project1/tools/custom_tool.py:33 | a name without `/` is its own basename |
| `Paths.JoinPathDirectlyInside` | src/ai_project1/tools/custom_tool.py:41 | joining a `/`-free name onto a folder not ending in `/` gives `folder + "/" + name`, whose basename is the name |
| `Timestamps.Strftime` | src/ai_project1/api.py:89 | the `%Y-%m-%d_%H-%M-%S` stamp has 19 characters and no `/`: `-` at positions 4, 7, 13 and 16, `_` at 10, and a digit everywhere else |
| `Timestamps.ParseStrftime` | src/ai_project1/api.py:89 | reading the stamp's fields back gives the moment it was made from |
| `Timestamps.StrftimeInjective` | src/ai_project1/api.py:89 | two stamps are equal exactly when the moments agree to the second |
| `PdfWriterTool.Sanitize` | src/ai_project1/tools/custom_tool.py:33-35 | the clean name has no `/` and ends in `.pdf`; it is the basename unchanged exactly when the basename already ends in `.pdf`, and otherwise the basename with `.pdf` appended |
| `PdfWriterTool.SanitizePlainName` | src/ai_project1/tools/custom_tool.py:33-35 | a `/`-free name ending in `.pdf` is unchanged; any other `/`-free name gets `.pdf` appended |
| `PdfWriterTool.SanitizeIdempotent` | src/ai_project1/tools/custom_tool.py:33-35 | cleaning a clean name changes nothing |
| `PdfWriterTool.SanitizeTrailingSlash` | src/ai_project1/tools/custom_tool.py:33-35 | a name ending in `/` has an empty basename and becomes exactly `.pdf` |
| `PdfWriterTool.NewsFolderPath` | src/ai_project1/tools/custom_tool.py:27 | the news folder path is non-empty, does not end in `/`, and ends in `news` |
| `PdfWriterTool.PdfPathIsFolderSlashName` | src/ai_project1/tools/custom_tool.py:41 | the written path is `news_folder + "/" + clean_name` |
| `PdfWriterTool.PdfPathInNewsFolder` | src/ai_project1/tools/custom_tool.py:41 | the clean name is the basename of the written path: the file lands directly in the folder |
| `PdfWriterTool.NewsFolder.constructor` | src/ai_project1/tools/custom_tool.py:27-30 | the `news` folder is a mutable map from file name to stored document, starting from the files it already holds |
| `PdfWriterTool.PdfDocument.constructor` | src/ai_project1/tools/custom_tool.py:16-19 | a new document holds no cells |
| `PdfWriterTool.PdfDocument.MultiCell` | src/ai_project1/tools/custom_tool.py:21 | each call adds exactly one cell holding the line, after the earlier ones |
| `PdfWriterTool.PdfDocument.Output` | src/ai_project1/tools/custom_tool.py:44 | the folder maps the name to the document's cells, replacing any earlier entry; every other entry is unchanged |
| `PdfWriterTool.Render` | src/ai_project1/tools/custom_tool.py:16-21 | a fresh document with exactly one cell per line of `content.split("\n")`, in order |
| `PdfWriterTool.Run` | src/ai_project1/tools/custom_tool.py:12-46 | the folder gains or overwrites `Sanitize(filename)` with the content's lines and keeps everything else; the message is `"PDF saved at "` followed by the joined path, which `PdfPathIsFolderSlashName` shows is `news_folder + "/" + Sanitize(filename)` |
| `PdfWriterTool.CellsAreLines` | src/ai_project1/tools/custom_tool.py:20-21 | the cells rejoin to the content, none holds a newline, and there are newline-count plus one of them |
| `PdfWriterTool.RewriteIsIdempotent` | src/ai_project1/tools/custom_tool.py:44 | writing the same name and content twice leaves the folder as one write does |
| `Api.Loaded` | src/ai_project1/api.py:65-66 | Python truthiness of `os.getenv`: an unset variable and an empty one are both false, any non-empty value is true |
| `Api.MakeTopicRequest` | src/ai_project1/api.py:56-58 | the request keeps the topic, and `current_year` is the given value or `"2025"` when omitted |
| `Api.Root` | src/ai_project1/api.py:60-67 | `/` reports the service name, `crew_available` equal to whether the crew imported, and each key's flag true exactly when that key is set and non-empty |
| `Api.HealthCheck` | src/ai_project1/api.py:69-77 | `/health` always reports `"healthy"`, with the same flags as `/` |
| `Api.ArticleName` | src/ai_project1/api.py:89 | the generated name has 32 characters and no `/`, and does not end in `.pdf`; it is the 19-character stamp followed by `_news_article` |
| `Api.ArticleNameInjective` | src/ai_project1/api.py:89 | two generated names are equal exactly when the timestamps agree to the second |
| `Api.InputsFor` | src/ai_project1/api.py:92-96 | the crew receives the request's topic and year unchanged, plus the article name without `.pdf` |
| `Api.GenerateNews` | src/ai_project1/api.py:79-116 | the crew check comes first, then the OpenAI key check, each failing with 500; an exception from the run becomes 500 with its message; otherwise the reply carries the run's result and names `filename + ".pdf"` exactly when that file exists afterwards, else it says "No PDF generated" |
| `Api.GuardsSkipPipeline` | src/ai_project1/api.py:81-85 | when a guard fails, the answer is a 500 that does not depend on the pipeline or the folder, so the pipeline is never run |
| `Api.RootFlagsMatchGuards` | src/ai_project1/api.py:60-85 | the crew and OpenAI flags of `/` are both true exactly when `generate_news` passes its guards; for a run that returns, exactly when it answers with a body |
| `Api.SerperKeyIgnored` | src/ai_project1/api.py:84-85 | `generate_news` answers the same whatever the Serper key is |
| `Api.DownloadPdf` | src/ai_project1/api.py:118-124 | 404 "PDF not found" exactly when the name is absent from the folder; otherwise the stored document |
| `Api.ListPdfs` | src/ai_project1/api.py:132-137 | the result is a subsequence of the listing: every entry ends in `.pdf`, and each `.pdf` entry appears as often as it is listed |
| `Api.ListPdfsOfFolder` | src/ai_project1/api.py:134-137 | over a listing of the folder, the result holds exactly the folder's `.pdf` names |
| `TestFilename.FinalFilename` | test_filename.py:8-22 | the append branch always fires: the final name is the service's article name plus `.pdf`, 36 characters, and equals what the writer tool makes of that name |
| `Agreement.CheckedNameIsWrittenName` | src/ai_project1/api.py:104 | cleaning the generated name gives exactly `filename + ".pdf"`, the path the service checks |
| `Agreement.WriterOutputIsFound` | src/ai_project1/api.py:99-111 | if the crew returns after writing under the unchanged name it was given, the reply is success with `pdf_filename == filename + ".pdf"` and the run's result |
| `Agreement.DownloadAfterWrite` | src/ai_project1/api.py:120-124 | after a write, downloading the cleaned name yields the written lines, and they rejoin to the content |
| `Agreement.EveryListingShows` | src/ai_project1/api.py:132-137 | every listing of a folder that holds a `.pdf` name shows that name in `/list-pdfs` |
| `Agreement.StoredPdfIsServed` | src/ai_project1/api.py:118-137 | once a `.pdf` name is stored, the folder holds it, downloading it returns what was stored, and every listing of the folder shows it |
| `Agreement.HelloWorldReply` | src/ai_project1/api.py:79-111 | a "quantum computing" request whose crew writes under the name it is given gets a success reply naming `filename + ".pdf"` and carrying the run's result |
| `Agreement.HelloWorldFolder` | src/ai_project1/api.py:118-137 | once "Hello world" is stored under the cleaned article name, the folder holds `filename + ".pdf"`, every listing of it shows the file, and downloading it yields the single line "Hello world" |
| `Agreement.HelloWorldWrite` | src/ai_project1/tools/custom_tool.py:12-46 | running the writer on the generated name and "Hello world" leaves a folder that holds `filename + ".pdf"`, serves it as the single line "Hello world", and lists it |
| `Agreement.RewriteTwice` | src/ai_project1/tools/custom_tool.py:12-46 | running the writer twice with the same name and content leaves the folder as one run does, and both runs return the same message |

## Left out

- FPDF rendering: fonts, page size, automatic page breaks and word wrap are not modelled. So are encoding errors raised by the library, for example characters outside Latin-1. A document is its sequence of cells.
- `os.makedirs` and the folder's location: the location is derived from the module's own path. `Run` takes the project root as a parameter. The model assumes that `api.py` (`../../news`) and the tool (three levels up, then `news`) name the same folder.
- Debug `print` output in the tool and at start-up.
- Loading `.env`, `os.getenv` and the nested import fallback that sets `CREW_AVAILABLE`. These become the `Config` record, built once.
- `datetime.now()` is a parameter. `%Y` is modelled as the documented four-digit zero-padded year. Some C libraries leave years below 1000 unpadded; that case is not modelled.
- `src/ai_project1/crew.py` (agents, tasks, YAML config, search and scrape tools) is not part of this model. The crew run is an opaque function of its inputs. Whether the writer agent passes the filename through unchanged is a premise of `Agreement.WriterOutputIsFound`, not a theorem.
- FastAPI routing, CORS, uvicorn and the streaming of `FileResponse`. Replies are datatypes, and a download yields the stored cells rather than bytes.
- Exceptions during name generation and the existence check: `strftime` cannot fail on a valid `datetime`, and `os.path.exists` returns false rather than raising. So only the crew run can raise inside the `try`.
- `Api.DownloadPdf`: the lookup is by name only. `os.path.exists` also accepts `.`, `..`, relative paths and sub-directories, and the handler applies no sanitisation; none of those are modelled.
- `Api.ListPdfs`: the listing order is whatever `os.listdir` yields, taken as a parameter. A missing `news` folder makes `os.listdir` raise, which becomes a 500 error; that path is not modelled.
- Concurrency: two requests in the same second share a name, and the later write wins. The model is sequential; `Api.ArticleNameInjective` shows that names collide exactly when the seconds agree.
- Windows `\` separators in `basename`: only POSIX `/` is modelled.
- `test_api.py`: a network client for endpoints that `api.py` does not define.
