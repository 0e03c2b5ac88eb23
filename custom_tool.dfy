/**
  `PDFWriterTool._run`: cleans the requested file name, renders the content
  one cell per line and writes the document into the fixed `news` folder.
  The rendered document is reduced to its sequence of cells and the folder to
  a map from file name to the cells of the document stored under it.
*/
module PdfWriterTool {
  import opened Strings
  import opened Paths

  const PdfSuffix := ".pdf"

  /**
    The clean-up of the requested name: keep its basename and append `.pdf`
    unless it already ends with it.
  */
  function Sanitize(filename: string): (clean: string)
    ensures '/' !in clean
    ensures EndsWith(clean, PdfSuffix)
    ensures clean == Basename(filename) || clean == Basename(filename) + PdfSuffix
    // the basename is kept as it is exactly when it already ends with `.pdf`
    ensures clean == Basename(filename) <==> EndsWith(Basename(filename), PdfSuffix)
  {
    var base := Basename(filename);
    if EndsWith(base, PdfSuffix) then base
    else
      assert (base + PdfSuffix)[|base|..] == PdfSuffix;
      base + PdfSuffix
  }

  /**
    A name without `/` keeps its `.pdf` extension untouched and otherwise
    gets it appended.
  */
  lemma SanitizePlainName(filename: string)
    requires '/' !in filename
    ensures EndsWith(filename, PdfSuffix) ==> Sanitize(filename) == filename
    ensures !EndsWith(filename, PdfSuffix) ==> Sanitize(filename) == filename + PdfSuffix
  {
    BasenameOfPlain(filename);
  }

  /** Cleaning a clean name changes nothing. */
  lemma SanitizeIdempotent(filename: string)
    ensures Sanitize(Sanitize(filename)) == Sanitize(filename)
  {
    SanitizePlainName(Sanitize(filename));
  }

  /** A name that ends in `/` has an empty basename, so it becomes just `.pdf`. */
  lemma SanitizeTrailingSlash(filename: string)
    requires |filename| > 0 && filename[|filename| - 1] == '/'
    ensures Sanitize(filename) == PdfSuffix
  {
    assert Basename(filename) == "";
  }

  /** `os.path.join(project_root, "news")` */
  function NewsFolderPath(projectRoot: string): (folder: string)
    ensures |folder| > 0 && folder[|folder| - 1] != '/'
    ensures EndsWith(folder, "news")
  {
    JoinPath(projectRoot, "news")
  }

  /**
    The path the document is written to is the news folder, one `/`, and the
    clean name.
  */
  lemma PdfPathIsFolderSlashName(projectRoot: string, filename: string)
    ensures JoinPath(NewsFolderPath(projectRoot), Sanitize(filename))
         == NewsFolderPath(projectRoot) + "/" + Sanitize(filename)
  {
    var clean := Sanitize(filename);
    assert |clean| > 0 && clean[0] != '/';
  }

  /** The clean name is the basename of the written path: the file lands directly in the folder. */
  lemma PdfPathInNewsFolder(projectRoot: string, filename: string)
    ensures Basename(JoinPath(NewsFolderPath(projectRoot), Sanitize(filename))) == Sanitize(filename)
  {
    JoinPathDirectlyInside(NewsFolderPath(projectRoot), Sanitize(filename));
  }

  /** The `news` folder: the documents stored in it, by file name. */
  class NewsFolder {
    var files: map<string, seq<string>>

    constructor (files: map<string, seq<string>>)
      ensures this.files == files
    {
      this.files := files;
    }
  }

  /** The `FPDF` document under construction, reduced to its cells. */
  class PdfDocument {
    var cells: seq<string>

    /** `FPDF()` followed by `add_page`, `set_auto_page_break` and `set_font`. */
    constructor ()
      ensures cells == []
    {
      cells := [];
    }

    /** `multi_cell(0, 10, line)`: one more cell holding `line`. */
    method MultiCell(line: string)
      modifies this
      ensures cells == old(cells) + [line]
    {
      cells := cells + [line];
    }

    /** `output(path)`: stores the document under `name`, replacing any earlier one. */
    method Output(folder: NewsFolder, name: string)
      modifies folder
      ensures folder.files == old(folder.files)[name := old(cells)]
    {
      folder.files := folder.files[name := cells];
    }
  }

  /**
    The rendering half of `_run`: a fresh document with one cell per line of
    `content`, in order.
  */
  method Render(content: string) returns (pdf: PdfDocument)
    ensures fresh(pdf)
    ensures pdf.cells == Split(content, '\n')
  {
    pdf := new PdfDocument();
    var lines := Split(content, '\n');
    for i := 0 to |lines|
      invariant pdf.cells == lines[..i]
    {
      pdf.MultiCell(lines[i]);
    }
    assert lines[..|lines|] == lines;
  }

  /**
    `_run(filename, content)`: one cell per line of `content`, stored in the
    news folder under the cleaned name, which is added or overwritten; every
    other document is kept. Returns the message naming the written path.
  */
  method Run(folder: NewsFolder, projectRoot: string, filename: string, content: string)
    returns (message: string)
    modifies folder
    ensures folder.files == old(folder.files)[Sanitize(filename) := Split(content, '\n')]
    ensures message == "PDF saved at " + JoinPath(NewsFolderPath(projectRoot), Sanitize(filename))
  {
    var pdf := Render(content);
    var newsFolder := NewsFolderPath(projectRoot);
    var cleanFilename := Sanitize(filename);
    var pdfFilePath := JoinPath(newsFolder, cleanFilename);
    pdf.Output(folder, cleanFilename);
    message := "PDF saved at " + pdfFilePath;
  }

  /**
    The stored cells are faithful to the content: joined with newlines they
    give it back, none holds a newline, and there is one cell more than the
    content has newlines.
  */
  lemma {:induction false} CellsAreLines(content: string)
    ensures Join(Split(content, '\n'), '\n') == content
    ensures forall i :: 0 <= i < |Split(content, '\n')| ==> '\n' !in Split(content, '\n')[i]
    ensures |Split(content, '\n')| == Count(content, '\n') + 1
  {
    JoinSplit(content, '\n');
    SplitCount(content, '\n');
  }

  /** Writing the same name and content twice leaves the folder as one write does. */
  lemma RewriteIsIdempotent(files: map<string, seq<string>>, filename: string, content: string)
    ensures var once := files[Sanitize(filename) := Split(content, '\n')];
            once[Sanitize(filename) := Split(content, '\n')] == once
  {
  }
}
