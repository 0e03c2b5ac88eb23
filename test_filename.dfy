/**
  `test_filename`: generates the article name the way the service does and
  appends `.pdf` when it is missing.
*/
module TestFilename {
  import opened Strings
  import opened Timestamps
  import Api
  import PdfWriterTool

  /** The final name the test prints for the moment `now`. */
  function FinalFilename(now: DateTime): (final: string)
    requires Valid(now)
    // the append branch always fires, so the final name is the service's name plus `.pdf`
    ensures final == Api.ArticleName(now) + PdfWriterTool.PdfSuffix
    ensures |final| == 36
    // and it is what the writer tool makes of that name
    ensures final == PdfWriterTool.Sanitize(Api.ArticleName(now))
  {
    var filename := Strftime(now) + "_news_article";
    assert filename == Api.ArticleName(now) by {
      assert filename[..19] == Strftime(now) && filename[19..] == "_news_article";
      assert Api.ArticleName(now)[19..] == "_news_article";
    }
    PdfWriterTool.SanitizePlainName(filename);
    if !EndsWith(filename, PdfWriterTool.PdfSuffix) then filename + PdfWriterTool.PdfSuffix else filename
  }
}
