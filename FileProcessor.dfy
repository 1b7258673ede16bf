/** `FileProcessor` (app/services/file_processor.py): picks the extractor by
    the file's suffix, joins the page or paragraph texts line by line and
    strips the result, and turns every failure into one 500 error. Reading
    the documents is outside the model: `DocumentReaders` gives, for a path,
    the texts of the pages of the PDF (what `page.extract_text()` returns)
    or of the paragraphs of the Word document, or the message of the
    exception opening or reading it raised. */
module FileProcessor {
  import opened Wrappers
  import opened Text
  import opened Http

  datatype DocumentReaders = DocumentReaders(
    pdfPages: string -> Result<seq<string>, string>,
    docxParagraphs: string -> Result<seq<string>, string>)

  /** The accumulated `text`: every part followed by a newline. */
  function Lines(parts: seq<string>): string {
    if parts == [] then ""
    else Lines(parts[..|parts| - 1]) + parts[|parts| - 1] + "\n"
  }

  /** The loop `text += part + "\n"` followed by `text.strip()`, shared by
      `_extract_from_pdf` and `_extract_from_docx`. */
  method AccumulateText(parts: seq<string>) returns (text: string)
    ensures text == Strip(Lines(parts))
  {
    text := "";
    for i := 0 to |parts|
      invariant text == Lines(parts[..i])
    {
      assert parts[..i + 1][..i] == parts[..i];
      text := text + parts[i] + "\n";
    }
    assert parts[..|parts|] == parts;
    text := Strip(text);
  }

  /** The extracted text is the parts joined by newlines and stripped: the
      newline after the last part makes no difference. */
  lemma {:induction false} LinesAreJoinedParts(parts: seq<string>)
    ensures Strip(Lines(parts)) == Strip(Join("\n", parts))
  {
    if parts != [] {
      LinesAreJoin(parts);
      StripAppendWhitespace(Join("\n", parts), '\n');
      assert Join("\n", parts) + "\n" == Join("\n", parts) + ['\n'];
    }
  }

  lemma {:induction false} LinesAreJoin(parts: seq<string>)
    requires parts != []
    ensures Lines(parts) == Join("\n", parts) + "\n"
  {
    var n := |parts| - 1;
    if n > 0 {
      LinesAreJoin(parts[..n]);
      JoinSnoc("\n", parts[..n], parts[n]);
      assert parts[..n] + [parts[n]] == parts;
    } else {
      assert Lines(parts[..0]) == "";
    }
  }

  /** `_extract_from_pdf` */
  method ExtractFromPdf(filePath: string, readers: DocumentReaders) returns (r: Result<string, string>)
    ensures r == match readers.pdfPages(filePath)
      case Success(pages) => Success(Strip(Lines(pages)))
      case Failure(message) => Failure(message)
  {
    match readers.pdfPages(filePath)
    case Success(pages) =>
      var text := AccumulateText(pages);
      r := Success(text);
    case Failure(message) =>
      r := Failure(message);
  }

  /** `_extract_from_docx` */
  method ExtractFromDocx(filePath: string, readers: DocumentReaders) returns (r: Result<string, string>)
    ensures r == match readers.docxParagraphs(filePath)
      case Success(paragraphs) => Success(Strip(Lines(paragraphs)))
      case Failure(message) => Failure(message)
  {
    match readers.docxParagraphs(filePath)
    case Success(paragraphs) =>
      var text := AccumulateText(paragraphs);
      r := Success(text);
    case Failure(message) =>
      r := Failure(message);
  }

  predicate IsPdfPath(filePath: string) {
    EndsWith(LowerStr(filePath), ".pdf")
  }

  predicate IsWordPath(filePath: string) {
    EndsWith(LowerStr(filePath), ".doc") || EndsWith(LowerStr(filePath), ".docx")
  }

  const ExtractionErrorPrefix := "Error extracting text: "

  /** The 400 raised for any other suffix, as its text reaches the handler. */
  const UnsupportedFormat := Describe(HttpError(BadRequest, "Unsupported file format"))

  /** The outcome of the extractor a path is sent to, with an error message
      turned into the 500 error of the handler. */
  function Extracted(outcome: Result<seq<string>, string>): (r: Result<string, HttpError>)
    ensures r.Success? <==> outcome.Success?
    ensures r.Success? ==> IsStripped(r.value) && r.value == Strip(Lines(outcome.value))
    ensures r.Failure? ==> r.error.status == InternalServerError && StartsWith(r.error.detail, ExtractionErrorPrefix)
    ensures r.Failure? ==> r.error.detail == ExtractionErrorPrefix + outcome.error
  {
    match outcome
    case Success(parts) =>
      StripSpec(Lines(parts));
      Success(Strip(Lines(parts)))
    case Failure(message) =>
      assert (ExtractionErrorPrefix + message)[..|ExtractionErrorPrefix|] == ExtractionErrorPrefix;
      Failure(Reraise(ExtractionErrorPrefix, message))
  }

  /** What `extract_text_from_file` returns or raises. */
  function ExtractedText(filePath: string, readers: DocumentReaders): (r: Result<string, HttpError>)
    ensures r.Failure? ==> r.error.status == InternalServerError && StartsWith(r.error.detail, ExtractionErrorPrefix)
    ensures r.Success? ==> IsStripped(r.value)
    ensures IsPdfPath(filePath) ==> r == Extracted(readers.pdfPages(filePath))
    ensures !IsPdfPath(filePath) && IsWordPath(filePath) ==> r == Extracted(readers.docxParagraphs(filePath))
    ensures !IsPdfPath(filePath) && !IsWordPath(filePath) ==>
      r == Failure(HttpError(InternalServerError, ExtractionErrorPrefix + "400: Unsupported file format"))
  {
    if IsPdfPath(filePath) then Extracted(readers.pdfPages(filePath))
    else if IsWordPath(filePath) then Extracted(readers.docxParagraphs(filePath))
    else
      var detail := ExtractionErrorPrefix + UnsupportedFormat;
      assert detail[..|ExtractionErrorPrefix|] == ExtractionErrorPrefix;
      assert UnsupportedFormat == "400: Unsupported file format";
      Failure(Reraise(ExtractionErrorPrefix, UnsupportedFormat))
  }

  /** `extract_text_from_file`: dispatch on the lower-cased suffix; any
      exception, the 400 for an unsupported suffix included, is re-raised as
      a 500 whose detail carries its text. */
  method ExtractTextFromFile(filePath: string, readers: DocumentReaders) returns (r: Result<string, HttpError>)
    ensures r == ExtractedText(filePath, readers)
  {
    var outcome: Result<string, string>;
    if IsPdfPath(filePath) {
      outcome := ExtractFromPdf(filePath, readers);
    } else if IsWordPath(filePath) {
      outcome := ExtractFromDocx(filePath, readers);
    } else {
      outcome := Failure(UnsupportedFormat);
    }
    match outcome
    case Success(text) => r := Success(text);
    case Failure(message) => r := Failure(Reraise(ExtractionErrorPrefix, message));
  }

  /** The suffix test ignores case: "CV.PDF" is read as a PDF. */
  lemma SuffixIgnoresCase(filePath: string, filePath': string)
    requires SameUpToCase(filePath, filePath')
    ensures IsPdfPath(filePath) == IsPdfPath(filePath')
    ensures IsWordPath(filePath) == IsWordPath(filePath')
  {
    SameUpToCaseLower(filePath, filePath');
  }
}
