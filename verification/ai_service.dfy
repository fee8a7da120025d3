/** The AI service's pipeline around the model call: text extraction
    dispatched on the file's extension, the prompt built from a template,
    the model's reply turned into an analysis, and the analysis serialised
    for storage (backend/internal/services/ai_service.go).  The file system,
    the PDF reader, the Gemini model and the JSON codec are parameters. */
module AiService {
  import opened Wrappers
  import Strings
  import opened Normalizer

  /** What extraction can learn from the file system: a file's bytes as
      text, and a PDF's pages, where `None` stands for a page that is null
      or whose text could not be extracted. */
  datatype FileSystem = FileSystem(
    readFile: string -> Result<string, string>,
    openPdf: string -> Result<seq<Option<string>>, string>)

  /** The collaborators of the service: the prompt file's contents (or the
      error reading it), the model (a reply text, `None` when it returns no
      candidate), and `json.Unmarshal` / `json.Marshal` for analyses. */
  datatype Ai = Ai(
    promptFile: Result<string, string>,
    generate: string -> Result<Option<string>, string>,
    decode: string -> Option<AnalysisResult>,
    encode: AnalysisResult -> Result<string, string>)

  const DocxPlaceholder := "DOCX text extraction not yet implemented." + " Please use TXT format for testing."
  const Placeholder := "{{REPORT_CONTENT}}"

  const PromptHead := @"You are a medical AI assistant specialized in analyzing medical reports and lab results. Please analyze the following medical report and provide a comprehensive analysis in JSON format.

Medical Report Content:
"
  const PromptTail := @"

Please provide your analysis in the following JSON structure:
{
  ""summary"": ""Detailed medical summary for healthcare professionals"",
  ""simple_summary"": ""Easy-to-understand summary for patients (avoid medical jargon)"",
  ""health_metrics"": [
    {
      ""name"": ""Parameter name (e.g., Blood Glucose, Cholesterol)"",
      ""value"": ""Measured value (can be number or string)"",
      ""unit"": ""Unit of measurement"",
      ""score"": ""Score from 0-100 (100 = optimal, 0 = critical)"",
      ""status"": ""normal/warning/critical"",
      ""range_min"": ""Normal range minimum value"",
      ""range_max"": ""Normal range maximum value"",
      ""description"": ""Simple explanation of what this means""
    }
  ],
  ""key_findings"": [""List of important findings""],
  ""recommendations"": [""List of actionable recommendations""],
  ""risk_level"": ""low/medium/high""
}

Guidelines:
1. Extract all measurable parameters (blood tests, vitals, etc.)
2. Provide scores based on how close values are to optimal ranges
3. Use simple language in simple_summary and descriptions
4. Be accurate but not alarming in tone
5. Include lifestyle recommendations when appropriate
6. If no specific values are found, focus on general health insights
7. For numeric values, you can return them as numbers in the JSON

Respond only with valid JSON."

  /** `getDefaultPromptTemplate`: one placeholder between the fixed head and tail. */
  const DefaultPromptTemplate := PromptHead + Placeholder + PromptTail

  // ---------------------------------------------------------------------------
  // Text extraction
  // ---------------------------------------------------------------------------

  /** What one page adds to the PDF text: its text and a newline, or nothing
      for a page that was skipped. */
  function PageContribution(page: Option<string>): string {
    match page
    case Some(t) => t + "\n"
    case None => ""
  }

  /** The pages' contributions, in page order. */
  function PageFold(pages: seq<Option<string>>): (r: string)
  {
    if |pages| == 0 then ""
    else PageFold(pages[..|pages| - 1]) + PageContribution(pages[|pages| - 1])
  }

  /** The text of a document is the text of its first pages followed by the
      text of the rest; with the one-page case this fixes the fold as the
      concatenation of every page's contribution in order. */
  lemma {:induction false} PageFoldAppend(a: seq<Option<string>>, b: seq<Option<string>>)
    ensures PageFold(a + b) == PageFold(a) + PageFold(b)
    decreases |b|
  {
    if b == [] {
      assert a + b == a;
    } else {
      var init, last := b[..|b| - 1], b[|b| - 1];
      assert b == init + [last];
      PageFoldAppend(a, init);
      PageFoldAppendStep(a, init, last);
    }
  }

  lemma PageFoldAppendStep(a: seq<Option<string>>, init: seq<Option<string>>, last: Option<string>)
    requires PageFold(a + init) == PageFold(a) + PageFold(init)
    ensures PageFold(a + (init + [last])) == PageFold(a) + PageFold(init + [last])
  {
    SnocAssoc(a, init, last);
    PageFoldSnoc(a + init, last);
    PageFoldSnoc(init, last);
    ConcatAssoc(PageFold(a), PageFold(init), PageContribution(last));
  }

  lemma SnocAssoc<T>(a: seq<T>, b: seq<T>, x: T)
    ensures a + (b + [x]) == (a + b) + [x]
  {}

  lemma ConcatAssoc<T>(x: seq<T>, y: seq<T>, z: seq<T>)
    ensures (x + y) + z == x + (y + z)
  {}

  /** One more page adds its contribution at the end. */
  lemma PageFoldSnoc(pages: seq<Option<string>>, page: Option<string>)
    ensures PageFold(pages + [page]) == PageFold(pages) + PageContribution(page)
  {
    var p := pages + [page];
    assert p[..|p| - 1] == pages;
  }

  /** The `for pageNum := 1; pageNum <= totalPages; pageNum++` loop. */
  method CollectPageText(pages: seq<Option<string>>) returns (text: string)
    ensures text == PageFold(pages)
  {
    text := "";
    var i := 0;
    while i < |pages|
      invariant 0 <= i <= |pages|
      invariant text == PageFold(pages[..i])
    {
      assert pages[..i + 1][..i] == pages[..i];
      match pages[i] {
        case None =>
        case Some(content) =>
          text := text + content + "\n";
      }
      i := i + 1;
    }
    assert pages[..|pages|] == pages;
  }

  /** Every page that yielded text yielded only white space. */
  predicate BlankPages(pages: seq<Option<string>>) {
    forall i :: 0 <= i < |pages| && pages[i].Some? ==> Strings.AllSpace(pages[i].value)
  }

  /** The folded text is blank exactly when every extracted page is. */
  lemma {:induction false} PageFoldBlank(pages: seq<Option<string>>)
    ensures Strings.AllSpace(PageFold(pages)) <==> BlankPages(pages)
  {
    if |pages| > 0 {
      var init := pages[..|pages| - 1];
      var last := pages[|pages| - 1];
      PageFoldBlank(init);
      AllSpaceAppend(PageFold(init), PageContribution(last));
      if last.Some? {
        AllSpaceAppend(last.value, "\n");
      }
      assert forall i :: 0 <= i < |init| ==> init[i] == pages[i];
    }
  }

  lemma AllSpaceAppend(a: string, b: string)
    ensures Strings.AllSpace(a + b) <==> Strings.AllSpace(a) && Strings.AllSpace(b)
  {
    if Strings.AllSpace(a + b) {
      assert forall i :: 0 <= i < |a| ==> a[i] == (a + b)[i];
      assert forall i :: 0 <= i < |b| ==> b[i] == (a + b)[|a| + i];
    }
  }

  /** `extractFromPDF` once the file is pdf: the text of the pages, or an
      error when it is blank after trimming. */
  function ExtractFromPdf(pdf: Result<seq<Option<string>>, string>): (r: Result<string, string>)
    ensures pdf.Failure? ==> r == Failure("failed to open PDF: " + pdf.error)
    ensures pdf.Success? && BlankPages(pdf.value) ==> r == Failure("no text content found in PDF")
    ensures pdf.Success? && !BlankPages(pdf.value) ==> r == Success(PageFold(pdf.value))
  {
    match pdf
    case Failure(e) => Failure("failed to open PDF: " + e)
    case Success(pages) =>
      var text := PageFold(pages);
      PageFoldBlank(pages);
      if Strings.TrimSpace(text) == "" then Failure("no text content found in PDF")
      else Success(text)
  }

  /** The kind of extraction a path gets, from its lower-cased extension. */
  datatype Extractor = TxtFile | PdfFile | DocxFile | Unsupported(ext: string)

  function ExtractorFor(path: string): (r: Extractor)
    ensures var ext := Strings.ToLower(Strings.Ext(path));
      (r == TxtFile <==> ext == ".txt") && (r == PdfFile <==> ext == ".pdf")
      && (r == DocxFile <==> ext == ".docx" || ext == ".doc")
      && (r.Unsupported? ==> r.ext == ext)
  {
    var ext := Strings.ToLower(Strings.Ext(path));
    if ext == ".txt" then TxtFile
    else if ext == ".pdf" then PdfFile
    else if ext == ".docx" || ext == ".doc" then DocxFile
    else Unsupported(ext)
  }

  /** `extractTextFromFile`. The declared `fileType` plays no part. */
  function ExtractTextFromFile(fs: FileSystem, path: string, fileType: string): (r: Result<string, string>)
    ensures ExtractorFor(path) == TxtFile ==> r == fs.readFile(path)
    ensures ExtractorFor(path) == PdfFile ==> r == ExtractFromPdf(fs.openPdf(path))
    ensures ExtractorFor(path) == DocxFile ==> r == Success(DocxPlaceholder)
    ensures ExtractorFor(path).Unsupported? ==>
      r == Failure("unsupported file type: " + Strings.ToLower(Strings.Ext(path)))
  {
    match ExtractorFor(path)
    case TxtFile => fs.readFile(path)
    case PdfFile => ExtractFromPdf(fs.openPdf(path))
    case DocxFile => Success(DocxPlaceholder)
    case Unsupported(ext) => Failure("unsupported file type: " + ext)
  }

  /** Two paths with the same extension, up to case, are extracted the same
      way, whatever file type the caller declared. */
  lemma ExtractorDependsOnExtensionOnly(p: string, q: string, t1: string, t2: string)
    requires Strings.ToLower(Strings.Ext(p)) == Strings.ToLower(Strings.Ext(q))
    ensures ExtractorFor(p) == ExtractorFor(q)
    ensures forall fs :: ExtractTextFromFile(fs, p, t1) == ExtractTextFromFile(fs, p, t2)
  {}

  // ---------------------------------------------------------------------------
  // Prompt
  // ---------------------------------------------------------------------------

  /** `loadPromptTemplate`: the prompt file when it can be read, the default
      template otherwise; never an error. */
  function LoadPromptTemplate(promptFile: Result<string, string>): (r: string)
    ensures promptFile.Success? ==> r == promptFile.value
    ensures promptFile.Failure? ==> r == DefaultPromptTemplate
  {
    match promptFile
    case Success(t) => t
    case Failure(_) => DefaultPromptTemplate
  }

  /** `buildAnalysisPrompt`: every placeholder in the template is replaced by
      the report's text. */
  function BuildAnalysisPrompt(template: string, content: string): (r: string)
    ensures r == Strings.Join(Strings.SplitOn(template, Placeholder), content)
    ensures !Strings.Contains(template, Placeholder) ==> r == template
    ensures Strings.Contains(template, Placeholder) ==> Strings.Contains(r, content)
  {
    ReplacePlaceholder(template, content);
    Strings.ReplaceAll(template, Placeholder, content)
  }

  lemma ReplacePlaceholder(template: string, content: string)
    ensures var r := Strings.ReplaceAll(template, Placeholder, content);
      r == Strings.Join(Strings.SplitOn(template, Placeholder), content)
      && (!Strings.Contains(template, Placeholder) ==> r == template)
      && (Strings.Contains(template, Placeholder) ==> Strings.Contains(r, content))
  {
    Strings.ReplaceAllIsSplitJoin(template, Placeholder, content);
    if Strings.Contains(template, Placeholder) {
      Strings.ReplaceAllInserts(template, Placeholder, content);
    } else {
      Strings.ReplaceAllAbsent(template, Placeholder, content);
    }
  }

  /** The default template does hold the placeholder, so the report's text
      always reaches a prompt built from it. */
  lemma DefaultTemplateCarriesContent(content: string)
    ensures Strings.Contains(DefaultPromptTemplate, Placeholder)
    ensures Strings.Contains(BuildAnalysisPrompt(DefaultPromptTemplate, content), content)
  {
    var t := DefaultPromptTemplate;
    assert t[|PromptHead|..|PromptHead| + |Placeholder|] == Placeholder;
    assert Strings.OccursAt(t, Placeholder, |PromptHead|);
  }

  // ---------------------------------------------------------------------------
  // Analysis
  // ---------------------------------------------------------------------------

  /** `generateAnalysis`: the prompt goes to the model, and its reply is
      parsed, which never fails. */
  function GenerateAnalysis(ai: Ai, content: string): (r: Result<AnalysisResult, string>)
    ensures var reply := ai.generate(BuildAnalysisPrompt(LoadPromptTemplate(ai.promptFile), content));
      (reply.Failure? ==> r == Failure("failed to generate content: " + reply.error))
      && (reply == Success(None) ==> r == Failure("no response generated"))
      && (reply.Success? && reply.value.Some? ==> r == Success(ParseAnalysisResponse(ai.decode, reply.value.value)))
    ensures r.Success? ==> Enhanced(r.value)
  {
    var prompt := BuildAnalysisPrompt(LoadPromptTemplate(ai.promptFile), content);
    match ai.generate(prompt)
    case Failure(e) => Failure("failed to generate content: " + e)
    case Success(None) => Failure("no response generated")
    case Success(Some(text)) => Success(ParseAnalysisResponse(ai.decode, text))
  }

  /** `AnalyzeReport`: extraction, analysis and serialisation, each failure
      wrapped with the step that failed. */
  function AnalyzeReport(ai: Ai, fs: FileSystem, path: string, fileType: string): (r: Result<string, string>)
    ensures ExtractTextFromFile(fs, path, fileType).Failure? ==>
      r == Failure("failed to extract text from file: " + ExtractTextFromFile(fs, path, fileType).error)
    ensures r.Success? ==>
      exists a :: Enhanced(a) && ai.encode(a) == Success(r.value)
    ensures ExtractTextFromFile(fs, path, fileType).Success? ==>
      var g := GenerateAnalysis(ai, ExtractTextFromFile(fs, path, fileType).value);
      (g.Failure? ==> r == Failure("failed to generate AI analysis: " + g.error))
      && (g.Success? && ai.encode(g.value).Failure? ==>
            r == Failure("failed to serialize analysis: " + ai.encode(g.value).error))
      && (g.Success? && ai.encode(g.value).Success? ==> r == ai.encode(g.value))
  {
    match ExtractTextFromFile(fs, path, fileType)
    case Failure(e) => Failure("failed to extract text from file: " + e)
    case Success(content) =>
      match GenerateAnalysis(ai, content)
      case Failure(e) => Failure("failed to generate AI analysis: " + e)
      case Success(analysis) =>
        match ai.encode(analysis)
        case Failure(e) => Failure("failed to serialize analysis: " + e)
        case Success(json) => Success(json)
  }

  /** A file whose extension is not handled fails before the model is asked
      anything: the outcome does not depend on the model at all. */
  lemma UnsupportedNeverReachesModel(ai: Ai, fs: FileSystem, path: string, fileType: string,
                                     other: string -> Result<Option<string>, string>)
    requires ExtractorFor(path).Unsupported?
    ensures AnalyzeReport(ai, fs, path, fileType).Failure?
    ensures AnalyzeReport(ai, fs, path, fileType) == AnalyzeReport(ai.(generate := other), fs, path, fileType)
  {}

  /** When the codec reads back what it writes, the stored analysis of a
      successful run decodes to an enhanced analysis, so its metrics are all
      in range. */
  lemma AnalyzeReportDecodes(ai: Ai, fs: FileSystem, path: string, fileType: string)
    requires forall a :: ai.encode(a).Success? ==> ai.decode(ai.encode(a).value) == Some(a)
    requires AnalyzeReport(ai, fs, path, fileType).Success?
    ensures var json := AnalyzeReport(ai, fs, path, fileType).value;
      ai.decode(json).Some? && Enhanced(ai.decode(json).value)
  {
    var json := AnalyzeReport(ai, fs, path, fileType).value;
    var a :| Enhanced(a) && ai.encode(a) == Success(json);
  }

  const DocxContentType := "application/vnd.openxmlformats-" + "officedocument.wordprocessingml.document"

  /** `getContentTypeFromExtension`. */
  function ContentTypeFromExtension(filename: string): (r: string)
    ensures ExtractorFor(filename) == PdfFile ==> r == "application/pdf"
    ensures ExtractorFor(filename) == TxtFile ==> r == "text/plain"
    ensures ExtractorFor(filename).Unsupported? ==> r == "application/octet-stream"
    ensures ExtractorFor(filename) == DocxFile ==>
      r == (if Strings.ToLower(Strings.Ext(filename)) == ".docx" then DocxContentType else "application/msword")
  {
    var ext := Strings.ToLower(Strings.Ext(filename));
    if ext == ".pdf" then "application/pdf"
    else if ext == ".txt" then "text/plain"
    else if ext == ".docx" then DocxContentType
    else if ext == ".doc" then "application/msword"
    else "application/octet-stream"
  }
}
