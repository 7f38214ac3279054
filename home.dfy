/**
 * The text handling of the upload page (src/pages/home.js): assembling the
 * text of a PDF page by page, classifying extraction failures, accumulating
 * the text of several uploads behind `--- From NAME ---` markers, removing a
 * file, and the labels shown for an error type.
 */
module Home {
  import opened Wrappers
  import opened Text
  import DebugParse

  // ------------------------------------------------------------- numbers

  function DigitChar(d: nat): (c: char)
    requires d < 10
    ensures IsDigit(c) && c as int - '0' as int == d
  {
    "0123456789"[d]
  }

  /** `String(n)` for a non-negative integer: its decimal digits. */
  function NatToString(n: nat): (r: String)
    ensures r != [] && forall i :: 0 <= i < |r| ==> IsDigit(r[i])
    decreases n
  {
    if n < 10 then [DigitChar(n)] else NatToString(n / 10) + [DigitChar(n % 10)]
  }

  /** The number a string of decimal digits denotes. */
  function DigitsValue(s: String): int
    requires forall i :: 0 <= i < |s| ==> IsDigit(s[i])
  {
    if s == [] then 0 else DigitsValue(s[..|s| - 1]) * 10 + (s[|s| - 1] as int - '0' as int)
  }

  /** The digits denote the number, with no leading zero. */
  lemma {:induction false} NatToStringValue(n: nat)
    ensures DigitsValue(NatToString(n)) == n
    ensures n > 0 ==> NatToString(n)[0] != '0'
    decreases n
  {
    var r := NatToString(n);
    if n < 10 {
      assert r[..0] == [];
    } else {
      NatToStringValue(n / 10);
      assert r[..|r| - 1] == NatToString(n / 10);
    }
  }

  // ------------------------------------------------------ PDF page text

  /** A text-content item: a bare string, or an object whose `str` or `chars` may be missing. */
  datatype PdfItem = StringItem(s: String) | ObjectItem(str: Option<String>, chars: Option<String>)

  /** A page as read: its items, or a failure of `getPage`/`getTextContent`. */
  datatype PdfPage = PageRead(items: seq<PdfItem>) | PageFailed

  /** `typeof item === 'string' ? item : item.str || item.chars || ''`. */
  function ItemText(item: PdfItem): (r: String)
    ensures item.StringItem? ==> r == item.s
    ensures item.ObjectItem? && item.str.Some? && item.str.value != "" ==> r == item.str.value
    ensures item.ObjectItem? && !(item.str.Some? && item.str.value != "") ==>
      r == (if item.chars.Some? then item.chars.value else "")
  {
    match item
    case StringItem(s) => s
    case ObjectItem(str, chars) =>
      if str.Some? && str.value != "" then str.value
      else if chars.Some? && chars.value != "" then chars.value
      else ""
  }

  /** `xs.join(' ')`. */
  function JoinWithSpaces(xs: seq<String>): (r: String)
    ensures |xs| == 1 ==> r == xs[0]
  {
    if xs == [] then "" else if |xs| == 1 then xs[0] else xs[0] + " " + JoinWithSpaces(xs[1..])
  }

  /**
   * The text of one page: the items joined with spaces, whitespace runs
   * collapsed, trimmed. It holds no line break, its whitespace is single
   * spaces, and the ends are trimmed.
   */
  function PageText(items: seq<PdfItem>): (r: String)
    ensures Normalized(r)
    ensures items == [] ==> r == ""
  {
    var joined := JoinWithSpaces(ItemTexts(items));
    assert Trim(Collapse(joined, IsSpace)) == Squeeze(joined);
    Trim(Collapse(joined, IsSpace))
  }

  /** `items.map(...)` with the item rule. */
  function ItemTexts(items: seq<PdfItem>): (r: seq<String>)
    ensures |r| == |items| && forall i :: 0 <= i < |items| ==> r[i] == ItemText(items[i])
  {
    if items == [] then [] else [ItemText(items[0])] + ItemTexts(items[1..])
  }

  /** The separator written before every kept page after the first. */
  function PageMarker(pageNum: nat): String {
    "\n\n--- Page " + NatToString(pageNum) + " ---\n"
  }

  /** The text a page contributes: its page text when it was read, nothing when reading failed. */
  function PageContent(page: PdfPage): (r: String)
    ensures page.PageFailed? ==> r == ""
    ensures Normalized(r)
  {
    match page
    case PageRead(items) => PageText(items)
    case PageFailed => ""
  }

  /** The text each page contributes, in page order. */
  function PageContents(pages: seq<PdfPage>): (r: seq<String>)
    ensures |r| == |pages| && forall i :: 0 <= i < |pages| ==> r[i] == PageContent(pages[i])
  {
    if pages == [] then [] else [PageContent(pages[0])] + PageContents(pages[1..])
  }

  /**
   * Among the first `n` page texts, the non-empty ones with their 1-based
   * page numbers, in order.
   */
  function KeptPages(texts: seq<String>, n: nat): (r: seq<(nat, String)>)
    requires n <= |texts|
    ensures |r| <= n
    ensures forall i :: 0 <= i < |r| ==> 1 <= r[i].0 <= n && r[i].1 != "" && r[i].1 == texts[r[i].0 - 1]
    ensures forall i, j :: 0 <= i < j < |r| ==> r[i].0 < r[j].0
  {
    if n == 0 then []
    else
      var prev := KeptPages(texts, n - 1);
      if texts[n - 1] != "" then prev + [(n, texts[n - 1])] else prev
  }

  /** Every page among the first `n` with text is kept. */
  lemma {:induction false} KeptPagesComplete(texts: seq<String>, n: nat, p: nat)
    requires n <= |texts| && 1 <= p <= n && texts[p - 1] != ""
    ensures exists i :: 0 <= i < |KeptPages(texts, n)| && KeptPages(texts, n)[i].0 == p
  {
    var r := KeptPages(texts, n);
    if p == n {
      assert r[|r| - 1].0 == p;
    } else {
      KeptPagesComplete(texts, n - 1, p);
      var i :| 0 <= i < |KeptPages(texts, n - 1)| && KeptPages(texts, n - 1)[i].0 == p;
      assert r[i] == KeptPages(texts, n - 1)[i];
    }
  }

  /** The full text of kept pages: the first page's text, then marker and text for each later page. */
  function Render(kept: seq<(nat, String)>): String {
    if kept == [] then ""
    else if |kept| == 1 then kept[0].1
    else Render(kept[..|kept| - 1]) + PageMarker(kept[|kept| - 1].0) + kept[|kept| - 1].1
  }

  /**
   * The page separators are not the markers the segmenter removes: a
   * separator survives marker cleanup whatever surrounds it, and the text
   * on each side is cleaned as on its own, so the page headings stay in
   * the text given to analysis.
   */
  lemma PageMarkerKept(before: String, pageNum: nat, after: String)
    ensures DebugParse.StripMarkers(before + PageMarker(pageNum) + after)
      == DebugParse.StripMarkers(before) + PageMarker(pageNum) + DebugParse.StripMarkers(after)
  {
    var marker := PageMarker(pageNum);
    PageMarkerPlain(pageNum);
    assert before + marker + after == before + (marker + after);
    DebugParse.StripSplitsAtLineBreak(before, marker + after);
    DebugParse.StripSplitsAtLineBreak(marker, after);
  }

  /** A page separator starts and ends with a line break and holds no `--- From ` marker. */
  lemma PageMarkerPlain(pageNum: nat)
    ensures var marker := PageMarker(pageNum);
      |marker| > 1 && marker[0] == '\n' && marker[|marker| - 1] == '\n' && DebugParse.StripMarkers(marker) == marker
  {
    var digits := NatToString(pageNum);
    var marker := PageMarker(pageNum);
    assert marker == "\n\n--- Page " + digits + " ---\n";
    assert 'F' !in marker by {
      assert forall i :: 0 <= i < |digits| ==> digits[i] != 'F';
      assert 'F' !in "\n\n--- Page " && 'F' !in " ---\n";
    }
    AbsentCharRulesOut(marker, "--- From ", 'F');
  }

  /** Rendering is empty exactly when no page was kept, since kept texts are never empty. */
  lemma {:induction false} RenderEmpty(kept: seq<(nat, String)>)
    requires forall i :: 0 <= i < |kept| ==> kept[i].1 != ""
    ensures Render(kept) == "" <==> kept == []
  {
    if |kept| > 1 {
      var last := kept[|kept| - 1];
      assert |Render(kept)| >= |last.1| > 0;
    } else if |kept| == 1 {
      assert Render(kept) == kept[0].1;
    }
  }

  /** Rendering one more kept page appends its marker (unless it is the first) and its text. */
  lemma RenderSnoc(kept: seq<(nat, String)>, page: (nat, String))
    requires forall i :: 0 <= i < |kept| ==> kept[i].1 != ""
    ensures Render(kept + [page]) == Render(kept) + (if Render(kept) != "" then PageMarker(page.0) else "") + page.1
  {
    RenderEmpty(kept);
    var k := kept + [page];
    assert k[..|k| - 1] == kept;
    if kept == [] {
      assert k == [page];
    }
  }

  /** One more page considered: it is kept exactly when it has text. */
  lemma KeptPagesStep(texts: seq<String>, n: nat)
    requires 1 <= n <= |texts|
    ensures KeptPages(texts, n)
      == if texts[n - 1] != "" then KeptPages(texts, n - 1) + [(n, texts[n - 1])] else KeptPages(texts, n - 1)
  {
  }

  /** The page loop of `extractTextFromPDF`: at most the first ten pages, failed pages skipped. */
  method AssemblePages(pages: seq<PdfPage>) returns (fullText: String)
    ensures fullText == Render(KeptPages(PageContents(pages), if |pages| < 10 then |pages| else 10))
  {
    fullText := "";
    var maxPages := if |pages| < 10 then |pages| else 10;
    var pageNum := 1;
    ghost var texts := PageContents(pages);
    while pageNum <= maxPages
      invariant 1 <= pageNum <= maxPages + 1
      invariant fullText == Render(KeptPages(texts, pageNum - 1))
    {
      ghost var kept := KeptPages(texts, pageNum - 1);
      var pageText := PageContent(pages[pageNum - 1]);
      KeptPagesStep(texts, pageNum);
      if pageText != "" {
        RenderSnoc(kept, (pageNum, pageText));
        fullText := fullText + (if fullText != "" then PageMarker(pageNum) else "") + pageText;
      }
      pageNum := pageNum + 1;
    }
  }

  // --------------------------------------------------- PDF error handling

  const NoTextHead: String :=
    "No readable " + "text found " + "in PDF. " + "This appears " + "to be a " + "scanned or "
  /** The error thrown when the pages hold fewer than ten characters of text. */
  const NoTextMessage: String := NoTextHead + "image-based" + " document."

  /** The messages the catch block of `extractTextFromPDF` throws in place of the original error. */
  const InvalidPdfMessage: String := "Invalid PDF file. Please check the file and try again."
  const MissingPdfMessage: String := "PDF file appears to be corrupted or incomplete."
  const UnexpectedResponseMessage: String := "Unable to load PDF. Please try a different file."
  const WorkerMessage: String := "PDF processing service unavailable. Please try converting to image format."
  const GenericPdfMessage: String :=
    "Failed to extract text from PDF. This may be a scanned document - try uploading as an image instead."

  /** How loading the document failed: the error's `name` and its `message`, if any. */
  datatype PdfLoad = PdfLoaded(pages: seq<PdfPage>) | PdfLoadFailed(name: String, message: Option<String>)

  /** The message the catch block of `extractTextFromPDF` throws for an error. */
  function CatchMessage(name: String, message: Option<String>): (r: String)
    ensures name == "InvalidPDFException" ==> r == InvalidPdfMessage
    ensures name == "MissingPDFException" ==> r == MissingPdfMessage
    ensures name == "UnexpectedResponseException" ==> r == UnexpectedResponseMessage
    ensures name != "InvalidPDFException" && name != "MissingPDFException" && name != "UnexpectedResponseException" ==>
      r == MessageRule(message)
  {
    if name == "InvalidPDFException" then InvalidPdfMessage
    else if name == "MissingPDFException" then MissingPdfMessage
    else if name == "UnexpectedResponseException" then UnexpectedResponseMessage
    else MessageRule(message)
  }

  /** `error.message && error.message.includes(w)`: a missing or empty message mentions nothing. */
  predicate Mentions(message: Option<String>, w: String) {
    message.Some? && message.value != "" && Contains(message.value, w)
  }

  /** The messages of the extractor's own errors, which the catch block throws again as they are. */
  predicate Rethrown(message: Option<String>) {
    Mentions(message, "selectable text") || Mentions(message, "image-based") || Mentions(message, "scanned document")
  }

  /** The checks on the message: `worker` first, then the messages that are thrown again unchanged. */
  function MessageRule(message: Option<String>): (r: String)
    ensures Mentions(message, "worker") ==>
      r == WorkerMessage
    ensures !Mentions(message, "worker") && Rethrown(message) ==> r == message.value
    ensures !Mentions(message, "worker") && !Rethrown(message) ==>
      r == GenericPdfMessage
  {
    if Mentions(message, "worker") then
      WorkerMessage
    else if Rethrown(message) then message.value
    else GenericPdfMessage
  }

  /** The middle part of a concatenation occurs in it. */
  lemma ContainsMiddle(a: String, b: String, c: String)
    ensures Contains(a + b + c, b)
  {
    assert ContainsAt(a + b + c, b, |a|) by {
      assert (a + b + c)[|a|..|a| + |b|] == b;
    }
  }

  /** The "no readable text" error leaves the catch block unchanged. */
  lemma NoTextRethrown()
    ensures CatchMessage("Error", Some(NoTextMessage)) == NoTextMessage
  {
    NoTextMentions();
    assert |"Error"| == 5;
  }

  /** The "no readable text" message mentions `image-based` and not `worker`. */
  lemma NoTextMentions()
    ensures Mentions(Some(NoTextMessage), "image-based")
    ensures !Mentions(Some(NoTextMessage), "worker")
  {
    ContainsMiddle(NoTextHead, "image-based", " document.");
    NoTextLacksW();
    AbsentCharRulesOut(NoTextMessage, "worker", 'w');
  }

  lemma NoTextLacksW()
    ensures 'w' !in NoTextMessage
  {
    assert 'w' !in "No readable " && 'w' !in "text found " && 'w' !in "in PDF. ";
    assert 'w' !in "This appears " && 'w' !in "to be a " && 'w' !in "scanned or ";
    assert 'w' !in "image-based" && 'w' !in " document.";
  }

  /**
   * `extractTextFromPDF(file)` given how loading went. A loaded document
   * gives the trimmed text of its kept pages when that has at least ten
   * characters and the "no readable text" error otherwise; a failed load
   * gives the message the catch block picks.
   */
  method ExtractTextFromPdf(load: PdfLoad) returns (r: Result<String, String>)
    ensures load.PdfLoadFailed? ==> r == Err(CatchMessage(load.name, load.message))
    ensures load.PdfLoaded? ==>
      var text := Trim(Render(KeptPages(PageContents(load.pages), if |load.pages| < 10 then |load.pages| else 10)));
      && (|text| >= 10 ==> r == Ok(text))
      && (|text| < 10 ==> r == Err(NoTextMessage))
  {
    match load
    case PdfLoadFailed(name, message) =>
      r := Err(CatchMessage(name, message));
    case PdfLoaded(pages) =>
      var fullText := AssemblePages(pages);
      var cleanText := Trim(fullText);
      if cleanText == "" || |cleanText| < 10 {
        NoTextRethrown();
        r := Err(CatchMessage("Error", Some(NoTextMessage)));
      } else {
        r := Ok(cleanText);
      }
  }

  // ------------------------------------------------------ onDrop and camera

  /** An uploaded file: its name and MIME type. */
  datatype UploadFile = UploadFile(name: String, mimetype: String)

  /**
   * The rule both `onDrop` and `capturePhoto` use to add text: the new text
   * alone when there is none yet, otherwise a `--- From NAME ---` marker
   * between the previous and the new text. The previous text is always a
   * prefix of the result.
   */
  function AppendText(prev: String, name: String, text: String): (r: String)
    ensures prev == "" ==> r == text
    ensures prev != "" ==> r == prev + "\n\n" + DebugParse.FromMarker(name) + "\n" + text
    ensures StartsWith(r, prev)
  {
    if prev != "" then prev + "\n\n--- From " + name + " ---\n" + text else text
  }

  /**
   * The marker written between two uploads is one the segmenter removes,
   * whatever the earlier text holds: with a name on one line without
   * ` ---`, cleanup sees the cleaned earlier text, the three line breaks
   * around the marker, then the cleaned new text.
   */
  lemma AppendedMarkerStripped(prev: String, name: String, text: String)
    requires NoLineBreak(name) && !Contains(name, " ---")
    ensures prev == "" ==> DebugParse.StripMarkers(AppendText(prev, name, text)) == DebugParse.StripMarkers(text)
    ensures prev != "" ==>
      DebugParse.StripMarkers(AppendText(prev, name, text)) == DebugParse.StripMarkers(prev) + "\n\n\n" + DebugParse.StripMarkers(text)
  {
    if prev != "" {
      var tail := "\n\n" + (DebugParse.FromMarker(name) + ("\n" + text));
      assert AppendText(prev, name, text) == prev + tail;
      DebugParse.StripSplitsAtLineBreak(prev, tail);
      MarkerTailStripped(name, text);
    }
  }

  /** The part of an appended text from the line breaks before the marker on. */
  lemma MarkerTailStripped(name: String, text: String)
    requires NoLineBreak(name) && !Contains(name, " ---")
    ensures DebugParse.StripMarkers("\n\n" + (DebugParse.FromMarker(name) + ("\n" + text)))
      == "\n\n\n" + DebugParse.StripMarkers(text)
  {
    DebugParse.MarkerDeleted("\n\n", name, "\n" + text);
    BreaksKept(text);
  }

  /** Line breaks pass marker cleanup. */
  lemma BreaksKept(text: String)
    ensures DebugParse.StripMarkers("\n\n") == "\n\n"
    ensures DebugParse.StripMarkers("\n" + text) == "\n" + DebugParse.StripMarkers(text)
  {
    DebugParse.NonDashKept('\n', "\n");
    DebugParse.NonDashKept('\n', []);
    assert DebugParse.StripMarkers([]) == [];
    DebugParse.NonDashKept('\n', text);
  }

  const PdfFailedMessage: String :=
    "PDF processing failed. This appears to be a scanned or image-based PDF that couldn't be processed.\n\nAlternatives:\n"
    + "\U{00E2}\U{20AC}\U{00A2} Convert to JPG/PNG and upload as image\n"
    + "\U{00E2}\U{20AC}\U{00A2} Use camera to capture the content\n"
    + "\U{00E2}\U{20AC}\U{00A2} Type the problem manually"

  /**
   * The text `onDrop` gets for a file: OCR text as it is for an image; for a
   * PDF the extracted text, or, after a failure, the trimmed OCR text of
   * the first page when it is longer than ten characters. `ocr` is `None`
   * when rendering or recognition fails.
   */
  function DropText(isPdf: bool, pdf: Result<String, String>, ocr: Option<String>, imageText: String): (r: Result<String, String>)
    ensures !isPdf ==> r == Ok(imageText)
    ensures isPdf && pdf.Ok? ==> r == pdf
    ensures isPdf && pdf.Err? && ocr.Some? && |Trim(ocr.value)| > 10 ==> r == Ok(Trim(ocr.value))
    ensures isPdf && pdf.Err? && !(ocr.Some? && |Trim(ocr.value)| > 10) ==> r == Err(PdfFailedMessage)
  {
    if !isPdf then Ok(imageText)
    else if pdf.Ok? then pdf
    else if ocr.Some? && |Trim(ocr.value)| > 10 then Ok(Trim(ocr.value))
    else Err(PdfFailedMessage)
  }

  /** What `onDrop` records when an error has no message. */
  const DefaultDropMessage: String := "Failed to extract text from file"

  /** The part of the page state the upload handlers change. */
  datatype HomeState = HomeState(uploadedFiles: seq<UploadFile>, extractedText: String, error: String)

  /**
   * `onDrop(acceptedFiles)`: only the first accepted file is used. It is
   * added to the list; its text is appended on success, and on failure the
   * text stays and the error message is recorded.
   */
  function OnDrop(st: HomeState, accepted: seq<UploadFile>, outcome: Result<String, String>): (r: HomeState)
    ensures accepted == [] ==> r == st
    ensures accepted != [] ==> r.uploadedFiles == st.uploadedFiles + [accepted[0]]
    ensures accepted != [] && outcome.Ok? ==>
      r.extractedText == AppendText(st.extractedText, accepted[0].name, outcome.value) && r.error == st.error
    ensures accepted != [] && outcome.Err? ==>
      r.extractedText == st.extractedText
      && r.error == (if outcome.error != "" then outcome.error else DefaultDropMessage)
  {
    if accepted == [] then st
    else
      var file := accepted[0];
      var files := st.uploadedFiles + [file];
      match outcome
      case Ok(text) => HomeState(files, AppendText(st.extractedText, file.name, text), st.error)
      case Err(m) => HomeState(files, st.extractedText, if m != "" then m else DefaultDropMessage)
  }

  /**
   * `capturePhoto()` given the screenshot (if any), the clock reading that
   * names the file, and the OCR text (`None` when recognition fails). The
   * text is appended under the fixed `--- From Camera ---` marker.
   */
  function CapturePhoto(st: HomeState, hasScreenshot: bool, now: nat, ocr: Option<String>): (r: HomeState)
    ensures !hasScreenshot ==> r == st
    ensures hasScreenshot ==>
      && r.uploadedFiles == st.uploadedFiles + [UploadFile("camera-capture-" + NatToString(now) + ".jpg", "image/jpeg")]
      && r.error == st.error
      && r.extractedText == (if ocr.Some? then AppendText(st.extractedText, "Camera", ocr.value) else st.extractedText)
  {
    if !hasScreenshot then st
    else
      var file := UploadFile("camera-capture-" + NatToString(now) + ".jpg", "image/jpeg");
      HomeState(st.uploadedFiles + [file],
        if ocr.Some? then AppendText(st.extractedText, "Camera", ocr.value) else st.extractedText,
        st.error)
  }

  // ------------------------------------------------------------ removeFile

  /** `files.filter((_, index) => index !== indexToRemove)`. */
  function RemoveFile(files: seq<UploadFile>, indexToRemove: int): (r: seq<UploadFile>)
    ensures 0 <= indexToRemove < |files| ==> r == files[..indexToRemove] + files[indexToRemove + 1..]
    ensures !(0 <= indexToRemove < |files|) ==> r == files
    decreases |files|
  {
    if files == [] then []
    else
      var rest := RemoveFile(files[1..], indexToRemove - 1);
      if indexToRemove == 0 then rest
      else
        if 0 < indexToRemove < |files| then
          assert files[1..][..indexToRemove - 1] == files[1..indexToRemove];
          [files[0]] + rest
        else
          [files[0]] + rest
  }

  // ------------------------------------------------- regenerateExtractedText

  /**
   * The text regeneration builds from its attempts, in file order: each
   * attempt is a file name with its extracted text, `None` when extraction
   * failed. A successful attempt goes through the append rule.
   */
  function Regenerated(attempts: seq<(String, Option<String>)>): (r: String)
    ensures r == "" <==> forall i :: 0 <= i < |attempts| && attempts[i].1.Some? ==> attempts[i].1.value == ""
  {
    if attempts == [] then ""
    else
      var prev := Regenerated(attempts[..|attempts| - 1]);
      var (name, outcome) := attempts[|attempts| - 1];
      if outcome.Some? then AppendText(prev, name, outcome.value) else prev
  }

  /** `regenerateExtractedText()`: the loop over the uploaded files. */
  method RegenerateExtractedText(attempts: seq<(String, Option<String>)>) returns (combinedText: String)
    ensures combinedText == Regenerated(attempts)
  {
    if |attempts| == 0 {
      return "";
    }
    combinedText := "";
    var i := 0;
    while i < |attempts|
      invariant 0 <= i <= |attempts|
      invariant combinedText == Regenerated(attempts[..i])
    {
      assert attempts[..i + 1][..i] == attempts[..i];
      var (name, outcome) := attempts[i];
      if outcome.Some? {
        var fileText := outcome.value;
        combinedText := combinedText + (if combinedText != "" then "\n\n--- From " + name + " ---\n" else "") + fileText;
      }
      i := i + 1;
    }
    assert attempts[..i] == attempts;
  }

  /** The attempts that succeeded, in order. */
  function Successes(attempts: seq<(String, Option<String>)>): (r: seq<(String, Option<String>)>)
    ensures |r| <= |attempts|
    ensures forall i :: 0 <= i < |r| ==> r[i].1.Some?
  {
    if attempts == [] then []
    else
      var prev := Successes(attempts[..|attempts| - 1]);
      if attempts[|attempts| - 1].1.Some? then prev + [attempts[|attempts| - 1]] else prev
  }

  /** Failed files contribute nothing: regeneration over the successes alone gives the same text. */
  lemma {:induction false} FailuresContributeNothing(attempts: seq<(String, Option<String>)>)
    ensures Regenerated(Successes(attempts)) == Regenerated(attempts)
  {
    if attempts != [] {
      var init := attempts[..|attempts| - 1];
      FailuresContributeNothing(init);
      var s := Successes(init);
      var last := attempts[|attempts| - 1];
      if last.1.Some? {
        var t := s + [last];
        assert t[..|t| - 1] == s;
      }
    }
  }

  /** Every earlier stage of the regeneration is a prefix of the final text: it only appends. */
  lemma {:induction false} RegeneratedGrows(attempts: seq<(String, Option<String>)>, i: nat)
    requires i <= |attempts|
    ensures StartsWith(Regenerated(attempts), Regenerated(attempts[..i]))
    decreases |attempts| - i
  {
    if i < |attempts| {
      var init := attempts[..|attempts| - 1];
      assert init[..i] == attempts[..i];
      RegeneratedGrows(init, i);
      var (a, b, c) := (Regenerated(attempts[..i]), Regenerated(init), Regenerated(attempts));
      assert b[..|a|] == a && c[..|b|] == b;
      assert c[..|a|] == b[..|a|];
    } else {
      assert attempts[..i] == attempts;
    }
  }

  // --------------------------------------------------------------- labels

  /** `errorType?.includes(w)`: false when the error type is missing. */
  predicate Has(errorType: Option<String>, w: String) {
    errorType.Some? && Contains(errorType.value, w)
  }

  /** `getErrorTypeStyle(errorType)`: the first rule that applies, in the written order. */
  function GetErrorTypeStyle(errorType: Option<String>): (r: String)
    ensures Has(errorType, "no_error") || Has(errorType, "no error") <==> r == "success"
    ensures !(Has(errorType, "no_error") || Has(errorType, "no error")) && Has(errorType, "conceptual") <==> r == "conceptual"
    ensures (!(Has(errorType, "no_error") || Has(errorType, "no error") || Has(errorType, "conceptual"))
      && (Has(errorType, "computational") || Has(errorType, "calculation"))) <==> r == "calculation"
    ensures (!(Has(errorType, "no_error") || Has(errorType, "no error") || Has(errorType, "conceptual")
      || Has(errorType, "computational") || Has(errorType, "calculation"))
      && (Has(errorType, "no_solution_provided") || Has(errorType, "no solution"))) <==> r == "no-solution"
    ensures (!(Has(errorType, "no_error") || Has(errorType, "no error") || Has(errorType, "conceptual")
      || Has(errorType, "computational") || Has(errorType, "calculation")
      || Has(errorType, "no_solution_provided") || Has(errorType, "no solution"))) <==> r == "unknown"
    ensures errorType.None? ==> r == "unknown"
  {
    if Has(errorType, "no_error") || Has(errorType, "no error") then "success"
    else if Has(errorType, "conceptual") then "conceptual"
    else if Has(errorType, "computational") || Has(errorType, "calculation") then "calculation"
    else if Has(errorType, "no_solution_provided") || Has(errorType, "no solution") then "no-solution"
    else "unknown"
  }

  /** The position of the first `x` in `s`. */
  function FirstIndex(s: String, x: char): (i: nat)
    requires x in s
    ensures i < |s| && s[i] == x && x !in s[..i]
  {
    if s[0] == x then 0
    else
      var i := FirstIndex(s[1..], x);
      assert s[..i + 1] == [s[0]] + s[1..][..i];
      i + 1
  }

  /**
   * `s.replace(x, y)` with a one-character string pattern: the first
   * occurrence, as `indexOf` finds it, is replaced; every other character,
   * later occurrences of `x` included, stays.
   */
  function ReplaceFirstChar(s: String, x: char, y: char): (r: String)
    ensures |r| == |s|
    ensures x !in s ==> r == s
    ensures x in s ==> r[FirstIndex(s, x)] == y
    ensures x in s ==> forall j :: 0 <= j < |s| && j != FirstIndex(s, x) ==> r[j] == s[j]
  {
    if x in s then
      var i := FirstIndex(s, x);
      s[..i] + [y] + s[i + 1..]
    else s
  }

  /** The badge text: `errorType?.replace('_', ' ') || 'Unknown'`. */
  function BadgeLabel(errorType: Option<String>): (r: String)
    ensures errorType.None? || errorType.value == "" ==> r == "Unknown"
    ensures errorType.Some? && errorType.value != "" ==> r == ReplaceFirstChar(errorType.value, '_', ' ')
  {
    if errorType.None? then "Unknown"
    else
      var shown := ReplaceFirstChar(errorType.value, '_', ' ');
      if shown != "" then shown else "Unknown"
  }

  /** Only the first underscore becomes a space: later ones stay, so `no_solution_provided` shows as `no solution_provided`. */
  lemma BadgeKeepsLaterUnderscores(a: String, b: String)
    requires '_' !in a
    ensures BadgeLabel(Some(a + "_" + b)) == a + " " + b
  {
    var s := a + "_" + b;
    var i := FirstIndex(s, '_');
    assert forall j :: 0 <= j < |a| ==> s[j] == a[j];
    assert i <= |a| by {
      assert s[|a|] == '_';
      assert forall j :: 0 <= j < i ==> s[..i][j] == s[j];
    }
    var r := ReplaceFirstChar(s, '_', ' ');
    assert r == a + " " + b by {
      assert forall j :: 0 <= j < |s| && j != |a| ==> r[j] == s[j];
    }
  }
}
