/** The browser session of static/js/script.js (its live half, from line 329):
    the module-global `selectedFile`, the page's DOM as a record of the fields
    the handlers touch, and `localStorage`.  A `fetch` is not performed here: its
    outcome is a parameter of the handler that awaits it. */
module Client {
  import opened Common

  /** The part of a browser `File` the handlers read. */
  datatype File = File(name: string, mimeType: string, size: int)

  /** `allowedTypes` in `handleFileSelect`. */
  const AllowedTypes: seq<string> :=
    ["application/pdf", "image/png", "image/jpeg", "image/jpg", "image/gif", "image/bmp"]

  /** 16 MiB */
  const MaxFileSize: int := 16 * 1024 * 1024

  const InvalidTypeMessage := "Bhai valid file upload kar - PDF ya Image (PNG, JPG, GIF, BMP)"
  const TooLargeMessage := "File size 16MB se kam honi chahiye bhai"
  const NoFileMessage := "Pehle file select kar bhai!"
  const ProcessingFailedMessage := "Kuch gadbad hui file process karte waqt"
  const NetworkMessage := "Network error aa gaya bhai. Phir try kar."
  const DropHeading := "Drag & Drop your file here"
  const TranslateLabel := "Translate"
  const TranslatingLabel := "Translating..."

  const Dark := "dark"
  const Light := "light"
  /** '☀️' */
  const SunIcon := "\U{2600}\U{FE0F}"
  /** '🌙' */
  const MoonIcon := "\U{1F319}"
  /** The `localStorage` key of the theme preference. */
  const ThemeKey := "theme"

  /** The DOM state the handlers read and write. */
  datatype Dom = Dom(
    uploadHeading: string,          // uploadArea's h3
    fileInputValue: string,
    generateDisabled: bool,
    loadingVisible: bool,
    resultsVisible: bool,
    errorVisible: bool,
    errorText: string,              // errorMessage's p
    originalWords: int,             // shown as "<n> words"
    summaryWords: int,
    summaryText: string,
    keyPoints: seq<string>,         // the li items of keyPointsList
    lengthChoice: string,           // the checked length radio
    dataTheme: Option<string>,      // the data-theme attribute of <html>
    themeIcon: string,
    languageSelect: Option<string>, // the value of languageSelect; None when the element is absent
    translateDisabled: bool,
    translateLabel: string,
    translatedText: string,
    translatedVisible: bool,
    downloadDisabled: bool)

  /** The JSON body of an /upload answer. */
  datatype UploadData = UploadData(success: bool, error: Option<string>, summary: string,
                                   keyPoints: seq<string>, textLength: int, summaryLength: int)

  /** How the awaited `fetch('/upload')` and `response.json()` end. */
  datatype UploadOutcome = UploadThrew | UploadReply(ok: bool, data: UploadData)

  /** The form data posted to /upload. */
  datatype UploadRequest = UploadRequest(file: File, length: string)

  datatype TranslateRequest = TranslateRequest(text: string, language: string)
  datatype TranslateOutcome = TranslateThrew | TranslateReply(success: bool, translatedText: string)

  datatype PdfRequest = PdfRequest(summary: string, keyPoints: seq<string>, language: string)
  /** `response.ok` of the awaited /download-pdf request, or a thrown error. */
  datatype PdfOutcome = PdfThrew | PdfReply(ok: bool)

  datatype ShareRequest = ShareRequest(summary: string, keyPoints: seq<string>, language: string)

  /** The two checks of `handleFileSelect`. */
  predicate AllowedType(file: File) {
    file.mimeType in AllowedTypes
  }

  predicate WithinSizeLimit(file: File) {
    file.size <= MaxFileSize
  }

  /** `data.error || fallback`: a missing or empty error text gives the fallback. */
  function ErrorOr(error: Option<string>, fallback: string): (text: string)
    ensures error.Some? && error.value != "" ==> text == error.value
    ensures error.None? || error.value == "" ==> text == fallback
  {
    if error.Some? && error.value != "" then error.value else fallback
  }

  /** The theme `toggleTheme` switches to from the current attribute. */
  function NextTheme(current: Option<string>): (next: string)
    ensures next == Light <==> current == Some(Dark)
    ensures next == Dark <==> current != Some(Dark)
  {
    if current == Some(Dark) then Light else Dark
  }

  /** The icon shown for a theme. */
  function IconFor(theme: string): (icon: string)
    ensures icon == SunIcon <==> theme == Dark
    ensures icon == MoonIcon <==> theme != Dark
  {
    if theme == Dark then SunIcon else MoonIcon
  }

  /** `localStorage.getItem('theme') || 'light'` */
  function SavedTheme(stored: Option<string>): (theme: string)
    ensures stored.Some? && stored.value != "" ==> theme == stored.value
    ensures stored.None? || stored.value == "" ==> theme == Light
  {
    if stored.Some? && stored.value != "" then stored.value else Light
  }

  /** Toggling twice from "light" or "dark" comes back to it. */
  lemma ToggleTwice(theme: string)
    requires theme == Light || theme == Dark
    ensures NextTheme(Some(NextTheme(Some(theme)))) == theme
  {
  }

  /** From any other attribute (none, or an unknown value) two toggles end on "light". */
  lemma ToggleTwiceFromOther(current: Option<string>)
    requires current != Some(Light) && current != Some(Dark)
    ensures NextTheme(Some(NextTheme(current))) == Light
  {
  }

  /** The language sent with a PDF or share request: the selector's value, or 'en'
      when the selector is absent or empty. */
  function RequestLanguage(select: Option<string>): (language: string)
    ensures language != ""
    ensures select.Some? && select.value != "" ==> language == select.value
    ensures select.None? || select.value == "" ==> language == "en"
  {
    if select.Some? && select.value != "" then select.value else "en"
  }

  /** `summary_${language}.pdf` */
  function PdfFileName(language: string): (name: string)
    ensures |name| == |language| + 12
    ensures name[..8] == "summary_" && name[8..8 + |language|] == language && name[8 + |language|..] == ".pdf"
  {
    "summary_" + language + ".pdf"
  }

  class Page {
    /** `selectedFile` */
    var selectedFile: Option<File>
    var dom: Dom
    /** `localStorage` */
    var storage: map<string, string>

    /** The script's top level: `selectedFile` starts as null over the page as loaded. */
    constructor (loaded: Dom, stored: map<string, string>)
      ensures selectedFile == None && dom == loaded && storage == stored
    {
      selectedFile := None;
      dom := loaded;
      storage := stored;
    }

    /** `showError` */
    method ShowError(message: string)
      modifies this
      ensures dom == old(dom).(errorVisible := true, errorText := message)
      ensures selectedFile == old(selectedFile) && storage == old(storage)
    {
      dom := dom.(errorVisible := true, errorText := message);
    }

    /** `hideError` */
    method HideError()
      modifies this
      ensures dom == old(dom).(errorVisible := false)
      ensures selectedFile == old(selectedFile) && storage == old(storage)
    {
      dom := dom.(errorVisible := false);
    }

    /** `handleFileSelect`: a file of another type, or larger than 16 MiB, only shows an
        error; an accepted one becomes the selection and enables the generate button. */
    method HandleFileSelect(file: File)
      modifies this
      ensures storage == old(storage)
      ensures !AllowedType(file) ==>
        selectedFile == old(selectedFile) && dom == old(dom).(errorVisible := true, errorText := InvalidTypeMessage)
      ensures AllowedType(file) && !WithinSizeLimit(file) ==>
        selectedFile == old(selectedFile) && dom == old(dom).(errorVisible := true, errorText := TooLargeMessage)
      ensures AllowedType(file) && WithinSizeLimit(file) ==>
        && selectedFile == Some(file)
        && dom == old(dom).(uploadHeading := "Selected: " + file.name, generateDisabled := false, errorVisible := false)
    {
      if file.mimeType !in AllowedTypes {
        ShowError(InvalidTypeMessage);
        return;
      }
      if file.size > MaxFileSize {
        ShowError(TooLargeMessage);
        return;
      }
      selectedFile := Some(file);
      dom := dom.(uploadHeading := "Selected: " + file.name, generateDisabled := false);
      HideError();
    }

    /** The generate click up to its `await`: with no selection, an error and no request;
        otherwise the request is built and the page shows it is busy. */
    method BeginGenerate() returns (request: Option<UploadRequest>)
      modifies this
      ensures selectedFile == old(selectedFile) && storage == old(storage)
      ensures request.None? <==> old(selectedFile).None?
      ensures request.None? ==> dom == old(dom).(errorVisible := true, errorText := NoFileMessage)
      ensures request.Some? ==>
        && request.value == UploadRequest(old(selectedFile).value, old(dom).lengthChoice)
        && dom == old(dom).(loadingVisible := true, resultsVisible := false, errorVisible := false,
                            generateDisabled := true)
    {
      if selectedFile.None? {
        ShowError(NoFileMessage);
        return None;
      }
      request := Some(UploadRequest(selectedFile.value, dom.lengthChoice));
      dom := dom.(loadingVisible := true, resultsVisible := false);
      HideError();
      dom := dom.(generateDisabled := true);
    }

    /** `displayResults`: the statistics, the summary, and the key-point list rebuilt
        item by item from `data.key_points`, in order. */
    method DisplayResults(data: UploadData)
      modifies this
      ensures dom == old(dom).(originalWords := data.textLength, summaryWords := data.summaryLength,
                               summaryText := data.summary, keyPoints := data.keyPoints,
                               resultsVisible := true)
      ensures selectedFile == old(selectedFile) && storage == old(storage)
    {
      dom := dom.(originalWords := data.textLength, summaryWords := data.summaryLength,
                  summaryText := data.summary, keyPoints := []);
      ghost var cleared := dom;
      for i := 0 to |data.keyPoints|
        invariant dom.keyPoints == data.keyPoints[..i]
        invariant dom == cleared.(keyPoints := dom.keyPoints)
        invariant selectedFile == old(selectedFile) && storage == old(storage)
      {
        dom := dom.(keyPoints := dom.keyPoints + [data.keyPoints[i]]);
        assert data.keyPoints[..i + 1] == data.keyPoints[..i] + [data.keyPoints[i]];
      }
      assert data.keyPoints[..|data.keyPoints|] == data.keyPoints;
      dom := dom.(resultsVisible := true);
    }

    /** The generate click after its `await`: results or an error message, and in every
        case (the `finally`) loading hidden and the button enabled again. */
    method FinishGenerate(outcome: UploadOutcome)
      modifies this
      ensures selectedFile == old(selectedFile) && storage == old(storage)
      ensures !dom.loadingVisible && !dom.generateDisabled
      ensures outcome.UploadReply? && outcome.ok && outcome.data.success ==>
        dom == old(dom).(originalWords := outcome.data.textLength, summaryWords := outcome.data.summaryLength,
                         summaryText := outcome.data.summary, keyPoints := outcome.data.keyPoints,
                         resultsVisible := true, loadingVisible := false, generateDisabled := false)
      ensures outcome.UploadReply? && !(outcome.ok && outcome.data.success) ==>
        dom == old(dom).(errorVisible := true, errorText := ErrorOr(outcome.data.error, ProcessingFailedMessage),
                         loadingVisible := false, generateDisabled := false)
      ensures outcome.UploadThrew? ==>
        dom == old(dom).(errorVisible := true, errorText := NetworkMessage,
                         loadingVisible := false, generateDisabled := false)
    {
      match outcome {
        case UploadReply(ok, data) =>
          if ok && data.success {
            DisplayResults(data);
          } else {
            ShowError(ErrorOr(data.error, ProcessingFailedMessage));
          }
        case UploadThrew =>
          ShowError(NetworkMessage);
      }
      dom := dom.(loadingVisible := false, generateDisabled := false);
    }

    /** The whole generate click: no request without a selected file; with one, exactly
        one request, after which the button is usable again whatever the outcome. */
    method GenerateClick(outcome: UploadOutcome) returns (request: Option<UploadRequest>)
      modifies this
      ensures selectedFile == old(selectedFile) && storage == old(storage)
      ensures request.None? <==> old(selectedFile).None?
      ensures request.None? ==> dom == old(dom).(errorVisible := true, errorText := NoFileMessage)
      ensures request.Some? ==>
        && request.value == UploadRequest(old(selectedFile).value, old(dom).lengthChoice)
        && !dom.loadingVisible && !dom.generateDisabled
      ensures request.Some? && outcome.UploadReply? && outcome.ok && outcome.data.success ==>
        dom.resultsVisible && !dom.errorVisible && dom.keyPoints == outcome.data.keyPoints
      ensures request.Some? && outcome.UploadReply? && !(outcome.ok && outcome.data.success) ==>
        !dom.resultsVisible && dom.errorVisible && dom.errorText == ErrorOr(outcome.data.error, ProcessingFailedMessage)
      ensures request.Some? && outcome.UploadThrew? ==>
        !dom.resultsVisible && dom.errorVisible && dom.errorText == NetworkMessage
      ensures request.Some? ==>
        var busy := old(dom).(loadingVisible := true, resultsVisible := false, errorVisible := false,
                              generateDisabled := true);
        dom == match outcome
          case UploadThrew =>
            busy.(errorVisible := true, errorText := NetworkMessage, loadingVisible := false,
                  generateDisabled := false)
          case UploadReply(ok, data) =>
            if ok && data.success then
              busy.(originalWords := data.textLength, summaryWords := data.summaryLength,
                    summaryText := data.summary, keyPoints := data.keyPoints, resultsVisible := true,
                    loadingVisible := false, generateDisabled := false)
            else
              busy.(errorVisible := true, errorText := ErrorOr(data.error, ProcessingFailedMessage),
                    loadingVisible := false, generateDisabled := false)
    {
      request := BeginGenerate();
      if request.Some? {
        FinishGenerate(outcome);
      }
    }

    /** `resetApp` */
    method ResetApp()
      modifies this
      ensures selectedFile == None && storage == old(storage)
      ensures dom == old(dom).(fileInputValue := "", uploadHeading := DropHeading, generateDisabled := true,
                               resultsVisible := false, errorVisible := false, lengthChoice := "medium")
    {
      selectedFile := None;
      dom := dom.(fileInputValue := "", uploadHeading := DropHeading, generateDisabled := true,
                  resultsVisible := false);
      HideError();
      dom := dom.(lengthChoice := "medium");
    }

    /** `toggleTheme`: the attribute, the icon and the stored preference all move to the
        next theme together. */
    method ToggleTheme()
      modifies this
      ensures dom == old(dom).(dataTheme := Some(NextTheme(old(dom).dataTheme)),
                               themeIcon := IconFor(NextTheme(old(dom).dataTheme)))
      ensures storage == old(storage)[ThemeKey := NextTheme(old(dom).dataTheme)]
      ensures selectedFile == old(selectedFile)
    {
      if dom.dataTheme == Some(Dark) {
        dom := dom.(dataTheme := Some(Light), themeIcon := MoonIcon);
        storage := storage[ThemeKey := Light];
      } else {
        dom := dom.(dataTheme := Some(Dark), themeIcon := SunIcon);
        storage := storage[ThemeKey := Dark];
      }
    }

    /** The DOMContentLoaded handler: apply the stored theme, "light" when there is none. */
    method RestoreTheme()
      modifies this
      ensures dom == old(dom).(dataTheme := Some(SavedTheme(if ThemeKey in old(storage) then Some(old(storage)[ThemeKey]) else None)),
                               themeIcon := IconFor(SavedTheme(if ThemeKey in old(storage) then Some(old(storage)[ThemeKey]) else None)))
      ensures selectedFile == old(selectedFile) && storage == old(storage)
    {
      var stored := if ThemeKey in storage then Some(storage[ThemeKey]) else None;
      var saved := SavedTheme(stored);
      dom := dom.(dataTheme := Some(saved), themeIcon := IconFor(saved));
    }

    /** `translateSummary`: no request when the language selector is missing (reading its
        value throws before anything changes) or empty; else the summary text is posted and
        the button is restored afterwards. */
    method TranslateSummary(outcome: TranslateOutcome) returns (request: Option<TranslateRequest>)
      modifies this
      ensures selectedFile == old(selectedFile) && storage == old(storage)
      ensures request.None? <==> old(dom).languageSelect.None? || old(dom).languageSelect.value == ""
      ensures request.None? ==> dom == old(dom)
      ensures request.Some? ==> request.value == TranslateRequest(old(dom).summaryText, old(dom).languageSelect.value)
      ensures request.Some? && outcome.TranslateReply? && outcome.success ==>
        dom == old(dom).(translatedText := outcome.translatedText, translatedVisible := true,
                         translateDisabled := false, translateLabel := TranslateLabel)
      ensures request.Some? && !(outcome.TranslateReply? && outcome.success) ==>
        dom == old(dom).(translateDisabled := false, translateLabel := TranslateLabel)
    {
      if dom.languageSelect.None? || dom.languageSelect.value == "" {
        return None;
      }
      request := Some(TranslateRequest(dom.summaryText, dom.languageSelect.value));
      dom := dom.(translateDisabled := true, translateLabel := TranslatingLabel);
      if outcome.TranslateReply? && outcome.success {
        dom := dom.(translatedText := outcome.translatedText, translatedVisible := true);
      }
      dom := dom.(translateDisabled := false, translateLabel := TranslateLabel);
    }

    /** `downloadPDF`: the displayed summary and key points are posted with the request
        language; a successful answer is saved as summary_<language>.pdf, and the button
        is enabled again in every case. */
    method DownloadPdf(outcome: PdfOutcome) returns (request: PdfRequest, download: Option<string>)
      modifies this
      ensures selectedFile == old(selectedFile) && storage == old(storage)
      ensures request == PdfRequest(old(dom).summaryText, old(dom).keyPoints, RequestLanguage(old(dom).languageSelect))
      ensures download.Some? <==> outcome == PdfReply(true)
      ensures download.Some? ==> download.value == PdfFileName(request.language)
      ensures dom == old(dom).(downloadDisabled := false)
    {
      var language := RequestLanguage(dom.languageSelect);
      request := PdfRequest(dom.summaryText, dom.keyPoints, language);
      dom := dom.(downloadDisabled := true);
      download := if outcome == PdfReply(true) then Some(PdfFileName(language)) else None;
      dom := dom.(downloadDisabled := false);
    }

    /** `shareSummary` up to its request: nothing is posted while no summary is shown. */
    method ShareSummary() returns (request: Option<ShareRequest>)
      ensures request.None? <==> dom.summaryText == ""
      ensures request.Some? ==>
        request.value == ShareRequest(dom.summaryText, dom.keyPoints, RequestLanguage(dom.languageSelect))
    {
      if dom.summaryText == "" {
        return None;
      }
      request := Some(ShareRequest(dom.summaryText, dom.keyPoints, RequestLanguage(dom.languageSelect)));
    }
  }

  /** Two toggles of a page showing "light" or "dark" restore the theme, the icon and
      (as the new stored preference) the same value. */
  method ToggleTwiceRestores(page: Page)
    requires page.dom.dataTheme == Some(Light) || page.dom.dataTheme == Some(Dark)
    requires page.dom.themeIcon == IconFor(page.dom.dataTheme.value)
    modifies page
    ensures page.dom == old(page.dom)
    ensures page.storage == old(page.storage)[ThemeKey := old(page.dom).dataTheme.value]
  {
    page.ToggleTheme();
    page.ToggleTheme();
  }

  /** The preference a toggle stores is the theme the next page load applies. */
  lemma ToggleSurvivesReload(current: Option<string>)
    ensures SavedTheme(Some(NextTheme(current))) == NextTheme(current)
  {
  }
}
