# Info Snap: a Dafny model of the summariser web app

Info Snap is a small Flask application. A user uploads a PDF or an image and gets back
an abstractive summary with up to three key points. The summary can be translated,
downloaded as a PDF, or shared through a link that expires after 24 hours. Separately
there is a contact form and a statistics endpoint. A browser script drives the page.

This project models the parts of that system that hold logic or state:

- the server's upload file-name filter (`allowed_file`);
- the per-route sliding-window rate limiter (`rate_limit`);
- the in-memory share store (`shared_summaries`), with its 24-hour sweep, its view
  counting and its statistics;
- the contact-form validation;
- the summariser wrapper: the length table, the 1024-word input cut and the key-point
  extraction;
- the translator's short-circuit;
- the browser page's state machine: file selection, the generate button, result display,
  reset, the dark/light theme and its stored preference, and the requests of the
  translate, PDF and share buttons.

Modules (one per file):

| file | module | models |
|---|---|---|
| common.dfy | `Common` | `Option`, `Result` |
| text.dfy | `Text` | the Python string operations the server uses (`isspace`, `strip`, `split(sep)`, `split()`, `join`, `lower`, `rsplit('.', 1)`) |
| validators.dfy | `Validators` | `allowed_file` and the `/submit-contact` checks |
| rate_limit.dfy | `RateLimit` | the `rate_limit` decorator's `calls` dictionary, as class `Limiter` |
| shares.dfy | `Shares` | `shared_summaries` and `cleanup_old_shares`, as class `ShareStore` |
| server.dfy | `Server` | the routes that own state, as class `App` with one limiter per decorated route |
| summarizer.dfy | `Summarizer` | utils/summarizer.py, with the summariser and translator as parameters |
| client.dfy | `Client` | static/js/script.js from line 329, as class `Page` (selected file, DOM fields, `localStorage`) |

Time is a whole number of seconds passed in as `now`. The summarisation model, the
translator and every `fetch` are parameters. A handler that awaits a request receives
that request's outcome as an argument and returns the request it would send.

## Model

| member | source | states |
|---|---|---|
| Validators.AllowedFile | app.py:38-39 | `allowed_file` as written: a '.' somewhere, and an allowed extension after the last one; AllowedFileIff states its meaning |
| Validators.Extension | app.py:39 | `rsplit('.', 1)[1]`: the text after the last '.'; LastDotUnique and AllowedFileIff state which '.' that is |
| Validators.AllowedExtension | app.py:28-39 | the lower-cased extension is one of the six in ALLOWED_EXTENSIONS; the examples below fix the case and inner-extension behaviour |
| Validators.AllowedFileIff | app.py:38-39 | a file name is accepted exactly when it has a '.' with no later '.', and the text after it, lower-cased, is one of the six extensions |
| Validators.AcceptedHasLastDot | app.py:38-39 | an accepted name has a '.' with no later '.' whose following text is an allowed extension |
| Validators.LastDotAccepted | app.py:38-39 | a name with such a '.' is accepted |
| Validators.LastDotUnique | app.py:39 | `rsplit('.', 1)` splits at the one '.' that has no '.' after it |
| Validators.AcceptsFinalExtensionAnyCase | app.py:28-39 | only the final extension counts and case is ignored: "x.tar.PDF" and "photo.JpEg" pass |
| Validators.RejectsNoDot | app.py:39 | a name with no '.' fails, even "pdf" |
| Validators.RejectsInnerExtension | app.py:28-39 | "report.pdf.exe" fails: an allowed extension that is not the last one does not count |
| Validators.RejectsEmptyExtension | app.py:28-39 | "report." fails: the empty extension is not allowed |
| Validators.ValidateContact | app.py:329-338 | MissingField exactly when some stripped field is empty; success exactly when all three are non-blank and the stripped e-mail holds both '@' and '.'; the accepted record holds the stripped fields |
| Text.IsSpace | app.py:330-332 | the characters Python's `str.isspace` accepts, which `strip()` and `split()` remove; the lemmas below rest on it |
| Text.SkipBlanks | app.py:330-332 | where `strip()` starts: every character skipped is whitespace, and the one it stops at is not |
| Text.SkipBlanksBack | app.py:330-332 | where `strip()` ends: every character dropped from the end is whitespace, and the last one kept is not |
| Text.Strip | app.py:330-332 | `strip()` is no longer than its input; the result is empty exactly when the input is all whitespace; otherwise its ends are not whitespace |
| Text.StripSlice | app.py:330-332 | `strip()` returns a contiguous part `s[i..j]` of the input, and everything before `i` and after `j` is whitespace |
| Text.Join | utils/summarizer.py:47 | `sep.join`: JoinCons gives its one-separator step, and JoinSplit and WordsOfJoin state what it rebuilds |
| Text.Split | utils/summarizer.py:72 | `s.split(sep)` always returns at least one piece; SplitAtFirst and SplitNoSep state what the pieces are, and JoinSplit and SplitFree that they rebuild the text and hold no separator |
| Text.SplitFrom | utils/summarizer.py:72 | splitting on a separator always yields at least one piece |
| Text.JoinCons | utils/summarizer.py:47 | joining a first part onto the others puts one separator between them |
| Text.JoinSplitFromAtSep | utils/summarizer.py:72 | at a separator, the piece read so far closes, and joining still rebuilds the text |
| Text.JoinSplitFromAtChar | utils/summarizer.py:72 | at any other character, the character joins the current piece, and joining still rebuilds the text |
| Text.JoinSplitFrom | utils/summarizer.py:72 | joining the pieces with the separator rebuilds the text scanned so far plus the rest |
| Text.JoinSplit | utils/summarizer.py:72 | `sep.join(s.split(sep)) == s` for every text and non-empty separator |
| Text.SplitFromFree | utils/summarizer.py:72 | no piece of the scan contains the separator, as long as the piece read so far does not |
| Text.SplitFree | utils/summarizer.py:72 | no piece of `s.split(sep)` contains `sep`; for a separator that cannot overlap itself, such as `". "`, this and JoinSplit fix the pieces, and SplitAtFirst fixes them for every separator |
| Text.SplitAtFirst | utils/summarizer.py:72 | the first piece of `s.split(sep)` is the text before the leftmost occurrence of `sep`, and the rest is the split of what follows that occurrence |
| Text.SplitOverlapping | utils/summarizer.py:72 | with a separator that overlaps itself the leftmost occurrence wins: `"ababa".split("aba")` is `["", "ba"]` |
| Text.SplitFromNoSep | utils/summarizer.py:72 | a rest that never contains the separator stays one piece |
| Text.SplitNoSep | utils/summarizer.py:72 | a text that never contains the separator splits into itself alone |
| Text.SplitShort | utils/summarizer.py:72 | a text shorter than the separator splits into itself alone |
| Text.SplitFromPiece | utils/summarizer.py:72 | a piece with no separator inside it, followed by the separator, is split off whole |
| Text.SplitOffChar | utils/summarizer.py:72 | one character that cannot start the separator, followed by the separator, is split off as its own piece |
| Text.WordsFrom | utils/summarizer.py:46-47 | every word `split()` yields is non-empty and free of whitespace |
| Text.Words | utils/summarizer.py:46-47 | every word `split()` yields is non-empty and free of whitespace; WordsOfSpaced and WordsSpaced state which words they are |
| Text.WordsFromWord | utils/summarizer.py:46-47 | reading a run of non-whitespace characters only extends the word being read: nothing is emitted until whitespace or the end |
| Text.WordsOfJoin | utils/summarizer.py:46-47 | splitting the space-join of non-empty, space-free words gives those words back |
| Text.WordsFromGap | utils/summarizer.py:46 | a run of whitespace ends the word being read, if any, and is otherwise skipped |
| Text.WordsFromAfterWord | utils/summarizer.py:46 | after a word, a run of whitespace or the end of the text closes that word |
| Text.WellSpacedCons | utils/summarizer.py:46 | a blank run and a word put in front of a well-spaced text keep it well spaced |
| Text.WordsOfSpaced | utils/summarizer.py:46 | `split()` gives back exactly the words of any text made of words separated by non-empty whitespace runs, with whitespace or nothing at either end |
| Text.SkipWord | utils/summarizer.py:46 | where a word ends: every character passed is not whitespace, and the one it stops at is |
| Text.Decompose | utils/summarizer.py:46 | every text is such a sequence of words and whitespace runs |
| Text.WordsSpaced | utils/summarizer.py:46 | every text is exactly the words `split()` returns, separated by non-empty whitespace runs, with whitespace or nothing at either end |
| Text.Lower | app.py:39 | `lower()` keeps the length and lower-cases each ASCII letter in place |
| Text.LastIndexOf | app.py:39 | None only when the character does not occur; otherwise the index holds it and no later position does |
| RateLimit.Prune | app.py:62-63 | the kept entries are exactly the old entries newer than the cutoff; there are no more of them than before, each taken from the old list |
| RateLimit.PruneAppend | app.py:62-63 | pruning keeps the order of the list |
| RateLimit.PruneAllRecent | app.py:62-63 | a list already inside the window is kept whole |
| RateLimit.PruneIdempotent | app.py:62-63 | pruning twice at the same time is pruning once |
| RateLimit.Limiter.constructor | app.py:54-55 | a decoration starts with an empty `calls` dictionary and its own two parameters |
| RateLimit.Limiter.Recent | app.py:62-63 | a client's recent times are exactly its stored times inside the window |
| RateLimit.Limiter.Admit | app.py:58-70 | refused (429) exactly when the pruned list already holds `max_calls` entries; the client's list becomes the pruned list, plus `now` when admitted; no other client changes; no list ever exceeds `max_calls` |
| Shares.Expired | app.py:47 | a record expires when it is strictly more than 24 hours old; SweepBoundary fixes the boundary |
| Shares.Swept | app.py:41-51 | after the sweep the store holds exactly the records at most a day old, unchanged |
| Shares.SweepBoundary | app.py:47 | a record exactly 24 hours old survives the sweep; one a second older is removed |
| Shares.TotalViews | app.py:370 | the sum of the view counts of all records; TotalViewsRemove shows that the order of the sum does not matter |
| Shares.TotalViewsRemove | app.py:370 | the view total does not depend on the order records are visited |
| Shares.TotalViewsUpdate | app.py:370 | replacing or adding one record moves the total by the difference in its views |
| Shares.ViewAddsOneView | app.py:314 | each counted view raises the reported total by exactly one |
| Shares.ActiveIds | app.py:368-369 | the ids of the records whose `expires_at` is still ahead of `now`; Stats counts them |
| Shares.HoursRemaining | app.py:316-318 | `int(seconds / 3600)` truncates toward zero, in both directions |
| Shares.HoursRemainingBounds | app.py:316-318 | a record that survived the sweep shows between 0 and 24 hours left |
| Shares.ShareStore.constructor | app.py:35 | the store starts empty |
| Shares.ShareStore.CleanupOldShares | app.py:41-51 | the two loops (collect, then delete) leave exactly the swept store |
| Shares.ShareStore.ShareSummary | app.py:265-284 | the store is swept first; an empty or missing summary is refused; otherwise the record holds the summary, the key points (default []) and the language (default "en"), 0 views, and expires a day after creation |
| Shares.ShareStore.ViewShared | app.py:305-318 | the store is swept first; an absent id yields nothing (404); otherwise only that record's view count rises by one, and the shown hours are non-negative |
| Shares.ShareStore.Stats | app.py:363-370 | the record count, the number of records whose expiry is still ahead, and the sum of all views |
| Server.App.constructor | app.py:54-55 | five separate limiters, one per decoration, with the parameters of lines 128, 193, 225, 262 and 326 (5/60, 10/60, 5/60, 10/60, 3/300), and an empty store |
| Server.App.Gate | app.py:58-70 | only the route's own limiter is consulted and changed; the client's list there becomes its recent times, plus `now` when admitted |
| Server.App.Share | app.py:261-295 | 429 exactly when the share limiter is full; the limiter's new state; a refused call leaves the store as it was; 400 exactly when admitted with an empty summary, and then the store is swept; success exactly when admitted with a non-empty summary, and a success returns the id, and the store is the swept store plus the new record (summary, key points, language, 0 views, expiry a day later) |
| Server.App.View | app.py:301-323 | 404 exactly when the id is not in the swept store, which is then the new store; success exactly when the id is in the swept store, and a success shows the swept record with one more view and its hours left, and the store is the swept store with only that record changed |
| Server.App.Contact | app.py:325-338 | 429 exactly when 3 calls fall within 300 seconds; the contact limiter's new state; 400 exactly when admitted and the form fails validation; success exactly when admitted and the form validates, and it returns the validated record |
| Server.App.Stats | app.py:363-370 | the counts of the store as it stands, with no sweep |
| Summarizer.Point | utils/summarizer.py:74 | a point is never empty and ends in '.' |
| Summarizer.NonEmptySegments | utils/summarizer.py:74 | the `if point` filter keeps exactly the non-empty segments, and no more of them than there were |
| Summarizer.NonEmptySegmentsAppend | utils/summarizer.py:74 | the filter keeps the order of the segments |
| Summarizer.NonEmptySegmentsAll | utils/summarizer.py:74 | with no empty segment the filter keeps every segment |
| Summarizer.KeepPoints | utils/summarizer.py:74 | no more points than segments, each ending in '.' |
| Summarizer.KeepPointsAppend | utils/summarizer.py:74 | the points keep the order of the segments |
| Summarizer.KeepPointsSingle | utils/summarizer.py:74 | only an empty segment is dropped; any other segment, even a blank one, gives one point |
| Summarizer.KeepPointsNoneEmpty | utils/summarizer.py:74 | with no empty segment, the i-th point comes from the i-th segment |
| Summarizer.ExtractKeyPoints | utils/summarizer.py:70-74 | at most three points, each ending in '.' |
| Summarizer.ExtractKeyPointsSegments | utils/summarizer.py:70-74 | the segments rejoin to the summary; with no empty segment, the count is min(segments, 3) and the i-th point is the stripped i-th segment plus '.' |
| Summarizer.SplitFourSegments | utils/summarizer.py:72 | "A. B. C. D" splits at every ". " into four segments |
| Summarizer.ExtractKeyPointsWhole | utils/summarizer.py:70-74 | a summary with no ". " is one point, so a final '.' is doubled |
| Summarizer.BlankSegmentPoint | utils/summarizer.py:74 | a blank, non-empty segment becomes the point "." |
| Summarizer.SplitBlankSegment | utils/summarizer.py:72 | the split is on the exact two characters, so a blank middle segment is kept |
| Summarizer.ExtractKeyPointsEmpty | utils/summarizer.py:70-74 | an empty summary has no key points |
| Summarizer.LengthConfigFor | utils/summarizer.py:38-43 | the minimum is below the maximum; any length other than "short" or "long" gets the medium bounds (150, 60) |
| Summarizer.LengthConfigTable | utils/summarizer.py:38-43 | the table is short (75, 30), medium (150, 60), long (250, 100); the lookup is case-sensitive |
| Summarizer.TruncateInput | utils/summarizer.py:45-47 | a text of at most 1024 words is unchanged; a longer one becomes its first 1024 words joined by single spaces, whose words are those 1024; the result never has more than 1024 words |
| Summarizer.GenerateSummary | utils/summarizer.py:34-67 | the summariser is called once, on the cut text with the configured bounds; success exactly when it returns, carrying its text and that text's key points (at most three); a raise becomes a failure carrying the message |
| Summarizer.TranslateText | utils/summarizer.py:20-31 | "en" or an empty target returns the text; a translator that raises returns the text; otherwise the translator's answer is returned |
| Client.AllowedType | static/js/script.js:372-375 | the file's MIME type is one of the six in `allowedTypes`; HandleFileSelect states what follows from it |
| Client.WithinSizeLimit | static/js/script.js:381 | the file is at most 16 MiB; HandleFileSelect states what follows from it |
| Client.ErrorOr | static/js/script.js:425 | a missing or empty error text gives the fallback message; any other is shown unchanged |
| Client.NextTheme | static/js/script.js:544-555 | the next theme is "light" exactly when the current one is "dark", and "dark" otherwise |
| Client.IconFor | static/js/script.js:549-553 | the sun is shown exactly for the dark theme, the moon otherwise |
| Client.SavedTheme | static/js/script.js:688 | a missing or empty stored preference means "light"; any other is used as stored |
| Client.ToggleTwice | static/js/script.js:541-556 | two toggles from "light" or "dark" come back to it |
| Client.ToggleTwiceFromOther | static/js/script.js:541-556 | from no theme or an unknown one, two toggles end on "light" |
| Client.ToggleSurvivesReload | static/js/script.js:541-694 | the preference a toggle stores is the theme the next load applies |
| Client.RequestLanguage | static/js/script.js:564-580 | the language sent is never empty: the selector's value, or "en" when the selector is missing or empty (the same rule recurs at lines 619 and 629) |
| Client.PdfFileName | static/js/script.js:590 | the download is named "summary_" + language + ".pdf" |
| Client.Page.constructor | static/js/script.js:329 | no file is selected at load |
| Client.Page.ShowError | static/js/script.js:477-480 | the error box is shown with the message; nothing else changes |
| Client.Page.HideError | static/js/script.js:482-484 | only the error box is hidden |
| Client.Page.HandleFileSelect | static/js/script.js:370-391 | a file of another type, or over 16 MiB, only shows the matching error; an accepted file becomes the selection, is named in the heading, enables the generate button and hides the error |
| Client.Page.BeginGenerate | static/js/script.js:394-410 | no selection means an error and no request; otherwise the request carries the file and the chosen length, and the page shows loading with the button disabled |
| Client.Page.DisplayResults | static/js/script.js:439-461 | the counts and summary are shown, and the key-point list is rebuilt as exactly the received points, in order |
| Client.Page.FinishGenerate | static/js/script.js:412-435 | results on an ok, successful answer; else the server's error or the fallback; the network message on a throw; in every case loading is hidden and the button enabled |
| Client.Page.GenerateClick | static/js/script.js:394-436 | a request is sent exactly when a file is selected; with one, the whole new page state is given for each outcome (the busy page of the click, then the results or the error, loading hidden and the button enabled), every other field unchanged; a successful answer shows its key points with no error; a failed answer shows the server's error or the fallback, and a request that throws shows the network message, both with the results hidden |
| Client.Page.ResetApp | static/js/script.js:464-474 | the selection is cleared, the input and heading reset, the button disabled, the results and error hidden, and the length set to "medium" |
| Client.Page.ToggleTheme | static/js/script.js:541-556 | the attribute, the icon and the stored preference move to the next theme together |
| Client.Page.RestoreTheme | static/js/script.js:686-694 | on load the stored theme, or "light", is applied with its icon |
| Client.Page.TranslateSummary | static/js/script.js:487-538 | no request, and no change, when the selector is missing or its value is empty; otherwise the summary text is sent with that language, a successful answer is shown, and the button is restored in every case |
| Client.Page.DownloadPdf | static/js/script.js:559-603 | the shown summary and key points are sent with the request language; a download named after that language happens exactly on an ok answer; the button is enabled again |
| Client.Page.ShareSummary | static/js/script.js:606-631 | nothing is sent while no summary is shown; otherwise the summary, the key points and the request language are sent |
| Client.ToggleTwiceRestores | static/js/script.js:541-556 | on a page showing "light" or "dark", two toggles leave the DOM as it was, with that theme stored |

## Left out

- File storage, text extraction (utils/text_extraction.py) and PDF generation (utils/pdf_generator.py) are not part of this model. The /upload, /translate and /download-pdf route bodies appear only through the functions and limiters they call.
- The BART summariser and the Google translator are foreign calls. They are parameters: functions that return a value or raise.
- `time.time()` and `datetime.now()` are a parameter `now` in whole seconds. The timestamp strings (second precision, `%Y-%m-%d %H:%M:%S`) are not modelled. `share_summary` reads the clock three times (app.py:42 inside the sweep, then lines 281 and 283) `view_shared` twice (app.py:42 and 317), and `api_stats` once for each record in the `active_shares` count (app.py:369). The model takes one reading `now` per call, so a real `expires_at` can be a second later than `created_at + 24h`, the sweep and the hours shown can see slightly different times, and records can be counted as active against different times.
- Floating point (`time.time()` fractions, `reduction_percentage`) is left out. Rate-limit times are integers.
- Concurrency between Flask requests is left out. Each route call is one atomic step.
- Text.Lower: only ASCII letters are lowered. Python's Unicode `lower()` could map a non-ASCII character onto an ASCII letter (the Kelvin sign becomes 'k'). No allowed extension contains such a letter, so `AllowedFile` can differ only for names built from those characters.
- A missing JSON body, a non-string field and other exceptions that produce HTTP 500 are left out. Request fields are `Option`s: `None` means the key is absent, and `GetOr` applies the route's default.
- The share id is `uuid4()[:8]`. Here it is a parameter of `ShareSummary`, and `url_for` is not modelled.
- The contact submission's append to `contact_submissions.json` and the logging are I/O and are left out.
- The `api_status` and `server_time` fields of /api/stats are constants or clock text and are left out.
- In the page, `alert`, `prompt`, the clipboard, scrolling, the share modal (lines 635-683), drag-over styling and the download link's blob URL are left out. `ShareSummary` stops at the request it sends.
- The initial DOM comes from an HTML template not in this model, so it is the constructor's argument.
- Client.Page.DownloadPdf: the button's label (saved, then restored) is not modelled; only its disabled flag is.
- The first 327 lines of static/js/script.js are a commented-out earlier copy of the same script and are not modelled.
- The page model assumes every element it touches exists, except the language selector. Where the script guards an element, only the guarded path is modelled: `themeIcon` at line 691 (without it, only the attribute is set) and `summaryText` at line 611. Where it does not, a missing element throws: `toggleTheme` would then set the attribute at line 548 or 552 and throw before storing the preference. Those throws are not modelled.
- Reading the value of a missing language selector throws at line 489, before `translateSummary` changes anything. The model treats that as "no request, no change".

## Notes

Three behaviours worth noting, each modelled as the code is written:

- `downloadPDF` sends its request even when no summary is shown; only `shareSummary` checks.
- `translateSummary` checks only that a language is chosen, not that a summary exists.
- The client's MIME list accepts "image/jpg" besides "image/jpeg".
