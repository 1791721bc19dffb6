# Exercise Generator — a verified model

The Exercise Generator is a small web application. A teacher writes mathematics exercises with
LaTeX in them, and the teacher page can do the following:

- reorder, edit, add and delete exercises;
- ask an AI service for more exercises;
- download the exercises as a PDF, with each formula drawn as an image.

A student opens a set of exercises by a link. The student can then:

- page through the set, with formulas protected from HTML escaping;
- ask an AI tutor about the current exercise.

An Express server does the following:

- stores the sets in memory;
- generates exercises and titles through the OpenAI API;
- serves the chat;
- guards the admin routes with a JWT.

A Postgres layer builds the queries. Two small pages handle login and the student dashboard.

This project models the logic of those pieces in Dafny and proves what each one promises.

- **Math extraction.** `MathSpans` and `MathRoundTrip` model the four regular-expression passes
  of `processMathExpressions` (`$$…$$`, `$…$`, `\[…\]`, `\(…\)`). They also model the numbered
  `__MATH_TYPE_k__` placeholders, the rendering of each formula to an image, and the final
  resolution of the placeholders.
  - For texts in which every `M` is followed by `a`, the round trip is proved: putting the
    matches back gives the input.
  - For the same texts, it is proved that no placeholder text is left in the result.
- **LaTeX to text.** `LatexText` models the LaTeX-to-text rewrite chain that the image drawing
  uses: fractions, roots, the twenty macros in source order, superscripts and subscripts.
- **PDF layout.** `PdfLayout` models `downloadPDF`:
  - the page-break rules;
  - the line and inline-image layout;
  - display images, scaled to fit and centred;
  - the footers;
  - the file name: as script.js:511 does, each non-alphanumeric character of the title becomes
    `_`.

  Each imperative loop is a method proved against a layout function.
- **Teacher's exercise list.** `ExerciseList` models the list as a class: removal through
  `splice`, addition, drag-and-drop reordering (proved to be a permutation), editing and AI
  generation.
- **Student page.** `StudentViewer` and `HtmlEscape` model the student page as a class:
  - loading a set, navigation and the progress bar;
  - the chat request with the exercise attached only when it changed;
  - `escapeHtml`, including the effects of JavaScript replacement templates on the protected
    formulas.
- **Server.** `ServerStore` models the server routes as a class over the stored sets and the
  system settings:
  - generation and parsing of exercises and titles;
  - the chat prompt and configuration;
  - admin login and token checks;
  - the settings routes and the per-set routes.
- **Database.** `DbQueries` models the dynamic `UPDATE` builder, the `INSERT` values and the
  settings lookup of the database layer.
- **Login and dashboard.** `Navigation` models where login and the student dashboard send the
  browser.
- **Shared helpers.** `JsString` holds the JavaScript string operations the rest relies on:
  - `indexOf`, `includes`, `trim` and `split`/`join`;
  - number printing;
  - `String.prototype.replace` with its `$` replacement patterns.

The following are parameters of the model, not part of it:

- the canvas text measurement;
- the AI replies;
- the JWT verification result;
- random identifiers;
- clocks;
- the client's address candidates.

## Model

| member | source | states |
|---|---|---|
| MathSpans.MatchEndIsTheMatch | script.js:520-523 | Where a match is found is exactly where the pattern `open([^stop]+)close` matches: an opening delimiter, one or more characters other than the stop character, then the closing delimiter. |
| MathSpans.ScanSpans | script.js:527-534 | Every span a global replace pass records is a genuine match of its pattern, with the right type and the whole match as its original. |
| MathSpans.ScanNoOpen | script.js:527-534 | A text with no opening delimiter character passes through unchanged, and the pass records nothing. |
| MathSpans.ExtractOrder | script.js:519-534 | The recorded spans come in pass order: all `$$` spans, then `$`, then `\[`, then `\(`, each a genuine match of its own pattern. |
| MathSpans.ExtractPrefix | script.js:527-534 | Later passes only append spans; earlier spans are never renumbered. |
| MathSpans.PlaceholderShape | script.js:529 | A placeholder is `__MATH_` plus `INLINE` or `DISPLAY`, `_`, a number and `__`. It holds only `_`, upper-case letters and digits, and its only `M` is the one of `MATH`. |
| MathSpans.DisplayDollarsOneSpan | script.js:519-534 | `$$x$$` is recorded once, as a display span, and not again as two `$` spans. |
| MathSpans.DelimitedScan | script.js:520-523 | A text that is one delimited formula becomes placeholder `k` with one span of the matching type. |
| MathSpans.RenderSpan | script.js:553-583 | An image exists exactly when drawing the rewritten LaTeX succeeds. The image carries the span's LaTeX and type. |
| MathSpans.ImageSize | script.js:558-581 | Display images are 22 high and as wide as the measured text plus 4 of padding. Inline images (18 high when drawn) are scaled to 8 high, with the width scaled by 8/18 and rounded half up. |
| MathSpans.RenderNImages | script.js:553-583 | The image list holds an image for a LaTeX string exactly when some span with that LaTeX was drawn. |
| MathSpans.ReplacementIsBlankIff | script.js:589-599 | A placeholder is deleted exactly when some image has its LaTeX. Otherwise it becomes the numbered `[Math Expression k]` note. |
| MathSpans.ProcessMathExpressions | script.js:514-605 | The method returns the images of the extracted spans in span order. Its text is the extracted text with every placeholder resolved in index order. |
| MathRoundTrip.RoundTrip | script.js:527-534 | Putting every recorded match back for its placeholder, the last one first, gives the original text. |
| MathRoundTrip.Resolution | script.js:589-599 | The final replacements hit each placeholder where the passes put it. The result is the extracted text with each placeholder replaced by its note or by nothing. |
| MathRoundTrip.NoPlaceholderSurvives | script.js:589-599 | No `__MATH_TYPE_k__` text, for any type and number, is left in the processed text. |
| LatexText.Macro | script.js:835-854 | The twenty macro rewrites, in source order. Each name starts with `\` and no replacement contains `\`. |
| LatexText.PlainTextUnchanged | script.js:833-858 | LaTeX without a backslash is drawn as written. |
| LatexText.MarkedIsIdentity | script.js:857-858 | The superscript and subscript rewrites (`^` or `_` followed by word characters) leave the text as it was, because each puts back exactly what it matched. |
| LatexText.FracRewrite | script.js:833 | `\frac{a}{b}` is drawn as `(a)/(b)`. |
| LatexText.SqrtRewrite | script.js:834 | `\sqrt{x}` is drawn as `√(x)`. |
| LatexText.InftyText | script.js:835-854 | `\infty` is drawn as `∞`. |
| LatexText.IntText | script.js:835-854 | `\int` is drawn as `∫`. |
| LatexText.SigmaText | script.js:835-854 | `\sigma` is drawn as `σ`. |
| LatexText.SinText | script.js:835-854 | `\sin` is drawn as `sin`. |
| LatexText.MacroAlone | script.js:835-854 | A macro name on its own, which no earlier macro rewrites, is drawn as its replacement. |
| PdfLayout.OfType | script.js:432 | Filtering images by type keeps only images of that type, and keeps them drawable. |
| PdfLayout.OfTypeMembers | script.js:463 | An image is in the filtered list exactly when it is in the input and has that type. |
| PdfLayout.OfTypeAppend | script.js:432 | The filter distributes over concatenation, and one image is kept exactly when it has the type. So the kept images keep their order and their repetitions. |
| PdfLayout.RenderedDrawable | script.js:553-583 | Every image the extraction produces has a positive width and height, so the layout can scale it. |
| PdfLayout.InlineAspect | script.js:440-444 | Inline images are drawn 5 high, with their aspect ratio kept. |
| PdfLayout.InlineRowShape | script.js:432-457 | Inline images follow the first line on its baseline, left to right, each 2 after the previous one, and keep their LaTeX. |
| PdfLayout.LinesShape | script.js:424-460 | The first line comes with the inline row. Line `j` is drawn at `y + 5j`, and every item lands on the current page. |
| PdfLayout.DisplaySizeFits | script.js:473-486 | A display image is scaled to fit 120×18 with its aspect ratio kept. An image that already fits keeps its size, and a scaled one touches a bound. |
| PdfLayout.PlaceDisplayShape | script.js:462-495 | A display image that would reach below 280 starts a new page at 30. Otherwise it goes at the cursor. It is centred on the page, and the cursor moves below it by 5. |
| PdfLayout.DisplaysShape | script.js:462-495 | Each display image keeps its LaTeX, scaled size and centring. The pages used grow by at most one per image. |
| PdfLayout.FootersCover | script.js:500-508 | There are two footer texts per page. On page `i` of `n`, entry `2i-2` is `Page i of n` at the left margin and footer height, and entry `2i-1` is `Generated by Exercise Generator` at x = 150 on the same line. |
| PdfLayout.ExerciseStart | script.js:399-409 | Before an exercise, a cursor below 250 moves to the top of a new page. The number `k.` is drawn where the exercise starts. |
| PdfLayout.ExercisePages | script.js:397-498 | An exercise uses its current page, at most one page for the page check, and at most one more page per display image. |
| PdfLayout.LayoutPages | script.js:395-498 | Every drawn item lands on a page between 1 and the page count. |
| PdfLayout.Sanitize | script.js:511 | Every character outside `[A-Za-z0-9]` becomes `_`, letters are lower-cased, and the length is kept. |
| PdfLayout.FileNameShape | script.js:511 | The file name ends in `.pdf` and otherwise holds only lower-case letters, digits and `_`. Exactly the title's non-alphanumeric characters become `_`. |
| PdfLayout.SanitizeIdempotent | script.js:511 | Sanitising a sanitised title changes nothing. |
| PdfLayout.PlaceInline | script.js:432-457 | The inline loop places exactly the inline row. |
| PdfLayout.PlaceLines | script.js:424-460 | The line loop places exactly the line layout and leaves `y` 5 below per line. |
| PdfLayout.PlaceDisplays | script.js:462-495 | The display loop places exactly the display layout and ends at its cursor. |
| PdfLayout.ScaleDisplay | script.js:473-486 | The computed size is the fitted display size. |
| PdfLayout.LayOutExercise | script.js:397-498 | One exercise is laid out as the layout function says, from the given page and `y`. |
| PdfLayout.DownloadPdf | script.js:360-512 | The document is the title, every exercise laid out from `y = 65` on page 1, then the footer of each page. It has as many pages as the layout used, and the file name is the sanitised title. |
| ExerciseList.RemoveAt | script.js:258-268 | `splice(index, 1)` removes exactly the element at the start index, counting negative indices from the end. It changes nothing when that index is past the end. |
| ExerciseList.RemoveInRange | script.js:258-268 | For an index in range, the elements before it stay and the ones after it move down one place. |
| ExerciseList.Reorder | script.js:240-256 | The reordered list has element `order[i]` at position `i`. |
| ExerciseList.ReorderIsPermutation | script.js:240-256 | Reordering by a permutation of the positions keeps the same exercises, as a multiset. |
| ExerciseList.Numbered | script.js:1402-1407 | Appended exercises are numbered on from the current count, in order. |
| ExerciseList.IdsCanRepeat | script.js:258-285 | After a removal, a new exercise can get an id that a kept exercise already has. |
| ExerciseList.ExerciseGenerator.constructor | script.js:3-6 | The generator starts with the given exercises. The source starts from `[]`, and `loadFromURL` (script.js:125) fills the list afterwards; the parameter stands for that list. |
| ExerciseList.ExerciseGenerator.RemoveExercise | script.js:258-268 | The method alerts exactly when one exercise or none is left. Otherwise it removes as `splice` does, if confirmed. |
| ExerciseList.ExerciseGenerator.AddNewExercise | script.js:270-285 | The method appends `New exercise - click to edit`, numbered by the list length. |
| ExerciseList.ExerciseGenerator.UpdateExerciseOrder | script.js:240-256 | The list becomes the reordering, with the same exercises as a multiset. |
| ExerciseList.ExerciseGenerator.EditText | script.js:182-184 | Only the edited exercise's text changes, and it keeps its id. |
| ExerciseList.ExerciseGenerator.GenerateAIExercises | script.js:1357-1419 | A blank prompt, an empty list and a failed request change nothing and are reported apart. Otherwise the returned texts are appended, numbered on. |
| StudentViewer.ProgressFacts | student.js:209-216 | The progress bar is never empty, full exactly at the last exercise, and grows with every step. |
| StudentViewer.ProgressLabelNamesExercise | student.js:213-215 | The label `Exercise k of n` identifies the exercise. |
| StudentViewer.Attached | student.js:274-277 | The exercise is attached exactly when the history is empty or the exercise changed since the last message. |
| StudentViewer.AttachedOnce | student.js:274-277 | After a successful exchange about the same exercise, it is not attached again. |
| StudentViewer.AttachedAfterFailure | student.js:274-277 | While the history is empty (every earlier request failed), the exercise is attached. |
| StudentViewer.AttachedAfterMove | student.js:274-277 | After moving to another exercise, the new one is attached. |
| StudentViewer.StudentExerciseViewer.constructor | student.js:3-89 | A missing id, an unknown set and a loaded set give their own errors or contents. Access is reported only for a loaded set. |
| StudentViewer.StudentExerciseViewer.EscapeHtml | student.js:157-207 | The method returns the protected, escaped and restored text. |
| StudentViewer.StudentExerciseViewer.DisplayCurrentExercise | student.js:120-155 | The view shows the current exercise escaped, with its number and the progress. The buttons are disabled exactly at the ends. |
| StudentViewer.StudentExerciseViewer.UpdateProgressBar | student.js:209-216 | Only the progress width and label change. |
| StudentViewer.StudentExerciseViewer.ShowExercises | student.js:104-117 | An empty set shows the error and nothing else. Otherwise the first exercise is shown. |
| StudentViewer.StudentExerciseViewer.PreviousExercise | student.js:218-223 | The method moves back one exercise unless at the first, and then redisplays. |
| StudentViewer.StudentExerciseViewer.NextExercise | student.js:225-230 | The method moves on one exercise unless at the last, and then redisplays. |
| StudentViewer.StudentExerciseViewer.SendMessage | student.js:260-329 | A blank message sends nothing. Otherwise the trimmed message is sent with the attached exercise, the history before it and the set id. The history grows only on a reply, and the failure text is shown otherwise. |
| HtmlEscape.EscapeChainIsCharMap | student.js:191-196 | The five chained replacements escape each character on its own: `&`, `<`, `>`, `"` and `'` become entities, and an entity inserted by an earlier replacement is not escaped again. |
| HtmlEscape.EscapedIsInert | student.js:191-196 | The escaped text holds no `<`, `>`, `"` or `'`. |
| HtmlEscape.EscapeAllPlain | student.js:191-196 | Text without special characters is left alone. |
| HtmlEscape.Originals | student.js:178-188 | The restore list is each span's whole match, in order. |
| HtmlEscape.PlainTextEscaped | student.js:157-207 | Text without math delimiters is escaped character by character and nothing else. |
| HtmlEscape.OneSpanRestored | student.js:199-204 | With one protected span, the result is the span's original put through the replacement-pattern substitution. |
| HtmlEscape.DisplayDollarsUnwrapped | student.js:178-204 | `$$x$$` is shown as `$x$`, because `$$` in a replacement template inserts one `$`. |
| HtmlEscape.BracketNeverRestored | student.js:171-204 | For `x` without `$` or `]`, `\[x\]` is never restored. Its placeholder is looked up as an inline one, so the display placeholder stays. |
| HtmlEscape.InlineDollarsRestored | student.js:184-204 | `$x$` is restored as written. |
| HtmlEscape.AmpersandFormulaLost | student.js:184-204 | `$&$` loses its formula, because `$&` in a template inserts the placeholder itself. |
| HtmlEscape.DisplayProtected | student.js:178-182 | `$$x$$` becomes display placeholder 0. |
| HtmlEscape.BracketProtected | student.js:171-175 | `\[x\]` becomes display placeholder 0. |
| HtmlEscape.InlineProtected | student.js:184-188 | `$x$` becomes inline placeholder 0 and is restored to it. |
| JsString.DoubleDollarTemplate | student.js:203 | `replace` inserts a template `$$x$$` as `$x$`. |
| JsString.MatchedTemplate | student.js:203 | `replace` inserts a template `$&$` as the matched text followed by `$`. |
| JsString.SubstitutionWithoutDollar | script.js:594-597 | A template without `$` is inserted as written. |
| ServerStore.FindIndex | server.js:233 | The method finds the first set with the id, and reports none when no set has it. |
| ServerStore.FindIndexFirst | server.js:252 | The first set with the id is the one found. |
| ServerStore.AppendedSetFound | server.js:105 | A set appended with a fresh id is found by that id. |
| ServerStore.FirstOfDuplicatesFound | server.js:287 | When ids repeat, the first set with the id is the one the routes act on. |
| ServerStore.BearerTokenOf | server.js:182-196 | `Bearer t` hands over exactly `t`, and a header without a space is rejected. |
| ServerStore.AdminLogin | server.js:165-179 | A token is issued exactly for the configured username and password. |
| ServerStore.NonBlankMembers | server.js:326 | The filter is no longer than its input, and every line it keeps is non-blank and comes from the input. |
| ServerStore.NonBlankKeeps | server.js:326 | Every non-blank input line is in the filtered list. |
| ServerStore.NonBlankAppend | server.js:326 | The filter distributes over concatenation, and one line is kept exactly when it is not blank. So the kept lines keep their order and their repetitions. |
| ServerStore.ParseExercises | server.js:324-330 | The parsed exercises are numbered from 1. |
| ServerStore.ParsedExercisesAreLines | server.js:324-330 | Every parsed exercise is one trimmed, non-blank line of the completion. |
| ServerStore.ParseRoundTrip | server.js:324-330 | Trimmed, non-blank exercises written one per line are parsed back exactly. |
| ServerStore.CleanTitleBounds | server.js:357 | The title is the trimmed reply with at most one quote off each end. A quote at an end always goes. |
| ServerStore.QuotedTitleUnwrapped | server.js:357 | A title wrapped in quotes comes out without them. |
| ServerStore.DoubleQuotesHalved | server.js:357 | Only one quote goes from each end. |
| ServerStore.TitleWords | server.js:361-364 | The fallback title uses at most three words. |
| ServerStore.CapitalizeFacts | server.js:361-364 | Capitalising keeps the length and changes only the first character, which becomes its ASCII upper case. |
| ServerStore.FallbackTitleWords | server.js:361-364 | The fallback title is the first three words of the prompt, capitalised and joined by spaces, then ` Exercises`. |
| ServerStore.SystemPromptDeterminesContext | server.js:370-376 | The system prompt starts with the instruction and tells apart whether an exercise was sent, and which one. |
| ServerStore.BuildMessages | server.js:378-394 | The messages are the system prompt, then the history, then the user message. |
| ServerStore.DefaultsWithoutSet | server.js:129-143 | Without a known set id, the system model and instruction are used. |
| ServerStore.SetOverridesDefaults | server.js:129-143 | A set's own model and instruction win wherever they are truthy. |
| ServerStore.ModelUpdateSeen | server.js:247-263 | After a set's model is changed, the chosen configuration names the new model. |
| ServerStore.ClientAddress | server.js:94 | The result is the first non-empty address candidate, or `unknown` when every candidate is empty. |
| ServerStore.DeleteOneId | server.js:230-245 | A deletion removes exactly one copy of the id and keeps the rest in order. |
| ServerStore.DeleteUniqueGone | server.js:230-245 | When ids are unique, a deleted set is no longer found. |
| ServerStore.Server.constructor | server.js:26-38 | The server starts with no sets, the default model and the default instruction. |
| ServerStore.Server.GenerateExercises | server.js:81-112 | A falsy prompt or count is rejected with 400, and a failed completion gives 500. Otherwise the parsed exercises and the title are returned and stored as a new set. |
| ServerStore.Server.Chat | server.js:115-151 | A falsy message is rejected with 400. Otherwise the request uses the system model, which is never empty, and the configured instruction with the exercise, the history and the message. The reply is trimmed, or the apology is sent. |
| ServerStore.Server.GetSettings | server.js:198-200 | The method returns the settings exactly for an admitted token, and 401 otherwise. |
| ServerStore.Server.DefaultChatInstruction | server.js:203-205 | The method returns the system's default instruction. |
| ServerStore.Server.UpdateSettings | server.js:207-224 | A truthy model and any present instruction replace the current ones, for an admitted token only. |
| ServerStore.Server.ListExerciseSets | server.js:226-228 | The method lists all sets, for an admitted token only. |
| ServerStore.Server.DeleteExerciseSet | server.js:230-245 | The first set with the id is removed, an unknown id gives 404, and only for an admitted token. |
| ServerStore.Server.SetChatModel | server.js:247-263 | Only the first matching set's model changes, an unknown id gives 404, and only for an admitted token. |
| ServerStore.Server.SetChatInstruction | server.js:265-281 | Only the first matching set's instruction changes, and an unknown id gives 404. No token is checked. |
| ServerStore.Server.TrackAccess | server.js:284-298 | The matching set's last-used time is set. The route always answers 200. |
| DbQueries.AssignmentsSpec | database/db.js:66-108 | The `SET` assignments are exactly the truthy properties, each with its value, in column order and each column once. |
| DbQueries.NoEmptyStringAssigned | database/db.js:66-108 | An empty string never becomes an assignment. |
| DbQueries.AddField | database/db.js:70-98 | One `if (updates.x)` step extends the fragments, the values and the parameter count. |
| DbQueries.UpdateExerciseSet | database/db.js:66-108 | No query is built exactly when nothing is truthy. Otherwise the query numbers the assignments `$1..$n` and the id `$n+1`. |
| DbQueries.ParametersBound | database/db.js:66-108 | Parameter `k` is the value of assignment `k`, and the last parameter is the id. |
| DbQueries.StringifiedOnlyExercises | database/db.js:70-97 | Only the `exercises` value goes through `JSON.stringify`, a string as well as a list; every other truthy property, string or array, is passed unchanged. |
| DbQueries.NothingToUpdate | database/db.js:66-108 | With no truthy property, no assignment is made. |
| DbQueries.CreateValuesByColumn | database/db.js:25-42 | The insert values follow the columns: the id, the title, the exercise list as JSON, the chat language when it is truthy and `English` otherwise, then the creator, the creation time and the last-used time. |
| DbQueries.LatestRow | database/db.js:133 | `ORDER BY id DESC LIMIT 1` picks a row of the table whose id is the largest. |
| DbQueries.SystemSettings | database/db.js:132-139 | With no rows, the result is `gpt-3.5-turbo` with `Default instruction`. Otherwise it is the model and instruction of a row with the largest id. |
| DbQueries.SystemSettingsOfGreatest | database/db.js:132-139 | When one row's id is larger than every other, the settings are that row's. |
| DbQueries.InsertedRowRead | database/db.js:132-139 | After inserting a row with an id larger than all others, the settings read back are that row's. |
| DbQueries.DefaultRowAgainstServer | database/db.js:132-139 | The database default model agrees with the server's default model, but the default instruction does not. |
| Navigation.LoginTarget | login.js:68-85 | A redirect parameter wins. Otherwise the user type picks the page. |
| Navigation.SubmitLogin | login.js:23-70 | Blank fields show the error. Otherwise the trimmed credentials are stored and the browser moves to the target. |
| Navigation.ExistingLoginTarget | login.js:100-124 | Without a stored session nothing happens. A redirect wins. |
| Navigation.DashboardTarget | student-dashboard.js:10-32 | The dashboard stays exactly for a stored student session. |
| Navigation.Logout | student-dashboard.js:66-72 | Logging out removes the session and opens the login page. |
| Navigation.LoginDestinations | login.js:73-85 | Students, teachers and admins go to their pages. Unknown types go to the teacher route at login, but stay on an existing login. |
| Navigation.ExistingAgreesWithLogin | login.js:73-124 | The two switches agree except for unknown user types. |
| Navigation.DashboardDestinations | student-dashboard.js:10-32 | The dashboard sends teachers to `index.html`, admins to `admin.html` and everyone else to login. |
| Navigation.TeacherDestinationsDisagree | login.js:76 | Login sends teachers to `/teacher` but the dashboard sends them to `index.html`. Admins go to the same page from both. |
| Navigation.StudentLoginStays | login.js:23-85 | A student who logs in lands on the dashboard and stays there. |
| Navigation.LogoutThenDashboard | student-dashboard.js:66-72 | After logout, the dashboard sends the browser to login. |
| Navigation.OpenExerciseSetInjective | student-dashboard.js:61-64 | Different sets open different links. |

## Left out

- Drawing, DOM and storage:
  - The MathJax, SVG and canvas drawing are left out. The canvas measurement is a parameter.
  - A drawing that fails is `None`, as when `createTextBasedMathImage` throws.
  - The DOM, `localStorage`, `location` and `alert`/`confirm` dialogs are left out. Their values
    are inputs and outputs.
  - The jsPDF document is a list of drawing calls, with its page size fixed at A4.
- I/O and external services:
  - HTTP transport and JSON parsing are left out.
  - JWT signing and verification are left out; `verified` is an input.
  - The OpenAI API replies are inputs.
  - Postgres execution is left out; only the query text and parameters are built.
  - `Date`, random identifiers and the request's client address are inputs.
  - `JSON.stringify` is not spelled out: its output is kept as the list or string it encodes
    (`Json`, `JsonString`), apart from values passed unchanged (`Text`, `Array`).
- Asynchronous ordering and concurrent requests are not modelled. Each operation runs to
  completion.
- admin-dashboard.js and admin.js are not part of this model.
- The `\(` protection pass of `escapeHtml` (student.js:164) is left out. Its regular
  expression literal has an unmatched `)`, so student.js does not parse as written. The model
  takes the three well-formed passes, in their order.
- The try/catch around adding an image to the PDF is not modelled. Drawable images are assumed.
- MathRoundTrip.RoundTrip: proved only for inputs where every `M` is followed by `a`. Excluding
  `__MATH_` is not enough: in `$a$MATH_INLINE_1__ $b$`, the restore of placeholder 1 hits a
  false occurrence formed by placeholder 0's trailing `__`.
- MathRoundTrip.NoPlaceholderSurvives: proved only for inputs where every `M` is followed by
  `a`. In `\(a\)MATH_INLINE_1__ $b$ $$c$$`, the restore of placeholder 1 deletes the false
  occurrence formed by placeholder 2's trailing `__`. The result,
  `__MATH_INLINE_2 __MATH_INLINE_1__ `, still holds a placeholder.
- MathRoundTrip.Resolution: proved under the same restriction on `M`.
- ServerStore.CapitalizeFacts: only ASCII letters are upper-cased. JavaScript's `toUpperCase`
  also maps letters such as `ø` to `Ø`, and maps `ß` to `SS`, which makes the word longer. The
  length claim holds for the model, not for every word in the source.
- ServerStore.FallbackTitleWords: the fallback title is stated with the ASCII-only
  capitalisation above, so a prompt such as `øving i brøk` keeps its lower-case `ø` in the model.
- PdfLayout.Sanitize: a `char` is one Unicode scalar value, while JavaScript replaces each UTF-16
  code unit. A character outside the Basic Multilingual Plane becomes one `_` in the model but
  two in the source, so `a😀` gives `a_` here and `a__` there.
- PdfLayout.FileNameShape: the same difference; the length of the file name is counted in
  scalar values, not UTF-16 code units.
- MathSpans.ImageSize, PdfLayout.DisplaySizeFits, PdfLayout.PlaceDisplayShape and
  PdfLayout.InlineAspect: sizes and coordinates are exact `real` numbers, not IEEE doubles. The
  scaling by the smaller ratio, the centring, the `y + h > 280` test and `Math.round` are stated
  over reals, so rounding in the last bit of a double is not modelled.
- HtmlEscape.OneSpanRestored: the restore is stated for texts with one protected span. Several
  spans are described through `Escaped` and its parts, without a closed form.
- Cross-file mismatches that are recorded but not proved:
  - `openExerciseSet` passes the set in the `exerciseSet` parameter, while student.js reads
    `id`.
  - script.js posts to `/api/generate-ai-exercises`, which server.js does not define.
- ServerStore.Server.Chat: the request always uses the system model (server.js:397). The model
  and instruction chosen for a set affect only the instruction, as the code does.
