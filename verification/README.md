# AI blog generator: the completeness audit, the draft pipeline and the submit gate

The system is a small web application. A user types a topic into a page.
The page checks the prompt and spaces requests out, then posts it to a
Flask endpoint. The endpoint asks a hosted language model for a
~1000-word blog and removes a byline block from the draft. A text-only
heuristic (`is_incomplete`) then decides whether the draft looks cut off.
If it does, the endpoint asks for exactly one continuation and appends it.
The page renders the markdown it receives and shows its word count.

This Dafny project models that core:

- `Text` covers whitespace as Python `str.strip` and JavaScript `String.trim` see it, ASCII lower-casing, and the uniqueness and padding laws of trimming.
- `Lines` models `str.split("\n")` and its inverse, a join on `"\n"`.
- `Words` models JavaScript's `split(/\s+/)` (`SplitRuns`) and Python's argument-less `split()` (`Split`). It also says how they relate.
- `Auditor` models `is_incomplete`. Its four signals are: no closing `.`/`!`/`?`; a last line that opens like a heading, list item or table row; an odd number of `|`; more than 900 words.
- `AuditorCases` gives the auditor's verdict on families of drafts: one-line sentences, one or two pipes, and essays of 900 and 901 words.
- `Byline` models `re.sub(r"By .?\n+Published: .?\n+", "", blog)`. It has a deterministic matcher, which is proved sound and complete against a rendered `Block`, and a left-to-right removal of every match.
- `Handler` models the POST branch of `home`:
  - a 400 for a short prompt;
  - the draft request;
  - byline clean-up and audit;
  - at most one continuation;
  - a 500 carrying the error text.

  The completion service is a parameter `ask: Request -> Reply`. The result records the response and the requests sent, in order.
- `SubmitGate` models the page:
  - the submit guard: trimmed length 1..600, then a 3000 ms cooldown with a `Math.ceil` wait in seconds;
  - the character counter and the input handler;
  - a run over a sequence of user events;
  - the word count shown under a rendered blog.

  The clock is a parameter.

Some behaviour of the code is easy to misread. The model follows the code:

- `re.sub` removes every match of the byline pattern, scanning from the left, not just the first one.
- In the byline pattern, `.?` matches at most one character. So a byline with a full name, such as "By Jane Doe", is never removed (`Byline.LongNameSurvives`).
- The draft instruction is "Write a detailed, engaging blog of ~1000 words on: …".
- The continuation's system message is "You are a blog continuation assistant.". Its user text is "Continue this blog without repeating, and finish it properly:\n\n…".

## Model

| member | source | states |
|---|---|---|
| Text.Trim | assessment.py:19 | The trimmed text neither starts nor ends with whitespace. It is empty exactly when the input is all whitespace. Text that is already bordered is kept as is. Every non-whitespace character keeps its number of occurrences. |
| Text.TrimIsUnique | static/js/script.js:19 | Whitespace, then a bordered middle, then whitespace trims to exactly that middle. |
| Text.TrimOfPadded | assessment.py:19 | Adding whitespace on either side does not change what trimming gives. |
| Text.TrimIdempotent | assessment.py:19 | Trimming twice gives the same as trimming once. |
| Text.LowerKeepsCaselessPrefix | assessment.py:24 | A prefix without letters is a prefix of the lower-cased line exactly when it is a prefix of the line. |
| Text.Lower | assessment.py:24 | ASCII lower-casing keeps the length, leaves no capital letter, turns each capital into its small letter and keeps every other character. |
| Lines.SplitOn | assessment.py:24 | Splitting on line feeds gives at least one piece. No piece holds a line feed. Joining the pieces with line feeds gives back the text. |
| Lines.SplitJoin | assessment.py:24 | Pieces without line feeds, joined and then split, come back unchanged. |
| Lines.SplitAtSep | assessment.py:24 | Splitting `a + "\n" + b` gives the pieces of `a` followed by the pieces of `b`. |
| Lines.SplitWithoutSep | assessment.py:24 | Text without a line feed is a single piece. |
| Lines.LastPiece | assessment.py:24 | The last piece of a split is a suffix of the text without the separator. It is either the whole text or it follows a separator. |
| Lines.JoinLast | assessment.py:24 | Joining several pieces ends with the separator and the last piece. |
| Words.SplitRuns | static/js/script.js:110 | Cutting at whitespace runs gives between 1 and \|s\|+1 pieces, each free of whitespace. Only the first and the last piece can be empty, and each is empty exactly when the text starts or ends with whitespace. Only the empty text gives `[""]`. Where the cuts fall is stated by `Words.SplitRunsRebuilds` and `Words.SplitRunsIsTheCut`. |
| Words.SplitRunsKeepsContent | static/js/script.js:110 | The pieces laid end to end are exactly the non-whitespace characters of the text, in order. |
| Words.Split | assessment.py:31 | Python's `split()` gives non-empty, whitespace-free words that laid end to end are the text's non-whitespace characters. There are never more words than characters, and there are none exactly when the text is blank. Where the cuts fall is stated by `Words.SplitIsTheCut`. |
| Words.NonEmpty | assessment.py:31 | Dropping the empty pieces keeps the concatenation. It keeps every non-empty piece and removes every empty one. |
| Words.SplitsAgreeOnBordered | static/js/script.js:110 | On trimmed text the two splits agree, except that the empty text gives `[""]` in JavaScript and `[]` in Python. |
| Words.SplitRunsWordSpace | static/js/script.js:110 | A word character followed by one space splits off as a word of its own. |
| Words.SplitRunsRebuilds | static/js/script.js:110 | The pieces of `split(/\s+/)` with some non-empty whitespace runs put back between them rebuild the text. |
| Words.LayoutUnique | static/js/script.js:110 | A text can be written in only one way as whitespace-free pieces (only the first and last may be empty) separated by non-empty whitespace runs. |
| Words.SplitRunsIsTheCut | static/js/script.js:110 | Any such way of writing the text is exactly its `split(/\s+/)`. So the cuts fall at every maximal whitespace run and nowhere else. |
| Words.SplitIsTheCut | assessment.py:31 | If the text is whitespace, then non-empty whitespace-free words separated by non-empty whitespace runs, then whitespace, those words are exactly its `split()`. So the word count is the number of maximal whitespace-free runs. |
| Words.SqueezeEmpty | assessment.py:31 | Removing whitespace leaves nothing exactly when the text is all whitespace. |
| Auditor.IsIncomplete | assessment.py:18-34 | The draft is incomplete exactly when, after trimming, one of four holds: it does not end in `.`, `!` or `?`; its last line starts with one of the nine structural prefixes; it has an odd number of `\|`; it has more than 900 words. |
| Auditor.EndsWithTerminal | assessment.py:21 | The text ends with `.`, `!` or `?`, read as `endswith` on each of the three one-character suffixes. |
| Auditor.LastLine | assessment.py:24 | The last piece of `split("\n")` holds no line feed. It is a suffix of the text, and it is either the whole text or it follows a line feed. |
| Auditor.PipeCount | assessment.py:28 | The pipe count is at most the length, and it is zero exactly when the text holds no `\|`. |
| Auditor.WordCount | assessment.py:31 | The word count is at most the length, and it is zero exactly when the text is blank. |
| Auditor.StructuralIgnoresCase | assessment.py:24-25 | Lower-casing the last line never changes whether it starts with a structural prefix. |
| Auditor.VerdictIgnoresPadding | assessment.py:19 | Whitespace added around a draft never changes the verdict. |
| Auditor.BlankTailKeepsVerdict | assessment.py:19-34 | A line feed followed by blank text, appended to a draft, leaves its verdict as it was. |
| Auditor.BlankIsIncomplete | assessment.py:19-22 | Empty and whitespace-only drafts are incomplete. |
| Auditor.UnterminatedIsIncomplete | assessment.py:21-22 | A draft whose trimmed form lacks closing punctuation is incomplete. |
| Auditor.DanglingLineIsIncomplete | assessment.py:24-26 | A last line, after the final line feed, that opens with a structural prefix makes the draft incomplete. |
| Auditor.DanglingSingleLineIsIncomplete | assessment.py:24-26 | The same holds for a one-line draft. |
| Auditor.OddPipesIsIncomplete | assessment.py:28-29 | An odd number of pipes makes the draft incomplete. |
| Auditor.OverlongIsIncomplete | assessment.py:31-32 | More than 900 words makes the draft incomplete. |
| Auditor.CompleteWhenAllChecksPass | assessment.py:18-34 | A trimmed multi-line draft is complete when four things hold: its last line ends in punctuation, that line has no structural opening, the pipe count is even and there are at most 900 words. |
| Auditor.OneLineVerdict | assessment.py:18-34 | For a trimmed one-line draft, the verdict is the disjunction of the four signals read on the draft itself. |
| Auditor.LastLineOfOneLine | assessment.py:24 | The last line of text without a line feed is the whole text. |
| Auditor.LastLineAfterBreak | assessment.py:24 | The last line is what follows the final line feed. |
| Auditor.PlainOpening | assessment.py:25 | A line whose first character opens none of the prefixes has no structural opening. |
| Auditor.NoPipes | assessment.py:28 | Text without `\|` has a pipe count of zero. |
| AuditorCases.SentenceVerdict | assessment.py:18-34 | A short, plain, pipe-free one-line sentence is complete exactly when it ends in `.`, `!` or `?`. |
| AuditorCases.SinglePipeIsIncomplete | assessment.py:28-29 | A draft with a single pipe is incomplete however it ends. |
| AuditorCases.TwoPipesCanBeComplete | assessment.py:28-29 | Two pipes inside a clean one-line sentence leave it complete. |
| AuditorCases.EssayWordCount | assessment.py:31 | The essay of n single-letter words counts n words. |
| AuditorCases.EssayVerdict | assessment.py:31-34 | An n-word essay is complete exactly when n is at most 900. |
| AuditorCases.WordLimitBoundary | assessment.py:31-32 | The 900-word essay is complete and the 901-word essay is incomplete. |
| Byline.OptionalChar | assessment.py:57 | `.?` consumes one character exactly when the text starts with a character other than a line feed. |
| Byline.LeadingNewlines | assessment.py:57 | `\n+` taken greedily consumes only line feeds and stops at the first other character. |
| Byline.DotNewlines | assessment.py:57 | A match of `.?\n+` is at most one non-line-feed character, then at least one line feed. It sits at the front of the text and its run of line feeds is maximal. |
| Byline.DotNewlinesComplete | assessment.py:57 | One optional character followed by exactly n line feeds is matched as exactly that piece. |
| Byline.MatchAt | assessment.py:57 | A match at the front is a valid byline block, rendered, at the front of the text, and it is not followed by another line feed. |
| Byline.MatchAtSound | assessment.py:57 | The two matched pieces, laid out around "By " and "Published: ", are a prefix of the text with a maximal closing run. |
| Byline.MatchAtComplete | assessment.py:57 | A valid block, followed by text that does not continue its closing run, is matched as exactly that block. |
| Byline.Strip | assessment.py:57 | Removing every match, scanning from the left, never lengthens the text. |
| Byline.StripRemovesBlock | assessment.py:57 | A byline block at the front is removed, and the scan goes on right after it. |
| Byline.StripNoMatch | assessment.py:57 | Where no match starts, the first character is copied and the scan moves on by one. |
| Byline.StripCopiesPlainChar | assessment.py:57 | A character other than "B" is always copied. |
| Byline.MatchNeedsPublished | assessment.py:57 | Every match contains "Published: ". |
| Byline.StripWithoutPublished | assessment.py:57 | Text without "Published: " comes back unchanged. |
| Byline.StripWithoutB | assessment.py:57 | Text without a capital "B" comes back unchanged. |
| Byline.LongNameNoMatch | assessment.py:57 | No match starts at "By " followed by a name of two or more characters. |
| Byline.StripSkipThree | assessment.py:57 | Where no match starts and the next two characters are not "B", three characters are copied. |
| Byline.LongNameSurvives | assessment.py:57 | A byline with a name of two or more characters keeps its "By ". The scan then resumes on the rest. |
| Byline.StripNotIdempotent | assessment.py:57 | Removing a block can join its neighbours into a new match, so a second pass can change the result. The witness: one pass yields a rendered block, and a second pass yields the empty text. |
| Handler.DraftRequest | assessment.py:51-55 | The draft request carries the model name, one user message made of the instruction followed by the prompt, and a ceiling of 1500 tokens. |
| Handler.ContinuationRequest | assessment.py:60-67 | The continuation request carries the system message, then the continuation instruction followed by the cleaned draft, with a ceiling of 500 tokens. |
| Handler.RequestsDiffer | assessment.py:51-67 | A draft request is never the same as a continuation request. |
| Handler.AcceptedPrompt | assessment.py:47-48 | A prompt passes exactly when it is present and has at least 20 characters; the separate emptiness test adds nothing. |
| Handler.Generate | assessment.py:50-74 | The first request is always the draft request, and at most two are sent. A failed draft gives 500 with the error's text and nothing more. A second request is sent exactly when the cleaned draft is incomplete, and it carries that draft. A returned blog starts with the cleaned draft. |
| Handler.Post | assessment.py:47-74 | The status is 200, 400 or 500. It is 400 exactly when the prompt is missing or shorter than 20 characters, and then no request is sent and the fixed message is returned. Otherwise the draft request goes first. The status is 200 exactly when the body is a blog. |
| Handler.CompleteDraftReturned | assessment.py:56-59 | A draft judged complete is returned, cleaned, after a single request. |
| Handler.IncompleteDraftContinued | assessment.py:59-74 | An incomplete draft gets exactly one continuation. It is appended after a line feed, or its failure gives 500. |
| Handler.ContinuationNotReaudited | assessment.py:68-71 | The continued blog is not audited again: after a blank continuation it is still incomplete and still returned with status 200. |
| Handler.DraftFaultIsServerError | assessment.py:73-74 | A failing draft request answers 500 with the failure's text, and no continuation is sent. |
| Handler.CleanDraftLeads | assessment.py:57-71 | Any returned blog starts with the cleaned draft. |
| Handler.LeadingBylineDropped | assessment.py:57 | A draft that opens with a one-character byline block returns a blog that starts with the cleaned remainder. |
| SubmitGate.CeilDiv | static/js/script.js:32 | `Math.ceil(a / b)`: the least whole q with a <= q·b. |
| SubmitGate.Submit | static/js/script.js:19-36 | A value whose trimmed length is 0 or over 600 is refused and the message is shown, with the request time untouched. Otherwise, within 3000 ms of the last request, it waits the ceiling of the remaining time in seconds and the state is unchanged. Otherwise it sends the trimmed prompt, records the time and hides the message. |
| SubmitGate.FirstPressSends | static/js/script.js:14-36 | From the page's initial state, with a clock at or past 3000 ms, a valid prompt is sent at the first press, the time is recorded and the message is hidden. |
| SubmitGate.WaitIsAtMostThreeSeconds | static/js/script.js:30-35 | While the clock has not gone back, the wait asked for is 1, 2 or 3 seconds. |
| SubmitGate.SentPromptInRange | static/js/script.js:19-27 | A sent prompt is trimmed and 1 to 600 characters long. |
| SubmitGate.ShortSentPromptRefused | static/js/script.js:22 | A prompt of 1 to 19 characters gets past the page and is then refused by the server with 400, with no request to the model. |
| SubmitGate.Classify | static/js/script.js:177-190 | The counter shows warning exactly for the empty value, error exactly above 600 characters, and success exactly for 1 to 600. It counts the raw length. |
| SubmitGate.OnInput | static/js/script.js:192-200 | Typing hides the message exactly when the counter shows success, and otherwise leaves it as it was. The request time is untouched. |
| SubmitGate.BlankValueLooksFine | static/js/script.js:183-188 | A whitespace-only value of 1 to 600 characters is coloured success, yet submitting it is refused. |
| SubmitGate.PaddedPromptLooksTooLong | static/js/script.js:185-186 | A short prompt padded with whitespace past 600 characters is coloured error, yet it is sent once the cooldown has passed. |
| SubmitGate.Prepend | static/js/script.js:30-36 | A request at least 3000 ms before a spaced, in-range run keeps the run spaced and in range. |
| SubmitGate.Run | static/js/script.js:17-36 | Playing the events sends at most one prompt per event, and no events change nothing. |
| SubmitGate.RunKeepsCooldown | static/js/script.js:17-36 | Over any sequence of typing and presses, every sent prompt is trimmed and in range. Consecutive requests are at least 3000 ms apart, the first at least 3000 ms after the starting time, and the final state records the last one. |
| SubmitGate.RequestsSpacedOut | static/js/script.js:30-36 | Any two sent requests i ≤ j are at least 3000·(j − i) ms apart, whatever the clock does. |
| SubmitGate.DisplayedWordCount | static/js/script.js:110 | The displayed count is at least 1. |
| SubmitGate.DisplayedMatchesServerCount | static/js/script.js:110 | The page's count equals the server's word count, except for a blank blog, which shows 1 where the server counts 0. |
| SubmitGate.DisplayedOverLimit | static/js/script.js:110 | The page shows more than 900 words exactly when the auditor's length signal fires. |

## Left out

- Flask plumbing is not modelled: routing, `request.is_json`, reading the form, `jsonify`, and the GET branch rendering `index.html`.
- A `prompt` value that is not a string is left out: JSON numbers, booleans, arrays and objects. Some of these fail `not prompt`, some make `len` raise, and an array or object with 20 or more entries reaches the model call. A missing field and JSON `null` are modelled, both as refused prompts.
- The OpenAI client, the network and the API key are left out. The service is the parameter `ask`. A reply whose `content` is `None` makes `re.sub` or the concatenation raise; it is modelled as a `Fault` reply with that error's text.
- Python's `str(e)` is taken to be the `Fault` description as given. The wording of exception messages is not modelled.
- Whitespace is the six ASCII characters space, tab, line feed, vertical tab, form feed and carriage return. Beyond these six, the two languages' whitespace sets differ. Python's `strip`/`split` also take the ASCII separators U+001C to U+001F, which JavaScript's `trim`/`\s` do not. JavaScript also takes U+FEFF, which Python does not. Both take further Unicode spaces. None of this is modelled.
- Text.Lower is ASCII only. Unicode case mapping is left out. The prefixes it matters for contain no letters, which `Auditor.StructuralIgnoresCase` proves.
- Lengths are counted in characters (code points). JavaScript's `length` counts UTF-16 code units, so it differs on characters outside the Basic Multilingual Plane.
- The DOM is not modelled: styles, border colours, the spinner, the status chip, toasts and their timers, the counter's text, the `fetch` call with its 60-second abort, markdown rendering, copy and download.
- `setLoading(true)` disables the button while a request is in flight (static/js/script.js:39, 91-92). `SubmitGate.Run` does not model this, so it also lets a press send during that time. The proved properties are safety properties, and they hold for this larger set of runs too.
- `Date.now()` is a parameter: an integer count of milliseconds.
- Byline.Strip does not model Python's regular-expression engine in general, only this one pattern. Its deterministic reading is justified by `MatchAtSound` and `MatchAtComplete`.
