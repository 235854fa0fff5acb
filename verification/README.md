# Study-assistant client: session state and quiz-response interpretation

This project models the two pieces of logic in the web client of a study assistant.

The assistant works like this:
- a student uploads a photo of notes;
- the server extracts the text and asks an AI model to summarise it, explain it, write a quiz or write study notes;
- the client shows the answer and offers the other three kinds of analysis on the same text.

The model covers two modules.

**`App`** (client/src/App.js) is the session. It has four state variables: `results`, `loading`, `error` and `extractedText`. They are changed by three operations:
- the image handler;
- the reprocess handler;
- reset.

The `Session` class holds these four variables as fields. Each asynchronous handler is split at its `await` into two methods:
- a `Begin…` method, which does the setter calls before the request and returns the request that would be sent;
- a `Complete…` method, which takes the request's outcome as a parameter. The outcome is either an answer with an ok flag and a JSON payload, or a thrown message.

`SelectView` is a pure function that decides what the page shows from `results`, `loading` and `error`; the extracted text plays no part in that choice.

**`ResultsDisplay`** (client/src/components/ResultsDisplay.js) turns an AI answer of kind "quiz" into quiz blocks, or into plain lines when that fails. The steps are:
1. Trim the answer.
2. Delete every "```json" and "```".
3. Trim again.
4. Take the greedy span from the first `{` to the last `}`.
5. Parse it as JSON.
6. Emit one block per question, with lettered options and the correct one marked.
7. On any failure, split the original answer on newlines.

This module also holds the lookups from analysis kind to icon, title and colour, and the "try different analysis" list.

Three support modules are used:
- `JsText` defines the JavaScript string operations the code calls: `trim` with the ECMAScript whitespace and line-terminator set, and `split`. It also holds helpers the code does not call: the first and last position of a character, used to express the greedy brace match of `/{[\s\S]*}/`, and `Join`, the inverse of `Split`, used to state the fallback's round trip.
- `Json` defines the values `JSON.parse` can produce, with JavaScript truthiness.
- `Wrappers` defines `Option`.

`JSON.parse` is a parameter, `parse: string -> Option<Json>`, where `None` stands for a parse error.

Behaviours of the code that a reader might not expect, all modelled as the code does them:
- The fence markers are removed anywhere in the text, not only at its ends.
- The fallback keeps empty lines as empty paragraphs.
- A `questions` value that is an empty array is truthy. It gives zero question blocks, not the fallback.
- The error card appears when `error` is a non-empty string, because the JSX tests `error &&`. An empty thrown message shows no card.
- The handlers have no guard against overlapping requests. They do not identify which request is completing, do not check that the answer's `requestType` matches the one asked for, and raise no error on an out-of-order event.
- The model proves instead (`NoControlsWhileLoading`) that, in every session state the operations produce (they all establish the `Valid` invariant: no error while loading), nothing able to start a request or reset the session is on the page while a request is in flight.
- A successful image answer without `extractedText` stores `undefined` (`None` in the model). After that, reprocessing silently does nothing.

## Model

| member | source | states |
|---|---|---|
| JsText.TrimStart | client/src/components/ResultsDisplay.js:44 | the result is a suffix of the input, what was dropped is all whitespace, and the result does not start with whitespace |
| JsText.TrimEnd | client/src/components/ResultsDisplay.js:44 | the result is a prefix of the input, what was dropped is all whitespace, and the result does not end with whitespace |
| JsText.TrimSpec | client/src/components/ResultsDisplay.js:44 | `trim` removes only leading and trailing whitespace, and its result is a substring of the input that neither starts nor ends with whitespace |
| JsText.TrimOfPadded | client/src/components/ResultsDisplay.js:44-45 | trimming a whitespace-padded trimmed text gives exactly that text |
| JsText.TrimIsTrimmed | client/src/components/ResultsDisplay.js:44-45 | the result of `trim` has no leading or trailing whitespace |
| JsText.TrimIdempotent | client/src/components/ResultsDisplay.js:44-45 | trimming twice equals trimming once, and `trim` leaves a string unchanged exactly when it has no surrounding whitespace |
| JsText.TrimOfTrimmed | client/src/components/ResultsDisplay.js:44-45 | a string with no surrounding whitespace is a fixed point of `trim` |
| JsText.TrimDropsOnly | client/src/components/ResultsDisplay.js:44-45 | `trim` introduces no character that was not in its input |
| JsText.TrimAround | client/src/components/ResultsDisplay.js:44-45 | when the middle part is non-empty and has no surrounding whitespace, trimming a three-part text trims only the outer parts |
| JsText.IndexOf | client/src/components/ResultsDisplay.js:48 | helper for the greedy match: returns the first position of the character, or None exactly when it does not occur |
| JsText.LastIndexOf | client/src/components/ResultsDisplay.js:48 | helper for the greedy match: returns the last position of the character, or None exactly when it does not occur |
| JsText.IndexOfFirst | client/src/components/ResultsDisplay.js:48 | when the character occurs at position k, the first occurrence exists and is at or before k |
| JsText.LastIndexOfLast | client/src/components/ResultsDisplay.js:48 | when the character occurs at position k, the last occurrence exists and is at or after k |
| JsText.IndexOfAfterPrefix | client/src/components/ResultsDisplay.js:48 | after a prefix without the character, its first occurrence is right behind the prefix |
| JsText.LastIndexOfBeforeSuffix | client/src/components/ResultsDisplay.js:48 | before a suffix without the character, its last occurrence is right in front of the suffix |
| JsText.Split | client/src/components/ResultsDisplay.js:81 | `split` always yields at least one piece |
| JsText.JoinSplit | client/src/components/ResultsDisplay.js:81 | joining the pieces of `split` with the separator gives back the original string, so no character is lost |
| JsText.SplitPieces | client/src/components/ResultsDisplay.js:81 | the number of pieces is the number of separators plus one (empty pieces included), and no piece contains the separator |
| JsText.SplitWithoutSeparator | client/src/components/ResultsDisplay.js:81 | a string without the separator splits into itself alone |
| ResultsDisplay.StripFences | client/src/components/ResultsDisplay.js:45 | removing the fence markers never lengthens the text |
| ResultsDisplay.StripFencesNoFence | client/src/components/ResultsDisplay.js:45 | after the global replace, no "```" is left in the text |
| ResultsDisplay.StripFencesPlain | client/src/components/ResultsDisplay.js:45 | text before the first backtick passes through the replace unchanged |
| ResultsDisplay.CleanUnfenced | client/src/components/ResultsDisplay.js:44-45 | an answer without backticks is only trimmed, so the fence is optional |
| ResultsDisplay.StripFenced | client/src/components/ResultsDisplay.js:45 | the replace turns a "```json" fenced block into its body between two newlines |
| ResultsDisplay.TrimFenced | client/src/components/ResultsDisplay.js:44 | the first trim leaves a fenced block without surrounding whitespace unchanged |
| ResultsDisplay.TrimNewlines | client/src/components/ResultsDisplay.js:45 | the second trim removes the newlines the fences leave behind |
| ResultsDisplay.CleanFenced | client/src/components/ResultsDisplay.js:44-45 | a trimmed body without backticks is recovered exactly from its fenced form, and also from its unfenced form |
| ResultsDisplay.SpanHasBracePair | client/src/components/ResultsDisplay.js:48 | a span from a `{` to a later `}` is a brace pair for the match |
| ResultsDisplay.JsonCandidateFromPair | client/src/components/ResultsDisplay.js:48-49 | when some `{` precedes some `}`, the candidate runs from the first `{` to the last `}` |
| ResultsDisplay.JsonCandidateSpec | client/src/components/ResultsDisplay.js:48-49 | when a `{` precedes a `}`, the candidate is the slice from the first `{` through the last `}`, so it starts with `{` and ends with `}`; otherwise it is the whole cleaned text |
| ResultsDisplay.JsonCandidateSurrounded | client/src/components/ResultsDisplay.js:48-49 | text around an object that has no braces is discarded, and the object is the candidate |
| ResultsDisplay.FencedObjectCandidate | client/src/components/ResultsDisplay.js:44-49 | a trimmed object without backticks is the candidate whether or not the answer fences it as JSON |
| ResultsDisplay.PreambleCandidate | client/src/components/ResultsDisplay.js:44-49 | prose before and after an object (without braces or backticks) does not stop the object being the candidate |
| ResultsDisplay.FormatOptions | client/src/components/ResultsDisplay.js:60-70 | there is one entry per option, in order: entry j shows option j |
| ResultsDisplay.QuizFallback | client/src/components/ResultsDisplay.js:40-85 | the answer falls back to plain lines exactly when parsing fails or building question blocks fails. The lines then re-join to the untrimmed answer, there are as many as newlines plus one, and none holds a newline |
| ResultsDisplay.SingleLineFallback | client/src/components/ResultsDisplay.js:76-85 | a failed answer without newlines is one paragraph holding the whole answer |
| ResultsDisplay.QuizQuestions | client/src/components/ResultsDisplay.js:53-68 | with a `questions` array whose entries all have option arrays, there is one block per question in order, numbered i+1, holding its question and its options in order |
| ResultsDisplay.QuizUnrenderable | client/src/components/ResultsDisplay.js:53-60 | one question that is not an object with an `options` array makes the whole answer fall back to lines |
| ResultsDisplay.QuizBlocks | client/src/components/ResultsDisplay.js:53-54 | question blocks are built only from an object whose `questions` is truthy and an array, one block per entry |
| ResultsDisplay.QuizNoQuestions | client/src/components/ResultsDisplay.js:53-54 | a parsed value that is not an object, or whose `questions` is missing, falsy or a truthy non-array, gives the line fallback |
| ResultsDisplay.MarkedOption | client/src/components/ResultsDisplay.js:64-69 | an option is marked exactly when `correct` is the number equal to its index, so at most one option is marked. An out-of-range, non-integer or non-number `correct` marks none |
| ResultsDisplay.OptionLabels | client/src/components/ResultsDisplay.js:68 | the option with index j is labelled with code unit 65+j ('A', 'B', ..., '[' for the 27th) whenever that fits in 16 bits, and every label is a 16-bit code unit as `String.fromCharCode` makes it |
| ResultsDisplay.RenderBody | client/src/components/ResultsDisplay.js:165-171 | only kind "quiz" goes through the quiz formatter; every other kind shows the AI answer unchanged as Markdown |
| ResultsDisplay.LookupTable | client/src/components/ResultsDisplay.js:88-131 | for each of the four kinds, in order, the title, icon and colour agree with one reference table: Summary/FileText/blue, Explanation/BookOpen/green, Quiz Questions/HelpCircle/purple, Study Notes/Sparkles/orange |
| ResultsDisplay.LookupDefaults | client/src/components/ResultsDisplay.js:88-131 | the title is "Results" exactly for an unknown kind; icon FileText and colour text-blue-600 exactly for "summarize" or an unknown kind; known kinds have distinct titles |
| ResultsDisplay.WithoutUniqueKind | client/src/components/ResultsDisplay.js:230 | filtering out a kind that occurs once removes exactly that entry and keeps the rest in order |
| ResultsDisplay.DropKnownKind | client/src/components/ResultsDisplay.js:224-230 | for the i-th of the four kinds, the offered list is the fixed list without its i-th entry |
| ResultsDisplay.ReprocessOptionsSpec | client/src/components/ResultsDisplay.js:224-230 | for a known kind, the offered options are the fixed list in order minus that kind's entry (three options); for any other kind, all four |
| ResultsDisplay.ReprocessIconsAgree | client/src/components/ResultsDisplay.js:88-101 | each offered option's icon is the icon the header uses for its kind |
| App.RejectionMessage | client/src/App.js:31-33 | a non-ok answer gives a non-empty error message: the server's own when it is truthy, the fixed fallback otherwise |
| App.SelectView | client/src/App.js:133-183 | the error card shows exactly when `error` is truthy, the spinner exactly while loading. When not loading, exactly one of the results panel (results present) and the uploader (no results) shows; while loading, neither does |
| App.NoControlsWhileLoading | client/src/App.js:133-183 | in a session satisfying the invariant every operation establishes, while a request is in flight only the spinner shows: no uploader, results panel or "Try Again" card from which another request or a reset could start |
| App.Session.constructor | client/src/App.js:9-12 | no results, not loading, no error, extracted text "" |
| App.Session.BeginImage | client/src/App.js:14-21 | sets loading, clears error and results, leaves the extracted text unchanged, and sends the image with the kind |
| App.Session.CompleteImage | client/src/App.js:23-42 | on success, stores the answer and overwrites the extracted text with the answer's (even when absent). On failure, records the server's error or "Failed to process image" and keeps results and extracted text. Loading ends either way |
| App.Session.BeginReprocess | client/src/App.js:45-61 | with no extracted text, changes nothing and sends nothing. Otherwise it sets loading, clears error, keeps results and extracted text, and sends the extracted text with the new kind |
| App.Session.CompleteReprocess | client/src/App.js:63-75 | on success, replaces results. On failure, records the server's error or "Failed to process text" and keeps the previous results. It never writes the extracted text, and loading ends either way |
| App.Session.Reset | client/src/App.js:78-82 | clears results and error, sets the extracted text to "", and leaves loading as it is |
| App.ImageThenReprocess | client/src/App.js:14-76 | after an image answer and a reprocess, the reprocess sent the image's extracted text and left it in place. A failed reprocess keeps the first result with the error next to it |
| App.FailedImage | client/src/App.js:14-43 | after a failed first image request, the uploader is back without a results panel or spinner, the error card shows the error message whenever that message is non-empty, and the extracted text is still "" |

## Left out

- Network I/O (`fetch`, `FormData`, the API base URL from the environment, `response.json()`): a request's end is an `Outcome` parameter.
- A response body that is not a JSON object is not modelled. A `null` body makes reading `data.error` throw at client/src/App.js:32 and :66. A number, string or array body has no `error` and gives the fixed fallback message, the same as a `Payload` without `error`. A non-string `data.error` is not modelled either.
- The answer text `aiResponse` is always a string in the `Payload` datatype. If the server omits it, `response.trim()` throws inside the try, and then `response.split('\n')` at client/src/components/ResultsDisplay.js:81 throws outside it, so a quiz result crashes the component instead of falling back. The model does not capture that crash.
- `JSON.parse` is a parameter of the formatter. The JSON grammar and the parser are not modelled.
- The regular-expression engine is not modelled. Only the two expressions used, the fence replace and the greedy brace match, are written as string functions.
- Strings are sequences of Unicode scalar values, not UTF-16 code units. Characters outside the Basic Multilingual Plane and lone surrogates are not modelled, and the option label is kept as a code-unit number.
- React rendering is not modelled: the JSX markup, CSS classes, `ReactMarkdown`, and the render-time error React raises for a question or option that is itself an object.
- Clipboard copy and its timer, the file download, and the timestamp formatting are not modelled.
- The show/hide toggle for the extracted text, the "copied" flag and the extracted-text panel are not modelled.
- The hero section behind `&& false` in client/src/App.js is dead code.
- Header, LoadingSpinner and the image uploader's drop zone, preview and kind selector are not modelled. The uploader's check that a file was chosen is reflected in the image always being present in `BeginImage`.
- Async interleaving and React's batching of state updates: each handler is a begin event followed by a complete event, taken one at a time.
- The analysis kind is a string. A missing `requestType` behaves as any unknown kind.
- The `console.error` logging in the catch blocks is not modelled.
- App.Session.BeginReprocess: preserves `Valid()` only from a valid state rather than establishing it. In the early-return case it changes nothing, so it cannot repair a state the other operations never produce.
