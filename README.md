# NeonVibe streaming core, modelled in Dafny

NeonVibe is a browser app. A user chats with a language model that writes a
multi-file web project wrapped in `<file name="…">…</file>` blocks, and watches
a live preview of that project while the answer streams in. This project
models the streaming core of the app and proves properties of that model.

- **Provider adapter** (`ProviderStream`, `EventStream`). `streamAppGeneration`
  picks the back end. `streamGemini` yields the non-empty chunk texts.
  `streamOpenRouter` buffers the body, splits it on line feeds, treats
  `data: ` lines as frames, stops at `[DONE]` and yields the decoded
  `delta.content`. Both fail at once without an API key.
- **File extractor** (`FileExtractor`). `parseProjectFiles` finds every
  complete block with the global expression, then makes one pass of the
  non-global expression for an unterminated block. Both expressions are
  written out as explicit scanners.
- **Preview bundler** (`PreviewBundler`). `bundleFilesForPreview` inlines
  local stylesheets, then local scripts, into `index.html`. The two
  expressions are modelled with the backtracking of the greedy `[^>]+`.
- **Generation turn** (`GenerationTurn`, `App`). `handleStreamRequest` and
  `handleCancelGeneration` process the fragments of one turn:
  - the response accumulates;
  - files are re-extracted, merged and bundled;
  - cancel requests are honoured between fragments;
  - the cancellation or error note is added.
- **Session history and theme** (`SessionHistory`, `App`).
  - `saveCurrentSession` upserts the current session by id, with its title.
  - `handleDeleteSession` filters the list by id.
  - `toggleTheme` cycles through the four themes.
- **Image edit** (`ImageEdit`). `editImageWithGemini` strips a data-URL
  prefix from the upload and picks the first inline image of the reply. A
  `generateContent` call that throws is the reply `RequestFailed`, and its
  error is rethrown unchanged.

The network, the JSON decoder and the clock are parameters:
- Gemini's chunk texts are a sequence of optional strings.
- OpenRouter's reply is its status, its error text and its decoded body chunks.
- A transport failure is an optional message.
- The JSON decoder of a frame payload is a function argument.
- `Date.now()` is an integer argument.

A turn sees the provider's fragments, with the user's cancel requests
interleaved between them, and then the stream's ending (exhausted, or an
error with a message).

`App.Session` is a class whose fields are the App component's state. Its
methods update those fields in place. Each method is proved against the pure
functions of `SessionHistory` and `GenerationTurn`, and the properties of
those functions are proved as lemmas.

Where the design description and the code disagree, the model follows the code:
- **Partial block.** The design says the unterminated block that trails the
  text is extracted. The code's non-global expression matches the
  **leftmost** well-formed open marker, so once one block is complete, a
  trailing partial block is not extracted at all (`TrailingPartialDropped`).
- **Preview files.** The design says the preview is the bundle of the merged
  file map. The code bundles the files of the latest extraction over the
  files the turn *started* with, not over the merged map. The two agree
  anyway: a longer response never loses an extracted name
  (`FileExtractor.ExtractKeysGrow`), so once anything is extracted the merged map is the
  starting files plus the latest extraction (`GenerationTurn.TurnFiles`).
- **Single flight.** The design says a second turn start is rejected while
  streaming. `handleStreamRequest` itself does not check. The guard sits in
  the chat input, so it is the precondition of `App.Session.SendMessage`.
- **Cancel, then error.** If the stream fails after a cancel request but
  before another fragment arrives, the code adds the error note and no
  cancellation note (`GenerationTurn.CancelNoteIff`).

## Model

| member | source | states |
|---|---|---|
| Text.ContainsIff | App.tsx:277 | `includes` holds exactly when the pattern occurs at some index |
| Text.TrimEmpty | App.tsx:349 | `trim()` gives the empty string exactly for text made only of ECMAScript white space and line terminators |
| Text.TrimMargins | services/geminiService.ts:153 | `trim()` keeps one slice of the line, drops only white space before and after it, and keeps no white space at either end |
| Text.TrimUnique | services/geminiService.ts:153 | any slice with only white space around it and none at its ends is exactly what `trim()` keeps |
| Text.SplitLinesJoin | services/geminiService.ts:149 | the pieces of `split("\n")` joined with line feeds give the text back |
| Text.JoinLinesSplit | services/geminiService.ts:149 | splitting pieces without line feeds after joining them gives the pieces back |
| Text.FindFromFirst | App.tsx:194 | the occurrence found is the first one at or after the start position |
| Text.FindFromNone | App.tsx:194 | finding nothing means the pattern occurs nowhere after the start position |
| FileExtractor.OpenAt | App.tsx:194 | a name is reported only where `<file name="`, a quote-free non-empty name and `">` stand |
| FileExtractor.OpenAtComplete | App.tsx:194 | every well-formed open marker is recognised, with its one possible name |
| FileExtractor.BlockAtSpec | App.tsx:194 | a block is an open marker, its content, and the first `</file>` after the marker, where the scan resumes |
| FileExtractor.NextBlock | App.tsx:195 | one `exec` returns a block that starts at or after the scan position |
| FileExtractor.NextBlockSound | App.tsx:195 | what `exec` returns is the complete block at the position it reports |
| FileExtractor.NextBlockLeftmost | App.tsx:195 | no complete block starts between the scan position and the one `exec` finds |
| FileExtractor.NextBlockNone | App.tsx:195 | `exec` returns null only when no complete block starts at or after the scan position |
| FileExtractor.NextBlockFinds | App.tsx:195 | any complete block at or after the scan position means `exec` finds one, no later than it |
| FileExtractor.BlocksStep | App.tsx:195-199 | the global scan is the block found, then the scan resumed after it |
| FileExtractor.StoreKeys | App.tsx:196-198 | after the assignments, the keys are the old keys plus every block name |
| FileExtractor.StoreLast | App.tsx:196-198 | a name maps to the content of the last block with that name |
| FileExtractor.StoreUntouched | App.tsx:196-198 | a key no block names keeps its value |
| FileExtractor.CollectBlocks | App.tsx:192-199 | the loop's dictionary is the list of scanned blocks stored in order |
| FileExtractor.CollectComplete | App.tsx:192-199 | the `while ((match = exec(...)) !== null)` loop computes the complete-block dictionary |
| FileExtractor.FirstMarker | App.tsx:201-202 | the non-global match reports a well-formed open marker at or after the start |
| FileExtractor.FirstMarkerLeftmost | App.tsx:201-202 | the non-global expression matches the leftmost well-formed open marker |
| FileExtractor.FirstMarkerNone | App.tsx:201-202 | the non-global expression fails only when no well-formed open marker exists |
| FileExtractor.ExtractKeepsComplete | App.tsx:203-207 | when the partial match names a file already holding non-empty content, the result is the complete-block dictionary |
| FileExtractor.ParseProjectFiles | App.tsx:190-210 | `parseProjectFiles` returns the extraction of its input |
| FileExtractor.ExtractEmptyIff | App.tsx:190-210 | the result is empty exactly when the text holds no well-formed open marker |
| FileExtractor.MarkerPersists | App.tsx:201-202 | once the text holds an open marker, every extension of it does, so extraction never becomes empty again |
| FileExtractor.MarkerBefore | App.tsx:194 | an open marker before a well-formed one that appended text makes well-formed was already well-formed, and ends before the later marker's content |
| FileExtractor.BlockAtExtend | App.tsx:194 | a complete block stays the same block, with the same content, when text is appended |
| FileExtractor.BlockBefore | App.tsx:194 | appended text completes no block that starts before a complete block |
| FileExtractor.NextBlockExtend | App.tsx:195 | the block one `exec` finds is still the one it finds after text is appended |
| FileExtractor.BlocksPrefix | App.tsx:195-199 | the complete blocks of a text come first among the complete blocks of any longer text |
| FileExtractor.CompleteKeysGrow | App.tsx:192-199 | every name of the complete-block pass is still a name once text is appended |
| FileExtractor.FirstMarkerExtend | App.tsx:201-202 | appended text keeps the leftmost well-formed open marker at its place, with its name |
| FileExtractor.ExtractKeysGrow | App.tsx:190-210 | every file name extracted from a text is extracted from any longer text |
| FileExtractor.OnlyPartial | App.tsx:201-207 | before any `</file>`, the result is the single file of the leftmost marker, holding all text after it |
| FileExtractor.ExtractRendered | App.tsx:190-210 | extracting rendered well-formed non-empty blocks gives their dictionary, a later block of a name winning |
| FileExtractor.TrailingPartialDropped | App.tsx:201-207 | after complete blocks, a trailing unterminated block is not extracted |
| PreviewBundler.AttrAtSound | App.tsx:216 | what the attribute matcher finds has the expression's shape: quote, path ending in the extension, quote, no `>` before the tail |
| PreviewBundler.AttrAtComplete | App.tsx:216 | text of that shape is matched, with that path and length |
| PreviewBundler.SearchAttrHit | App.tsx:216 | the backtracking search reports a position where the rest of the expression matches |
| PreviewBundler.SearchAttrFinds | App.tsx:216 | a working attribute position means the search succeeds at it or a later one |
| PreviewBundler.SearchAttrLast | App.tsx:216 | greedy `[^>]+` takes the last attribute position that works |
| PreviewBundler.SearchAttrNone | App.tsx:216 | the search fails only when no attribute position works |
| PreviewBundler.TagPrefixSound | App.tsx:225 | a match of either expression has the tag-and-attribute shape |
| PreviewBundler.TagPrefixComplete | App.tsx:225 | text of that shape is matched |
| PreviewBundler.TagPrefixRef | App.tsx:216 | a captured path ends in `.css` (links) or `.js` (scripts) |
| PreviewBundler.BundleOf | App.tsx:212-235 | with a non-empty `index.html` the bundle is the link pass, then the script pass |
| PreviewBundler.BundleEmptyIff | App.tsx:213-214 | the preview is empty exactly when `index.html` is missing or empty |
| PreviewBundler.ReplaceUnchanged | App.tsx:217-223 | a text in which no match has a non-empty file comes through unchanged |
| PreviewBundler.NothingToInline | App.tsx:218-222 | with no non-empty file of the extension, no match is inlined |
| PreviewBundler.WrittenTagPrefix | App.tsx:216 | the expression matches a tag written the usual way, capturing its path |
| PreviewBundler.TagPrefixOfTag | App.tsx:225 | the same for a tag built from attributes and a path |
| PreviewBundler.ReplaceTag | App.tsx:217-232 | a usual tag becomes the file's content between the element's tags when the file is non-empty, and is kept otherwise |
| PreviewBundler.BundleWithoutAssets | App.tsx:212-235 | a project without stylesheets or scripts previews `index.html` verbatim |
| PreviewBundler.StyleHasNoScript | App.tsx:221 | the `style` element the link pass writes gives the script pass nothing to match |
| PreviewBundler.LinkPass | App.tsx:216-223 | the link pass replaces a stylesheet link by a `style` element holding the file |
| PreviewBundler.ScriptPassStyle | App.tsx:225-232 | the script pass leaves that result as it is |
| PreviewBundler.BundleStylesheet | App.tsx:212-235 | a page with one stylesheet link is previewed with the stylesheet inlined in its place |
| SessionHistory.Title | App.tsx:103-105 | the title is `Untitled Project` without messages, the first message up to 30 characters, or its first 30 characters and `...` |
| SessionHistory.TitleBound | App.tsx:103-105 | a title is at most 33 characters and starts with the first message's first characters |
| SessionHistory.Record | App.tsx:107-114 | the saved record carries the id, title, messages, files, preview and time |
| SessionHistory.IndexOfId | App.tsx:102 | `findIndex` returns -1 or an index holding the id |
| SessionHistory.IndexOfIdFirst | App.tsx:102 | no earlier record has the id |
| SessionHistory.IndexOfIdIff | App.tsx:102 | the index is found exactly when the id is in the list |
| SessionHistory.UpsertLength | App.tsx:117-122 | saving grows the list by one for a new id and keeps its length for a known id |
| SessionHistory.UpsertIds | App.tsx:117-122 | after saving, the ids are the old ids plus the current one |
| SessionHistory.UpsertUnique | App.tsx:117-122 | saving keeps the ids distinct |
| SessionHistory.UpsertLookup | App.tsx:117-122 | after saving, the current id finds the new record |
| SessionHistory.UpsertOthers | App.tsx:117-122 | saving leaves the records of every other id as they were, in order |
| SessionHistory.UpsertIdempotent | App.tsx:117-122 | saving the same record twice is saving it once |
| SessionHistory.DeleteMembers | App.tsx:131 | a record remains exactly when it was there and has another id |
| SessionHistory.DeleteIds | App.tsx:131 | deleting removes the id from the ids and nothing else |
| SessionHistory.DeleteAbsent | App.tsx:131 | deleting an unknown id changes nothing |
| SessionHistory.DeleteUpdate | App.tsx:131 | deleting an id hides any replacement of its record |
| SessionHistory.DeleteUnique | App.tsx:131 | deleting keeps the ids distinct |
| SessionHistory.NextTheme | App.tsx:167 | the next index is a theme index, one more unless it wraps |
| SessionHistory.ThemeCycle | App.tsx:15-20 | toggling visits all four themes and returns after exactly four steps |
| EventStream.Payload | services/geminiService.ts:153-155 | a frame's payload is shorter than its line |
| EventStream.PayloadIff | services/geminiService.ts:153-155 | a line carries payload `p` exactly when its trimmed text is `data: ` then `p` |
| EventStream.BlankIsNoFrame | services/geminiService.ts:153-154 | a line of white space is never a frame |
| EventStream.LineEffect | services/geminiService.ts:153-165 | a line yields only non-empty text, and stops exactly on the `[DONE]` payload |
| EventStream.LinesOutputAppend | services/geminiService.ts:152-167 | two lists of lines in a row: the second counts only when the first did not stop |
| EventStream.LinesOutputNonEmpty | services/geminiService.ts:160-161 | no empty fragment is ever yielded |
| EventStream.LinesOutputSource | services/geminiService.ts:152-167 | at most one fragment per line, and stopping means some line was `[DONE]` |
| EventStream.Pieces | services/geminiService.ts:149-150 | the split is the complete lines and the left-over buffer, none holding a line feed |
| EventStream.CompleteLinesOf | services/geminiService.ts:148-150 | lines already joined stay complete lines whatever text follows |
| EventStream.StoppedPrefix | services/geminiService.ts:156 | after `[DONE]` the remaining lines do not matter |
| EventStream.StopSettles | services/geminiService.ts:156 | `[DONE]` in the lines handled so far settles what the whole stream yields |
| EventStream.EndSettles | services/geminiService.ts:143-150 | at the end of the body the handled lines are all complete lines and the buffer is the rest |
| EventStream.HandleLines | services/geminiService.ts:152-167 | the inner loop yields the fragments of its lines and reports `[DONE]` |
| EventStream.ReadStream | services/geminiService.ts:139-168 | the read loop yields what the complete lines of the whole body yield, and keeps the trailing partial line as its buffer |
| ProviderStream.ModelName | services/geminiService.ts:84 | the configured model, or the back end's default when it is empty |
| ProviderStream.WireHistory | services/geminiService.ts:112-115 | the mapped history has one message per chat message |
| ProviderStream.RequestMessages | services/geminiService.ts:110-116 | the request starts with the system prompt, then one message per chat message |
| ProviderStream.WireHistoryAt | services/geminiService.ts:112-115 | each message keeps its content, `model` becoming `assistant` and anything else `user` |
| ProviderStream.RequestSystemOnce | services/geminiService.ts:110-116 | only the first request message has the system role |
| ProviderStream.GeminiContentsAt | services/geminiService.ts:78-81 | each Gemini content keeps the role and has the message text as its one part |
| ProviderStream.GeminiFragments | services/geminiService.ts:91-96 | the Gemini loop yields exactly the present, non-empty chunk texts in order |
| ProviderStream.PresentTextsMembers | services/geminiService.ts:91-96 | a text is yielded exactly when some chunk carries it and it is non-empty |
| ProviderStream.KeyMessagesMention | services/geminiService.ts:71-73 | both missing-key messages contain `API Key` |
| ProviderStream.MissingKey | services/geminiService.ts:60-108 | without a key either back end yields nothing and throws a message containing `API Key` |
| ProviderStream.OpenRouterFailsEarly | services/geminiService.ts:132-137 | a failed request or a missing body throws before any fragment, with the matching message |
| ProviderStream.FragmentsNonEmpty | services/geminiService.ts:60-66 | neither back end yields an empty fragment |
| ProviderStream.DoneHidesFailure | services/geminiService.ts:156 | after `[DONE]` the stream ends quietly; a later transport failure is never seen |
| ImageEdit.StripWithChanges | services/geminiService.ts:21 | the image changes exactly when it starts with a recognised prefix, and never grows |
| ImageEdit.StripUnchanged | services/geminiService.ts:21 | data without a `data:image/png|jpeg|jpg|webp;base64,` prefix is sent as it is |
| ImageEdit.StripRoundTrip | services/geminiService.ts:21 | prefixing data with a recognised data URL and stripping gives the data back |
| ImageEdit.FirstImage | services/geminiService.ts:41-44 | the chosen image data is non-empty |
| ImageEdit.FirstImageFinds | services/geminiService.ts:41-44 | the first part with data is the one chosen |
| ImageEdit.FirstImageNone | services/geminiService.ts:41-46 | no image is chosen exactly when no part carries data |
| ImageEdit.ReplyOutcome | services/geminiService.ts:23-52 | an edited image is a PNG data URL around the data; a request that throws fails with its own error, and any other failure is the no-image error |
| ImageEdit.ImageKeyMentions | services/geminiService.ts:14-16 | the image missing-key message contains `API Key` |
| ImageEdit.EditImageParts | services/geminiService.ts:40-48 | with a key, the result is the data URL of the first part with data, or the no-image error |
| GenerationTurn.ErrorText | App.tsx:276-282 | the shown error text is never empty |
| GenerationTurn.ErrorTextMissingKey | App.tsx:277-279 | the missing-key text is shown exactly for errors mentioning `API Key` |
| GenerationTurn.ConsumeNoLate | App.tsx:247-248 | with no fragment after a cancel request, every fragment is consumed |
| GenerationTurn.ConsumeLate | App.tsx:248 | the first fragment after a cancel request ends the loop: earlier fragments are consumed, it and later ones are not |
| GenerationTurn.BrokeStays | App.tsx:248 | once the loop has broken, later events change nothing |
| GenerationTurn.StepGrows | App.tsx:250-260 | a fragment is appended to the response and no file is dropped |
| GenerationTurn.FoldAcc | App.tsx:250 | the response is the concatenation of the consumed fragments |
| GenerationTurn.FoldKeeps | App.tsx:260 | no file is dropped from the map during a turn |
| GenerationTurn.StepLatest | App.tsx:258-263 | a fragment keeps the map at the starting files merged with the latest extraction, and the preview bundles the same |
| GenerationTurn.FoldLatest | App.tsx:258-263 | once anything is extracted, the map is the starting files merged with the latest extraction, and the preview bundles the same |
| GenerationTurn.FoldNoFiles | App.tsx:258-259 | while nothing is extracted, map and preview stay as they were |
| GenerationTurn.CancelNoteIff | App.tsx:266-288 | the cancellation note is added exactly when a cancel was requested and the stream did not throw first |
| GenerationTurn.TurnMessages | App.tsx:242-288 | a turn appends exactly one model message: all consumed fragments, then the note |
| GenerationTurn.TurnUncancelled | App.tsx:244-288 | without cancel requests, the message is every fragment, then the error note if the stream threw |
| GenerationTurn.TurnFiles | App.tsx:258-263 | files only grow; without extraction nothing changes, otherwise map and preview are the starting files merged with what the whole response yields |
| GenerationTurn.StreamTurn | App.tsx:244-288 | the model message shows exactly what the provider yielded, then the error note if it threw |
| GenerationTurn.MissingKeyTurn | App.tsx:274-288 | without a key the turn shows only the missing-key note, opens the settings and changes no file |
| App.ImageEditNeedsGemini | App.tsx:335 | with OpenRouter configured an image edit always fails with the missing-key message |
| App.Session.constructor | App.tsx:22-55 | the initial state: first theme, no sessions, landing screen, default settings, empty chat |
| App.Session.ToggleTheme | App.tsx:166-168 | the theme index moves to the next theme |
| App.Session.SaveCurrentSession | App.tsx:100-125 | the list becomes the upsert of the current record, ids staying distinct |
| App.Session.NewChat | App.tsx:170-181 | an empty chat under a fresh id on the landing screen |
| App.Session.DeleteSession | App.tsx:129-139 | the list loses exactly that id; deleting the current session starts a new chat, otherwise the chat is untouched |
| App.Session.CancelGeneration | App.tsx:295-298 | the abort flag is set and streaming stops |
| App.Session.ErrorMessage | App.tsx:276-282 | the catch block's text and whether it opens the settings |
| App.Session.TakeChunk | App.tsx:250-263 | one used fragment: response, message, merged files and preview over the starting files |
| App.Session.Annotate | App.tsx:266-288 | the note after the loop, and the settings flag |
| App.Session.ConsumeEvents | App.tsx:247-264 | the loop consumes the events as the turn function does, message showing the whole response |
| App.Session.StreamRequest | App.tsx:237-293 | the new messages, files, preview and settings flag are the turn's outcome, and streaming and abort end false |
| App.Session.SubmitPrompt | App.tsx:348-357 | a non-blank prompt on the landing screen opens the workspace and runs a turn on that prompt alone; otherwise nothing changes |
| App.Session.SendMessage | App.tsx:360-364 | the user message is appended and a turn runs on the whole chat |

## Left out

- `localStorage`, `JSON.parse`/`stringify` of settings and history, and the
  one-second debounced save (App.tsx:64-98). The model has no storage, and
  the session list starts empty. The save guard at App.tsx:93 belongs to the
  timer and is not modelled.
- `Date.now()` and `String(Date.now())` ids are parameters (`now`, `freshId`).
- The network calls (`GoogleGenAI`, `fetch`, `TextDecoder`) are inputs: chunk
  texts, HTTP status, error text, body chunks and an optional failure. A
  `fetch` that throws is an OK reply with no chunks followed by that failure.
- The JSON decoding of frame payloads is a function parameter. Its parse
  failures are its `Invalid` result.
- `getSystemPrompt` is a string parameter.
- Async interleaving and React state batching. A cancel request is an event
  between two fragments, and `setState` calls take effect at once.
- The UI: every component, the landing/workspace switch beyond the prompt
  handlers, `handleLoadSession`, `handleLogoClick`, `handleCodeUpdate` and the
  settings modal. The chat-input guard (components/Workspace.tsx:38) is the
  precondition of `App.Session.SendMessage`.
- JSZip download (App.tsx:300-322).
- The image branch of `handlePromptSubmit` (App.tsx:329-347) apart from its
  key choice (`App.ImageKey`). The edit call itself is `ImageEdit.EditImage`.
- `ImageEdit.ReplyOutcome`: an empty candidate list or a candidate without
  content is a JavaScript `TypeError` in the source. The model reports it as
  `Crashed`, without its message.
- Object keys named like prototype members (`__proto__`, `constructor`)
  behave as ordinary keys in the model's maps.
- `SessionHistory.Title`: the source slices UTF-16 code units; the model
  slices characters.
- `Text.Trim`: `trim()` uses the ECMAScript white-space set, which the model
  lists as characters. Surrogate pairs are not modelled.
- Theme colours are applied through a CSS variable (App.tsx:161-164); the
  model keeps only the index and the theme table.
