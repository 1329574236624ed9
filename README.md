# Player-On-Caption: a verified model of the caption-translation core

Player-On-Caption is a browser extension that translates a lecture video's
captions. The content script runs in the page. It does the following:

- reads the transcript cues;
- normalizes each cue into a lookup key;
- cuts the keys into chunks and sends each chunk for translation;
- merges the translator's replies, which alternate source line and
  translation, into an insertion-ordered map;
- paints the translation of the current caption into an overlay.

A user can also load a file of alternating lines instead. The background
script sizes the translation request against the model's token budget. It
relays the translator's streamed reply, a server-sent event stream, to the
page as `delta` / `done` / `error` messages.

This project models that core in Dafny. The modules are:

- `Seqs`, `JsText` and `JsMap`: the JavaScript built-ins the code relies on.
  - Array `slice` with its clamping.
  - String `trim`, `split`, `join`, `indexOf` and `startsWith`, and the
    UTF-16 `length`.
  - `Map` with its insertion order.
- `Normalize`: `normalizeText`.
- `Transcript`: the map built by `extractScript`, and `scriptSlice`.
- `Translations`:
  - the pair merge inside `process`;
  - the line parser of `readTranslationFile`.
- `Session`: the chunk loop of `process` and its effects, including the
  once-only ready step, and the save decision.
- `Subtitles`: the update rule of `updateSubtitles`, over an `Overlay`
  class holding the two overlay lines.
- `TokenBudget`: `approxTokens` and `pickMaxOut`.
- `EventStream`: the read loop of `streamTranslateWholeWithOpenAI`.
  - Frames are cut at `"\n\n"`.
  - Only `data:` lines are dispatched.
  - One final `done` is posted at the end of the stream.

The loops of the source are methods with loop invariants:

- `ExtractScript`, `ScriptSlice`, `MergeLines`, `ParseTranslationFile`;
- `Process`, `UpdateSubtitles`;
- `DispatchLines`, `DrainFrames`, `StreamTranslateWhole`.

Each method is proved equal to a specification function. The properties
are proved as lemmas about those functions.

Behaviour of the code worth knowing:

- **Normalization is not idempotent.** `normalizeText` trims before it
  strips characters, so `"hello !"` normalizes to `"hello "`, and that
  normalizes to `"hello"`. See `Normalize.NormalizeNotIdempotent`;
  `Normalize.NormalizeTwice` proves that a second pass only trims.
- **Reply keys are stored as written.** The merge in `process` stores the
  reply's trimmed source line as the key, without normalizing it. The file
  parser does normalize its keys.
- **An odd trailing reply line is written with `""`.**
- **The indicator is hidden after the first chunk, whatever its reply.**
  Polling starts at the same moment, also when that chunk's request
  returned `null`. With an empty transcript the indicator is never hidden.
- **The overlay is written on every hit.** Whenever the lookup gives a
  non-empty translation, both overlay lines are assigned, even when they
  already hold those texts.
- **`scriptSlice` terminates only for some chunk sizes.**
  - It loops forever when the later chunk size is 0 and there are more
    keys than the first chunk holds.
  - With a first chunk size of 0, its first chunk is empty.
- **`pickMaxOut` returns `desired` only when `desired` is at least 512.**
  Below that it returns the floor of 512.

## Model

| member | source | states |
|---|---|---|
| `Normalize.NormalizeText` | subtitle/content.js:72-77 | the key is never longer than the text |
| `Normalize.NormalizeTextAsWritten` | subtitle/content.js:72-77 | the key is `trim`, then `toLowerCase`, then the removal of every character outside `[a-zA-Z0-9가-힣\s]` |
| `Normalize.NormalizeTextIsKey` | subtitle/content.js:72-77 | every key character is a lower-case ASCII letter, a digit, a Hangul syllable U+AC00–U+D7A3 or whitespace |
| `Normalize.NormalizeFixesKeys` | subtitle/content.js:72-77 | a trimmed string made only of key characters normalizes to itself |
| `Normalize.NormalizeTwice` | subtitle/content.js:72-77 | a second normalization only trims the first one's result |
| `Normalize.NormalizeNotIdempotent` | subtitle/content.js:72-77 | `"hello !"` gives `"hello "`, which gives `"hello"`: normalization is not idempotent |
| `Normalize.NormalizeIgnoresCase` | subtitle/content.js:72-77 | texts that agree up to ASCII case have the same key |
| `Normalize.NormalizeLower` | subtitle/content.js:72-77 | lower-casing a text first does not change its key |
| `Normalize.TrimLower` | subtitle/content.js:73-75 | trimming and lower-casing commute |
| `JsText.Trim` | subtitle/content.js:74 | `trim()` leaves no whitespace at either end and never lengthens |
| `JsText.TrimRemovesOnlyEndSpace` | subtitle/content.js:74 | `trim()` gives a slice of the string with only white space before it and after it |
| `JsText.TrimEmptyIffAllSpace` | subtitle/content.js:205-206 | a line trims to `""` exactly when it is all whitespace |
| `JsText.SplitJoin` | subtitle/content.js:478 | splitting lines joined with `"\n"` gives them back, when none holds a `"\n"` |
| `JsText.JoinSplit` | subtitle/content.js:487-488 | joining the pieces of `split("\n")` with `"\n"` gives the text back |
| `JsText.IndexOfFirst` | subtitle/background.js:339 | `indexOf` finds the first occurrence, and -1 only when there is none |
| `JsMap.SetValid` | subtitle/content.js:498 | `Map.set` keeps every key listed once and exactly the mapped keys listed |
| `JsMap.SetAllKeepsUnwritten` | subtitle/content.js:492-499 | a key that no `set` writes keeps its value |
| `JsMap.SetAllLastWriteWins` | subtitle/content.js:492-499 | the last `set` of a key decides its value |
| `JsMap.SetAllKeys` | subtitle/content.js:492-499 | the keys afterwards are the old keys, in their old places in front, plus the written ones |
| `Transcript.ExtractScript` | subtitle/content.js:121-131 | the `forEach` builds the map that `ScriptMap` specifies |
| `Transcript.ScriptMapSpec` | subtitle/content.js:121-131 | every key is listed once, in first-appearance order, and maps to `""`; the keys are exactly the normalized cue texts |
| `Transcript.ScriptKeysFirstAppearance` | subtitle/content.js:121-131 | the keys are distinct, come from the cues, and are ordered by their first appearance among them |
| `Transcript.CueKeysCoverCues` | subtitle/content.js:127-129 | the normalized text of every cue with a text element is a key |
| `Transcript.CueKeysComeFromCues` | subtitle/content.js:127-129 | every key is the normalized text of some cue |
| `Transcript.DuplicateCueAddsNothing` | subtitle/content.js:128-129 | a later cue whose key is already present leaves the map unchanged |
| `Transcript.ScriptSlice` | subtitle/content.js:138-159 | the `while` loop returns the chunks that `Chunks` specifies |
| `Transcript.ChunksFlatten` | subtitle/content.js:143-155 | the chunks, concatenated in order, are exactly the key sequence |
| `Transcript.ChunkSizes` | subtitle/content.js:143-155 | there are no chunks exactly when there are no keys; the first chunk holds `min(initial, n)` keys; every later chunk holds 1 to `subsequentChunkSize` keys, and all but the last hold exactly that many |
| `Transcript.LaterChunksFlatten` | subtitle/content.js:148-155 | the chunks after the first concatenate to the keys after the first chunk |
| `Translations.PairUp` | subtitle/content.js:492-496 | the `k`-th pair is lines `2k` and `2k+1`, with `""` for a missing partner; there are `⌈n/2⌉` pairs |
| `Translations.MergeLines` | subtitle/content.js:492-499 | the stride-2 loop performs one `set` per pair, in order |
| `Translations.WriteLinesPairs` | subtitle/content.js:492-499 | writing the lines two at a time equals setting every pair in order |
| `Translations.MergeReply` | subtitle/content.js:486-499 | the reply's trimmed non-blank lines are merged into the map as pairs |
| `Translations.MergedSpec` | subtitle/content.js:486-499 | after a merge, every key is listed once; the old keys keep their places in front; the keys are the old ones plus the reply's source lines; an unwritten key keeps its value; the last write of a key wins |
| `Translations.ParseTranslationFile` | subtitle/content.js:200-214 | the `forEach` builds the map that `ParsedFile` specifies |
| `Translations.ParsedFileValid` | subtitle/content.js:201-210 | the map read from a file lists every key once and exactly the mapped keys |
| `Translations.FilePairsWellFormed` | subtitle/content.js:204-213 | every written pair has a non-empty key of key characters and a non-empty trimmed translation |
| `Translations.UnpairedKeyWritesNothing` | subtitle/content.js:207-208 | a final key line with no translation after it writes nothing |
| `Translations.EmptyKeyLineSkipped` | subtitle/content.js:207-208 | a line that normalizes to `""` does not take the key slot |
| `Translations.FileLinesParse` | subtitle/content.js:204-213 | a file written as key line, translation line, blank line parses back to the pairs with normalized keys |
| `Translations.FileRoundTrip` | subtitle/content.js:200-214 | reading such a file gives the map of its normalized pairs |
| `Translations.SplitLinesJoin` | subtitle/content.js:200 | splitting lines joined with `"\n"` gives them back when none holds a line break |
| `Session.Process` | subtitle/content.js:447-528 | `process` returns `Outcome` and performs exactly the effects `Effects` lists |
| `Session.ReadyOnce` | subtitle/content.js:449-523 | the indicator is shown once; it is hidden and polling is started at most once, and exactly once when a stored translation exists or the transcript is non-empty; the ready step comes right after the first chunk's request and observer refresh |
| `Session.RequestsCoverTranscript` | subtitle/content.js:472-482 | the requests are the chunks' texts in order; the chunks cover the transcript keys exactly; the observer is refreshed once per chunk |
| `Session.RoundEffectsRequests` | subtitle/content.js:476-482 | the chunk loop requests every chunk text once, in order |
| `Session.SessionTextsEmpty` | subtitle/content.js:473-476 | no request is made exactly when the transcript has no keys |
| `Session.SaveDecision` | subtitle/content.js:542-553 | the map is saved exactly when no stored translation exists and the transcript has at least one key |
| `Session.MergeRepliesValid` | subtitle/content.js:476-499 | after every reply is merged, each key is still listed once |
| `Session.MergeRepliesKeepsKeys` | subtitle/content.js:476-499 | the transcript keys keep their places at the front of the map |
| `Session.UnwrittenKeyKept` | subtitle/content.js:476-499 | a key that no reply writes keeps its value, so an untranslated transcript line stays `""` |
| `Session.NullRepliesChangeNothing` | subtitle/content.js:486-512 | when every request returns `null`, the map is the transcript map |
| `Subtitles.ShownTranslation` | subtitle/content.js:331-333 | a translation is shown only when the caption's key maps to a non-empty string; a miss or `""` shows nothing |
| `Subtitles.Overlay.UpdateSubtitles` | subtitle/content.js:326-366 | the overlay after the `forEach` is `RenderedAll` of the overlay before |
| `Subtitles.MissLeavesOverlay` | subtitle/content.js:333-359 | with no hit, or without the overlay elements, both overlay lines are unchanged |
| `Subtitles.LastShownWins` | subtitle/content.js:330-363 | the last caption with a hit decides both lines: its raw text and its translation |
| `Subtitles.NeverBlanked` | subtitle/content.js:333-363 | a non-empty translation line never becomes empty |
| `Subtitles.EnglishLineIsRawCaption` | subtitle/content.js:362 | the English line is unchanged or one of the raw caption texts |
| `Subtitles.UnnormalizedKeyNeverShown` | subtitle/content.js:331-332 | a map key that normalization cannot produce, such as an un-normalized reply line, is never looked up |
| `TokenBudget.ApproxTokens` | subtitle/background.js:240-242 | the result is ⌈length/4⌉ in UTF-16 code units, and 0 for a missing string |
| `TokenBudget.ApproxTokensMonotone` | subtitle/background.js:240-242 | a longer string never has fewer tokens |
| `TokenBudget.Available` | subtitle/background.js:250-251 | the available budget is `ctx - inTokens - safety` or 0, whichever is larger |
| `TokenBudget.PickMaxOut` | subtitle/background.js:244-253 | the result lies between 512 and `max(512, min(desired, modelMax))`, and never exceeds `max(512, available)`; it is `desired` when the budget and `modelMax` allow it and `desired >= 512`; it is 512 when fewer than 512 tokens are available; it is at least `min(desired, available, modelMax)` and is either that value or 512 |
| `TokenBudget.DefaultsRange` | subtitle/background.js:244-253 | with the default options the result lies in [512, 12000] |
| `TokenBudget.PickMaxOutNonIncreasing` | subtitle/background.js:244-253 | a longer user text never gets a larger output budget |
| `EventStream.FramesConserve` | subtitle/background.js:339-341 | the frames, each followed by `"\n\n"`, plus the remaining buffer, are exactly the buffer |
| `EventStream.RemainderHasNoFrameEnd` | subtitle/background.js:339 | the buffer left after cutting holds no `"\n\n"` |
| `EventStream.FramesHaveNoFrameEnd` | subtitle/background.js:339-340 | no frame holds a `"\n\n"` |
| `EventStream.FramesAppend` | subtitle/background.js:336-341 | cutting `x + y` gives the frames of `x`, then those of its remainder followed by `y`, so the frames do not depend on how the stream is split into reads |
| `EventStream.RemainderAppend` | subtitle/background.js:336-341 | the remainder after `x + y` is the remainder after `x`'s remainder plus `y` |
| `EventStream.DrainFrames` | subtitle/background.js:338-379 | the inner loop posts the messages of every complete frame in the buffer and leaves exactly the remainder, which holds no `"\n\n"` |
| `EventStream.DispatchLines` | subtitle/background.js:343-378 | the `for` over a frame's lines posts the messages of each line, in order, and counts the deltas |
| `EventStream.StreamTranslateWhole` | subtitle/background.js:333-383 | the read loop posts the messages of every complete frame of the whole stream, then one `done` |
| `EventStream.LineDispatch` | subtitle/background.js:345-374 | a line posts at most one message, and only a `data:` line posts; a `delta` message carries the event's text unchanged and comes exactly from a delta event; an `error` message never has an empty text |
| `EventStream.UnparseableSkipped` | subtitle/background.js:352-377 | an unparseable payload posts nothing, and the lines before and after it post as usual |
| `EventStream.TrailingTextDiscarded` | subtitle/background.js:333-383 | text never closed by `"\n\n"` posts nothing |
| `EventStream.OneFrameStream` | subtitle/background.js:333-383 | a stream of one single-line frame posts that line's messages, then `done` |
| `EventStream.DoneTwice` | subtitle/background.js:347-383 | after a `[DONE]` frame, the final `done` is still posted, so `done` arrives twice |
| `EventStream.FramesMessagesAppend` | subtitle/background.js:339-379 | the messages of two frame sequences in a row are the messages of each in turn |

## Left out

- IndexedDB (`openDB`, `saveTranslation`, `getTranslation`): storage I/O. A stored translation is the `stored` flag of `Session.Process`. Saving is the `Session.Saves` decision.
- The missing-title path of `process`: when `extractTitle` finds no title it returns `null`. `getTranslation(null)` then rejects, because IndexedDB's `store.get(null)` throws a `DataError` inside the promise. So `process` stops right after `showLoadingIndicator()`: it never extracts the transcript, never hides the indicator and saves nothing. The model always has a title, so this path is not modelled.
- `fetchScript`, the OpenAI and DeepL requests, `AbortController`, and the port's connect, disconnect and `aborted` flag: network and event wiring. The reply to each chunk is a `fetch` function parameter.
- The reply chunks are already-decoded strings. The `TextDecoder` and its handling of bytes split across reads are not modelled.
- `JSON.parse` and the event's fields: the classifier `parse` gives an abstract event.
  - An event with a non-string `delta` is classified as `Other`.
  - An error object that is not a string is not modelled. The error text is a string, and an empty one becomes `"streaming error"`.
- The exceptions that `port.postMessage` may throw: posting is an append to the output sequence.
- `event:` and `id:` fields, multi-line `data:` concatenation and `"\r\n"` frame ends: the source does not handle them.
- DOM work, observers, shadow roots and timers: `shadowDomInit`, the loading indicator, `autoObserveSubtitles`, `setupInitialPolling` and `setInterval`. They appear only as the `Effect` values `process` performs.
- `Subtitles.Overlay.UpdateSubtitles`: the source looks up the container, shadow root and overlay elements for each caption element. The model uses one `overlayFound` flag for the whole call.
- Aliasing of the live `Map`: observers read the map while `process` fills it. The map is modelled as a value, so a lookup sees the state at the moment of the call, not a shared reference.
- `Normalize.NormalizeText`: `toLowerCase` is modelled for ASCII letters only. A non-ASCII character lowercases to a character that is then stripped, with two exceptions. The Kelvin sign U+212A lowercases to `k`, and U+0130 lowercases to `i` plus a combining dot. For those two the model's key differs.
- `TokenBudget.PickMaxOut`: the options are integers. A fractional or non-numeric option is not modelled.
- `Transcript.ScriptSlice`: requires a positive later chunk size or a transcript that fits in the first chunk. Otherwise the source's loop never ends.
- The `"user"` mode of the message listener, `options.js`, `popup.js` and the server: UI glue and network code.
- The prompt text: static data.
