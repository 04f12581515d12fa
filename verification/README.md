# psicoestudio core, modelled in Dafny

psicoestudio is a study tutor for psychology students. Users upload
bibliography (PDFs), a model answers questions in an "exam" or a "doubt"
module, flashcards are generated from selected texts, and the tutor's
tribunal transcripts are read aloud. This project models the parts of the
application that decide something, as pure Dafny functions over immutable
data, and proves what they promise:

- `Speech` (`src/lib/speech.ts`) is the read-aloud pipeline of
  `speakTribunalMessage`. It removes `**`, then cuts the transcript into
  `[Speaker] content` segments with the global regex
  `\[(.*?)\][:\s]*(.*?)(?=\[|$)`. That regex is written out as an explicit
  scanner over positions. The scanner is proved to produce the one and only
  tiling of the text that has the regex's shape. Each persona (castillo,
  varela, rossi) gets its pitch and rate. One Spanish voice whose name is not
  on the female list is chosen for everyone. The result is the list of
  commands given to the speech engine: `Cancel`, then one `Speak` per audible
  segment, or the markdown-stripped fallback utterance when there are no tags.
- `Chunker` (`src/lib/pdfProcessor.ts`) is `chunkText`. The text is split on
  white-space runs. Words are added to a window while a length counter grows.
  When the counter reaches `chunkSize` the window is emitted and its last
  twenty words are carried over. A leftover of more than twenty words is
  emitted at the end. The loop is a method over the split words. The windows
  it emits are also given by a predicate, `Emits`, that never mentions the
  loop: each window ends at the first word whose counter reaches
  `chunkSize`. The loop's windows are proved to be the only ones that meet
  it.
- `AppState` (`src/App.tsx`) covers the main screen's transitions:
  - document selection toggling
  - flashcard navigation, flipping and regeneration
  - the per-module message filter
  - the `handleSend` guard with its start and finish

  The message's `module` property is named `tab` here because `module` is a
  Dafny keyword.
- `FileUpload` (`src/components/FileUpload.tsx`) is the status list of the
  upload panel across a selection of files, each of which succeeds or fails.
- `AiContext` (`src/lib/ai.ts`) covers the pure parts of the calls to the language model:
  - building the context string from the fetched documents, with the file
    note for `pdf_reference` rows and the no-material fallback
  - the fallbacks for a completion without content
  - the short-answer gate of the evaluator
- `Strings` and `Prelude` hold the JavaScript primitives these rely on:
  - the `\s` set and `trim`
  - `toLowerCase`
  - `includes`
  - UTF-16 `length`
  - `join`
  - an `Option` type

The database, the model API, the browser's speech engine and React are not
modelled. Their results are parameters: the newest-first table, the
completion's choices, the list of voices, and whether each upload succeeded.

Three facts about `src/lib/speech.ts` shape the `Speech` model:
- `speakTribunalMessage` queues every utterance at once. It has no pause,
  resume, next or previous control.
- Speakers other than castillo, varela and rossi keep the engine's default
  pitch and rate.
- Every speaker gets the same voice: the first Spanish voice whose name is
  not on the female list.

## Model

| member | source | states |
|---|---|---|
| Strings.Trim | src/App.tsx:99 | the trimmed text is the slice of the input between a leading and a trailing white-space run; it starts and ends with a non-space, and it is empty exactly when the input is all white space |
| Strings.LowerChar | src/lib/speech.ts:47 | one character is lower-cased: an ASCII or Latin-1 capital moves 32 code points up; `İ` starts with `i`; `Ÿ`, capital sharp s, the Kelvin sign and the Angstrom sign become `ÿ`, `ß`, `k` and `å`; anything else stays; no upper-case character comes out |
| Strings.LowerChars | src/lib/speech.ts:47 | the lower case of a character is that one character, except for `İ`, which becomes `i` and a combining dot |
| Strings.Contains | src/lib/speech.ts:51 | `includes` holds exactly when the substring occurs at some position |
| Strings.ToLower | src/lib/speech.ts:47 | lower-casing leaves no upper-case character and never shortens the text |
| Strings.ToLowerAppend | src/lib/speech.ts:47 | lower-casing works character by character: it distributes over concatenation and turns one character into its lower case |
| Strings.ToLowerInPlace | src/lib/speech.ts:47 | without `İ`, lower-casing keeps the length and maps each position on its own |
| Strings.ToLowerKeepsLower | src/lib/speech.ts:47 | text without upper-case characters is its own lower case |
| Strings.DottedIKeepsName | src/lib/speech.ts:47-64 | `ROSSİ` lower-cases to `rossi` and a combining dot, which contains `rossi` |
| Strings.ToLowerIdempotent | src/lib/speech.ts:47 | lower-casing an already lower-cased name changes nothing |
| Strings.Utf16Length | src/lib/ai.ts:70 | the UTF-16 length lies between the number of characters and twice it; `Utf16LengthCount` and `Utf16LengthAppend` fix it exactly |
| Strings.Utf16LengthCount | src/lib/ai.ts:70 | `length` counts one unit per character up to U+FFFF and two above it; a text of such characters has as many units as characters, or twice as many |
| Strings.Utf16LengthAppend | src/lib/pdfProcessor.ts:43 | the length of a concatenation is the sum of the lengths |
| Strings.Join | src/lib/ai.ts:29 | `Array.prototype.join`; `JoinAppend` and `JoinLayout` state where each part and separator lands |
| Strings.JoinAppend | src/lib/pdfProcessor.ts:45 | joining one more part adds the separator and that part at the end |
| Strings.JoinLayout | src/lib/ai.ts:29 | `join` lays the parts out in order, with the separator between neighbours and nowhere else |
| Speech.RemoveBold | src/lib/speech.ts:9 | the bold-free text is never longer; `RemoveBoldNoBold`, `RemoveBoldRun` and `RemoveBoldKeepsText` state what it keeps |
| Speech.RemoveBoldNoBold | src/lib/speech.ts:9 | after removing `**` no two adjacent asterisks remain, and a leading non-asterisk is kept |
| Speech.RemoveBoldRun | src/lib/speech.ts:9 | a run of n asterisks keeps n mod 2 of them, the pairs being taken from the left |
| Speech.RemoveBoldKeepsText | src/lib/speech.ts:9 | every other character survives, in order |
| Speech.StripMarkdown | src/lib/speech.ts:24 | the stripped text holds no `#`, `_` or backtick and is never longer |
| Speech.StripMarkdownRun | src/lib/speech.ts:24 | a run of n asterisks keeps n mod 2 of them in the one-pass strip too |
| Speech.StripMarkdownKeepsText | src/lib/speech.ts:24 | a `#`, `_` or backtick is dropped, and every other non-asterisk survives in order |
| Speech.StripMarkdownInTwoPasses | src/lib/speech.ts:41 | the one-pass alternation equals removing `**` first and then the single glyphs |
| Speech.FindFrom | src/lib/speech.ts:11 | the lazy `.*?` stops at the first occurrence of the closing character, or at the end |
| Speech.SkipGap | src/lib/speech.ts:11 | `[:\s]*` takes the whole run of `:` and white space after the tag |
| Speech.NextMatch | src/lib/speech.ts:11-15 | one `exec` either finds no `[` followed by a `]`, or returns a match of the regex's shape that starts at the first `[` |
| Speech.ScanFrom | src/lib/speech.ts:15-20 | successive matches lie inside the text, after the search start |
| Speech.ScanFromTiles | src/lib/speech.ts:11-20 | the matches found by the loop tile the text: each has the regex's shape, none skips a `[`, and no tag is left after the last |
| Speech.TilesAt | src/lib/speech.ts:11-20 | in a tiling, each match has the regex's shape and the next one starts exactly where the previous body stopped |
| Speech.TilesFromUnique | src/lib/speech.ts:11-20 | a tiling with the regex's shape is unique: it is the scanner's |
| Speech.Segments | src/lib/speech.ts:11-20 | the `[Speaker] content` segments of a text; `SegmentsOfIndex`, `SegmentParts` and `TilesFromUnique` state what they are |
| Speech.SegmentsOfIndex | src/lib/speech.ts:16-19 | the k-th segment is the trimmed label and trimmed body of the k-th match |
| Speech.SegmentParts | src/lib/speech.ts:11-19 | a speaker never contains `]`, a content never contains `[`, and neither has white space at its ends |
| Speech.SpeakerHasNoBold | src/lib/speech.ts:9-17 | after bold removal no speaker name contains `**` |
| Speech.ProfileFor | src/lib/speech.ts:55-64 | pitch and rate are set together, and exactly when the lower-cased name contains a persona |
| Speech.ProfileIsFirstMatch | src/lib/speech.ts:47-64 | the `if`/`else if` chain is a first-match lookup in the persona table and ignores letter case |
| Speech.DottedISpeakerIsRossi | src/lib/speech.ts:47-64 | a label written `ROSSİ` gets rossi's pitch and rate |
| Speech.SpanishVoices | src/lib/speech.ts:33 | a voice is kept exactly when it is in the list and its language starts with `es` |
| Speech.SpanishVoicesAppend | src/lib/speech.ts:33 | the filter keeps order: it distributes over concatenation, and a single voice is kept exactly when it is Spanish |
| Speech.MaleVoiceIsFirstEligible | src/lib/speech.ts:33-52 | the chosen voice is the first one of the list that is Spanish and not female-sounding, and there is none exactly when no voice qualifies |
| Speech.Utterances | src/lib/speech.ts:39-46 | every queued utterance has non-blank text, language `es-ES` and the chosen voice; there are at most as many as segments |
| Speech.UtterancesAppend | src/lib/speech.ts:39-67 | utterances follow segment order; a single segment gives one utterance when audible and none otherwise |
| Speech.UtterancesCover | src/lib/speech.ts:39-44 | each audible segment is spoken, and everything spoken comes from an audible segment |
| Speech.SpeakSegments | src/lib/speech.ts:23-66 | without segments, the whole text is spoken once with markdown stripped; with segments, every call speaks non-blank Spanish text in the chosen voice |
| Speech.SpeakSegmentsCover | src/lib/speech.ts:39-66 | with segments, the `speak` calls are exactly the audible segments' utterances |
| Speech.SpokenAfterCancel | src/lib/speech.ts:5-66 | after the cancel come the `speak` calls for the segments of the bold-stripped text |
| Speech.SpeakTribunalMessage | src/lib/speech.ts:1-68 | nothing happens without speech support; otherwise the queue is cancelled first, and what follows is either the fallback utterance or at most one utterance per segment |
| Chunker.SplitWords | src/lib/pdfProcessor.ts:36 | splitting gives at least one piece and no piece contains white space |
| Chunker.SplitPrefixWord | src/lib/pdfProcessor.ts:36 | a word without white space in front of a text joins that text's first piece and leaves the other pieces as they are |
| Chunker.SplitSpaceRun | src/lib/pdfProcessor.ts:36 | a white-space run of any length, leading or inside the text, in front of a text that does not start with white space ends one piece, so the run never gives empty pieces between words; with `SplitPrefixWord` and the empty text's single empty piece this fixes every split |
| Chunker.SplitExample | src/lib/pdfProcessor.ts:36 | `" a  b "` splits into an empty piece, `a`, `b` and an empty piece, as `split(/\s+/)` does |
| Chunker.SplitJoinRoundTrip | src/lib/pdfProcessor.ts:36 | splitting undoes a single-space join of non-empty words without white space |
| Chunker.Chunks | src/lib/pdfProcessor.ts:33-56 | the chunks of a text; `ChunkIsRunOfWords`, `ChunksOverlap` and `WindowsExact` state what they are |
| Chunker.ChunkIsRunOfWords | src/lib/pdfProcessor.ts:41-53 | every chunk is the single-space join of a non-empty run of consecutive words |
| Chunker.ChunksOverlap | src/lib/pdfProcessor.ts:46-47 | each chunk after the first starts with the last (up to) twenty words of the previous one and ends further on |
| Chunker.ChunkEmittedWhenFull | src/lib/pdfProcessor.ts:43-53 | a chunk is emitted only once the counter reached `chunkSize`, except a final leftover of more than twenty words |
| Chunker.WindowsEmits | src/lib/pdfProcessor.ts:41-53 | from any loop state, the windows still to come are those `Emits` describes |
| Chunker.EmitsUnique | src/lib/pdfProcessor.ts:41-53 | `Emits` admits one sequence of windows only |
| Chunker.WindowsExact | src/lib/pdfProcessor.ts:41-53 | the loop's windows are exactly those in which each window ends at the first word whose counter reaches `chunkSize`, the next starts with its last twenty words, and a trailing run of more than twenty words that never fills is kept |
| Chunker.CounterAdvance | src/lib/pdfProcessor.ts:43-47 | the running counter equals the window's joined length, plus one before the first emission |
| Chunker.ShortTextHasNoChunks | src/lib/pdfProcessor.ts:41-53 | a text of at most twenty words whose counter never reaches `chunkSize` gives no chunk |
| Chunker.ChunkWords | src/lib/pdfProcessor.ts:37-55 | the loop's chunks are exactly the joined windows of the words |
| Chunker.ChunkText | src/lib/pdfProcessor.ts:33-56 | `chunkSize` defaults to 1000; the empty text gives no chunk; otherwise the chunks are the windows of its words, at most one more than there are words |
| AppState.RemoveAll | src/App.tsx:78 | filtering out an id removes it and keeps every other id's membership |
| AppState.RemoveAllAppend | src/App.tsx:78 | the filter keeps order: it distributes over concatenation |
| AppState.RemoveAllAbsent | src/App.tsx:78 | removing an absent id changes nothing |
| AppState.ToggleDoc | src/App.tsx:76-80 | the id becomes selected exactly when it was not; other ids are untouched; a new id goes at the end |
| AppState.ToggleKeepsOthers | src/App.tsx:76-80 | toggling keeps the other ids in their order |
| AppState.ToggleTwiceAbsent | src/App.tsx:76-80 | toggling an unselected id twice restores the selection |
| AppState.ToggleTwicePresent | src/App.tsx:76-80 | toggling a selected id twice leaves it once, at the end |
| AppState.PrevCard | src/App.tsx:273-274 | "Anterior" is disabled on the first card and changes nothing there; elsewhere it keeps the cards, hides the answer and steps back one card |
| AppState.NextCard | src/App.tsx:283-284 | "Siguiente" is disabled on the last card and changes nothing there; elsewhere it keeps the cards, hides the answer and steps on one card, never past the last |
| AppState.NavigationInDeck | src/App.tsx:273-283 | within a non-empty deck, both buttons keep the index inside it |
| AppState.NavigationRoundTrip | src/App.tsx:273-284 | back then forth, or forth then back, returns to the same card with the question up, away from the edges |
| AppState.NavigationClamps | src/App.tsx:273-284 | at the first card "Anterior", and at the last card "Siguiente", leaves the deck exactly as it is |
| AppState.FlipCard | src/App.tsx:256 | a click turns the card over and leaves the position |
| AppState.FlipTwice | src/App.tsx:256 | two clicks restore the card |
| AppState.BackToSelection | src/App.tsx:253 | "Cambiar selección" empties the deck |
| AppState.GenerateFlashcards | src/App.tsx:55-74 | with nothing selected only the alert shows and nothing changes; otherwise loading ends, a returned deck replaces the old one at its first card, question up, and no other part of the state changes |
| AppState.GeneratedDeckInRange | src/App.tsx:64-67 | a freshly generated non-empty deck shows a card inside it |
| AppState.Visible | src/App.tsx:295 | a message is listed exactly when it has no module or the active one |
| AppState.VisibleAppend | src/App.tsx:304 | the filter keeps order: it distributes over concatenation |
| AppState.VisibleIdempotent | src/App.tsx:304 | filtering twice is filtering once |
| AppState.SendStart | src/App.tsx:99-107 | a send is ignored exactly when the input is blank, there is no session or a reply is loading; otherwise the input is cleared, loading starts and the user's message, tagged with the module, is appended |
| AppState.SendStartIdempotent | src/App.tsx:99 | a second send while the first is loading does nothing |
| AppState.SentMessageShown | src/App.tsx:106-107 | the message sent appears last in its module's list |
| AppState.SendFinish | src/App.tsx:130-134 | loading always ends; a reply is appended tagged with the module of the send, a failure appends nothing, and no other part of the state changes |
| AppState.ExchangeShown | src/App.tsx:99-134 | a completed exchange ends the module's list with the question and then its answer |
| FileUpload.FilterMembers | src/components/FileUpload.tsx:21 | the name filter keeps exactly the entries of the other names |
| FileUpload.NamedOthers | src/components/FileUpload.tsx:21 | dropping one name leaves every other name's entries |
| FileUpload.OthersOthers | src/components/FileUpload.tsx:21 | dropping a name twice is dropping it once |
| FileUpload.StartUpload | src/components/FileUpload.tsx:21 | starting a file leaves a single entry of its name, uploading, at the end, and the other entries as they were |
| FileUpload.StartUploadOthers | src/components/FileUpload.tsx:21 | starting a file does not touch other names |
| FileUpload.SetStatus | src/components/FileUpload.tsx:26 | a status update keeps the number of entries |
| FileUpload.SetStatusAt | src/components/FileUpload.tsx:26 | entry by entry, names stay, other names' entries stay, and entries of the name get the new status |
| FileUpload.SetStatusNamed | src/components/FileUpload.tsx:41-45 | a status update only touches the entries of its name |
| FileUpload.Process | src/components/FileUpload.tsx:21-46 | after one file the list is the other names' entries in their old order, followed by one entry of its name, success or error as its upload went |
| FileUpload.ProcessMovesToEnd | src/components/FileUpload.tsx:21 | re-uploading `a` in `[a success, b error]` gives `[b error, a success]`: the entry moves to the end |
| FileUpload.Succeeded | src/components/FileUpload.tsx:41-42 | every success callback names a file of the selection whose upload succeeded |
| FileUpload.SucceededAppend | src/components/FileUpload.tsx:19-46 | the success callbacks follow selection order: they distribute over concatenation, and a single upload is reported exactly when it succeeded |
| FileUpload.ProcessAll | src/components/FileUpload.tsx:19-47 | the files processed one after another; `ProcessAllOrder` and `ProcessAllNamed` state the resulting list |
| FileUpload.ProcessAllSnoc | src/components/FileUpload.tsx:19-47 | one more file drops its name's entry from the list and appends its own |
| FileUpload.FinalsSnoc | src/components/FileUpload.tsx:19-47 | one more upload drops the earlier final entry of its name and puts its own at the end |
| FileUpload.UnmentionedSnoc | src/components/FileUpload.tsx:21 | one more upload also drops its name from the untouched entries |
| FileUpload.ProcessAllOrder | src/components/FileUpload.tsx:19-47 | the list after a selection is the old entries of unselected names in their order, then one entry per selected name holding the outcome of its last upload, ordered by where that last upload stands |
| FileUpload.HandleFileChange | src/components/FileUpload.tsx:15-49 | without a file list nothing changes; otherwise the list is the untouched entries of unselected names, then one entry per selected name with its last outcome, in the order of those last uploads; the success callbacks are `Succeeded` of the selection |
| FileUpload.ProcessAllEveryName | src/components/FileUpload.tsx:19-47 | after the loop every selected name has one entry with its last outcome, and other names are untouched |
| FileUpload.ProcessAllNamed | src/components/FileUpload.tsx:19-47 | the same, for one name |
| FileUpload.LastStatusCons | src/components/FileUpload.tsx:19-47 | a name's final status is that of its last upload in the selection |
| AiContext.Latest | src/lib/ai.ts:20-21 | the query returns the ten newest rows, or all of them when there are fewer |
| AiContext.Query | src/lib/ai.ts:17-21 | the query succeeds with the first `min(10, rows)` rows of the newest-first table, in that order |
| AiContext.RelevantContext | src/lib/ai.ts:16-31 | the context string; `ContextLayout` and `ContextOfTable` state what it holds |
| AiContext.ContextLayout | src/lib/ai.ts:23-29 | each fetched document's piece appears in fetch order, followed by a blank line unless it is the last; a `pdf_reference` row's piece is the file note with its source printed (`null` for a null source, `undefined` for a missing one), any other row's piece is its content (nothing when the content is missing) |
| AiContext.ContextOfTable | src/lib/ai.ts:16-31 | an empty table gives the no-material text; otherwise the context comes from the ten newest documents |
| AiContext.OrElse | src/lib/ai.ts:65 | `||` gives a non-empty content unchanged and the fallback otherwise, so a non-empty fallback never yields an empty text |
| AiContext.TeacherReply | src/lib/ai.ts:65 | the reply is never empty; unless it is the connection-error text, it is the first choice's content |
| AiContext.TeacherReplyUsesContent | src/lib/ai.ts:65 | a non-empty first content is the reply |
| AiContext.EvaluationPayload | src/lib/ai.ts:94 | the evaluator parses a non-empty text: a non-empty first content unchanged, or `{}` when there is none |
| AiContext.Evaluate | src/lib/ai.ts:68-94 | an answer shorter than fifteen UTF-16 units is a meta answer; a longer one is evaluated on `EvaluationPayload` of the completion, which is the first non-empty content unchanged, or `{}` |
| AiContext.ShortAnswerIgnoresModel | src/lib/ai.ts:70-72 | a short answer's result does not depend on the model's completion |
| AiContext.ShortAnswerBounds | src/lib/ai.ts:70 | fifteen characters or more are never short; seven or fewer are always short |

## Left out

- The Supabase and Groq calls, the prompts, `JSON.parse` of the evaluation, session creation and message saving are left out because they are I/O. Their results are parameters, or the evaluation is kept as its text.
- PDF text extraction (`extractTextFromPDF`) and the storage upload are left out because they are foreign calls. Each file's upload is reduced to whether it succeeded.
- `src/services/api.ts` and `src/types/index.ts` are not part of this model. They hold API wrappers and type declarations only.
- React rendering, effects, scrolling and the sidebar are left out. Asynchrony is flattened: the handlers are modelled as their start and finish transitions, and interleaving between two in-flight handlers is not modelled.
- The database's `order('created_at')` is left out. The table is given newest first.
- The pitch and rate are `real` literals. The engine's floating-point handling of them is not modelled.
- Strings.ToLower: only the characters whose lower case lies in ASCII or Latin-1 are lower-cased: the ASCII and Latin-1 capitals, `İ` (to `i` and a combining dot), `Ÿ`, capital sharp s, the Kelvin sign and the Angstrom sign. Every other capital, in Greek, Cyrillic or other scripts, has a lower case outside Latin-1 and is kept as it is. The persona and female voice names are all Latin-1 text, so those capitals cannot take part in a match either way. The locale-dependent and context-dependent mappings (Turkish dotless i, final sigma) are not modelled.
- Chunker.ChunkText: `chunkSize` is a JavaScript number, modelled as `int`. A non-integer size compares against the integer length counter like its ceiling does, so only integer sizes are modelled.
- Strings.Utf16Length: counts code units per character. Lone surrogates cannot occur in Dafny strings, so they are not modelled.
- Speech.SpeakTribunalMessage: `getVoices()` is a parameter. The model does not say when the engine fills that list.
- Speech.SpeakTribunalMessage: whether `speechSynthesis` exists is a parameter, and the engine's playback is not modelled.
