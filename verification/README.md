# Voice transcriber: a verified model of the capture, pipeline and text cleanup

The voice transcriber has three parts that this project models:

- A browser component records microphone audio.
- An application component sends the recording to a transcription endpoint, then sends the transcript to a cleanup endpoint. It shows the raw and the cleaned text, a processing flag, and an error line.
- On the server, `clean_text` rewrites a transcript:
  - it lower-cases the text;
  - it deletes filler words;
  - it collapses comma and period runs;
  - it normalises whitespace;
  - it removes whitespace before punctuation;
  - it capitalises each sentence.

Each module follows one concern of the program:

| module | file | models |
|---|---|---|
| `Wrappers` | wrappers.dfy | `Option` |
| `Chars` | chars.dfy | character classes: `\w`, Python `\s` and JavaScript `trim` whitespace, case mapping |
| `Fillers` | fillers.dfy | `FILLERS` and the filler-removal loop of `clean_text` |
| `Squeeze` | squeeze.dfy | the comma-run and period-run collapse |
| `Spacing` | spacing.dfy | `\s+` to one space, `strip`, whitespace before punctuation |
| `Sentences` | sentences.dfy | the split on `[.!?]+\s*`, the per-part capitalisation, the join |
| `Clean` | clean.dfy | `clean_text` end to end |
| `Pipeline` | pipeline.dfy | `sendAudioToBackend`, as an ordered trace of state updates and requests |
| `Recorder` | recorder.dfy | `startRecording`, `ondataavailable`, `onstop`, `stopRecording` |
| `Session` | session.dfy | one recording handed to the pipeline |

**How `clean_text` is modelled.** Each regular-expression step is a pure function on strings, proved equal to an independent reference definition:

- the filler substitution equals cutting out the whole-word matches found by `Fillers.Hits`;
- the comma and period steps equal the filter `Squeeze.DropDoubled`, which drops a character that a copy of itself follows;
- the whitespace step equals `strip` after the filter `Spacing.MergeSpaces`, which turns each whitespace run into one space;
- removing whitespace before punctuation equals the filter `Spacing.DropSpacesBeforePunct`.

Beyond that, each step has its own lemmas:

- the filler step: no listed word survives, a text without fillers is unchanged, and the loop is idempotent;
- the comma and period step: every other character is kept, text without doubles is unchanged, and collapsing is idempotent;
- the whitespace step and the step before punctuation: both keep the non-whitespace characters, and both leave text that already has the property unchanged;
- lower-casing: it is characterised character by character;
- capitalisation: it is characterised character by character, and the final `upper` is shown to change nothing.

A substitution of `\bword\b` is modelled as a left-to-right scan of the original string. Its word-boundary tests look at the original string, not the partly rewritten one. The main filler theorem is that no filler survives the loop as a whole word, in any case. This holds because every filler starts and ends with a word character and has no two adjacent non-word characters: deleting one filler can then never create an occurrence of another.

Capitalisation is characterised one character at a time. `Sentences.CapAt` upper-cases exactly the positions that start the text or follow a run of `.`, `!` or `?` and then only whitespace.

**How the network and the browser are modelled.** Network replies, browser capability queries and thrown errors are inputs:

- A run of `sendAudioToBackend` is the list of its effects.
- The final view is those effects applied in order to the view before the run.
- A recording is reduced to the sizes of its chunks.
- A media stream is reduced to whether its tracks are still live.

**Three behaviours of the code that a reader might not expect, modelled as written:**

- When cleanup fails, the code keeps the cleaned text of the previous run; it does not clear it. It starts out empty, so the first run shows an empty cleaned text.
- When no preferred audio format is supported, the code picks `audio/ogg` without asking the browser. It does not fail.
- The microphone is released when the recorder's `stop` event fires. If access was granted but the recorder constructor or `start()` throws, nothing ever stops the stream's tracks (`Recorder.FailedStartKeepsMicrophone`).

## Model

| member | source | states |
|---|---|---|
| Chars.Lower | backend/utils.py:17 | lower-casing leaves no upper-case letter, maps each ASCII capital to the small letter at the same alphabet position, changes nothing else, and keeps word and whitespace classes |
| Chars.Upper | backend/utils.py:40 | upper-casing leaves no lower-case letter, maps each ASCII small letter to the capital at the same alphabet position, is undone by `Lower`, changes nothing but lower-case letters, and keeps word and whitespace classes |
| Chars.LowerStr | backend/utils.py:17 | `text.lower()` keeps the length, leaves no upper-case letter, and changes only upper-case letters |
| Fillers.FillersWellFormed | backend/utils.py:3-7 | every filler starts and ends with a word character and never has two adjacent non-word characters |
| Fillers.Hits | backend/utils.py:21-22 | the positions the substitution deletes are whole-word, case-insensitive matches of the word, do not overlap, and cover every whole-word match; these facts fix the positions: each is the first match after the previous deletion |
| Fillers.SubFromIsCutOut | backend/utils.py:22 | the scan from position `i` equals `s[i..]` with the windows at `Hits(s, w, i)` cut out: every other character is kept, in order |
| Fillers.RemoveWord | backend/utils.py:22 | one substitution cuts out exactly the whole-word matches at `Hits`, left to right, and keeps every other character in order |
| Fillers.RemoveWordExample | backend/utils.py:22 | on `um hello`, removing `um` gives ` hello`: the space and the rest of the text stay |
| Fillers.ScanLeavesNoOcc | backend/utils.py:22 | after removing `g`, no occurrence of a well-formed `f` remains whose every whole-word occurrence in the input was also one of `g`; this includes occurrences formed across a deletion |
| Fillers.RemoveWordClears | backend/utils.py:22 | after one substitution, the word no longer occurs as a whole word, in any case |
| Fillers.RemoveWordKeepsAbsence | backend/utils.py:20-22 | removing one filler never creates a whole-word occurrence of another well-formed filler |
| Fillers.RemoveWordAbsent | backend/utils.py:22 | a substitution with no match returns the text unchanged |
| Fillers.RemoveAll | backend/utils.py:20-22 | the loop equals the reference `Passes`, which cuts each word's whole-word hits out of the current text in list order; afterwards no listed word occurs as a whole word; absent words stay absent; the text does not grow and gains no character |
| Fillers.RemoveFillers | backend/utils.py:19-22 | the filler loop equals `Passes` over `FILLERS`; afterwards no entry of `FILLERS` occurs as a whole word in any case, and the text did not grow |
| Fillers.RemoveAllAbsent | backend/utils.py:20-22 | the loop leaves a text containing no listed word unchanged |
| Fillers.RemoveAllIdempotent | backend/utils.py:20-22 | for any list of well-formed words, running the removal loop a second time changes nothing |
| Fillers.RemoveFillersIdempotent | backend/utils.py:19-22 | running the filler loop twice gives the same result as running it once |
| Squeeze.SqueezeRuns | backend/utils.py:25-26 | `c{2,}` to `c` equals the filter `DropDoubled`, which drops a `c` exactly when another `c` follows it and keeps every other character in place, so each run keeps one copy; no two adjacent copies remain; the first character is kept; no new character appears |
| Squeeze.SqueezeKeepsNoDoubled | backend/utils.py:25-26 | squeezing one character creates no doubled copy of any other character |
| Squeeze.SqueezeKeepsOthers | backend/utils.py:25-26 | collapsing runs removes only copies of the collapsed character; all other characters stay, in order |
| Squeeze.SqueezeFixpoint | backend/utils.py:25-26 | text without a doubled character is unchanged |
| Squeeze.CollapsePunctuation | backend/utils.py:24-26 | the punctuation step equals `DropDoubled` for commas and then for periods; the result has no `,,` and no `..`, is no longer than the input, and gains no character |
| Squeeze.CollapsePunctuationIdempotent | backend/utils.py:24-26 | collapsing twice gives the same result as collapsing once |
| Spacing.CollapseSpaces | backend/utils.py:29 | `\s+` to `' '` equals the filter `MergeSpaces`: a whitespace character followed by whitespace is dropped, any other one becomes a plain space, and every other character stays, so each run becomes exactly one space; the result never has two whitespace characters in a row |
| Spacing.LStrip | backend/utils.py:29 | the result is a suffix with no leading whitespace, and only whitespace was removed |
| Spacing.RStrip | backend/utils.py:29 | the result is a prefix with no trailing whitespace, and only whitespace was removed |
| Spacing.Strip | backend/utils.py:29 | `strip()` returns the slice of the text that starts after the leading whitespace run; everything outside the slice is whitespace, and the slice neither starts nor ends with whitespace |
| Spacing.NormalizeSpace | backend/utils.py:29 | normalisation equals `strip` applied to `MergeSpaces`, so words stay separated by exactly one space; the result has no leading, trailing or doubled whitespace, and its only whitespace is plain spaces |
| Spacing.CollapseSpacesKeepsContent | backend/utils.py:29 | collapsing whitespace keeps the non-whitespace characters, in order |
| Spacing.NormalizeSpaceKeepsContent | backend/utils.py:29 | whitespace normalisation keeps the non-whitespace characters, in order |
| Spacing.NormalizeSpaceFixpoint | backend/utils.py:29 | normalisation leaves a text unchanged exactly when that text is already normalised |
| Spacing.StripBeforePunct | backend/utils.py:32 | the step equals the filter `DropSpacesBeforePunct`: a character is dropped exactly when a whitespace run starts there and a mark `. , ! ? ; :` follows it, so all other whitespace stays; no whitespace remains directly before a mark |
| Spacing.StripBeforePunctKeepsShape | backend/utils.py:32 | the step keeps the absence of leading, trailing and doubled whitespace |
| Spacing.StripBeforePunctKeepsContent | backend/utils.py:32 | the step removes whitespace only |
| Spacing.StripBeforePunctFixpoint | backend/utils.py:32 | text with no whitespace before punctuation is unchanged |
| Sentences.TextLen | backend/utils.py:35 | the first piece of the split ends at the first `.`, `!` or `?`, or at the end of the text |
| Sentences.SentenceSplit | backend/utils.py:35 | the split has an odd number of parts; the text parts at even positions hold no `.`, `!` or `?`; the parts at odd positions are delimiters; the first part is a prefix of the text and, when a delimiter follows, stops at the first sentence end; every delimiter takes all the whitespace after it, so no later text part starts with whitespace; every delimiter takes the whole run of sentence ends, so one that an empty text part separates from the next delimiter ends in whitespace |
| Sentences.SentenceSplitExample | backend/utils.py:35 | `"a.."` splits into `["a", "..", ""]`: a run of sentence ends is one delimiter |
| Sentences.TextLenPrefix | backend/utils.py:35 | the first piece of the split contains no `.`, `!` or `?` |
| Sentences.DelimLen | backend/utils.py:35 | the captured delimiter is not empty, and both parts of the match are greedy: the character after it is not whitespace, and it is not a further `.`, `!` or `?` unless whitespace came before it |
| Sentences.DelimLenChar | backend/utils.py:35 | every character of the captured delimiter is `.`, `!`, `?` or whitespace |
| Sentences.DelimLenIsDelimiter | backend/utils.py:35-39 | every captured delimiter passes the delimiter test `^[.!?]+\s*$` of line 39 |
| Sentences.SplitJoin | backend/utils.py:35-44 | joining the parts of the split gives back the text |
| Sentences.UpperFirst | backend/utils.py:40 | `part[0].upper() + part[1:]` keeps the length, raises the first character, and keeps the rest |
| Sentences.CapitalizePart | backend/utils.py:39-42 | a part keeps its length and all but its first character; that character is raised unless the part is blank or a delimiter |
| Sentences.CapitalizeSentences | backend/utils.py:35-44 | split, capitalise and join keeps the length of the text |
| Sentences.PartRule | backend/utils.py:39-42 | a text part has its first character raised; a delimiter part is copied |
| Sentences.CapitalizeSpec | backend/utils.py:34-44 | capitalisation keeps the length and raises exactly the characters that start the text or follow a sentence break |
| Clean.BeforeCapitalization | backend/utils.py:17-32 | before capitalisation the text equals the composition of the reference filters of each step (`Passes` over `FILLERS`, `DropDoubled` for commas and periods, `MergeSpaces` then `strip`, `DropSpacesBeforePunct`), applied to the lower-cased input; it keeps the non-whitespace characters left by the filler and punctuation steps; it has no upper-case letter, no leading, trailing or doubled whitespace, and no whitespace before punctuation |
| Clean.CleanText | backend/utils.py:13-14 | an empty input gives the empty string |
| Clean.FinalUpperIsRedundant | backend/utils.py:46-48 | the final upper-casing of the first character changes nothing after sentence capitalisation |
| Clean.FinishSpec | backend/utils.py:34-48 | on a text without upper-case letters and with normalised whitespace, sentence capitalisation plus the final upper-casing changes only the characters at sentence openings, to their upper-case forms, and keeps every whitespace guarantee |
| Clean.CleanTextSpec | backend/utils.py:9-50 | for a non-empty input, the result differs from the pre-capitalisation text only by upper-casing the characters at sentence openings; lower-casing the result gives that text back; and the result keeps all its whitespace guarantees |
| Pipeline.ErrorText | frontend/src/App.jsx:56 | the error shown is the thrown message, or the fallback when that message is empty; it is never empty |
| Pipeline.IsBlankIsTrimEmpty | frontend/src/App.jsx:33 | the blank test holds exactly when the transcript is missing or `trim()` leaves it empty |
| Pipeline.TrimStart | frontend/src/App.jsx:33 | `trimStart` returns a suffix that does not start with whitespace, and only whitespace was removed |
| Pipeline.TrimEnd | frontend/src/App.jsx:33 | `trimEnd` returns a prefix that does not end with whitespace, and every character it cuts is JavaScript whitespace |
| Pipeline.CleanSteps | frontend/src/App.jsx:37-52 | the cleanup phase publishes the raw text, sends it for cleanup, then stores the cleaned text on success or sets a non-empty error otherwise |
| Pipeline.AfterTranscribe | frontend/src/App.jsx:26-56 | after the transcription request a run either sets a single non-empty error or performs exactly the cleanup steps `CleanSteps` of the transcript, and the second happens exactly when the transcript reached cleanup; processing is not touched |
| Pipeline.Run | frontend/src/App.jsx:11-60 | a run starts by setting processing and clearing the error, then requests a transcription, and ends by releasing processing |
| Pipeline.Process | frontend/src/App.jsx:11-60 | after a run processing is off; the error is empty exactly when both requests succeeded; a failed transcription shows `Transcription failed: ` and the status text, a blank transcript the no-speech message, and both texts stay unchanged when cleanup is not reached; a cleanup failure keeps the new raw text and the previous cleaned text and shows `Cleaning failed: ` and the status text; success stores both texts and clears the error |
| Pipeline.ProcessingHeldUntilEnd | frontend/src/App.jsx:12-59 | `isProcessing` holds in every intermediate state of a run and is false after it, on every path |
| Pipeline.RunRequestsShape | frontend/src/App.jsx:21-44 | the requests of a run are the transcription request, followed by the cleanup request with the transcript exactly when the transcript reached cleanup |
| Pipeline.RunRequests | frontend/src/App.jsx:21-44 | at most two requests, transcription first; cleanup is requested exactly when the transcript is present and not blank, with the untrimmed transcript as its text |
| Pipeline.RawTextBeforeCleanup | frontend/src/App.jsx:37-44 | when the cleanup request is issued, `rawText` already holds the text being sent and processing is still on |
| Pipeline.CleanOutcomeIgnoredWithoutCleanup | frontend/src/App.jsx:26-35 | when cleanup is not reached, the run does not depend on what cleanup would have answered |
| Recorder.FirstSupported | frontend/src/components/Recorder.jsx:26-35 | the priority lookup returns the first supported preference, or nothing exactly when none is supported |
| Recorder.SelectMimeType | frontend/src/components/Recorder.jsx:26-35 | the chosen format is a supported preference, or `audio/ogg` exactly when no preference is supported |
| Recorder.SelectMimeTypeIsFirstSupported | frontend/src/components/Recorder.jsx:26-35 | the chain of tests equals the first supported entry of the preference list, falling back to `audio/ogg` |
| Recorder.CaptureErrorMessage | frontend/src/components/Recorder.jsx:74-80 | `NotAllowedError` maps to the access-denied message, `NotFoundError` to the no-microphone message, and any other error to the failed-access prefix followed by its message |
| Recorder.CaptureErrorMessagesDistinct | frontend/src/components/Recorder.jsx:71-81 | the failure messages are never empty, and the three kinds of failure have different messages |
| Recorder.PendingStart | frontend/src/components/Recorder.jsx:10-15 | while `getUserMedia` is pending the error is empty and the recording flag, recorder, chunks and stream are as before |
| Recorder.StartRecording | frontend/src/components/Recorder.jsx:10-82 | the error ends empty exactly when recording started, else it is the mapped message; the stream is kept once access is granted; the recorder (with the selected format) and an emptied chunk list only once the constructor succeeded, and that recorder is left inactive when `start()` throws; the recording flag is set only once `start()` returned |
| Recorder.StartIgnoresOldError | frontend/src/components/Recorder.jsx:10-11 | each attempt clears the error first, so the error left by an earlier attempt has no effect on the state the attempt ends in |
| Recorder.OnDataAvailable | frontend/src/components/Recorder.jsx:46-50 | a chunk is appended exactly when its size is positive, and nothing else changes |
| Recorder.Feed | frontend/src/components/Recorder.jsx:46-50 | a series of `dataavailable` events changes nothing but the chunk list |
| Recorder.FeedKeepsNonEmptyInOrder | frontend/src/components/Recorder.jsx:46-50 | a series of chunks leaves the non-empty ones, in arrival order, after the existing ones |
| Recorder.NonEmptyKeepsSize | frontend/src/components/Recorder.jsx:46-54 | dropping the empty chunks does not change the blob size |
| Recorder.TotalSizeAppend | frontend/src/components/Recorder.jsx:54 | the size of a blob is the sum of its chunks |
| Recorder.OnStop | frontend/src/components/Recorder.jsx:53-65 | the blob is handed on exactly when its size exceeds 100 bytes, holding the collected chunks with the recorder's format; otherwise the too-short message is shown; in both cases the stream's tracks are stopped |
| Recorder.StopRecording | frontend/src/components/Recorder.jsx:84-94 | the recorder is called only when one exists and recording is on; the calls are exactly `[stop()]`, or `[requestData(), stop()]` when its state is `recording`; afterwards recording is off and the recorder inactive; otherwise nothing changes |
| Recorder.FailedStartKeepsMicrophone | frontend/src/components/Recorder.jsx:23-81 | if access was granted but the constructor or `start()` threw, the stream stays live; the component is not recording; a later stop makes no call and releases nothing |
| Recorder.StartThenStop | frontend/src/components/Recorder.jsx:67-91 | after a successful start, stopping calls `requestData()` and then `stop()`, and leaves the recorder inactive and not recording |
| Session.Record | frontend/src/components/Recorder.jsx:10-94 | up to the `stop` event, a successful start followed by chunks and `stopRecording` keeps the non-empty chunks of both phases in arrival order, keeps the microphone live, ends recording, and keeps the recorder with the chosen format |
| Session.Capture | frontend/src/components/Recorder.jsx:10-65 | a full capture always releases the microphone; the blob is handed on exactly when the non-empty chunks total more than 100 bytes; it then holds exactly those chunks, in order, with the chosen format; otherwise the too-short message is shown |
| Session.RecordAndSend | frontend/src/App.jsx:67-69 | a handed-on recording starts the pipeline with a transcription request; otherwise no request is made and the view is unchanged |
| Session.ShortRecordingSendsNothing | frontend/src/components/Recorder.jsx:57-61 | a recording of at most 100 bytes never reaches the network, whatever the server would answer |

## Left out

- The server (`backend/main.py`) and the transcription and cleanup services are not part of this model. Their answers are the `TranscribeOutcome` and `CleanOutcome` inputs.
- `isinstance(text, str)` at backend/utils.py:13 is not modelled: the model's input is always a string.
- Chars: word characters, whitespace and case mapping cover ASCII only. A non-ASCII character is treated as a caseless non-word, non-space character. Python's Unicode `\w`, `\s`, `lower()` and `upper()` go further, including case mappings that change the length.
- Pipeline.Process: a transcript that is present but not a string, which makes `trim()` throw, is not modelled. Neither is a cleanup response without a `cleaned` field. The JSON decoding of both responses is folded into the `Rejected` outcomes.
- `fetch`, `FormData`, `getUserMedia`, `MediaRecorder`, `Blob` and `console` are not executed. Their results are parameters, and a chunk is reduced to its size.
- The audio constraints and the bit rate passed to the browser are not modelled. They involve no decision of the component.
- Two runs of `sendAudioToBackend` interleaving in time are not modelled; each run is a single sequential trace. The button that is disabled while processing is display logic and is not modelled either.
- The rendering (status text, the error box, the spinner) is not modelled. The React re-render and state-batching mechanics are not modelled either; every setter takes effect in order.
- Recorder.StopRecording: `stop()` on an inactive recorder is treated as a no-op that leaves it inactive. The component only calls it while recording is on, and it never pauses the recorder.
