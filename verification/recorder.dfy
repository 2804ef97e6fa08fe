/** The capture decisions of the `Recorder` component: the choice of audio
    format, the chunk filter, the size threshold applied when recording
    stops, the release of the microphone, the stop guard and the mapping
    of microphone errors to messages.

    The browser objects become values: a media stream is reduced to whether
    its tracks are still live, a `MediaRecorder` to its format and state, a
    chunk to its size in bytes. Calls that can fail arrive as outcomes. */
module Recorder {
  import opened Wrappers

  /** A JavaScript exception: its `name` and its `message`. */
  datatype JsError = JsError(name: string, message: string)

  /** `MediaRecorder.state`. */
  datatype RecorderState = Inactive | Recording | Paused

  /** A media recorder: the format it was created with and its state. */
  datatype MediaRecorder = MediaRecorder(mimeType: string, state: RecorderState)

  /** A microphone stream: `live` while its tracks have not been stopped. */
  datatype Stream = Stream(live: bool)

  /** The component state and its three refs. */
  datatype State = State(
    recording: bool,
    error: string,
    recorder: Option<MediaRecorder>,
    chunks: seq<nat>,
    stream: Option<Stream>)

  /** An audio blob: its chunks, by size, and its declared type. */
  datatype Blob = Blob(parts: seq<nat>, mimeType: string)

  /** How far `startRecording` gets: microphone access rejected, the
      recorder constructor threw, `start()` threw, or recording started. */
  datatype StartOutcome =
    | AccessFailed(err: JsError)
    | RecorderFailed(err: JsError)
    | StartFailed(err: JsError)
    | Started

  /** The recorder methods `stopRecording` calls, in order. */
  datatype RecorderCall = RequestData | Stop

  datatype Stopped = Stopped(state: State, handoff: Option<Blob>)

  datatype Stopping = Stopping(state: State, calls: seq<RecorderCall>)

  const MIME_PREFERENCES: seq<string> := ["audio/webm;codecs=opus", "audio/webm", "audio/ogg;codecs=opus"]
  const MIME_FALLBACK := "audio/ogg"
  const MIN_BLOB_BYTES := 100

  // Each two-sentence message is its two sentences joined: the proof of
  // `CaptureErrorMessagesDistinct` reads the first character of the short
  // first sentence, which it cannot do on one long literal.
  const ACCESS_DENIED := "Microphone access denied. " + "Please allow microphone access in your browser settings."
  const NO_MICROPHONE := "No microphone found. " + "Please connect a microphone."
  const ACCESS_FAILED := "Failed to access microphone: "
  const TOO_SHORT := "Recording too short or empty. Please speak for at least 2 seconds."

  /** The first entry of `prefs` the browser supports, if any. */
  function FirstSupported(prefs: seq<string>, isTypeSupported: string -> bool): (r: Option<string>)
    ensures r.Some? ==> r.value in prefs && isTypeSupported(r.value)
    ensures r.Some? ==> exists k :: 0 <= k < |prefs| && prefs[k] == r.value
                                    && forall j :: 0 <= j < k ==> !isTypeSupported(prefs[j])
    ensures r.None? <==> forall k :: 0 <= k < |prefs| ==> !isTypeSupported(prefs[k])
  {
    if prefs == [] then None
    else if isTypeSupported(prefs[0]) then Some(prefs[0])
    else
      var r := FirstSupported(prefs[1..], isTypeSupported);
      if r.Some? then
        var k :| 0 <= k < |prefs[1..]| && prefs[1..][k] == r.value
                 && forall j :: 0 <= j < k ==> !isTypeSupported(prefs[1..][j]);
        assert prefs[k + 1] == r.value;
        assert forall j :: 0 <= j < k + 1 ==> !isTypeSupported(prefs[j]) by {
          forall j | 0 <= j < k + 1
            ensures !isTypeSupported(prefs[j])
          {
            if j > 0 {
              assert prefs[j] == prefs[1..][j - 1];
            }
          }
        }
        r
      else
        assert forall k :: 1 <= k < |prefs| ==> prefs[k] == prefs[1..][k - 1];
        r
  }

  /** The format chosen for the recorder. The last fallback is
      taken without asking the browser. */
  function SelectMimeType(isTypeSupported: string -> bool): (m: string)
    ensures m in MIME_PREFERENCES || m == MIME_FALLBACK
    ensures m in MIME_PREFERENCES ==> isTypeSupported(m)
    ensures m == MIME_FALLBACK <==> forall k :: 0 <= k < |MIME_PREFERENCES| ==> !isTypeSupported(MIME_PREFERENCES[k])
  {
    if isTypeSupported(MIME_PREFERENCES[0]) then MIME_PREFERENCES[0]
    else if isTypeSupported(MIME_PREFERENCES[1]) then MIME_PREFERENCES[1]
    else if isTypeSupported(MIME_PREFERENCES[2]) then MIME_PREFERENCES[2]
    else MIME_FALLBACK
  }

  /** The chain of tests is a priority lookup: the first supported
      preference, or the fallback when there is none. */
  lemma SelectMimeTypeIsFirstSupported(isTypeSupported: string -> bool)
    ensures SelectMimeType(isTypeSupported) == FirstSupported(MIME_PREFERENCES, isTypeSupported).GetOr(MIME_FALLBACK)
  {
    var prefs := MIME_PREFERENCES;
    assert prefs[1..][0] == prefs[1] && prefs[1..][1..][0] == prefs[2] && prefs[1..][1..][1..] == [];
  }

  /** The message `startRecording` shows when starting fails. */
  function CaptureErrorMessage(e: JsError): (m: string)
    ensures e.name == "NotAllowedError" ==> m == ACCESS_DENIED
    ensures e.name == "NotFoundError" ==> m == NO_MICROPHONE
    ensures e.name != "NotAllowedError" && e.name != "NotFoundError" ==> m == ACCESS_FAILED + e.message
  {
    if e.name == "NotAllowedError" then ACCESS_DENIED
    else if e.name == "NotFoundError" then NO_MICROPHONE
    else ACCESS_FAILED + e.message
  }

  /** The three kinds of failure are told apart by their messages, and
      none of them is empty, so a failed start always shows an error. */
  lemma CaptureErrorMessagesDistinct(e1: JsError, e2: JsError)
    ensures CaptureErrorMessage(e1) != ""
    ensures e1.name == "NotAllowedError" && e2.name != "NotAllowedError" ==> CaptureErrorMessage(e1) != CaptureErrorMessage(e2)
    ensures e1.name == "NotFoundError" && e2.name != "NotFoundError" ==> CaptureErrorMessage(e1) != CaptureErrorMessage(e2)
  {
    assert ACCESS_DENIED[0] == 'M' && NO_MICROPHONE[0] == 'N';
    assert (ACCESS_FAILED + e1.message)[0] == 'F' && (ACCESS_FAILED + e2.message)[0] == 'F';
  }

  /** The state while `startRecording` awaits `getUserMedia`: the error
      of any earlier attempt is gone and nothing else has changed yet. */
  function PendingStart(s: State): (r: State)
    ensures r.error == ""
    ensures r.recording == s.recording && r.recorder == s.recorder && r.chunks == s.chunks && r.stream == s.stream
  {
    s.(error := "")
  }

  /** `startRecording`. The error is cleared first; the stream
      is kept as soon as access is granted; the recorder and the emptied
      chunk list only once the constructor succeeded; the recording flag
      only once `start()` returned. */
  function StartRecording(s: State, isTypeSupported: string -> bool, outcome: StartOutcome): (r: State)
    ensures r.recording <==> s.recording || outcome.Started?
    ensures r.error == "" <==> outcome.Started?
    ensures !outcome.Started? ==> r.error == CaptureErrorMessage(outcome.err)
    ensures outcome.AccessFailed? ==> r.stream == s.stream
    ensures !outcome.AccessFailed? ==> r.stream == Some(Stream(true))
    ensures outcome.AccessFailed? || outcome.RecorderFailed? ==> r.recorder == s.recorder && r.chunks == s.chunks
    ensures outcome.StartFailed? || outcome.Started? ==>
              r.chunks == [] && r.recorder.Some? && r.recorder.value.mimeType == SelectMimeType(isTypeSupported)
    ensures outcome.StartFailed? ==> r.recorder.Some? && r.recorder.value.state == Inactive
    ensures r.recorder.Some? && r.recorder.value.state == Recording <==>
              || outcome.Started?
              || ((outcome.AccessFailed? || outcome.RecorderFailed?) && s.recorder.Some? && s.recorder.value.state == Recording)
  {
    var cleared := PendingStart(s);
    match outcome
    case AccessFailed(e) =>
      CaptureErrorMessagesDistinct(e, e);
      cleared.(error := CaptureErrorMessage(e))
    case RecorderFailed(e) =>
      CaptureErrorMessagesDistinct(e, e);
      cleared.(stream := Some(Stream(true)), error := CaptureErrorMessage(e))
    case StartFailed(e) =>
      CaptureErrorMessagesDistinct(e, e);
      var rec := MediaRecorder(SelectMimeType(isTypeSupported), Inactive);
      cleared.(stream := Some(Stream(true)), recorder := Some(rec), chunks := [], error := CaptureErrorMessage(e))
    case Started =>
      var rec := MediaRecorder(SelectMimeType(isTypeSupported), Recording);
      cleared.(stream := Some(Stream(true)), recorder := Some(rec), chunks := [], recording := true)
  }

  /** Because each attempt starts from `PendingStart`, the error an earlier
      attempt left behind never shows through: the attempt ends the same
      whatever the error was. */
  lemma StartIgnoresOldError(s: State, old_error: string, isTypeSupported: string -> bool, outcome: StartOutcome)
    ensures StartRecording(s.(error := old_error), isTypeSupported, outcome) == StartRecording(s, isTypeSupported, outcome)
  {
  }

  /** `ondataavailable`: a chunk is kept only when it holds data. */
  function OnDataAvailable(s: State, size: nat): (r: State)
    ensures r.chunks == s.chunks || r.chunks == s.chunks + [size]
    ensures r.chunks != s.chunks <==> size > 0
    ensures r == s.(chunks := r.chunks)
  {
    if size > 0 then s.(chunks := s.chunks + [size]) else s
  }

  /** A series of `dataavailable` events, in arrival order. */
  function Feed(s: State, sizes: seq<nat>): (r: State)
    ensures r == s.(chunks := r.chunks)
    decreases |sizes|
  {
    if sizes == [] then s else Feed(OnDataAvailable(s, sizes[0]), sizes[1..])
  }

  /** The non-empty sizes of `sizes`, in order. */
  function NonEmpty(sizes: seq<nat>): (r: seq<nat>)
    ensures |r| <= |sizes|
    ensures forall k :: 0 <= k < |r| ==> r[k] > 0
  {
    if sizes == [] then []
    else (if sizes[0] > 0 then [sizes[0]] else []) + NonEmpty(sizes[1..])
  }

  /** The size of a blob made of these chunks. */
  function TotalSize(sizes: seq<nat>): nat {
    if sizes == [] then 0 else sizes[0] + TotalSize(sizes[1..])
  }

  /** Chunks arriving one by one are kept in arrival order, the empty ones
      dropped. */
  lemma {:induction false} FeedKeepsNonEmptyInOrder(s: State, sizes: seq<nat>)
    ensures Feed(s, sizes).chunks == s.chunks + NonEmpty(sizes)
    decreases |sizes|
  {
    if sizes != [] {
      var next := OnDataAvailable(s, sizes[0]);
      FeedKeepsNonEmptyInOrder(next, sizes[1..]);
      var head := if sizes[0] > 0 then [sizes[0]] else [];
      assert next.chunks == s.chunks + head;
      assert s.chunks + head + NonEmpty(sizes[1..]) == s.chunks + (head + NonEmpty(sizes[1..]));
    }
  }

  /** Dropping the empty chunks does not change the total size. */
  lemma {:induction false} NonEmptyKeepsSize(sizes: seq<nat>)
    ensures TotalSize(NonEmpty(sizes)) == TotalSize(sizes)
    decreases |sizes|
  {
    if sizes != [] {
      NonEmptyKeepsSize(sizes[1..]);
      var head := if sizes[0] > 0 then [sizes[0]] else [];
      TotalSizeAppend(head, NonEmpty(sizes[1..]));
    }
  }

  /** The size of a concatenation. */
  lemma {:induction false} TotalSizeAppend(a: seq<nat>, b: seq<nat>)
    ensures TotalSize(a + b) == TotalSize(a) + TotalSize(b)
    decreases |a|
  {
    if a == [] {
      assert a + b == b;
    } else {
      TotalSizeAppend(a[1..], b);
      assert (a + b)[1..] == a[1..] + b;
    }
  }

  /** `onstop`, the `stop` event. A blob of more than 100 bytes is handed
      on; a smaller one is dropped with the too-short message. Either way
      every track of the stream is stopped. */
  function OnStop(s: State, mimeType: string): (r: Stopped)
    ensures r.handoff.Some? <==> TotalSize(s.chunks) > MIN_BLOB_BYTES
    ensures r.handoff.Some? ==> r.handoff.value.parts == s.chunks && r.handoff.value.mimeType == mimeType
    ensures r.state.error == (if r.handoff.Some? then s.error else TOO_SHORT)
    ensures r.state.stream.Some? <==> s.stream.Some?
    ensures r.state.stream.Some? ==> !r.state.stream.value.live
    ensures r.state.recording == s.recording && r.state.recorder == s.recorder && r.state.chunks == s.chunks
  {
    var blob := Blob(s.chunks, mimeType);
    var released := s.(stream := if s.stream.Some? then Some(Stream(false)) else None);
    if TotalSize(blob.parts) > MIN_BLOB_BYTES then Stopped(released, Some(blob))
    else Stopped(released.(error := TOO_SHORT), None)
  }

  /** `stopRecording`. Only a recording in progress is
      stopped; buffered data is requested first when the recorder is
      actively recording. `stop()` leaves the recorder inactive. */
  function StopRecording(s: State): (r: Stopping)
    ensures r.calls != [] <==> s.recorder.Some? && s.recording
    ensures r.calls == [] ==> r.state == s
    ensures r.calls != [] ==> r.calls == [Stop] || r.calls == [RequestData, Stop]
    ensures r.calls != [] ==>
              && r.calls[|r.calls| - 1] == Stop
              && (RequestData in r.calls <==> s.recorder.value.state == Recording)
              && !r.state.recording
              && r.state.recorder == Some(s.recorder.value.(state := Inactive))
    ensures r.state.chunks == s.chunks && r.state.stream == s.stream && r.state.error == s.error
  {
    if s.recorder.Some? && s.recording then
      var rec := s.recorder.value;
      var calls := (if rec.state == Recording then [RequestData] else []) + [Stop];
      Stopping(s.(recording := false, recorder := Some(rec.(state := Inactive))), calls)
    else Stopping(s, [])
  }

  /** The idle component, before any recording. */
  const Idle := State(false, "", None, [], None)

  /** When microphone access is granted but the recorder cannot be created
      or started, the stream is kept with its tracks live and nothing will
      stop them: the component is not recording, so the stop guard refuses,
      and no `stop` event follows. */
  lemma FailedStartKeepsMicrophone(isTypeSupported: string -> bool, outcome: StartOutcome)
    requires outcome.RecorderFailed? || outcome.StartFailed?
    ensures var r := StartRecording(Idle, isTypeSupported, outcome);
            && !r.recording
            && r.stream == Some(Stream(true))
            && StopRecording(r).calls == []
            && StopRecording(r).state.stream == Some(Stream(true))
  {
  }

  /** After a successful start, stopping asks for the buffered data and
      then stops the recorder. */
  lemma StartThenStop(s: State, isTypeSupported: string -> bool)
    ensures var r := StopRecording(StartRecording(s, isTypeSupported, Started));
            && r.calls == [RequestData, Stop]
            && !r.state.recording
            && r.state.recorder == Some(MediaRecorder(SelectMimeType(isTypeSupported), Inactive))
  {
  }
}
