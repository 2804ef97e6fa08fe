/** One recording session end to end: the recorder starts, audio chunks
    arrive, the user stops, the recorder flushes its last chunks and fires
    its `stop` event, and a long enough recording is handed to the
    transcribe-then-clean pipeline. */
module Session {
  import opened Wrappers
  import Recorder
  import Pipeline

  /** What a session leaves behind: the recorder state, the blob handed on
      (if any), the application view and the network requests made. */
  datatype Outcome = Outcome(
    capture: Recorder.State,
    blob: Option<Recorder.Blob>,
    view: Pipeline.View,
    requests: seq<Pipeline.Effect>)

  /** The recorder while recording, for a session that starts
      successfully: `during` are the chunk sizes delivered before
      `stopRecording`. */
  function Recorded(capture: Recorder.State, isTypeSupported: string -> bool, during: seq<nat>): (fed: Recorder.State)
    ensures fed.chunks == Recorder.NonEmpty(during)
    ensures fed.stream == Some(Recorder.Stream(true)) && fed.recording
    ensures fed.recorder == Some(Recorder.MediaRecorder(Recorder.SelectMimeType(isTypeSupported), Recorder.Recording))
  {
    var started := Recorder.StartRecording(capture, isTypeSupported, Recorder.Started);
    Recorder.FeedKeepsNonEmptyInOrder(started, during);
    Recorder.Feed(started, during)
  }

  /** The recorder up to its `stop` event: `flushed` are the chunk sizes
      delivered after `stopRecording` and before the `stop` event. */
  function Record(capture: Recorder.State, isTypeSupported: string -> bool, during: seq<nat>, flushed: seq<nat>): (last: Recorder.State)
    ensures last.chunks == Recorder.NonEmpty(during) + Recorder.NonEmpty(flushed)
    ensures last.stream == Some(Recorder.Stream(true)) && !last.recording
    ensures last.recorder.Some? && last.recorder.value.mimeType == Recorder.SelectMimeType(isTypeSupported)
  {
    var stopping := Recorder.StopRecording(Recorded(capture, isTypeSupported, during));
    Recorder.FeedKeepsNonEmptyInOrder(stopping.state, flushed);
    Recorder.Feed(stopping.state, flushed)
  }

  /** The recorder side of a session that starts successfully, through its
      `stop` event. */
  function Capture(capture: Recorder.State, isTypeSupported: string -> bool, during: seq<nat>, flushed: seq<nat>): (r: Recorder.Stopped)
    ensures !r.state.recording
    ensures r.state.stream == Some(Recorder.Stream(false))
    ensures r.handoff.Some? <==> Recorder.TotalSize(during) + Recorder.TotalSize(flushed) > Recorder.MIN_BLOB_BYTES
    ensures r.handoff.Some? ==>
              && r.handoff.value.parts == Recorder.NonEmpty(during) + Recorder.NonEmpty(flushed)
              && r.handoff.value.mimeType == Recorder.SelectMimeType(isTypeSupported)
    ensures r.handoff.None? ==> r.state.error == Recorder.TOO_SHORT
  {
    var last := Record(capture, isTypeSupported, during, flushed);
    Recorder.NonEmptyKeepsSize(during);
    Recorder.NonEmptyKeepsSize(flushed);
    Recorder.TotalSizeAppend(Recorder.NonEmpty(during), Recorder.NonEmpty(flushed));
    Recorder.OnStop(last, last.recorder.value.mimeType)
  }

  /** A whole session: capture, then the pipeline if a blob was handed on. */
  function RecordAndSend(
    app: Pipeline.View,
    capture: Recorder.State,
    isTypeSupported: string -> bool,
    during: seq<nat>,
    flushed: seq<nat>,
    tr: Pipeline.TranscribeOutcome,
    cl: Pipeline.CleanOutcome): (o: Outcome)
    ensures o.blob == Capture(capture, isTypeSupported, during, flushed).handoff
    ensures o.requests != [] <==> o.blob.Some?
    ensures o.blob.None? ==> o.view == app
    ensures o.blob.Some? ==> o.view == Pipeline.Process(app, tr, cl) && o.requests[0] == Pipeline.PostTranscribe
  {
    var stopped := Capture(capture, isTypeSupported, during, flushed);
    Pipeline.RunRequests(tr, cl);
    if stopped.handoff.Some? then
      Outcome(stopped.state, stopped.handoff, Pipeline.Process(app, tr, cl), Pipeline.Requests(Pipeline.Run(tr, cl)))
    else
      Outcome(stopped.state, None, app, [])
  }

  /** A recording of at most 100 bytes never reaches the network, whatever
      the server would have answered. */
  lemma ShortRecordingSendsNothing(
    app: Pipeline.View,
    capture: Recorder.State,
    isTypeSupported: string -> bool,
    during: seq<nat>,
    flushed: seq<nat>,
    tr: Pipeline.TranscribeOutcome,
    cl: Pipeline.CleanOutcome)
    requires Recorder.TotalSize(during + flushed) <= Recorder.MIN_BLOB_BYTES
    ensures RecordAndSend(app, capture, isTypeSupported, during, flushed, tr, cl).requests == []
    ensures RecordAndSend(app, capture, isTypeSupported, during, flushed, tr, cl).view == app
  {
    Recorder.TotalSizeAppend(during, flushed);
    assert Capture(capture, isTypeSupported, during, flushed).handoff.None?;
  }
}
