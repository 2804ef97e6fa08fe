/** The transcribe-then-clean pipeline of `sendAudioToBackend`.

    One run is modelled as the ordered list of effects it performs: the
    four state setters of the component and the two `fetch` requests. The
    network replies are inputs; the final view is the effects applied in
    order to the view before the run. */
module Pipeline {
  import opened Wrappers
  import opened Chars

  /** The component state `{rawText, cleanedText, isProcessing, error}`. */
  datatype View = View(rawText: string, cleanedText: string, isProcessing: bool, error: string)

  /** One observable step of a run. */
  datatype Effect =
    | SetProcessing(on: bool)
    | SetError(message: string)
    | PostTranscribe
    | SetRawText(text: string)
    | PostClean(text: string)
    | SetCleanedText(text: string)

  /** What the transcription round trip yields: the promise rejected (no
      connection, or a body that is not JSON), a response that is not ok,
      or an ok response whose `transcript` may be missing. */
  datatype TranscribeOutcome =
    | TranscribeRejected(message: string)
    | TranscribeNotOk(statusText: string)
    | TranscribeOk(transcript: Option<string>)

  /** What the cleanup round trip yields. */
  datatype CleanOutcome =
    | CleanRejected(message: string)
    | CleanNotOk(statusText: string)
    | CleanOk(cleaned: string)

  const NO_SPEECH := "No speech detected. Please try speaking louder and closer to the microphone."
  const FALLBACK_ERROR := "An error occurred during processing"
  const TRANSCRIPTION_FAILED := "Transcription failed: "
  const CLEANING_FAILED := "Cleaning failed: "

  /** `err.message || "An error occurred during processing"`. */
  function ErrorText(message: string): (r: string)
    ensures r != ""
    ensures message != "" ==> r == message
    ensures message == "" ==> r == FALLBACK_ERROR
  {
    if message != "" then message else FALLBACK_ERROR
  }

  /** `!data.transcript || data.transcript.trim() === ""`: the transcript is
      missing or holds only whitespace. */
  predicate IsBlank(transcript: Option<string>) {
    transcript.None? || forall k :: 0 <= k < |transcript.value| ==> IsJsSpace(transcript.value[k])
  }

  /** JavaScript's `trimStart`. */
  function TrimStart(s: string): (r: string)
    ensures |r| <= |s| && r == s[|s| - |r|..]
    ensures r != [] ==> !IsJsSpace(r[0])
    ensures forall k :: 0 <= k < |s| - |r| ==> IsJsSpace(s[k])
  {
    if s != [] && IsJsSpace(s[0]) then TrimStart(s[1..]) else s
  }

  /** JavaScript's `trimEnd`. */
  function TrimEnd(s: string): (r: string)
    ensures |r| <= |s| && r == s[..|r|]
    ensures r != [] ==> !IsJsSpace(r[|r| - 1])
    ensures forall k :: |r| <= k < |s| ==> IsJsSpace(s[k])
  {
    if s != [] && IsJsSpace(s[|s| - 1]) then
      var r := TrimEnd(s[..|s| - 1]);
      assert s[..|s| - 1][..|r|] == s[..|r|];
      r
    else s
  }

  /** JavaScript's `trim`. */
  function Trim(s: string): (r: string)
  {
    TrimEnd(TrimStart(s))
  }

  /** The blank test agrees with the code's `trim() === ""` check. */
  lemma IsBlankIsTrimEmpty(transcript: Option<string>)
    ensures IsBlank(transcript) <==> transcript.None? || Trim(transcript.value) == ""
  {
  }

  /** The effect of one step on the view. */
  function Apply(v: View, e: Effect): View {
    match e
    case SetProcessing(on) => v.(isProcessing := on)
    case SetError(m) => v.(error := m)
    case SetRawText(t) => v.(rawText := t)
    case SetCleanedText(t) => v.(cleanedText := t)
    case PostTranscribe => v
    case PostClean(_) => v
  }

  /** The steps applied in order. */
  function ApplyAll(v: View, es: seq<Effect>): View
    decreases |es|
  {
    if es == [] then v else Apply(ApplyAll(v, es[..|es| - 1]), es[|es| - 1])
  }

  /** The steps of the cleanup round trip, once the raw text has been
      published: the cleaned text on success, an error message otherwise. */
  function CleanSteps(transcript: string, cl: CleanOutcome): (es: seq<Effect>)
    ensures |es| == 3
    ensures es[0] == SetRawText(transcript) && es[1] == PostClean(transcript)
    ensures !IsRequest(es[2]) && !es[2].SetProcessing?
    ensures cl.CleanOk? ==> es[2] == SetCleanedText(cl.cleaned)
    ensures !cl.CleanOk? ==> es[2].SetError? && es[2].message != ""
  {
    [SetRawText(transcript), PostClean(transcript)]
      + match cl
        case CleanRejected(m) => [SetError(ErrorText(m))]
        case CleanNotOk(st) => [SetError(ErrorText(CLEANING_FAILED + st))]
        case CleanOk(c) => [SetCleanedText(c)]
  }

  /** The steps between the transcription request and the `finally`. */
  function AfterTranscribe(tr: TranscribeOutcome, cl: CleanOutcome): (es: seq<Effect>)
    ensures |es| == 1 || |es| == 3
    ensures |es| == 3 <==> ReachesCleanup(tr)
    ensures ReachesCleanup(tr) ==> es == CleanSteps(tr.transcript.value, cl)
    ensures |es| == 1 ==> es[0].SetError? && es[0].message != ""
    ensures forall k :: 0 <= k < |es| ==> !es[k].SetProcessing?
  {
    match tr
    case TranscribeRejected(m) => [SetError(ErrorText(m))]
    case TranscribeNotOk(st) => [SetError(ErrorText(TRANSCRIPTION_FAILED + st))]
    case TranscribeOk(t) =>
      if IsBlank(t) then [SetError(ErrorText(NO_SPEECH))]
      else CleanSteps(t.value, cl)
  }

  /** `sendAudioToBackend`: every step of one run, in order. */
  function Run(tr: TranscribeOutcome, cl: CleanOutcome): (es: seq<Effect>)
    ensures |es| == 5 || |es| == 7
    ensures es[0] == SetProcessing(true) && es[1] == SetError("") && es[2] == PostTranscribe
    ensures es[|es| - 1] == SetProcessing(false)
  {
    [SetProcessing(true), SetError(""), PostTranscribe] + AfterTranscribe(tr, cl) + [SetProcessing(false)]
  }

  /** Is this step a network request? */
  predicate IsRequest(e: Effect) {
    e.PostTranscribe? || e.PostClean?
  }

  /** The requests of a run, in the order they are issued. */
  function Requests(es: seq<Effect>): (rs: seq<Effect>)
    ensures |rs| <= |es|
    ensures forall k :: 0 <= k < |rs| ==> IsRequest(rs[k])
  {
    if es == [] then []
    else (if IsRequest(es[0]) then [es[0]] else []) + Requests(es[1..])
  }

  /** The transcript reached the cleanup step: the response was ok and the
      transcript was present and not blank. */
  predicate ReachesCleanup(tr: TranscribeOutcome) {
    tr.TranscribeOk? && !IsBlank(tr.transcript)
  }

  /** The view after one complete run. */
  function Process(prior: View, tr: TranscribeOutcome, cl: CleanOutcome): (v: View)
    ensures !v.isProcessing
    ensures v.error != "" <==> !(ReachesCleanup(tr) && cl.CleanOk?)
    ensures !ReachesCleanup(tr) ==> v.rawText == prior.rawText && v.cleanedText == prior.cleanedText
    ensures tr.TranscribeNotOk? ==> v.error == TRANSCRIPTION_FAILED + tr.statusText
    ensures tr.TranscribeRejected? ==> v.error == ErrorText(tr.message)
    ensures tr.TranscribeOk? && IsBlank(tr.transcript) ==> v.error == NO_SPEECH
    ensures ReachesCleanup(tr) ==> v.rawText == tr.transcript.value
    ensures ReachesCleanup(tr) && cl.CleanNotOk? ==>
              v.cleanedText == prior.cleanedText && v.error == CLEANING_FAILED + cl.statusText
    ensures ReachesCleanup(tr) && cl.CleanRejected? ==>
              v.cleanedText == prior.cleanedText && v.error == ErrorText(cl.message)
    ensures ReachesCleanup(tr) && cl.CleanOk? ==> v.cleanedText == cl.cleaned && v.error == ""
  {
    var head := [SetProcessing(true), SetError(""), PostTranscribe];
    var mid := AfterTranscribe(tr, cl);
    var tail := [SetProcessing(false)];
    ApplyAllConcat(prior, head + mid, tail);
    ApplyAllConcat(prior, head, mid);
    ApplyAllShort(prior, head);
    ApplyAllShort(ApplyAll(prior, head), mid);
    ApplyAllShort(ApplyAll(prior, head + mid), tail);
    ApplyAll(prior, Run(tr, cl))
  }

  /** A sequence of at most three steps, applied one at a time. */
  lemma ApplyAllShort(v: View, es: seq<Effect>)
    requires |es| <= 3
    ensures |es| == 1 ==> ApplyAll(v, es) == Apply(v, es[0])
    ensures |es| == 3 ==> ApplyAll(v, es) == Apply(Apply(Apply(v, es[0]), es[1]), es[2])
  {
    if |es| == 3 {
      assert es[..2][..1] == es[..1];
      assert es[..1][..0] == [];
    } else if |es| == 1 {
      assert es[..0] == [];
    }
  }

  /** Applying a concatenation is applying its halves in turn. */
  lemma ApplyAllConcat(v: View, a: seq<Effect>, b: seq<Effect>)
    ensures ApplyAll(v, a + b) == ApplyAll(ApplyAll(v, a), b)
  {
    ApplyAllSplit(v, a + b, |a|);
    assert (a + b)[..|a|] == a;
    assert (a + b)[|a|..] == b;
  }

  /** Applying a prefix one step longer. */
  lemma ApplyAllExtend(v: View, es: seq<Effect>, k: nat)
    requires k < |es|
    ensures ApplyAll(v, es[..k + 1]) == Apply(ApplyAll(v, es[..k]), es[k])
  {
    assert es[..k + 1][..k] == es[..k];
  }

  /** Steps that leave the processing flag alone. */
  lemma {:induction false} ProcessingUntouched(v: View, es: seq<Effect>)
    requires forall k :: 0 <= k < |es| ==> !es[k].SetProcessing?
    ensures ApplyAll(v, es).isProcessing == v.isProcessing
    decreases |es|
  {
    if es != [] {
      ProcessingUntouched(v, es[..|es| - 1]);
    }
  }

  /** `isProcessing` is true from the first step of a run up to, and not
      including, its last step, and false after the last one: the flag is
      released on every path, and only at the end. */
  lemma ProcessingHeldUntilEnd(prior: View, tr: TranscribeOutcome, cl: CleanOutcome)
    ensures var es := Run(tr, cl);
            && (forall k :: 1 <= k < |es| ==> ApplyAll(prior, es[..k]).isProcessing)
            && !ApplyAll(prior, es).isProcessing
  {
    var es := Run(tr, cl);
    var first := Apply(prior, es[0]);
    assert ApplyAll(prior, es[..1]) == first by {
      ApplyAllExtend(prior, es, 0);
    }
    forall k | 1 <= k < |es|
      ensures ApplyAll(prior, es[..k]).isProcessing
    {
      ApplyAllSplit(prior, es[..k], 1);
      assert es[..k][..1] == es[..1];
      var middle := es[..k][1..];
      assert forall j :: 0 <= j < |middle| ==> middle[j] == es[j + 1];
      ProcessingUntouched(first, middle);
    }
    ApplyAllExtend(prior, es, |es| - 1);
    assert es[..|es|] == es;
  }

  /** Applying a sequence is applying its prefix and then its suffix. */
  lemma {:induction false} ApplyAllSplit(v: View, es: seq<Effect>, k: nat)
    requires k <= |es|
    ensures ApplyAll(v, es) == ApplyAll(ApplyAll(v, es[..k]), es[k..])
    decreases |es|
  {
    if |es| == k {
      assert es[..k] == es;
      assert es[k..] == [];
    } else {
      var init := es[..|es| - 1];
      ApplyAllSplit(v, init, k);
      assert init[..k] == es[..k];
      assert es[k..][..|es[k..]| - 1] == init[k..];
    }
  }

  /** `Requests` distributes over concatenation. */
  lemma {:induction false} RequestsAppend(a: seq<Effect>, b: seq<Effect>)
    ensures Requests(a + b) == Requests(a) + Requests(b)
    decreases |a|
  {
    if a == [] {
      assert a + b == b;
    } else {
      RequestsAppend(a[1..], b);
      assert (a + b)[1..] == a[1..] + b;
    }
  }

  /** At most two requests per run, transcription first; the cleanup
      request is issued exactly when the transcript reached cleanup, and
      it carries the transcript exactly as received (not trimmed). */
  lemma RunRequests(tr: TranscribeOutcome, cl: CleanOutcome)
    ensures var rs := Requests(Run(tr, cl));
            && 1 <= |rs| <= 2
            && rs[0] == PostTranscribe
            && (|rs| == 2 <==> ReachesCleanup(tr))
            && (ReachesCleanup(tr) ==> rs[1] == PostClean(tr.transcript.value))
  {
    RunRequestsShape(tr, cl);
  }

  /** The requests of a run, listed. */
  lemma RunRequestsShape(tr: TranscribeOutcome, cl: CleanOutcome)
    ensures Requests(Run(tr, cl))
         == [PostTranscribe] + if ReachesCleanup(tr) then [PostClean(tr.transcript.value)] else []
  {
    var head := [SetProcessing(true), SetError(""), PostTranscribe];
    var mid := AfterTranscribe(tr, cl);
    assert Run(tr, cl) == head + mid + [SetProcessing(false)];
    RequestsAppend(head + mid, [SetProcessing(false)]);
    RequestsAppend(head, mid);
    FixedRequests();
    MidRequests(tr, cl);
    assert Requests(Run(tr, cl)) == [PostTranscribe] + Requests(mid) + [];
  }

  /** The fixed steps around a run issue only the transcription request. */
  lemma FixedRequests()
    ensures Requests([SetProcessing(true), SetError(""), PostTranscribe]) == [PostTranscribe]
    ensures Requests([SetProcessing(false)]) == []
  {
    var head := [SetProcessing(true), SetError(""), PostTranscribe];
    assert head[1..][1..][1..] == [];
  }

  /** Between the transcription request and the `finally`, the only
      request is the cleanup one, made exactly when the transcript reached
      cleanup. */
  lemma MidRequests(tr: TranscribeOutcome, cl: CleanOutcome)
    ensures Requests(AfterTranscribe(tr, cl))
         == if ReachesCleanup(tr) then [PostClean(tr.transcript.value)] else []
  {
    var mid := AfterTranscribe(tr, cl);
    if ReachesCleanup(tr) {
      var t := tr.transcript.value;
      var tail := mid[2..];
      assert mid == [SetRawText(t)] + ([PostClean(t)] + tail);
      RequestsAppend([SetRawText(t)], [PostClean(t)] + tail);
      RequestsAppend([PostClean(t)], tail);
      assert |tail| == 1 && !IsRequest(tail[0]);
      assert Requests(tail) == [] by {
        assert tail[1..] == [];
      }
    } else {
      assert |mid| == 1 && !IsRequest(mid[0]);
      assert mid[1..] == [];
    }
  }

  /** The raw transcript is published before the cleanup request is issued:
      in the view at the moment of that request, `rawText` already holds the
      very text sent and the run is still processing. */
  lemma RawTextBeforeCleanup(prior: View, tr: TranscribeOutcome, cl: CleanOutcome)
    requires ReachesCleanup(tr)
    ensures var es := Run(tr, cl);
            && es[4] == PostClean(tr.transcript.value)
            && es[3] == SetRawText(tr.transcript.value)
            && ApplyAll(prior, es[..4]).rawText == tr.transcript.value
            && ApplyAll(prior, es[..4]).isProcessing
  {
    var es := Run(tr, cl);
    ApplyAllExtend(prior, es, 3);
    ProcessingHeldUntilEnd(prior, tr, cl);
  }

  /** The cleanup outcome matters only when the cleanup request is issued. */
  lemma CleanOutcomeIgnoredWithoutCleanup(tr: TranscribeOutcome, cl1: CleanOutcome, cl2: CleanOutcome)
    requires !ReachesCleanup(tr)
    ensures Run(tr, cl1) == Run(tr, cl2)
  {
  }
}
