/**
 The decision logic of `HotkeyService._default_callback`: which sound cues
 play, in which order, and whether the analysis is appended to the
 knowledge store. The screenshot (base64 text, empty on capture failure)
 and the vision call's outcome are opaque inputs.
 */
module Feedback {
  import opened Strings
  import opened Knowledge

  datatype Cue = Start | Complete | Error

  /** Outcome of the vision call: the reply's text, or the exception's message. */
  datatype Analysis = Reply(content: string) | Failed(reason: string)

  /** The text `_analyze_image` returns when the call raises. */
  const FailurePrefix: string := "\U{274C} Failed to analyze image: "

  /** The substring the callback tests the analysis for. */
  const FailureMarker: string := "Failed to analyze"

  /** `_analyze_image`'s return value. */
  function AnalysisText(a: Analysis): (r: string)
    ensures a.Reply? ==> r == a.content
    ensures a.Failed? ==> Contains(r, FailureMarker)
    ensures a.Failed? ==>
      |r| >= |FailurePrefix| && r[..|FailurePrefix|] == FailurePrefix && r[|FailurePrefix|..] == a.reason
  {
    match a
    case Reply(content) => content
    case Failed(reason) =>
      assert FailurePrefix == "\U{274C} " + FailureMarker + " image: ";
      ContainsMiddle("\U{274C} ", FailureMarker, " image: " + reason);
      assert "\U{274C} " + FailureMarker + (" image: " + reason) == FailurePrefix + reason;
      FailurePrefix + reason
  }

  /** The second cue: error when the analysis text mentions a failure. */
  function AnalysisCue(text: string): (c: Cue)
    ensures c == Error <==> Contains(text, FailureMarker)
    ensures c != Start
  {
    if Contains(text, FailureMarker) then Error else Complete
  }

  /** Everything one callback run does that is visible from outside. */
  datatype Effects = Effects(cues: seq<Cue>, analysis: Option<string>, store: Store)

  /** `_default_callback`, given what the capture and the vision call produced. */
  function DefaultCallback(screenshot: string, outcome: Analysis, root: Option<string>,
                           day: string, clock: string, store: Store): (r: Effects)
    ensures |r.cues| >= 1 && r.cues[0] == Start
    ensures screenshot == "" <==> r.cues == [Start]
    ensures screenshot == "" ==> r.analysis == None && r.store == store
    ensures screenshot != "" ==>
      && |r.cues| == 3
      && r.analysis == Some(AnalysisText(outcome))
      && (r.cues[1] == Error <==> Contains(AnalysisText(outcome), FailureMarker))
      && r.cues[1] != Start
      && (r.cues[2] == Complete <==> IsSet(root))
      && (r.cues[2] == Error <==> !IsSet(root))
    ensures screenshot != "" && IsSet(root) ==> r.store == Append(store, root, day, clock, AnalysisText(outcome))
    ensures !(screenshot != "" && IsSet(root)) ==> r.store == store
  {
    if screenshot == "" then Effects([Start], None, store)
    else
      var text := AnalysisText(outcome);
      var second := AnalysisCue(text);
      if IsSet(root) then
        Effects([Start, second, Complete], Some(text), Append(store, root, day, clock, text))
      else
        Effects([Start, second, Error], Some(text), store)
  }

  /** A failed vision call is signalled by an error cue right after the start cue. */
  lemma FailedAnalysisSignalsError(screenshot: string, reason: string, root: Option<string>,
                                   day: string, clock: string, store: Store)
    requires screenshot != ""
    ensures DefaultCallback(screenshot, Failed(reason), root, day, clock, store).cues[..2] == [Start, Error]
  {
  }

  /** A failed analysis is still written to the store, failure text and all. */
  lemma FailedAnalysisStillAppended(screenshot: string, reason: string, root: Option<string>,
                                    day: string, clock: string, store: Store)
    requires screenshot != "" && IsSet(root)
    ensures
      var r := DefaultCallback(screenshot, Failed(reason), root, day, clock, store);
      var path := KnowledgeFile(root, day).value;
      && r.cues == [Start, Error, Complete]
      && r.store[path] == Contents(store, path) + Entry(clock, FailurePrefix + reason)
  {
  }

  /**
   A successful analysis with no store configured ends on an error cue,
   although nothing failed.
   */
  lemma SuccessWithoutStoreEndsInError(screenshot: string, content: string, root: Option<string>,
                                       day: string, clock: string, store: Store)
    requires screenshot != "" && !IsSet(root)
    requires !Contains(content, FailureMarker)
    ensures DefaultCallback(screenshot, Reply(content), root, day, clock, store)
      == Effects([Start, Complete, Error], Some(content), store)
  {
  }

  /** A reply whose text happens to mention the marker is signalled as a failure too. */
  lemma ReplyMentioningFailureSignalsError(screenshot: string, before: string, after: string,
                                           root: Option<string>, day: string, clock: string, store: Store)
    requires screenshot != ""
    ensures DefaultCallback(screenshot, Reply(before + FailureMarker + after), root, day, clock, store).cues[1] == Error
  {
    ContainsMiddle(before, FailureMarker, after);
  }
}
