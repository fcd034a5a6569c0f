/** The match dialog of the jobs page: the user picks a résumé, runs the match
    against the dialog's job, and pages through the numbered feedback. */
module MatchModal {
  import opened JsValues
  import opened Records
  import Segmentation

  /** The JSON body `handleMatch` posts to the match route. */
  datatype MatchRequest = MatchRequest(resumeId: string, jobId: string)

  function Max(a: int, b: int): int { if a >= b then a else b }
  function Min(a: int, b: int): int { if a <= b then a else b }

  /** Previous: `Math.max(i - 1, 0)`. */
  function PrevIndex(i: int): int { Max(i - 1, 0) }

  /** Next: `Math.min(i + 1, feedback.length - 1)`. */
  function NextIndex(i: int, len: nat): int { Min(i + 1, len - 1) }

  /** The pager (`feedback.length > 0 && ...`) is the only place the buttons exist. From an
      in-range cursor both buttons keep it in range; Previous never goes below 0 and
      Next never past the last segment. */
  lemma PagerStaysInRange(i: int, len: nat)
    requires len > 0 && 0 <= i < len
    ensures 0 <= PrevIndex(i) < len && 0 <= NextIndex(i, len) < len
    ensures PrevIndex(i) == (if i == 0 then 0 else i - 1)
    ensures NextIndex(i, len) == (if i == len - 1 then i else i + 1)
  {
  }

  /** A cursor left past the end by an earlier, longer feedback is pulled back to
      the last segment by one click on Next. */
  lemma NextRepairsStaleIndex(i: int, len: nat)
    requires len > 0 && i >= len
    ensures NextIndex(i, len) == len - 1
  {
  }

  /** Previous does not repair a cursor that is two or more past the end. */
  lemma PrevKeepsStaleIndex(i: int, len: nat)
    requires len > 0 && i > len
    ensures PrevIndex(i) >= len
  {
  }

  /** The segment on screen for a cursor, if the cursor points at one. */
  function Displayed(feedback: seq<string>, i: int): (r: Option<string>)
    ensures r.Some? <==> 0 <= i < |feedback|
    ensures r.Some? ==> r.value == feedback[i]
  {
    if 0 <= i < |feedback| then Some(feedback[i]) else None
  }

  /** Because `handleMatch` keeps the cursor, a new, shorter feedback leaves it
      past the end: the pager is shown with an empty segment and "i + 1 of n"
      with i + 1 > n, and a click on Next brings the last segment back. */
  lemma StaleCursorShowsNothing(feedback: seq<string>, i: int)
    requires 0 < |feedback| <= i
    ensures Displayed(feedback, i) == None
    ensures Displayed(feedback, NextIndex(i, |feedback|)) == Some(feedback[|feedback| - 1])
  {
    NextRepairsStaleIndex(i, |feedback|);
  }

  class Modal {
    const jobId: string
    var resumes: seq<ResumeEntry>
    var selectedResumeId: Option<string>
    var feedback: seq<string>
    var currentIndex: int
    var loading: bool

    constructor (jobId: string)
      ensures this.jobId == jobId
      ensures resumes == [] && selectedResumeId == None && feedback == [] && currentIndex == 0 && !loading
    {
      this.jobId := jobId;
      resumes, selectedResumeId, feedback, currentIndex, loading := [], None, [], 0, false;
    }

    /** `setResumes(data.resumes || [])`; `reply` is the `resumes` field of the listing's answer. */
    method FetchResumes(reply: Option<seq<ResumeEntry>>)
      modifies this
      ensures resumes == reply.OrElse([])
      ensures selectedResumeId == old(selectedResumeId) && feedback == old(feedback)
      ensures currentIndex == old(currentIndex) && loading == old(loading)
    {
      resumes := if reply.Some? then reply.value else [];
    }

    /** The select's `onValueChange`. */
    method SelectResume(id: string)
      modifies this
      ensures selectedResumeId == Some(id)
      ensures resumes == old(resumes) && feedback == old(feedback)
      ensures currentIndex == old(currentIndex) && loading == old(loading)
    {
      selectedResumeId := Some(id);
    }

    /** `disabled={!selectedResumeId || loading}` on Run Match. */
    function RunDisabled(): bool
      reads this
    {
      !Truthy(selectedResumeId) || loading
    }

    /** The pager is rendered only when there is feedback. */
    function PagerShown(): bool
      reads this
    {
      |feedback| > 0
    }

    /** `handleMatch`: with a résumé selected, posts `{ resumeId, jobId }` and
        segments the `matchFeedback` of the answer. `reply` is that field,
        `None` when the answer has none (an error answer), in which case
        `.split` throws: the feedback is kept and `loading` stays set. The
        cursor is never reset. `loadingWhileInFlight` is `loading` as it is
        while the request is outstanding. */
    method HandleMatch(reply: Option<string>) returns (request: Option<MatchRequest>, ghost loadingWhileInFlight: bool)
      modifies this
      ensures resumes == old(resumes) && selectedResumeId == old(selectedResumeId)
      ensures currentIndex == old(currentIndex)
      ensures !Truthy(old(selectedResumeId)) ==>
        request == None && feedback == old(feedback) && loading == old(loading)
      ensures Truthy(old(selectedResumeId)) ==>
        request == Some(MatchRequest(old(selectedResumeId).value, jobId)) && loadingWhileInFlight
      ensures !old(RunDisabled()) ==> request.Some?
      ensures Truthy(old(selectedResumeId)) && reply.Some? ==>
        feedback == Segmentation.Segments(reply.value) && !loading
      ensures Truthy(old(selectedResumeId)) && reply.None? ==>
        feedback == old(feedback) && loading
    {
      loadingWhileInFlight := loading;
      if !Truthy(selectedResumeId) {
        request := None;
        return;
      }
      loading := true;
      request := Some(MatchRequest(selectedResumeId.value, jobId));
      loadingWhileInFlight := loading;
      if reply.None? {
        return;
      }
      feedback := Segmentation.Segments(reply.value);
      loading := false;
    }

    /** `disabled={currentIndex === 0}` on Previous. */
    function PrevDisabled(): bool
      reads this
    {
      currentIndex == 0
    }

    /** `disabled={currentIndex === feedback.length - 1}` on Next. */
    function NextDisabled(): bool
      reads this
    {
      currentIndex == |feedback| - 1
    }

    /** `{feedback[currentIndex]}`. */
    function Shown(): Option<string>
      reads this
    {
      Displayed(feedback, currentIndex)
    }

    method Prev()
      requires PagerShown()
      modifies this
      ensures currentIndex == PrevIndex(old(currentIndex))
      ensures resumes == old(resumes) && selectedResumeId == old(selectedResumeId)
      ensures feedback == old(feedback) && loading == old(loading)
    {
      currentIndex := Max(currentIndex - 1, 0);
    }

    method Next()
      requires PagerShown()
      modifies this
      ensures currentIndex == NextIndex(old(currentIndex), |feedback|)
      ensures resumes == old(resumes) && selectedResumeId == old(selectedResumeId)
      ensures feedback == old(feedback) && loading == old(loading)
    {
      currentIndex := Min(currentIndex + 1, |feedback| - 1);
    }
  }

  /** Run Match is enabled exactly when a non-empty résumé id is selected and no
      request is in flight. */
  lemma RunEnabledIff(m: Modal)
    ensures !m.RunDisabled() <==> m.selectedResumeId.Some? && m.selectedResumeId.value != "" && !m.loading
  {
  }

  /** With the cursor on a segment, the pager shows that segment, Previous is
      disabled only on the first and Next only on the last. */
  lemma PagerControls(m: Modal)
    requires 0 <= m.currentIndex < |m.feedback|
    ensures m.PagerShown() && m.Shown() == Some(m.feedback[m.currentIndex])
    ensures m.PrevDisabled() <==> m.currentIndex == 0
    ensures m.NextDisabled() <==> m.currentIndex == |m.feedback| - 1
  {
  }

  /** With the cursor left past the end of a shorter feedback, the pager is
      shown with no segment and both buttons are enabled. */
  lemma StaleCursorControls(m: Modal)
    requires 0 < |m.feedback| <= m.currentIndex
    ensures m.PagerShown() && m.Shown() == None
    ensures !m.PrevDisabled() && !m.NextDisabled()
  {
    StaleCursorShowsNothing(m.feedback, m.currentIndex);
  }
}
