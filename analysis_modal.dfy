/** The analysis dialog: it splits the AI's free-text reply into numbered
    suggestions and shows one at a time, with Previous/Next buttons moving a
    cursor that is clamped at both ends. */
module AnalysisModal {
  import opened JsValues
  import Segmentation

  /** `handlePrev`'s update: `prev > 0 ? prev - 1 : prev`. */
  function PrevIndex(i: int): int {
    if i > 0 then i - 1 else i
  }

  /** `handleNext`'s update: `prev < suggestions.length - 1 ? prev + 1 : prev`. */
  function NextIndex(i: int, len: nat): int {
    if i < len - 1 then i + 1 else i
  }

  /** Where the cursor may be: a valid position, or 0 when there is nothing to show. */
  predicate InRange(i: int, len: nat) {
    if len == 0 then i == 0 else 0 <= i <= len - 1
  }

  /** `disabled={currentIndex === 0}` on Previous. */
  predicate PrevDisabled(i: int) {
    i == 0
  }

  /** `disabled={currentIndex === suggestions.length - 1}` on Next. */
  predicate NextDisabled(i: int, len: nat) {
    i == len - 1
  }

  datatype Click = Prev | Next

  /** The cursor after a sequence of clicks, applied left to right. */
  function Run(i: int, len: nat, clicks: seq<Click>): int
    decreases |clicks|
  {
    if clicks == [] then i
    else
      var j := match clicks[0] case Prev => PrevIndex(i) case Next => NextIndex(i, len);
      Run(j, len, clicks[1..])
  }

  /** One click keeps the cursor in range. */
  lemma StepInRange(i: int, len: nat)
    requires InRange(i, len)
    ensures InRange(PrevIndex(i), len) && InRange(NextIndex(i, len), len)
  {
  }

  /** Whatever the user clicks, starting in range (the initial 0 is), the cursor stays in range. */
  lemma {:induction false} RunInRange(i: int, len: nat, clicks: seq<Click>)
    requires InRange(i, len)
    ensures InRange(Run(i, len, clicks), len)
    decreases |clicks|
  {
    if clicks != [] {
      StepInRange(i, len);
      var j := match clicks[0] case Prev => PrevIndex(i) case Next => NextIndex(i, len);
      RunInRange(j, len, clicks[1..]);
    }
  }

  /** From the initial cursor 0, any clicks keep `0 <= index <= len - 1`
      when there are suggestions, and keep the index at 0 when there are none. */
  lemma ClicksFromStart(len: nat, clicks: seq<Click>)
    ensures len >= 1 ==> 0 <= Run(0, len, clicks) <= len - 1
    ensures len == 0 ==> Run(0, len, clicks) == 0
  {
    RunInRange(0, len, clicks);
  }

  /** With at least one suggestion, a button is disabled exactly when its
      handler would leave the cursor where it is; an enabled button moves the
      cursor by exactly one. */
  lemma DisabledIffNoMove(i: int, len: nat)
    requires len >= 1 && InRange(i, len)
    ensures PrevDisabled(i) <==> PrevIndex(i) == i
    ensures NextDisabled(i, len) <==> NextIndex(i, len) == i
    ensures !PrevDisabled(i) ==> PrevIndex(i) == i - 1
    ensures !NextDisabled(i, len) ==> NextIndex(i, len) == i + 1
  {
  }

  /** With no suggestions, Next stays enabled although clicking it does nothing. */
  lemma NoSuggestionsNextEnabled()
    ensures !NextDisabled(0, 0) && NextIndex(0, 0) == 0
  {
  }

  /** The dialog's state: the suggestions derived from its `content` prop and the cursor. */
  class Modal {
    const content: string
    const suggestions: seq<string>
    var currentIndex: int

    ghost predicate Valid()
      reads this
    {
      suggestions == Segmentation.Segments(content) && InRange(currentIndex, |suggestions|)
    }

    constructor (content: string)
      ensures Valid()
      ensures this.content == content && currentIndex == 0
    {
      this.content := content;
      suggestions := Segmentation.Segments(content);
      currentIndex := 0;
    }

    method HandlePrev()
      requires Valid()
      modifies this
      ensures Valid()
      ensures currentIndex == PrevIndex(old(currentIndex))
    {
      if currentIndex > 0 {
        currentIndex := currentIndex - 1;
      }
    }

    method HandleNext()
      requires Valid()
      modifies this
      ensures Valid()
      ensures currentIndex == NextIndex(old(currentIndex), |suggestions|)
    {
      if currentIndex < |suggestions| - 1 {
        currentIndex := currentIndex + 1;
      }
    }

    /** `{suggestions[currentIndex]}`: the suggestion on screen, if any. */
    function Shown(): (r: Option<string>)
      requires Valid()
      reads this
      ensures r.Some? <==> |suggestions| > 0
      ensures r.Some? ==> r.value in suggestions
    {
      if currentIndex < |suggestions| then Some(suggestions[currentIndex]) else None
    }
  }
}
