/** `POST /api/resume/analyze`: extracts a résumé's text and asks the text
    service for improvement suggestions. */
module ResumeAnalyzeRoute {
  import opened JsValues
  import opened Strings
  import opened Records
  import opened Stores
  import opened PdfText

  /** The JSON body `{ resumeId }`. */
  datatype AnalyzeBody = AnalyzeBody(resumeId: Option<string>)

  /** Trimmed texts shorter than this many UTF-16 code units are refused before
      the service is asked. */
  const MinTextLength: nat := 100

  const ReviewPreamble: string :=
    "You're a professional resume reviewer. Please analyze the following resume and suggest 2\U{2013}3 specific improvements to make it more effective for job applications:\n\n"

  /** The prompt, before URL encoding. */
  function ReviewPrompt(text: string): (p: string)
    ensures |p| == |ReviewPreamble| + |text| && p[|ReviewPreamble|..] == text
  {
    ReviewPreamble + text
  }

  /** What the route does, step by step. `body` is `None` when `req.json()`
      throws; `downloadFails` stands for a download error of the object store;
      `parse` for what the PDF reader reports on the bytes; `ai` for the text
      service, `None` when the request itself fails (its status is not looked at). */
  function Analysis(
    resumes: map<string, Resume>, objects: map<string, Bytes>, session: Option<SessionUser>,
    body: Option<AnalyzeBody>, downloadFails: bool, parse: Bytes -> PdfStream, ai: string -> Option<string>): AiExchange
  {
    if !HasUserId(session) then AiExchange(Failure(401, Says("Unauthorized")), None)
    else if body.None? then AiExchange(Failure(500, Relayed), None)
    else if !Truthy(body.value.resumeId) then AiExchange(Failure(400, Says("Missing resume ID")), None)
    else if body.value.resumeId.value !in resumes then AiExchange(Failure(404, Says("Resume not found")), None)
    else
      var path := resumes[body.value.resumeId.value].fileUrl;
      if downloadFails || path !in objects then AiExchange(Failure(500, Says("Failed to download resume")), None)
      else
        Review(ExtractedText(parse(objects[path])), ai)
  }

  /** What the route does once the file is downloaded: `text` is what the PDF
      reader extracted, `None` when it failed. */
  function Review(text: Option<string>, ai: string -> Option<string>): AiExchange {
    match text
    case None => AiExchange(Failure(500, Relayed), None)
    case Some(t) =>
      if Utf16Length(Trim(t)) < MinTextLength then
        AiExchange(Failure(400, Says("Resume text is too short or unreadable")), None)
      else
        var prompt := ReviewPrompt(t);
        match ai(prompt)
        case None => AiExchange(Failure(500, Relayed), Some(prompt))
        case Some(suggestions) => AiExchange(Success(200, suggestions), Some(prompt))
  }

  /** The text the route would extract from the résumé `id`, when it gets that far. */
  function ResumeText(resumes: map<string, Resume>, objects: map<string, Bytes>, id: string,
    downloadFails: bool, parse: Bytes -> PdfStream): Option<string>
  {
    if id in resumes && !downloadFails && resumes[id].fileUrl in objects then
      ExtractedText(parse(objects[resumes[id].fileUrl]))
    else None
  }

  /** The service is asked exactly when the caller is signed in, named an
      existing résumé whose text could be read, and that text is at least 100
      UTF-16 code units long once trimmed. */
  lemma PromptSentIff(
    resumes: map<string, Resume>, objects: map<string, Bytes>, session: Option<SessionUser>,
    body: Option<AnalyzeBody>, downloadFails: bool, parse: Bytes -> PdfStream, ai: string -> Option<string>)
    ensures Analysis(resumes, objects, session, body, downloadFails, parse, ai).prompt.Some? <==>
      && HasUserId(session) && body.Some? && Truthy(body.value.resumeId)
      && ResumeText(resumes, objects, body.value.resumeId.value, downloadFails, parse).Some?
      && Utf16Length(Trim(ResumeText(resumes, objects, body.value.resumeId.value, downloadFails, parse).value)) >= MinTextLength
  {
  }

  /** A prompt, when one is sent, is the fixed instruction followed by the
      extracted text, verbatim. */
  lemma PromptCarriesText(
    resumes: map<string, Resume>, objects: map<string, Bytes>, session: Option<SessionUser>,
    id: string, downloadFails: bool, parse: Bytes -> PdfStream, ai: string -> Option<string>)
    requires Analysis(resumes, objects, session, Some(AnalyzeBody(Some(id))), downloadFails, parse, ai).prompt.Some?
    ensures ResumeText(resumes, objects, id, downloadFails, parse).Some?
    ensures var prompt := Analysis(resumes, objects, session, Some(AnalyzeBody(Some(id))), downloadFails, parse, ai).prompt.value;
      var text := ResumeText(resumes, objects, id, downloadFails, parse).value;
      prompt == ReviewPrompt(text) && Contains(prompt, text)
  {
    var text := ResumeText(resumes, objects, id, downloadFails, parse).value;
    ContainsPart(ReviewPreamble, text, "");
    assert ReviewPreamble + text + "" == ReviewPrompt(text);
  }

  /** The answer is a success exactly when a prompt was sent and the service
      replied, and its body is the reply as received. */
  lemma SuccessIsTheReply(
    resumes: map<string, Resume>, objects: map<string, Bytes>, session: Option<SessionUser>,
    body: Option<AnalyzeBody>, downloadFails: bool, parse: Bytes -> PdfStream, ai: string -> Option<string>)
    ensures var out := Analysis(resumes, objects, session, body, downloadFails, parse, ai);
      out.response.Success? <==> out.prompt.Some? && ai(out.prompt.value).Some?
    ensures var out := Analysis(resumes, objects, session, body, downloadFails, parse, ai);
      out.response.Success? ==> out.response == Success(200, ai(out.prompt.value).value)
  {
    var out := Analysis(resumes, objects, session, body, downloadFails, parse, ai);
    if HasUserId(session) && body.Some? && Truthy(body.value.resumeId) && body.value.resumeId.value in resumes {
      var path := resumes[body.value.resumeId.value].fileUrl;
      if !downloadFails && path in objects {
        var text := ExtractedText(parse(objects[path]));
        if text.Some? && Utf16Length(Trim(text.value)) >= MinTextLength {
          assert out.prompt == Some(ReviewPrompt(text.value));
        } else {
          assert out.prompt == None && out.response.Failure?;
        }
      } else {
        assert out.prompt == None && out.response.Failure?;
      }
    } else {
      assert out.prompt == None && out.response.Failure?;
    }
  }

  /** The guards, in the order the route checks them. */
  lemma GuardOrder(
    resumes: map<string, Resume>, objects: map<string, Bytes>, session: Option<SessionUser>,
    body: Option<AnalyzeBody>, downloadFails: bool, parse: Bytes -> PdfStream, ai: string -> Option<string>)
    ensures var r := Analysis(resumes, objects, session, body, downloadFails, parse, ai).response;
      && (r.Code() == 401 <==> !HasUserId(session))
      && (r == Failure(400, Says("Missing resume ID")) <==> HasUserId(session) && body.Some? && !Truthy(body.value.resumeId))
      && (r.Code() == 404 <==>
            HasUserId(session) && body.Some? && Truthy(body.value.resumeId) && body.value.resumeId.value !in resumes)
      && (r == Failure(500, Says("Failed to download resume")) <==>
            HasUserId(session) && body.Some? && Truthy(body.value.resumeId) && body.value.resumeId.value in resumes &&
            (downloadFails || resumes[body.value.resumeId.value].fileUrl !in objects))
  {
    var r := Analysis(resumes, objects, session, body, downloadFails, parse, ai).response;
    if !HasUserId(session) {
      assert r == Failure(401, Says("Unauthorized"));
    } else if body.None? {
      assert r == Failure(500, Relayed);
    } else if !Truthy(body.value.resumeId) {
      assert r == Failure(400, Says("Missing resume ID"));
    } else if body.value.resumeId.value !in resumes {
      assert r == Failure(404, Says("Resume not found"));
    } else {
      var path := resumes[body.value.resumeId.value].fileUrl;
      if downloadFails || path !in objects {
        assert r == Failure(500, Says("Failed to download resume"));
      } else {
        AfterDownload(ExtractedText(parse(objects[path])), ai);
        assert r == Review(ExtractedText(parse(objects[path])), ai).response;
      }
    }
  }

  /** None of the answers after the download is one of the earlier guards'. */
  lemma AfterDownload(text: Option<string>, ai: string -> Option<string>)
    ensures var r := Review(text, ai).response;
      r.Code() != 401 && r.Code() != 404 && r != Failure(400, Says("Missing resume ID"))
      && r != Failure(500, Says("Failed to download resume"))
  {
    if text.Some? && Utf16Length(Trim(text.value)) < MinTextLength {
      ShortReview(text.value, ai);
    } else {
      ReviewRelaysOrSucceeds(text, ai);
    }
  }

  lemma ShortReview(text: string, ai: string -> Option<string>)
    requires Utf16Length(Trim(text)) < MinTextLength
    ensures Review(Some(text), ai) == AiExchange(Failure(400, Says("Resume text is too short or unreadable")), None)
  {
  }

  lemma ReviewRelaysOrSucceeds(text: Option<string>, ai: string -> Option<string>)
    requires text.Some? ==> Utf16Length(Trim(text.value)) >= MinTextLength
    ensures Review(text, ai).response.Success? || Review(text, ai).response == Failure(500, Relayed)
    ensures Review(text, ai).response.Success? ==> Review(text, ai).response.status == 200
  {
  }

  /** Texts under 100 UTF-16 code units once trimmed are refused with 400, and
      the service is not asked. */
  lemma ShortTextRefused(
    resumes: map<string, Resume>, objects: map<string, Bytes>, session: Option<SessionUser>,
    id: string, downloadFails: bool, parse: Bytes -> PdfStream, ai: string -> Option<string>)
    requires HasUserId(session) && id != ""
    requires ResumeText(resumes, objects, id, downloadFails, parse).Some?
    requires Utf16Length(Trim(ResumeText(resumes, objects, id, downloadFails, parse).value)) < MinTextLength
    ensures Analysis(resumes, objects, session, Some(AnalyzeBody(Some(id))), downloadFails, parse, ai) ==
      AiExchange(Failure(400, Says("Resume text is too short or unreadable")), None)
  {
    var text := ResumeText(resumes, objects, id, downloadFails, parse);
    assert Analysis(resumes, objects, session, Some(AnalyzeBody(Some(id))), downloadFails, parse, ai) == Review(text, ai);
  }

  /** The threshold counts UTF-16 code units, not characters: a text made of
      astral characters only (mathematical bold letters, say) needs just 50 of
      them to reach the service. */
  lemma AstralTextReachesService(text: string, ai: string -> Option<string>)
    requires forall i :: 0 <= i < |Trim(text)| ==> IsAstral(Trim(text)[i])
    requires |Trim(text)| >= MinTextLength / 2
    ensures Review(Some(text), ai).prompt == Some(ReviewPrompt(text))
  {
    AstralLengthReaches(Trim(text));
    ReviewAdmits(text, ai);
  }

  lemma AstralLengthReaches(t: string)
    requires forall i :: 0 <= i < |t| ==> IsAstral(t[i])
    requires |t| >= MinTextLength / 2
    ensures Utf16Length(t) >= MinTextLength
  {
    Utf16LengthOfAstral(t);
  }

  /** A text long enough once trimmed is sent, prefixed with the instruction. */
  lemma ReviewAdmits(text: string, ai: string -> Option<string>)
    requires Utf16Length(Trim(text)) >= MinTextLength
    ensures Review(Some(text), ai).prompt == Some(ReviewPrompt(text))
  {
  }

  /** Nothing ties the résumé to the caller: whoever owns it, and whichever
      signed-in user asks, the outcome is the same. */
  lemma OwnerIsIgnored(
    resumes: map<string, Resume>, objects: map<string, Bytes>, s1: Option<SessionUser>, s2: Option<SessionUser>,
    body: Option<AnalyzeBody>, id: string, owner: string,
    downloadFails: bool, parse: Bytes -> PdfStream, ai: string -> Option<string>)
    requires HasUserId(s1) && HasUserId(s2) && id in resumes
    ensures var other := resumes[id := resumes[id].(userId := owner)];
      Analysis(other, objects, s2, body, downloadFails, parse, ai) ==
      Analysis(resumes, objects, s1, body, downloadFails, parse, ai)
  {
    var other := resumes[id := resumes[id].(userId := owner)];
    assert forall k :: k in other <==> k in resumes;
    assert forall k :: k in other ==> other[k].fileUrl == resumes[k].fileUrl;
  }

  /** The route against the stores; the outbound prompt is returned beside the answer. */
  method Analyze(
    db: Db, session: Option<SessionUser>, body: Option<AnalyzeBody>,
    downloadFails: bool, parse: Bytes -> PdfStream, ai: string -> Option<string>)
    returns (response: Response<string>, prompt: Option<string>)
    ensures AiExchange(response, prompt) == Analysis(db.resumes, db.objects, session, body, downloadFails, parse, ai)
  {
    prompt := None;
    if !HasUserId(session) {
      return Failure(401, Says("Unauthorized")), None;
    }
    if body.None? {
      return Failure(500, Relayed), None;
    }
    var resumeId := body.value.resumeId;
    if !Truthy(resumeId) {
      return Failure(400, Says("Missing resume ID")), None;
    }
    var found := Lookup(db.resumes, resumeId.value);
    if found.None? {
      return Failure(404, Says("Resume not found")), None;
    }
    var path := found.value.fileUrl;
    if downloadFails || path !in db.objects {
      return Failure(500, Says("Failed to download resume")), None;
    }
    var parsedText := Parse(parse(db.objects[path]));
    if parsedText.None? {
      return Failure(500, Relayed), None;
    }
    if Utf16Length(Trim(parsedText.value)) < MinTextLength {
      return Failure(400, Says("Resume text is too short or unreadable")), None;
    }
    prompt := Some(ReviewPrompt(parsedText.value));
    var suggestions := ai(prompt.value);
    if suggestions.None? {
      return Failure(500, Relayed), prompt;
    }
    response := Success(200, suggestions.value);
  }
}
