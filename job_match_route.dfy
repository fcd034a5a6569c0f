/** `POST /api/jobs/match`: extracts a résumé's text and asks the text service
    to compare it with a job's description. */
module JobMatchRoute {
  import opened JsValues
  import opened Strings
  import opened Records
  import opened Stores
  import opened PdfText

  /** The JSON body `{ resumeId, jobId }`. */
  datatype MatchBody = MatchBody(resumeId: Option<string>, jobId: Option<string>)

  const MatchInstruction: string :=
    "\nCompare the following resume and job description. Give a match score (0\U{2013}100), list key missing skills, and suggest improvements.\n\nResume:\n"

  /** The prompt, before URL encoding. */
  function MatchPrompt(text: string, description: string): string {
    MatchInstruction + text + "\n\nJob Description:\n" + description + "\n"
  }

  /** The prompt carries the résumé text and the job description verbatim. */
  lemma MatchPromptCarriesBoth(text: string, description: string)
    ensures Contains(MatchPrompt(text, description), text)
    ensures Contains(MatchPrompt(text, description), description)
  {
    ContainsPart(MatchInstruction, text, "\n\nJob Description:\n" + description + "\n");
    assert MatchInstruction + text + ("\n\nJob Description:\n" + description + "\n") == MatchPrompt(text, description);
    ContainsPart(MatchInstruction + text + "\n\nJob Description:\n", description, "\n");
  }

  /** What the route does, step by step; the parameters are as for the analysis route. */
  function Matching(
    users: map<string, User>, resumes: map<string, Resume>, jobs: map<string, Job>, objects: map<string, Bytes>,
    session: Option<SessionUser>, body: Option<MatchBody>,
    downloadFails: bool, parse: Bytes -> PdfStream, ai: string -> Option<string>): AiExchange
    requires UniqueEmails(users)
  {
    if !HasEmail(session) then AiExchange(Failure(401, Says("Unauthorized")), None)
    else if body.None? then AiExchange(Failure(500, Relayed), None)
    else if !Truthy(body.value.resumeId) || !Truthy(body.value.jobId) then
      AiExchange(Failure(400, Says("Missing resume or job ID")), None)
    else if UserWithEmail(users, session.value.email.value).None? then
      AiExchange(Failure(404, Says("User not found")), None)
    else if body.value.resumeId.value !in resumes || body.value.jobId.value !in jobs then
      AiExchange(Failure(404, Says("Resume or Job not found")), None)
    else
      var path := resumes[body.value.resumeId.value].fileUrl;
      if downloadFails || path !in objects then AiExchange(Failure(500, Says("Failed to download resume")), None)
      else Compare(ExtractedText(parse(objects[path])), jobs[body.value.jobId.value].description, ai)
  }

  /** What the route does once the file is downloaded: `text` is what the PDF
      reader extracted, `None` when it failed. */
  function Compare(text: Option<string>, description: string, ai: string -> Option<string>): AiExchange {
    match text
    case None => AiExchange(Failure(500, Relayed), None)
    case Some(t) =>
      var prompt := MatchPrompt(t, description);
      match ai(prompt)
      case None => AiExchange(Failure(500, Relayed), Some(prompt))
      case Some(feedback) => AiExchange(Success(200, feedback), Some(prompt))
  }

  /** The preconditions of a comparison: a signed-in email with a user row, and
      an existing résumé and job. */
  predicate Admitted(
    users: map<string, User>, resumes: map<string, Resume>, jobs: map<string, Job>,
    session: Option<SessionUser>, resumeId: string, jobId: string)
  {
    HasEmail(session) && EmailTaken(users, session.value.email.value) &&
    resumeId != "" && jobId != "" && resumeId in resumes && jobId in jobs
  }

  /** With the request admitted and the file read, the service is always asked,
      however short the extracted text (there is no length check here, unlike
      the analysis route), and the prompt holds both the text and the job's
      description. */
  lemma AdmittedRequestReachesService(
    users: map<string, User>, resumes: map<string, Resume>, jobs: map<string, Job>, objects: map<string, Bytes>,
    session: Option<SessionUser>, resumeId: string, jobId: string,
    downloadFails: bool, parse: Bytes -> PdfStream, ai: string -> Option<string>)
    requires UniqueEmails(users)
    requires Admitted(users, resumes, jobs, session, resumeId, jobId)
    requires !downloadFails && resumes[resumeId].fileUrl in objects
    requires parse(objects[resumes[resumeId].fileUrl]).ending == EndOfDocument
    ensures var out := Matching(users, resumes, jobs, objects, session,
        Some(MatchBody(Some(resumeId), Some(jobId))), downloadFails, parse, ai);
      var text := ExtractedText(parse(objects[resumes[resumeId].fileUrl])).value;
      && out.prompt == Some(MatchPrompt(text, jobs[jobId].description))
      && Contains(out.prompt.value, text) && Contains(out.prompt.value, jobs[jobId].description)
      && (out.response.Success? <==> ai(out.prompt.value).Some?)
      && (out.response.Success? ==> out.response.body == ai(out.prompt.value).value)
  {
    var text := ExtractedText(parse(objects[resumes[resumeId].fileUrl])).value;
    MatchPromptCarriesBoth(text, jobs[jobId].description);
  }

  /** A prompt is sent only for an admitted request whose file was read. */
  lemma PromptOnlyWhenAdmitted(
    users: map<string, User>, resumes: map<string, Resume>, jobs: map<string, Job>, objects: map<string, Bytes>,
    session: Option<SessionUser>, body: Option<MatchBody>,
    downloadFails: bool, parse: Bytes -> PdfStream, ai: string -> Option<string>)
    requires UniqueEmails(users)
    requires Matching(users, resumes, jobs, objects, session, body, downloadFails, parse, ai).prompt.Some?
    ensures body.Some? && body.value.resumeId.Some? && body.value.jobId.Some?
    ensures Admitted(users, resumes, jobs, session, body.value.resumeId.value, body.value.jobId.value)
    ensures !downloadFails && resumes[body.value.resumeId.value].fileUrl in objects
  {
  }

  /** The guards, in the order the route checks them. */
  lemma GuardOrder(
    users: map<string, User>, resumes: map<string, Resume>, jobs: map<string, Job>, objects: map<string, Bytes>,
    session: Option<SessionUser>, body: Option<MatchBody>,
    downloadFails: bool, parse: Bytes -> PdfStream, ai: string -> Option<string>)
    requires UniqueEmails(users)
    ensures var r := Matching(users, resumes, jobs, objects, session, body, downloadFails, parse, ai).response;
      && (r.Code() == 401 <==> !HasEmail(session))
      && (r.Code() == 400 <==>
            HasEmail(session) && body.Some? && (!Truthy(body.value.resumeId) || !Truthy(body.value.jobId)))
      && (r == Failure(404, Says("User not found")) <==>
            HasEmail(session) && body.Some? && Truthy(body.value.resumeId) && Truthy(body.value.jobId) &&
            !EmailTaken(users, session.value.email.value))
      && (r == Failure(404, Says("Resume or Job not found")) <==>
            HasEmail(session) && body.Some? && Truthy(body.value.resumeId) && Truthy(body.value.jobId) &&
            EmailTaken(users, session.value.email.value) &&
            (body.value.resumeId.value !in resumes || body.value.jobId.value !in jobs))
      && (r == Failure(500, Says("Failed to download resume")) <==>
            HasEmail(session) && body.Some? && Truthy(body.value.resumeId) && Truthy(body.value.jobId) &&
            EmailTaken(users, session.value.email.value) &&
            body.value.resumeId.value in resumes && body.value.jobId.value in jobs &&
            (downloadFails || resumes[body.value.resumeId.value].fileUrl !in objects))
  {
    var r := Matching(users, resumes, jobs, objects, session, body, downloadFails, parse, ai).response;
    if !HasEmail(session) {
      assert r == Failure(401, Says("Unauthorized"));
    } else if body.None? {
      assert r == Failure(500, Relayed);
    } else if !Truthy(body.value.resumeId) || !Truthy(body.value.jobId) {
      assert r == Failure(400, Says("Missing resume or job ID"));
    } else if !EmailTaken(users, session.value.email.value) {
      assert r == Failure(404, Says("User not found"));
    } else if body.value.resumeId.value !in resumes || body.value.jobId.value !in jobs {
      assert r == Failure(404, Says("Resume or Job not found"));
    } else {
      var path := resumes[body.value.resumeId.value].fileUrl;
      if downloadFails || path !in objects {
        assert r == Failure(500, Says("Failed to download resume"));
      } else {
        var text := ExtractedText(parse(objects[path]));
        var description := jobs[body.value.jobId.value].description;
        CompareAfterGuards(text, description, ai);
        assert r == Compare(text, description, ai).response;
      }
    }
  }

  /** None of the answers after the download is one of the earlier guards'. */
  lemma CompareAfterGuards(text: Option<string>, description: string, ai: string -> Option<string>)
    ensures var r := Compare(text, description, ai).response;
      r.Code() == 200 || r == Failure(500, Relayed)
  {
  }

  /** Nothing ties the résumé or the job to the caller, or to each other: a
      signed-in user may compare anyone's résumé with anyone's job. */
  lemma OwnersAreIgnored(
    users: map<string, User>, resumes: map<string, Resume>, jobs: map<string, Job>, objects: map<string, Bytes>,
    session: Option<SessionUser>, body: Option<MatchBody>, resumeId: string, jobId: string, o1: string, o2: string,
    downloadFails: bool, parse: Bytes -> PdfStream, ai: string -> Option<string>)
    requires UniqueEmails(users) && resumeId in resumes && jobId in jobs
    ensures var resumes' := resumes[resumeId := resumes[resumeId].(userId := o1)];
      var jobs' := jobs[jobId := jobs[jobId].(userId := o2)];
      Matching(users, resumes', jobs', objects, session, body, downloadFails, parse, ai) ==
      Matching(users, resumes, jobs, objects, session, body, downloadFails, parse, ai)
  {
    var resumes' := resumes[resumeId := resumes[resumeId].(userId := o1)];
    var jobs' := jobs[jobId := jobs[jobId].(userId := o2)];
    assert forall k :: k in resumes' <==> k in resumes;
    assert forall k :: k in resumes' ==> resumes'[k].fileUrl == resumes[k].fileUrl;
    assert forall k :: k in jobs' <==> k in jobs;
    assert forall k :: k in jobs' ==> jobs'[k].description == jobs[k].description;
  }

  /** The route against the stores; the outbound prompt is returned beside the answer. */
  method Match(
    db: Db, session: Option<SessionUser>, body: Option<MatchBody>,
    downloadFails: bool, parse: Bytes -> PdfStream, ai: string -> Option<string>)
    returns (response: Response<string>, prompt: Option<string>)
    requires db.Valid()
    ensures AiExchange(response, prompt) ==
      Matching(db.users, db.resumes, db.jobs, db.objects, session, body, downloadFails, parse, ai)
  {
    prompt := None;
    if !HasEmail(session) {
      return Failure(401, Says("Unauthorized")), None;
    }
    if body.None? {
      return Failure(500, Relayed), None;
    }
    var resumeId, jobId := body.value.resumeId, body.value.jobId;
    if !Truthy(resumeId) || !Truthy(jobId) {
      return Failure(400, Says("Missing resume or job ID")), None;
    }
    var user := UserWithEmail(db.users, session.value.email.value);
    if user.None? {
      return Failure(404, Says("User not found")), None;
    }
    var resume := Lookup(db.resumes, resumeId.value);
    var job := Lookup(db.jobs, jobId.value);
    if resume.None? || job.None? {
      return Failure(404, Says("Resume or Job not found")), None;
    }
    var path := resume.value.fileUrl;
    if downloadFails || path !in db.objects {
      return Failure(500, Says("Failed to download resume")), None;
    }
    var parsedText := Parse(parse(db.objects[path]));
    if parsedText.None? {
      return Failure(500, Relayed), None;
    }
    prompt := Some(MatchPrompt(parsedText.value, job.value.description));
    var matchFeedback := ai(prompt.value);
    if matchFeedback.None? {
      return Failure(500, Relayed), prompt;
    }
    response := Success(200, matchFeedback.value);
  }
}
