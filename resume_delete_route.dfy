/** `POST /api/resume/delete`: removes a résumé's object and then its row. */
module ResumeDeleteRoute {
  import opened JsValues
  import opened Records
  import opened Stores

  /** The JSON body `{ resumeId }`; a missing field is `None`. */
  datatype DeleteBody = DeleteBody(resumeId: Option<string>)

  /** `body` is `None` when `req.json()` throws; a missing `resumeId` makes
      `findUnique` throw. `removeFails` stands for an error the object store
      reports, which is rethrown: the row is then kept. The route checks that
      someone is signed in, not that they own the résumé. */
  method Post(db: Db, session: Option<SessionUser>, body: Option<DeleteBody>, removeFails: bool)
    returns (response: Response<bool>)
    requires db.Valid()
    modifies db
    ensures db.Valid()
    ensures db.users == old(db.users) && db.jobs == old(db.jobs)
    ensures !HasEmail(session) ==> response == Failure(401, Says("Unauthorized"))
    ensures HasEmail(session) && (body.None? || body.value.resumeId.None?) ==> response == Failure(500, Relayed)
    ensures HasEmail(session) && body.Some? && body.value.resumeId.Some? ==>
      var id := body.value.resumeId.value;
      && (id !in old(db.resumes) ==> response == Failure(404, Says("Resume not found")))
      && (id in old(db.resumes) && removeFails ==> response == Failure(500, Relayed))
      && (id in old(db.resumes) && !removeFails ==>
            && response == Success(200, true)
            && db.resumes == old(db.resumes) - {id}
            && db.objects == old(db.objects) - {old(db.resumes)[id].fileUrl}
            && db.writes == old(db.writes) + [ObjectRemoved(old(db.resumes)[id].fileUrl), ResumeDeleted(id)])
    ensures !response.Success? ==>
      db.resumes == old(db.resumes) && db.objects == old(db.objects) && db.writes == old(db.writes)
  {
    if !HasEmail(session) {
      return Failure(401, Says("Unauthorized"));
    }
    if body.None? || body.value.resumeId.None? {
      return Failure(500, Relayed);
    }
    var found := Lookup(db.resumes, body.value.resumeId.value);
    if found.None? {
      return Failure(404, Says("Resume not found"));
    }
    var resume := found.value;
    if removeFails {
      return Failure(500, Relayed);
    }
    db.RemoveObject(resume.fileUrl);
    db.DeleteResume(resume.id);
    response := Success(200, true);
  }
}
