/** `POST /api/resume/upload`: stores a PDF in the object store, records it,
    and answers with an hour-long link to it. */
module ResumeUploadRoute {
  import opened JsValues
  import opened Records
  import opened Stores
  import opened StoragePaths
  import ResumeListRoute

  /** The multipart form; `file` is `None` when the form has no `file` field. */
  datatype UploadForm = UploadForm(file: Option<Bytes>)

  /** `form` is `None` when `req.formData()` throws. `uploadFails` stands for
      an upload error the store reports for reasons of its own; an upload to a
      path already taken fails too (`upsert: false`). `sign` stands for
      `createSignedUrl`. Failures after the upload leave the object behind
      with no row pointing at it. */
  method Post(
    db: Db, session: Option<SessionUser>, form: Option<UploadForm>, now: nat,
    uploadFails: bool, sign: (string, nat) -> Option<string>, freshId: string)
    returns (response: Response<string>)
    requires db.Valid() && freshId !in db.resumes
    modifies db
    ensures db.Valid()
    ensures db.users == old(db.users) && db.jobs == old(db.jobs)
    ensures !(HasUserId(session) && HasEmail(session)) ==>
      response == Failure(401, Says("Unauthorized. Session missing.")) && db.writes == old(db.writes)
    ensures HasUserId(session) && HasEmail(session) && form.None? ==>
      response == Failure(500, Relayed) && db.writes == old(db.writes)
    ensures HasUserId(session) && HasEmail(session) && form.Some? && form.value.file.None? ==>
      response == Failure(400, Says("No file uploaded")) && db.writes == old(db.writes)
    ensures HasUserId(session) && HasEmail(session) && form.Some? && form.value.file.Some? ==>
      var userId := session.value.id.value;
      var path := ResumePath(userId, now);
      if uploadFails || path in old(db.objects) then
        response == Failure(500, Relayed) && db.writes == old(db.writes)
      else
        && db.objects == old(db.objects)[path := form.value.file.value]
        && if sign(path, ResumeListRoute.LinkLifetime).None? || userId !in old(db.users) then
             response == Failure(500, Relayed) && db.resumes == old(db.resumes) &&
             db.writes == old(db.writes) + [ObjectStored(path)]
           else
             response == Success(200, sign(path, ResumeListRoute.LinkLifetime).value) &&
             db.resumes == old(db.resumes)[freshId := Resume(freshId, userId, path, None, now)] &&
             db.writes == old(db.writes) + [ObjectStored(path), ResumeInserted(freshId)]
    ensures !response.Success? ==> db.resumes == old(db.resumes)
    ensures db.writes == old(db.writes) ==> db.objects == old(db.objects)
  {
    if !HasUserId(session) || !HasEmail(session) {
      return Failure(401, Says("Unauthorized. Session missing."));
    }
    if form.None? {
      return Failure(500, Relayed);
    }
    if form.value.file.None? {
      return Failure(400, Says("No file uploaded"));
    }
    var userId := session.value.id.value;
    var path := ResumePath(userId, now);
    if uploadFails || path in db.objects {
      return Failure(500, Relayed);
    }
    db.StoreObject(path, form.value.file.value);
    var link := sign(path, ResumeListRoute.LinkLifetime);
    if link.None? {
      return Failure(500, Relayed);
    }
    if userId !in db.users {
      // `connect` to a user id the table does not have throws.
      return Failure(500, Relayed);
    }
    db.InsertResume(Resume(freshId, userId, path, None, now));
    response := Success(200, link.value);
  }
}
