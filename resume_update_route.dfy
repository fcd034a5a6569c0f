/** `PUT /api/resume/update`: renames a résumé and/or replaces its file. */
module ResumeUpdateRoute {
  import opened JsValues
  import opened Records
  import opened Stores
  import opened StoragePaths
  import opened UserProvisioning

  /** The multipart form: `resumeId`, an optional `file` and an optional `name`. */
  datatype UpdateForm = UpdateForm(resumeId: Option<string>, file: Option<Bytes>, name: Option<string>)

  /** The row after the update: the given path, and the new name only when it is non-empty. */
  function Updated(r: Resume, path: string, newName: Option<string>): (u: Resume)
    ensures u.id == r.id && u.userId == r.userId && u.createdAt == r.createdAt && u.fileUrl == path
    ensures u.name == (if Truthy(newName) then newName else r.name)
  {
    r.(fileUrl := path, name := if Truthy(newName) then newName else r.name)
  }

  /** Provisioning runs before the `try`, so its failure escapes as a crash.
      `form` is `None` when `req.formData()` throws; a missing `resumeId`
      makes `findUnique` throw. With a new file, the old object is removed
      first (a failed removal, `removeFails`, is ignored) and then the new one
      uploaded; when that upload fails (`uploadFails`, or the path is taken)
      the row keeps pointing at the old path. */
  method Put(
    db: Db, clerk: Option<ClerkUser>, freshUserId: string, form: Option<UpdateForm>, now: nat,
    removeFails: bool, uploadFails: bool)
    returns (response: Response<Resume>)
    requires db.Valid() && freshUserId !in db.users
    modifies db
    ensures db.Valid()
    ensures db.jobs == old(db.jobs)
    ensures var p := Provisioning(old(db.users), clerk, freshUserId);
      && (p == CreateFailed ==> response == Crash)
      && (p == SignedOut ==> response == Failure(401, Says("Unauthorized")))
      && (p.HasUser() && (form.None? || form.value.resumeId.None?) ==> response == Failure(500, Relayed))
      && (p.HasUser() && form.Some? && form.value.resumeId.Some? ==>
            var id := form.value.resumeId.value;
            && (id !in old(db.resumes) ==> response == Failure(404, Says("Resume not found")))
            && (id in old(db.resumes) && old(db.resumes)[id].userId != p.user.id ==>
                  response == Failure(403, Says("Forbidden")))
            && (id in old(db.resumes) && old(db.resumes)[id].userId == p.user.id ==>
                  UpdateEffect(old(db.objects), old(db.resumes), old(db.resumes)[id], p.user.id, form.value, now,
                    removeFails, uploadFails, response, db.objects, db.resumes)))
    ensures !response.Success? ==> db.resumes == old(db.resumes)
    ensures response.Failure? && response.status != 500 ==> db.objects == old(db.objects)
    ensures var p := Provisioning(old(db.users), clerk, freshUserId);
      db.users == ProvisionedUsers(old(db.users), p, freshUserId)
    ensures var p := Provisioning(old(db.users), clerk, freshUserId);
      var owner := p.HasUser() && form.Some? && form.value.resumeId.Some? &&
        form.value.resumeId.value in old(db.resumes) && old(db.resumes)[form.value.resumeId.value].userId == p.user.id;
      db.writes == old(db.writes) + ProvisionWrites(p, freshUserId) +
        (if owner then
           UpdateWrites(old(db.objects), old(db.resumes)[form.value.resumeId.value], p.user.id, form.value, now,
             removeFails, uploadFails)
         else [])
    ensures var p := Provisioning(old(db.users), clerk, freshUserId);
      var owner := p.HasUser() && form.Some? && form.value.resumeId.Some? &&
        form.value.resumeId.value in old(db.resumes) && old(db.resumes)[form.value.resumeId.value].userId == p.user.id;
      !owner ==> db.objects == old(db.objects) && db.resumes == old(db.resumes)
  {
    var p := EnsureDbUser(db, clerk, freshUserId);
    if p == CreateFailed {
      return Crash;
    }
    if p == SignedOut {
      return Failure(401, Says("Unauthorized"));
    }
    if form.None? || form.value.resumeId.None? {
      return Failure(500, Relayed);
    }
    var id := form.value.resumeId.value;
    var found := Lookup(db.resumes, id);
    if found.None? {
      return Failure(404, Says("Resume not found"));
    }
    var resume := found.value;
    if resume.userId != p.user.id {
      return Failure(403, Says("Forbidden"));
    }
    response := ApplyUpdate(db, resume, p.user.id, form.value, now, removeFails, uploadFails);
  }

  /** The owner's part of the route, from `let filePath = resume.fileUrl` on. */
  method ApplyUpdate(
    db: Db, resume: Resume, userId: string, form: UpdateForm, now: nat, removeFails: bool, uploadFails: bool)
    returns (response: Response<Resume>)
    requires db.Valid() && resume.id in db.resumes && db.resumes[resume.id] == resume && resume.userId == userId
    modifies db
    ensures db.Valid()
    ensures UpdateEffect(old(db.objects), old(db.resumes), resume, userId, form, now,
      removeFails, uploadFails, response, db.objects, db.resumes)
    ensures db.writes == old(db.writes) + UpdateWrites(old(db.objects), resume, userId, form, now, removeFails, uploadFails)
    ensures db.users == old(db.users) && db.jobs == old(db.jobs)
  {
    var path := resume.fileUrl;
    if form.file.Some? {
      if !removeFails {
        db.RemoveObject(resume.fileUrl);
      }
      path := ResumePath(userId, now);
      if uploadFails || path in db.objects {
        return Failure(500, Relayed);
      }
      db.StoreObject(path, form.file.value);
    }
    var row := Updated(resume, path, form.name);
    db.UpdateResume(row);
    response := Success(200, row);
  }

  /** The stores after the owner's update of `resume`: with a new file, the old
      object gone unless its removal failed, then either the new object stored
      under a fresh path and the row updated, or (upload failed) a 500 answer
      with the row untouched. Without a file, only the row changes. */
  ghost predicate UpdateEffect(
    objects: map<string, Bytes>, resumes: map<string, Resume>, resume: Resume, userId: string,
    form: UpdateForm, now: nat, removeFails: bool, uploadFails: bool,
    response: Response<Resume>, objects': map<string, Bytes>, resumes': map<string, Resume>)
  {
    if form.file.None? then
      var row := Updated(resume, resume.fileUrl, form.name);
      response == Success(200, row) && objects' == objects && resumes' == resumes[resume.id := row]
    else
      var afterRemove := if removeFails then objects else objects - {resume.fileUrl};
      var path := ResumePath(userId, now);
      if uploadFails || path in afterRemove then
        response == Failure(500, Relayed) && objects' == afterRemove && resumes' == resumes
      else
        var row := Updated(resume, path, form.name);
        response == Success(200, row) && objects' == afterRemove[path := form.file.value] &&
        resumes' == resumes[resume.id := row]
  }

  /** The writes of the owner's update, in the order the route makes them: the
      old object's removal (when it succeeds), the new object's upload, then the
      row's update; a failed upload ends the sequence after the removal. */
  function UpdateWrites(
    objects: map<string, Bytes>, resume: Resume, userId: string, form: UpdateForm, now: nat,
    removeFails: bool, uploadFails: bool): seq<Write>
  {
    if form.file.None? then [ResumeUpdated(resume.id)]
    else
      var removal := if removeFails then [] else [ObjectRemoved(resume.fileUrl)];
      var afterRemove := if removeFails then objects else objects - {resume.fileUrl};
      var path := ResumePath(userId, now);
      if uploadFails || path in afterRemove then removal
      else removal + [ObjectStored(path), ResumeUpdated(resume.id)]
  }

  /** A replacement whose removal succeeded but whose upload failed leaves the
      row pointing at an object that no longer exists. */
  lemma FailedReplaceLeavesDanglingRow(
    objects: map<string, Bytes>, resumes: map<string, Resume>, resume: Resume, userId: string,
    form: UpdateForm, now: nat, uploadFails: bool,
    response: Response<Resume>, objects': map<string, Bytes>, resumes': map<string, Resume>)
    requires resume.id in resumes && resumes[resume.id] == resume && form.file.Some?
    requires UpdateEffect(objects, resumes, resume, userId, form, now, false, uploadFails, response, objects', resumes')
    requires !response.Success?
    ensures response == Failure(500, Relayed)
    ensures resumes' == resumes && resumes'[resume.id].fileUrl !in objects'
  {
  }
}
