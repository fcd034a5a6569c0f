/** `/api/jobs`: creating a job application and listing the caller's applications. */
module JobsRoute {
  import opened JsValues
  import opened Records
  import opened Stores
  import opened UserProvisioning

  /** The JSON body `{ position, company, status, description }`; a missing field is `None`. */
  datatype JobInput = JobInput(
    position: Option<string>,
    company: Option<string>,
    status: Option<string>,
    description: Option<string>)

  predicate Complete(input: JobInput) {
    input.position.Some? && input.company.Some? && input.status.Some? && input.description.Some?
  }

  /** The row `job.create` inserts. The status is stored as sent, whatever it is. */
  function NewJob(input: JobInput, id: string, userId: string, now: int): (j: Job)
    requires Complete(input)
    ensures j.id == id && j.userId == userId && j.createdAt == now
    ensures j.position == input.position.value && j.company == input.company.value
    ensures j.status == input.status.value && j.description == input.description.value
  {
    Job(id, userId, input.position.value, input.company.value, input.status.value, input.description.value, now)
  }

  /** `POST`. Provisioning runs before the `try`, so its failure escapes as a
      crash. `body` is `None` when `req.json()` throws; a missing field makes
      `create` throw. Both answer 500. */
  method Post(db: Db, clerk: Option<ClerkUser>, freshUserId: string, body: Option<JobInput>, freshJobId: string, now: int)
    returns (response: Response<Job>)
    requires db.Valid() && freshUserId !in db.users && freshJobId !in db.jobs
    modifies db
    ensures db.Valid()
    ensures var p := Provisioning(old(db.users), clerk, freshUserId);
      && (p == CreateFailed ==> response == Crash)
      && (p == SignedOut ==> response == Failure(401, Says("Unauthorized")))
      && (p.HasUser() && !(body.Some? && Complete(body.value)) ==>
            response == Failure(500, Says("Failed to create job")) && db.jobs == old(db.jobs))
      && (p.HasUser() && body.Some? && Complete(body.value) ==>
            response == Success(201, NewJob(body.value, freshJobId, p.user.id, now)) &&
            db.jobs == old(db.jobs)[freshJobId := response.body])
    ensures !response.Success? ==> db.jobs == old(db.jobs)
    ensures var p := Provisioning(old(db.users), clerk, freshUserId);
      && db.users == ProvisionedUsers(old(db.users), p, freshUserId)
      && db.writes == old(db.writes) + ProvisionWrites(p, freshUserId)
           + (if response.Success? then [JobInserted(freshJobId)] else [])
    ensures db.resumes == old(db.resumes) && db.objects == old(db.objects)
  {
    var p := EnsureDbUser(db, clerk, freshUserId);
    if p == CreateFailed {
      return Crash;
    }
    if p == SignedOut {
      return Failure(401, Says("Unauthorized"));
    }
    if body.None? || !Complete(body.value) {
      return Failure(500, Says("Failed to create job"));
    }
    var job := NewJob(body.value, freshJobId, p.user.id, now);
    db.InsertJob(job);
    response := Success(201, job);
  }

  /** `GET`: the caller's jobs, each once, newest first. */
  method Get(db: Db, clerk: Option<ClerkUser>, freshUserId: string) returns (response: Response<seq<Job>>)
    requires db.Valid() && freshUserId !in db.users
    modifies db
    ensures db.Valid()
    ensures var p := Provisioning(old(db.users), clerk, freshUserId);
      && (p == CreateFailed ==> response == Crash)
      && (p == SignedOut ==> response == Failure(401, Says("Unauthorized")))
      && (p.HasUser() ==>
            && response.Success? && response.status == 200
            && (forall j :: j in response.body <==> j in db.jobs.Values && j.userId == p.user.id)
            && Distinct(response.body)
            && NewestFirst(response.body, (j: Job) => j.createdAt))
    ensures var p := Provisioning(old(db.users), clerk, freshUserId);
      db.users == ProvisionedUsers(old(db.users), p, freshUserId) && db.writes == old(db.writes) + ProvisionWrites(p, freshUserId)
    ensures db.jobs == old(db.jobs) && db.resumes == old(db.resumes) && db.objects == old(db.objects)
  {
    var p := EnsureDbUser(db, clerk, freshUserId);
    if p == CreateFailed {
      return Crash;
    }
    if p == SignedOut {
      return Failure(401, Says("Unauthorized"));
    }
    var userId := p.user.id;
    var mine := set j | j in db.jobs.Values && j.userId == userId;
    var rows := SortNewestFirst(mine, (j: Job) => j.createdAt);
    response := Success(200, rows);
  }
}
