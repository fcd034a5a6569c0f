/** `GET /api/resume`: the caller's résumés, newest first, each with a link
    that stays valid for an hour. */
module ResumeListRoute {
  import opened JsValues
  import opened Records
  import opened Stores

  /** Lifetime of the signed links, in seconds. */
  const LinkLifetime: nat := 60 * 60

  /** The listing entry of one row. `sign(path, seconds)` stands for
      `createSignedUrl`, `None` when it fails; a failed or empty link becomes "". */
  function Entry(r: Resume, sign: (string, nat) -> Option<string>): (e: ResumeEntry)
    ensures e.id == r.id && e.createdAt == r.createdAt
    ensures Truthy(sign(r.fileUrl, LinkLifetime)) ==> e.url == sign(r.fileUrl, LinkLifetime).value
    ensures !Truthy(sign(r.fileUrl, LinkLifetime)) ==> e.url == ""
  {
    var link := sign(r.fileUrl, LinkLifetime);
    ResumeEntry(r.id, r.createdAt, if Truthy(link) then link.value else "")
  }

  /** `rows` are the résumé rows behind the answer, in answer order. A failed
      link does not fail the listing, and nothing is written. */
  method Get(db: Db, session: Option<SessionUser>, sign: (string, nat) -> Option<string>)
    returns (response: Response<seq<ResumeEntry>>, ghost rows: seq<Resume>)
    ensures !HasUserId(session) ==> response == Failure(401, Says("Unauthorized"))
    ensures HasUserId(session) ==>
      && response.Success? && response.status == 200
      && (forall r :: r in rows <==> r in db.resumes.Values && r.userId == session.value.id.value)
      && Distinct(rows)
      && NewestFirst(rows, (r: Resume) => r.createdAt)
      && |response.body| == |rows|
      && (forall i :: 0 <= i < |rows| ==> response.body[i] == Entry(rows[i], sign))
  {
    rows := [];
    if !HasUserId(session) {
      return Failure(401, Says("Unauthorized")), rows;
    }
    var userId := session.value.id.value;
    var mine := set r | r in db.resumes.Values && r.userId == userId;
    var sorted := SortNewestFirst(mine, (r: Resume) => r.createdAt);
    rows := sorted;
    var entries: seq<ResumeEntry> := [];
    var i := 0;
    while i < |sorted|
      invariant 0 <= i <= |sorted|
      invariant |entries| == i
      invariant forall k :: 0 <= k < i ==> entries[k] == Entry(sorted[k], sign)
    {
      entries := entries + [Entry(sorted[i], sign)];
      i := i + 1;
    }
    response := Success(200, entries);
  }
}
