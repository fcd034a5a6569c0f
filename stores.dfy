/** The two back-end stores the route handlers talk to: the relational record
    store (user, job and résumé tables, with the unique keys the queries rely
    on) and the object store (path to bytes). Both are fields of one class
    whose writing methods also append to a log, so that a handler's contract
    can say which writes happened and in what order. */
module Stores {
  import opened JsValues
  import opened Records

  /** One successful write to either store. */
  datatype Write =
    | UserInserted(userId: string)
    | JobInserted(jobId: string)
    | ResumeInserted(resumeId: string)
    | ResumeUpdated(resumeId: string)
    | ResumeDeleted(resumeId: string)
    | ObjectStored(path: string)
    | ObjectRemoved(path: string)

  // ---------------------------------------------------------------------------
  // Unique keys of the user table and the lookups they make well defined

  ghost predicate UniqueEmails(users: map<string, User>) {
    forall a, b :: a in users && b in users && users[a].email == users[b].email ==> a == b
  }

  ghost predicate UniqueClerkIds(users: map<string, User>) {
    forall a, b :: a in users && b in users && users[a].clerkId.Some? && users[a].clerkId == users[b].clerkId ==> a == b
  }

  predicate EmailTaken(users: map<string, User>, email: string) {
    exists k :: k in users && users[k].email == email
  }

  /** `prisma.user.findUnique({ where: { email } })`. */
  function UserWithEmail(users: map<string, User>, email: string): (r: Option<User>)
    requires UniqueEmails(users)
    ensures r.Some? <==> EmailTaken(users, email)
    ensures r.Some? ==> r.value in users.Values && r.value.email == email
  {
    if EmailTaken(users, email) then
      var k :| k in users && users[k].email == email; Some(users[k])
    else None
  }

  predicate ClerkIdTaken(users: map<string, User>, clerkId: string) {
    exists k :: k in users && users[k].clerkId == Some(clerkId)
  }

  /** `prisma.user.findUnique({ where: { clerkId } })`. */
  function UserWithClerkId(users: map<string, User>, clerkId: string): (r: Option<User>)
    requires UniqueClerkIds(users)
    ensures r.Some? <==> ClerkIdTaken(users, clerkId)
    ensures r.Some? ==> r.value in users.Values && r.value.clerkId == Some(clerkId)
  {
    if ClerkIdTaken(users, clerkId) then
      var k :| k in users && users[k].clerkId == Some(clerkId); Some(users[k])
    else None
  }

  /** `findUnique({ where: { id } })` on a table keyed by id. */
  function Lookup<T>(table: map<string, T>, id: string): Option<T> {
    if id in table then Some(table[id]) else None
  }

  // ---------------------------------------------------------------------------
  // findMany(... orderBy: { createdAt: "desc" })

  /** Newest first: keys never increase along the sequence. */
  ghost predicate NewestFirst<T>(s: seq<T>, key: T -> int) {
    forall i, j :: 0 <= i < j < |s| ==> key(s[i]) >= key(s[j])
  }

  ghost predicate Distinct<T>(s: seq<T>) {
    forall i, j :: 0 <= i < j < |s| ==> s[i] != s[j]
  }

  /** Inserts `x` into a newest-first sequence, before the first element that is older. */
  function InsertNewestFirst<T>(s: seq<T>, x: T, key: T -> int): (r: seq<T>)
    requires NewestFirst(s, key)
    ensures NewestFirst(r, key)
    ensures multiset(r) == multiset(s) + multiset{x}
  {
    if s == [] then [x]
    else if key(x) >= key(s[0]) then [x] + s
    else
      var rest := InsertNewestFirst(s[1..], x, key);
      assert s == [s[0]] + s[1..];
      assert forall k :: 0 <= k < |rest| ==> key(s[0]) >= key(rest[k]) by {
        forall k | 0 <= k < |rest| ensures key(s[0]) >= key(rest[k]) {
          assert rest[k] in multiset(rest);
          if rest[k] != x {
            assert rest[k] in multiset(s[1..]);
            var m :| 0 <= m < |s[1..]| && s[1..][m] == rest[k];
            assert s[m + 1] == rest[k];
          }
        }
      }
      [s[0]] + rest
  }

  /** The rows of `items`, each exactly once, newest first. Rows with equal
      keys come out in an order the store does not specify. */
  method SortNewestFirst<T>(items: set<T>, key: T -> int) returns (r: seq<T>)
    ensures forall x :: x in r <==> x in items
    ensures Distinct(r)
    ensures NewestFirst(r, key)
  {
    r := [];
    var rest := items;
    while rest != {}
      invariant rest <= items
      invariant forall x :: x in r <==> x in items && x !in rest
      invariant Distinct(r)
      invariant NewestFirst(r, key)
      decreases rest
    {
      var x :| x in rest;
      var next := InsertNewestFirst(r, x, key);
      assert forall y :: y in next <==> y in r || y == x by {
        forall y ensures y in next <==> y in r || y == x {
          assert y in next <==> y in multiset(next);
          assert y in r <==> y in multiset(r);
        }
      }
      DistinctInsert(r, x, next);
      r := next;
      rest := rest - {x};
    }
  }

  lemma DistinctInsert<T>(s: seq<T>, x: T, r: seq<T>)
    requires Distinct(s) && x !in s
    requires multiset(r) == multiset(s) + multiset{x}
    ensures Distinct(r)
  {
    forall i, j | 0 <= i < j < |r| ensures r[i] != r[j] {
      if r[i] == r[j] {
        DistinctCount(s, r[i]);
        TwiceCounted(r, i, j);
      }
    }
  }

  lemma TwiceCounted<T>(r: seq<T>, i: nat, j: nat)
    requires i < j < |r| && r[i] == r[j]
    ensures multiset(r)[r[i]] >= 2
  {
    var rest := r[..i] + r[i + 1..];
    assert r == r[..i] + [r[i]] + r[i + 1..];
    assert rest[j - 1] == r[j];
    assert multiset(r) == multiset(rest) + multiset{r[i]};
  }

  lemma {:induction false} DistinctCount<T>(s: seq<T>, y: T)
    requires Distinct(s)
    ensures multiset(s)[y] <= 1
  {
    if s != [] {
      assert s == [s[0]] + s[1..];
      DistinctCount(s[1..], y);
      if s[0] == y {
        assert y !in s[1..];
      }
    }
  }

  // ---------------------------------------------------------------------------
  // The stores

  class Db {
    var users: map<string, User>
    var jobs: map<string, Job>
    var resumes: map<string, Resume>
    var objects: map<string, Bytes>
    var writes: seq<Write>

    /** Rows sit under their own id, user emails and identity-provider ids are
        unique, and every job and résumé belongs to an existing user. Nothing
        ties the résumé table to the object store: either may hold entries the
        other lacks. */
    ghost predicate Valid()
      reads this
    {
      (forall k :: k in users ==> users[k].id == k)
      && UniqueEmails(users)
      && UniqueClerkIds(users)
      && (forall k :: k in jobs ==> jobs[k].id == k && jobs[k].userId in users)
      && (forall k :: k in resumes ==> resumes[k].id == k && resumes[k].userId in users)
    }

    constructor ()
      ensures Valid()
      ensures users == map[] && jobs == map[] && resumes == map[] && objects == map[] && writes == []
    {
      users, jobs, resumes, objects, writes := map[], map[], map[], map[], [];
    }

    method InsertUser(u: User)
      requires Valid()
      requires u.id !in users && !EmailTaken(users, u.email)
      requires u.clerkId.Some? ==> !ClerkIdTaken(users, u.clerkId.value)
      modifies this
      ensures Valid()
      ensures users == old(users)[u.id := u]
      ensures jobs == old(jobs) && resumes == old(resumes) && objects == old(objects)
      ensures writes == old(writes) + [UserInserted(u.id)]
    {
      users := users[u.id := u];
      writes := writes + [UserInserted(u.id)];
    }

    method InsertJob(j: Job)
      requires Valid()
      requires j.id !in jobs && j.userId in users
      modifies this
      ensures Valid()
      ensures jobs == old(jobs)[j.id := j]
      ensures users == old(users) && resumes == old(resumes) && objects == old(objects)
      ensures writes == old(writes) + [JobInserted(j.id)]
    {
      jobs := jobs[j.id := j];
      writes := writes + [JobInserted(j.id)];
    }

    method InsertResume(r: Resume)
      requires Valid()
      requires r.id !in resumes && r.userId in users
      modifies this
      ensures Valid()
      ensures resumes == old(resumes)[r.id := r]
      ensures users == old(users) && jobs == old(jobs) && objects == old(objects)
      ensures writes == old(writes) + [ResumeInserted(r.id)]
    {
      resumes := resumes[r.id := r];
      writes := writes + [ResumeInserted(r.id)];
    }

    method UpdateResume(r: Resume)
      requires Valid()
      requires r.id in resumes && r.userId in users
      modifies this
      ensures Valid()
      ensures resumes == old(resumes)[r.id := r]
      ensures users == old(users) && jobs == old(jobs) && objects == old(objects)
      ensures writes == old(writes) + [ResumeUpdated(r.id)]
    {
      resumes := resumes[r.id := r];
      writes := writes + [ResumeUpdated(r.id)];
    }

    method DeleteResume(id: string)
      requires Valid()
      requires id in resumes
      modifies this
      ensures Valid()
      ensures resumes == old(resumes) - {id}
      ensures users == old(users) && jobs == old(jobs) && objects == old(objects)
      ensures writes == old(writes) + [ResumeDeleted(id)]
    {
      resumes := resumes - {id};
      writes := writes + [ResumeDeleted(id)];
    }

    /** `upload(path, file, { upsert: false })` once the store has accepted it. */
    method StoreObject(path: string, data: Bytes)
      requires Valid()
      requires path !in objects
      modifies this
      ensures Valid()
      ensures objects == old(objects)[path := data]
      ensures users == old(users) && jobs == old(jobs) && resumes == old(resumes)
      ensures writes == old(writes) + [ObjectStored(path)]
    {
      objects := objects[path := data];
      writes := writes + [ObjectStored(path)];
    }

    /** `remove([path])` once the store has accepted it; removing an absent path is not an error. */
    method RemoveObject(path: string)
      requires Valid()
      modifies this
      ensures Valid()
      ensures objects == old(objects) - {path}
      ensures users == old(users) && jobs == old(jobs) && resumes == old(resumes)
      ensures writes == old(writes) + [ObjectRemoved(path)]
    {
      objects := objects - {path};
      writes := writes + [ObjectRemoved(path)];
    }
  }
}
