/** `POST /api/register`: email-and-password sign-up. */
module RegisterRoute {
  import opened JsValues
  import opened Records
  import opened Stores

  /** The JSON body `{ email, name, password }`. */
  datatype RegisterBody = RegisterBody(email: string, name: string, password: string)

  /** The bcrypt cost factor the route hashes with. */
  const BcryptCost: nat := 10

  /** The row a successful registration inserts: no identity-provider id and
      the password stored only as its hash. */
  function RegisteredUser(body: RegisterBody, hash: (string, nat) -> string, id: string): (u: User)
    ensures u.id == id && u.email == body.email && u.name == body.name
    ensures u.clerkId.None? && u.image.None?
    ensures u.password == Some(hash(body.password, BcryptCost))
  {
    User(id, None, body.email, body.name, None, Some(hash(body.password, BcryptCost)))
  }

  /** `body` is `None` when `req.json()` throws, which nothing catches. `hash`
      stands for `bcrypt.hash`, `freshId` for the id the store assigns. */
  method Post(db: Db, body: Option<RegisterBody>, hash: (string, nat) -> string, freshId: string)
    returns (response: Response<string>)
    requires db.Valid() && freshId !in db.users
    modifies db
    ensures db.Valid()
    ensures body.None? ==> response == Crash && db.users == old(db.users)
    ensures body.Some? && EmailTaken(old(db.users), body.value.email) ==>
      response == Failure(400, Says("User already exists")) && db.users == old(db.users)
    ensures body.Some? && !EmailTaken(old(db.users), body.value.email) ==>
      response == Success(201, "User created") &&
      db.users == old(db.users)[freshId := RegisteredUser(body.value, hash, freshId)] &&
      db.writes == old(db.writes) + [UserInserted(freshId)]
    ensures !response.Success? ==> db.writes == old(db.writes)
    ensures db.jobs == old(db.jobs) && db.resumes == old(db.resumes) && db.objects == old(db.objects)
  {
    if body.None? {
      return Crash;
    }
    var existing := UserWithEmail(db.users, body.value.email);
    if existing.Some? {
      return Failure(400, Says("User already exists"));
    }
    db.InsertUser(RegisteredUser(body.value, hash, freshId));
    response := Success(201, "User created");
  }

  /** Registering the same email twice: the second attempt is refused and
      leaves the table as the first left it. */
  method RegisterTwice(db: Db, body: RegisterBody, hash: (string, nat) -> string, id1: string, id2: string)
    returns (first: Response<string>, second: Response<string>)
    requires db.Valid() && id1 !in db.users && id2 !in db.users && id1 != id2
    modifies db
    ensures db.Valid()
    ensures second == Failure(400, Says("User already exists"))
    ensures first.Success? <==> !EmailTaken(old(db.users), body.email)
    ensures EmailTaken(db.users, body.email)
  {
    first := Post(db, Some(body), hash, id1);
    assert EmailTaken(db.users, body.email) by {
      if first.Success? {
        assert db.users[id1].email == body.email;
      }
    }
    second := Post(db, Some(body), hash, id2);
  }
}
