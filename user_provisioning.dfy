/** `ensureDBUser`: maps the identity provider's signed-in user to a row of the
    user table, creating the row on first sight. */
module UserProvisioning {
  import opened JsValues
  import opened Records
  import opened Stores

  /** What `ensureDBUser` comes back with: `null` for no signed-in user, the
      found or created row, or the exception `create` throws. */
  datatype Provision = SignedOut | Existing(user: User) | Created(user: User) | CreateFailed
  {
    predicate HasUser() { Existing? || Created? }
  }

  /** The row `create` is asked to insert, with the `??` fallbacks: the first
      email address or "", the first name or else the full name or else "",
      and the image URL or "". */
  function NewUser(clerk: ClerkUser, id: string): User {
    User(
      id,
      Some(clerk.id),
      if |clerk.emailAddresses| > 0 then clerk.emailAddresses[0] else "",
      clerk.firstName.OrElse(clerk.fullName.OrElse("")),
      Some(clerk.imageUrl.OrElse("")),
      None)
  }

  /** `??` only falls back on a missing value: an empty first name is kept as the
      name even when a full name exists, and the image column is never null.
      The row carries the identity's id and no password. */
  lemma NewUserFallbacks(clerk: ClerkUser, id: string)
    ensures clerk.firstName.Some? ==> NewUser(clerk, id).name == clerk.firstName.value
    ensures clerk.firstName.None? && clerk.fullName.Some? ==> NewUser(clerk, id).name == clerk.fullName.value
    ensures clerk.firstName.None? && clerk.fullName.None? ==> NewUser(clerk, id).name == ""
    ensures |clerk.emailAddresses| > 0 ==> NewUser(clerk, id).email == clerk.emailAddresses[0]
    ensures |clerk.emailAddresses| == 0 ==> NewUser(clerk, id).email == ""
    ensures clerk.imageUrl.Some? ==> NewUser(clerk, id).image == clerk.imageUrl
    ensures clerk.imageUrl.None? ==> NewUser(clerk, id).image == Some("")
    ensures NewUser(clerk, id).id == id && NewUser(clerk, id).clerkId == Some(clerk.id)
    ensures NewUser(clerk, id).password.None?
  {
  }

  /** The user table after provisioning: the created row added, otherwise unchanged. */
  function ProvisionedUsers(users: map<string, User>, p: Provision, freshId: string): map<string, User> {
    if p.Created? then users[freshId := p.user] else users
  }

  /** The writes provisioning makes: one insert when it created a row, none otherwise. */
  function ProvisionWrites(p: Provision, freshId: string): seq<Write> {
    if p.Created? then [UserInserted(freshId)] else []
  }

  /** The outcome of `ensureDBUser` on a user table. The email column is unique,
      so creating a row whose email another row already has throws. */
  function Provisioning(users: map<string, User>, clerk: Option<ClerkUser>, freshId: string): Provision
    requires UniqueClerkIds(users)
  {
    if clerk.None? then SignedOut
    else
      match UserWithClerkId(users, clerk.value.id)
      case Some(u) => Existing(u)
      case None =>
        var u := NewUser(clerk.value, freshId);
        if EmailTaken(users, u.email) then CreateFailed else Created(u)
  }

  /** Every row handed back belongs to the signed-in identity; a found row comes
      from the table and a created one is new. */
  lemma ProvisionedUserIsTheClerkUser(users: map<string, User>, clerk: Option<ClerkUser>, freshId: string)
    requires UniqueClerkIds(users)
    ensures Provisioning(users, clerk, freshId).HasUser() ==>
      clerk.Some? && Provisioning(users, clerk, freshId).user.clerkId == Some(clerk.value.id)
    ensures Provisioning(users, clerk, freshId).Existing? ==> Provisioning(users, clerk, freshId).user in users.Values
    ensures Provisioning(users, clerk, freshId).Created? ==>
      !ClerkIdTaken(users, clerk.value.id) && Provisioning(users, clerk, freshId).user == NewUser(clerk.value, freshId)
    ensures Provisioning(users, clerk, freshId) == SignedOut <==> clerk.None?
  {
  }

  /** Provisioning fails exactly for a new identity whose (possibly defaulted)
      email is already in use. */
  lemma CreateFailsOnEmailClash(users: map<string, User>, clerk: Option<ClerkUser>, freshId: string)
    requires UniqueClerkIds(users)
    ensures Provisioning(users, clerk, freshId) == CreateFailed <==>
      clerk.Some? && !ClerkIdTaken(users, clerk.value.id) && EmailTaken(users, NewUser(clerk.value, freshId).email)
  {
  }

  /** Once an identity without any email address has been provisioned, a second
      such identity can never be: both default to the email "". */
  lemma SecondEmaillessIdentityFails(users: map<string, User>, first: ClerkUser, second: ClerkUser, id1: string, id2: string)
    requires UniqueClerkIds(users) && id1 !in users
    requires |first.emailAddresses| == 0 && |second.emailAddresses| == 0
    requires first.id != second.id && !ClerkIdTaken(users, second.id)
    requires Provisioning(users, Some(first), id1).Created?
    ensures UniqueClerkIds(users[id1 := NewUser(first, id1)])
    ensures Provisioning(users[id1 := NewUser(first, id1)], Some(second), id2) == CreateFailed
  {
    var after := users[id1 := NewUser(first, id1)];
    InsertKeepsClerkIdsUnique(users, NewUser(first, id1));
    assert after[id1].email == NewUser(second, id2).email;
  }

  lemma InsertKeepsClerkIdsUnique(users: map<string, User>, u: User)
    requires UniqueClerkIds(users) && u.id !in users
    requires u.clerkId.Some? ==> !ClerkIdTaken(users, u.clerkId.value)
    ensures UniqueClerkIds(users[u.id := u])
  {
  }

  /** Calling `ensureDBUser` again after it created a row finds that row and creates nothing. */
  lemma ProvisioningIsIdempotent(users: map<string, User>, clerk: Option<ClerkUser>, freshId: string, laterId: string)
    requires UniqueClerkIds(users) && freshId !in users
    requires Provisioning(users, clerk, freshId).Created?
    ensures UniqueClerkIds(users[freshId := Provisioning(users, clerk, freshId).user])
    ensures var u := Provisioning(users, clerk, freshId).user;
      Provisioning(users[freshId := u], clerk, laterId) == Existing(u)
  {
    var u := Provisioning(users, clerk, freshId).user;
    InsertKeepsClerkIdsUnique(users, u);
    var after := users[freshId := u];
    assert ClerkIdTaken(after, clerk.value.id) by {
      assert after[freshId].clerkId == Some(clerk.value.id);
    }
    var found := UserWithClerkId(after, clerk.value.id);
    var k :| k in after && after[k] == found.value;
    assert k == freshId;
  }

  /** `ensureDBUser` against the store. `freshId` is the id the store would give a new row. */
  method EnsureDbUser(db: Db, clerk: Option<ClerkUser>, freshId: string) returns (p: Provision)
    requires db.Valid() && freshId !in db.users
    modifies db
    ensures db.Valid()
    ensures p == Provisioning(old(db.users), clerk, freshId)
    ensures p.Existing? ==> p.user.id in db.users && db.users[p.user.id] == p.user
    ensures p.Created? ==> db.users == old(db.users)[freshId := p.user] && db.writes == old(db.writes) + [UserInserted(freshId)]
    ensures !p.Created? ==> db.users == old(db.users) && db.writes == old(db.writes)
    ensures db.users == ProvisionedUsers(old(db.users), p, freshId)
    ensures db.writes == old(db.writes) + ProvisionWrites(p, freshId)
    ensures db.jobs == old(db.jobs) && db.resumes == old(db.resumes) && db.objects == old(db.objects)
  {
    if clerk.None? {
      return SignedOut;
    }
    var found := UserWithClerkId(db.users, clerk.value.id);
    if found.Some? {
      return Existing(found.value);
    }
    var u := NewUser(clerk.value, freshId);
    if EmailTaken(db.users, u.email) {
      return CreateFailed;
    }
    db.InsertUser(u);
    p := Created(u);
  }
}
