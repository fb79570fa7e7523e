/** The account routes of app/routes/users.py: registration, reading one's
    own row and the partial update of one's own row.  The password hasher is
    outside the model: its output for the supplied password is a parameter. */
module Users {
  import opened Wrappers
  import opened Store

  /** The registration form (`schemas.UserCreate`). */
  datatype UserCreate = UserCreate(email: string, fullName: string, password: string)

  /** The update form (`schemas.UserUpdate`): an absent field is None. */
  datatype UserUpdate = UserUpdate(fullName: Option<string>, email: Option<string>, password: Option<string>)

  /** The one error these routes raise: HTTP 400 "Email already registered". */
  datatype UserError = EmailAlreadyRegistered

  /** Credits granted at registration; the route sets them explicitly, so the
      column default does not apply. */
  const StartingCredits: int := 10

  /** The row that `update_me` writes back: each supplied field replaces the
      stored one (the password through its hash), everything else is kept. */
  function Patched(u: User, upd: UserUpdate, passwordHash: string): (v: User)
    ensures v.id == u.id && v.credits == u.credits && v.isActive == u.isActive
    ensures upd.fullName.None? ==> v.fullName == u.fullName
    ensures upd.fullName.Some? ==> v.fullName == upd.fullName.value
    ensures upd.email.None? ==> v.email == u.email
    ensures upd.email.Some? ==> v.email == upd.email.value
    ensures upd.password.None? ==> v.hashedPassword == u.hashedPassword
    ensures upd.password.Some? ==> v.hashedPassword == passwordHash
  {
    var v1 := if upd.fullName.Some? then u.(fullName := upd.fullName.value) else u;
    var v2 := if upd.email.Some? then v1.(email := upd.email.value) else v1;
    if upd.password.Some? then v2.(hashedPassword := passwordHash) else v2
  }

  /** An update that supplies nothing writes back the same row. */
  lemma EmptyUpdateKeepsRow(u: User, passwordHash: string)
    ensures Patched(u, UserUpdate(None, None, None), passwordHash) == u
  {
  }

  /** Sending the same update twice leaves the row as one update would, with
      the hash computed for the later request: every supplied field of the
      second request overwrites the first. */
  lemma PatchedTwice(u: User, upd: UserUpdate, h1: string, h2: string)
    ensures Patched(Patched(u, upd, h1), upd, h2) == Patched(u, upd, h2)
  {
  }

  /** The hasher salts every call, so a repeated password update stores a
      different hash whenever the two calls hash differently. */
  lemma RepeatedPasswordUpdateRehashes(u: User, upd: UserUpdate, h1: string, h2: string)
    requires upd.password.Some? && h1 != h2
    ensures Patched(Patched(u, upd, h1), upd, h2) != Patched(u, upd, h1)
  {
  }

  /** The conflict lookup of `update_me` leaves out the caller's own row, so
      re-submitting one's current email is never a conflict, whereas the
      registration lookup (which excludes nobody) would report it. */
  lemma OwnEmailIsNoConflict(users: map<nat, User>, id: nat)
    requires UniqueEmails(users) && id in users
    ensures !EmailTakenBy(users, users[id].email, Some(id))
    ensures EmailTakenBy(users, users[id].email, None)
  {
  }

  /** POST /register. */
  method CreateUser(db: Database, form: UserCreate, passwordHash: string) returns (r: Result<User, UserError>)
    requires db.Valid()
    modifies db
    ensures db.Valid()
    ensures r.Failure? <==> EmailTakenBy(old(db.users), form.email, None)
    ensures r.Failure? ==> r.error == EmailAlreadyRegistered && unchanged(db)
    ensures r.Success? ==>
      && r.value == User(old(db.nextUserId), form.fullName, form.email, passwordHash, true, StartingCredits)
      && r.value.id !in old(db.users)
      && db.users == old(db.users)[r.value.id := r.value]
      && db.courses == old(db.courses)
      && db.nextUserId == old(db.nextUserId) + 1 && db.nextCourseId == old(db.nextCourseId)
      && db.log == old(db.log) + [Snapshot(db.users, db.courses)]
  {
    var existing := db.FindUserByEmail(form.email, None);
    if existing.Some? {
      return Failure(EmailAlreadyRegistered);
    }
    var u := User(db.nextUserId, form.fullName, form.email, passwordHash, true, StartingCredits);
    assert !EmailTakenBy(db.users, u.email, Some(u.id));
    PutKeepsEmailsUnique(db.users, u.id, u);
    db.users := db.users[u.id := u];
    db.nextUserId := db.nextUserId + 1;
    db.Commit();
    r := Success(u);
  }

  /** GET /me: the caller's own row, as stored. */
  function GetMe(db: Database, callerId: nat): (u: User)
    reads db
    requires db.Valid() && callerId in db.users
    ensures u.id == callerId && u == db.users[callerId]
  {
    db.users[callerId]
  }

  /** PATCH /me.  The fields are applied one after another to the caller's
      row; an email held by another row aborts the request before the commit,
      so nothing of the update is kept. */
  method UpdateMe(db: Database, callerId: nat, upd: UserUpdate, passwordHash: string) returns (r: Result<User, UserError>)
    requires db.Valid() && callerId in db.users
    modifies db
    ensures db.Valid()
    ensures r.Failure? <==> upd.email.Some? && EmailTakenBy(old(db.users), upd.email.value, Some(callerId))
    ensures r.Failure? ==> r.error == EmailAlreadyRegistered && unchanged(db)
    ensures r.Success? ==>
      && r.value == Patched(old(db.users[callerId]), upd, passwordHash)
      && db.users == old(db.users)[callerId := r.value]
      && db.courses == old(db.courses)
      && db.nextUserId == old(db.nextUserId) && db.nextCourseId == old(db.nextCourseId)
      && db.log == old(db.log) + [Snapshot(db.users, db.courses)]
  {
    var u := db.users[callerId];
    if upd.fullName.Some? {
      u := u.(fullName := upd.fullName.value);
    }
    if upd.email.Some? {
      var existing := db.FindUserByEmail(upd.email.value, Some(callerId));
      if existing.Some? {
        return Failure(EmailAlreadyRegistered);
      }
      u := u.(email := upd.email.value);
    }
    if upd.password.Some? {
      u := u.(hashedPassword := passwordHash);
    }
    if upd.email.None? {
      OwnEmailIsNoConflict(db.users, callerId);
    }
    PutKeepsEmailsUnique(db.users, callerId, u);
    db.users := db.users[callerId := u];
    db.Commit();
    r := Success(u);
  }
}
