/** The two tables of the service (app/models.py) and the database session
    that the route handlers act on.  A JSON column holds whatever `json.loads`
    produced, so the parsed model reply is kept as a `Json` value. */
module Store {
  import opened Wrappers

  /** A value produced by a JSON decoder: the shapes `json.loads` returns.
      A number is held as its exact value; NaN and the infinities that
      `json.loads` also accepts have no counterpart. */
  datatype Json =
    | JNull
    | JBool(b: bool)
    | JNumber(n: real)
    | JString(s: string)
    | JArray(items: seq<Json>)
    | JObject(fields: map<string, Json>)

  /** A row of the users table. */
  datatype User = User(
    id: nat,
    fullName: string,
    email: string,
    hashedPassword: string,
    isActive: bool,
    credits: int)

  /** A row of the courses table.  The six content columns come from the
      parsed model reply; the three generation parameters from the request;
      `language`, `depthLevel` and `voiceTone` are optional in the request. */
  datatype Course = Course(
    id: nat,
    title: Json,
    subtitle: Json,
    wallpaper: Json,
    modules: Json,
    finalSummary: Json,
    assessmentQuiz: Json,
    language: Option<string>,
    depthLevel: Option<string>,
    voiceTone: Option<string>,
    userId: nat)

  /** What one `db.commit()` made durable. */
  datatype Snapshot = Snapshot(users: map<nat, User>, courses: map<nat, Course>)

  /** No two rows of the users table share an email. */
  ghost predicate UniqueEmails(users: map<nat, User>)
  {
    forall a, b :: a in users && b in users && a != b ==> users[a].email != users[b].email
  }

  /** The email `email` belongs to some row other than `excluded`. */
  ghost predicate EmailTakenBy(users: map<nat, User>, email: string, excluded: Option<nat>)
  {
    exists k :: k in users && users[k].email == email && Some(k) != excluded
  }

  /** Table invariants: emails are unique (the `unique=True` column),
      every row sits under its own id, ids come from the counters, credits
      are never negative and every course belongs to an existing user. */
  ghost predicate Tables(users: map<nat, User>, courses: map<nat, Course>, nextUserId: nat, nextCourseId: nat)
  {
    && UniqueEmails(users)
    && (forall k :: k in users ==> users[k].id == k && k < nextUserId && users[k].credits >= 0)
    && (forall k :: k in courses ==> courses[k].id == k && k < nextCourseId && courses[k].userId in users)
  }

  /** Adding a course under the next course id, owned by an existing user,
      keeps the invariants once the counter moves on. */
  lemma AddCourseKeepsTables(users: map<nat, User>, courses: map<nat, Course>, nextUserId: nat, nextCourseId: nat, c: Course)
    requires Tables(users, courses, nextUserId, nextCourseId)
    requires c.id == nextCourseId && c.userId in users
    ensures c.id !in courses
    ensures Tables(users, courses[c.id := c], nextUserId, nextCourseId + 1)
  {
  }

  /** Taking one credit from a user who holds at least one keeps the
      invariants: the email and the id do not change. */
  lemma SpendCreditKeepsTables(users: map<nat, User>, courses: map<nat, Course>, nextUserId: nat, nextCourseId: nat, id: nat)
    requires Tables(users, courses, nextUserId, nextCourseId)
    requires id in users && users[id].credits >= 1
    ensures Tables(users[id := users[id].(credits := users[id].credits - 1)], courses, nextUserId, nextCourseId)
  {
    var m := users[id := users[id].(credits := users[id].credits - 1)];
    assert forall k :: k in m ==> m[k].email == users[k].email;
  }

  /** A session over the users and courses tables.  Ids are handed out by
      auto-increment counters; `log` records the state at each commit. */
  class Database {
    var users: map<nat, User>
    var courses: map<nat, Course>
    var nextUserId: nat
    var nextCourseId: nat
    ghost var log: seq<Snapshot>

    /** The table invariants hold of the current contents. */
    ghost predicate Valid()
      reads this
    {
      Tables(users, courses, nextUserId, nextCourseId)
    }

    constructor ()
      ensures Valid()
      ensures users == map[] && courses == map[] && log == []
    {
      users := map[];
      courses := map[];
      nextUserId := 1;
      nextCourseId := 1;
      log := [];
    }

    /** `db.commit()`: the current contents become durable. */
    method Commit()
      modifies this`log
      ensures log == old(log) + [Snapshot(users, courses)]
    {
      log := log + [Snapshot(users, courses)];
    }

    /** `db.add(course)` and `db.commit()`: the course is stored under the
        next course id, which is then used up. */
    method AddCourse(c: Course)
      requires Valid() && c.id == nextCourseId && c.userId in users
      modifies this
      ensures Valid()
      ensures c.id !in old(courses) && courses == old(courses)[c.id := c]
      ensures users == old(users) && nextUserId == old(nextUserId) && nextCourseId == old(nextCourseId) + 1
      ensures log == old(log) + [Snapshot(users, courses)]
    {
      AddCourseKeepsTables(users, courses, nextUserId, nextCourseId, c);
      courses := courses[c.id := c];
      nextCourseId := nextCourseId + 1;
      Commit();
    }

    /** `user.credits -= 1` and `db.commit()` for a user holding at least
        one credit. */
    method SpendCredit(id: nat)
      requires Valid() && id in users && users[id].credits >= 1
      modifies this
      ensures Valid()
      ensures users == old(users)[id := old(users[id]).(credits := old(users[id].credits) - 1)]
      ensures courses == old(courses) && nextUserId == old(nextUserId) && nextCourseId == old(nextCourseId)
      ensures log == old(log) + [Snapshot(users, courses)]
    {
      SpendCreditKeepsTables(users, courses, nextUserId, nextCourseId, id);
      users := users[id := users[id].(credits := users[id].credits - 1)];
      Commit();
    }

    /** `db.query(User).filter(User.email == email [, User.id != excluded]).first()`:
        some row with that email other than `excluded`, or None when there is
        none. */
    method FindUserByEmail(email: string, excluded: Option<nat>) returns (r: Option<nat>)
      ensures r.Some? ==> r.value in users && users[r.value].email == email && Some(r.value) != excluded
      ensures r.None? <==> !EmailTakenBy(users, email, excluded)
    {
      var rest := users.Keys;
      while rest != {}
        invariant rest <= users.Keys
        invariant forall k :: k in users && k !in rest ==> users[k].email != email || Some(k) == excluded
        decreases rest
      {
        var k :| k in rest;
        if users[k].email == email && Some(k) != excluded {
          return Some(k);
        }
        rest := rest - {k};
      }
      return None;
    }
  }

  /** Giving row `id` a new value whose email no other row holds keeps
      emails unique. */
  lemma PutKeepsEmailsUnique(users: map<nat, User>, id: nat, u: User)
    requires UniqueEmails(users)
    requires !EmailTakenBy(users, u.email, Some(id))
    ensures UniqueEmails(users[id := u])
  {
    var m := users[id := u];
    forall a, b | a in m && b in m && a != b ensures m[a].email != m[b].email {
      if a == id {
        assert !(b in users && users[b].email == u.email && Some(b) != Some(id));
      } else if b == id {
        assert !(a in users && users[a].email == u.email && Some(a) != Some(id));
      }
    }
  }
}
