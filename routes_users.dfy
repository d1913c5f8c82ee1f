/** The account endpoints (app/routes/users.py): reading a profile with its
    test counts, the partial update a user makes of their own profile, and
    the administrator's reading, update and deletion of any account. The
    caller is the `me` parameter; that the caller is an active user, or an
    administrator for the admin endpoints, is checked before these run. */
module RoutesUsers {
  import opened Models
  import opened Store
  import opened CrudTests

  // What a response shows of an account

  /** UserResponse: every column but the password. */
  datatype UserView = UserView(
    id: UserId,
    username: string,
    email: string,
    name: string,
    lastname: string,
    phone: string,
    role: UserRole,
    active: bool)

  /** The response for row `u` under key `id`. */
  function ViewOf(id: UserId, u: User): (v: UserView)
    ensures v.id == id && v.username == u.username && v.email == u.email
    ensures v.name == u.name && v.lastname == u.lastname && v.phone == u.phone
    ensures v.role == u.role && v.active == u.active
  {
    UserView(id, u.username, u.email, u.name, u.lastname, u.phone, u.role, u.active)
  }

  /** The view never shows the password: two rows that differ only in the
      hash look the same, and rows that differ anywhere else do not. */
  lemma ViewHidesPassword(id: UserId, u: User, w: User)
    ensures ViewOf(id, u) == ViewOf(id, w) <==> u.(password := w.password) == w
  {
  }

  // Test statistics

  /** The tests that belong to user `u`. */
  function TestsOf(tests: map<TestId, Test>, u: UserId): set<TestId> {
    set t | t in tests && tests[t].userId == u
  }

  /** Those of them in status `s`. */
  function TestsIn(tests: map<TestId, Test>, u: UserId, s: TestStatus): set<TestId> {
    set t | t in tests && tests[t].userId == u && tests[t].status == s
  }

  datatype ProfileStats = ProfileStats(totalTests: nat, completedTests: nat)

  /** The two counts of get_my_profile and get_user_by_id. The completed
      count filters the same tests further, so it never exceeds the total,
      and the difference is the number of tests still in progress. */
  function StatsOf(tests: map<TestId, Test>, u: UserId): (s: ProfileStats)
    ensures s.completedTests <= s.totalTests
    ensures s.totalTests == s.completedTests + |TestsIn(tests, u, InProgress)|
  {
    var all, done, open := TestsOf(tests, u), TestsIn(tests, u, Completed), TestsIn(tests, u, InProgress);
    assert all == done + open;
    assert done * open == {};
    ProfileStats(|all|, |done|)
  }

  /** Starting a test adds one to the owner's total and nothing to their
      completed count. */
  lemma StartCountsOne(tests: map<TestId, Test>, t: TestId, test: Test)
    requires t !in tests && test.status == InProgress
    ensures StatsOf(tests[t := test], test.userId).totalTests == StatsOf(tests, test.userId).totalTests + 1
    ensures StatsOf(tests[t := test], test.userId).completedTests == StatsOf(tests, test.userId).completedTests
  {
    var u := test.userId;
    assert TestsOf(tests[t := test], u) == TestsOf(tests, u) + {t};
    assert TestsIn(tests[t := test], u, Completed) == TestsIn(tests, u, Completed);
  }

  /** Completing a test leaves the owner's total as it was and adds one to
      their completed count. */
  lemma CompletionCountsOne(tests: map<TestId, Test>, t: TestId, at: Stamp)
    requires t in tests && tests[t].status == InProgress
    ensures var after := tests[t := tests[t].(status := Completed, completedAt := Some(at))];
            && StatsOf(after, tests[t].userId).totalTests == StatsOf(tests, tests[t].userId).totalTests
            && StatsOf(after, tests[t].userId).completedTests == StatsOf(tests, tests[t].userId).completedTests + 1
  {
    var u := tests[t].userId;
    var after := tests[t := tests[t].(status := Completed, completedAt := Some(at))];
    assert TestsOf(after, u) == TestsOf(tests, u);
    assert TestsIn(after, u, Completed) == TestsIn(tests, u, Completed) + {t};
  }

  /** UserDetailResponse: the account and its test counts. */
  datatype UserDetail = UserDetail(view: UserView, stats: ProfileStats)

  /** get_user_by_id: 404 for an unknown id, otherwise the account with its
      counts. */
  function GetUserById(users: map<UserId, User>, tests: map<TestId, Test>, id: UserId): (r: Result<UserDetail, Error>)
    ensures r.Err? <==> id !in users
    ensures r.Err? ==> r.error == NotFound(UserMissing)
    ensures r.Ok? ==> r.value.view == ViewOf(id, users[id])
    ensures r.Ok? ==> r.value.stats == StatsOf(tests, id)
    ensures r.Ok? ==> r.value.stats.totalTests == |TestsOf(tests, id)|
    ensures r.Ok? ==> r.value.stats.completedTests == |TestsIn(tests, id, Completed)|
    ensures r.Ok? ==> r.value.stats.completedTests <= r.value.stats.totalTests
  {
    if id !in users then Err(NotFound(UserMissing))
    else Ok(UserDetail(ViewOf(id, users[id]), StatsOf(tests, id)))
  }

  /** get_my_profile: what an administrator would read about the caller. */
  function GetMyProfile(users: map<UserId, User>, tests: map<TestId, Test>, me: UserId): (d: UserDetail)
    requires me in users
    ensures GetUserById(users, tests, me) == Ok(d)
    ensures d.stats.totalTests == |TestsOf(tests, me)|
    ensures d.stats.completedTests == |TestsIn(tests, me, Completed)|
    ensures d.stats.completedTests <= d.stats.totalTests
  {
    UserDetail(ViewOf(me, users[me]), StatsOf(tests, me))
  }

  // Updates

  /** UserUpdate: every field optional; None leaves the column as it is. */
  datatype UserUpdate = UserUpdate(
    username: Option<string>,
    email: Option<string>,
    name: Option<string>,
    lastname: Option<string>,
    phone: Option<string>,
    role: Option<UserRole>,
    active: Option<bool>)

  /** The length bounds request validation enforces (app/schemas/user.py);
      the e-mail syntax check is not modelled. */
  predicate ValidUserUpdate(upd: UserUpdate) {
    && (upd.username.Some? ==> 3 <= |upd.username.value| <= 50)
    && (upd.name.Some? ==> |upd.name.value| <= 100)
    && (upd.lastname.Some? ==> |upd.lastname.value| <= 100)
    && (upd.phone.Some? ==> |upd.phone.value| <= 50)
  }

  function Pick<T>(given: Option<T>, current: T): T {
    if given.Some? then given.value else current
  }

  /** The row after the fields a user may change on their own profile:
      username, email, name, lastname and phone. */
  function ProfilePatched(u: User, upd: UserUpdate): User {
    u.(username := Pick(upd.username, u.username), email := Pick(upd.email, u.email),
       name := Pick(upd.name, u.name), lastname := Pick(upd.lastname, u.lastname), phone := Pick(upd.phone, u.phone))
  }

  /** The row after an administrator's update, which may also set the role
      and the active flag. */
  function AdminPatched(u: User, upd: UserUpdate): User {
    ProfilePatched(u, upd).(role := Pick(upd.role, u.role), active := Pick(upd.active, u.active))
  }

  /** Why an update of row `u` is refused, if it is: a new username held by
      an account is checked first, then a new e-mail held by an account. */
  function Conflict(users: map<UserId, User>, u: User, upd: UserUpdate): Option<Reason> {
    if upd.username.Some? && upd.username.value != u.username && UsernameInUse(users, upd.username.value) then Some(UsernameTaken)
    else if upd.email.Some? && upd.email.value != u.email && EmailInUse(users, upd.email.value) then Some(EmailTaken)
    else None
  }

  /** Replacing row `id` by `v` keeps usernames and e-mails unique when `v`
      takes no username or e-mail another row holds. */
  lemma ReplaceKeepsUnique(users: map<UserId, User>, id: UserId, v: User)
    requires id in users && UniqueUsernames(users) && UniqueEmails(users)
    requires v.username != users[id].username ==> !UsernameInUse(users, v.username)
    requires v.email != users[id].email ==> !EmailInUse(users, v.email)
    ensures UniqueUsernames(users[id := v]) && UniqueEmails(users[id := v])
  {
    var after := users[id := v];
    forall a, b | a in after && b in after && a != b
      ensures after[a].username != after[b].username && after[a].email != after[b].email
    {
      if a == id {
        assert after[b] == users[b];
      } else if b == id {
        assert after[a] == users[a];
      }
    }
  }

  /** A refused update changes nothing; an accepted one takes no username
      or e-mail that another account holds. */
  lemma NoConflictKeepsUnique(users: map<UserId, User>, id: UserId, upd: UserUpdate)
    requires id in users && UniqueUsernames(users) && UniqueEmails(users)
    requires Conflict(users, users[id], upd).None?
    ensures UniqueUsernames(users[id := ProfilePatched(users[id], upd)])
    ensures UniqueEmails(users[id := ProfilePatched(users[id], upd)])
    ensures UniqueUsernames(users[id := AdminPatched(users[id], upd)])
    ensures UniqueEmails(users[id := AdminPatched(users[id], upd)])
  {
    ReplaceKeepsUnique(users, id, ProfilePatched(users[id], upd));
    ReplaceKeepsUnique(users, id, AdminPatched(users[id], upd));
  }

  /** Sending the same update again after it succeeded is accepted and
      changes nothing more. */
  lemma RetryIsHarmless(users: map<UserId, User>, id: UserId, upd: UserUpdate)
    requires id in users
    ensures var after := users[id := ProfilePatched(users[id], upd)];
            && Conflict(after, after[id], upd) == None
            && ProfilePatched(after[id], upd) == after[id]
    ensures var after := users[id := AdminPatched(users[id], upd)];
            && Conflict(after, after[id], upd) == None
            && AdminPatched(after[id], upd) == after[id]
  {
  }

  /** Without a role or an active flag, an administrator's update is the one
      the user could have made themself. */
  lemma AdminPatchWithoutPrivileges(u: User, upd: UserUpdate)
    requires upd.role.None? && upd.active.None?
    ensures AdminPatched(u, upd) == ProfilePatched(u, upd)
  {
  }

  /** Writes row `v` over account `id`: the commit of an update whose
      checks have passed. */
  method WriteUser(db: Database, id: UserId, v: User)
    requires db.Valid() && id in db.users
    requires v.username != db.users[id].username ==> !UsernameInUse(db.users, v.username)
    requires v.email != db.users[id].email ==> !EmailInUse(db.users, v.email)
    modifies db`users
    ensures db.Valid()
    ensures db.users == old(db.users)[id := v]
  {
    ReplaceKeepsUnique(db.users, id, v);
    db.users := db.users[id := v];
  }

  /** The checks and assignments both update endpoints share: the username
      check and assignment, then the e-mail check and assignment, then name,
      lastname and phone. The row comes back unwritten; the callers commit
      it. */
  method PatchProfile(users: map<UserId, User>, id: UserId, upd: UserUpdate) returns (r: Result<User, Error>)
    requires id in users
    ensures r.Err? <==> Conflict(users, users[id], upd).Some?
    ensures r.Err? ==> r.error == BadRequest(Conflict(users, users[id], upd).value)
    ensures r.Ok? ==> r.value == ProfilePatched(users[id], upd)
    ensures r.Ok? ==> r.value.username != users[id].username ==> !UsernameInUse(users, r.value.username)
    ensures r.Ok? ==> r.value.email != users[id].email ==> !EmailInUse(users, r.value.email)
  {
    var user := users[id];
    ghost var before := user;
    if upd.username.Some? && upd.username.value != user.username {
      if UsernameInUse(users, upd.username.value) {
        return Err(BadRequest(UsernameTaken));
      }
      user := user.(username := upd.username.value);
    }
    assert user == before.(username := Pick(upd.username, before.username));
    if upd.email.Some? && upd.email.value != user.email {
      if EmailInUse(users, upd.email.value) {
        return Err(BadRequest(EmailTaken));
      }
      user := user.(email := upd.email.value);
    }
    assert user == before.(username := Pick(upd.username, before.username), email := Pick(upd.email, before.email));
    if upd.name.Some? {
      user := user.(name := upd.name.value);
    }
    if upd.lastname.Some? {
      user := user.(lastname := upd.lastname.value);
    }
    if upd.phone.Some? {
      user := user.(phone := upd.phone.value);
    }
    r := Ok(user);
  }

  /** update_my_profile: the profile fields only; the role, the active flag
      and the password stay as they were whatever the request holds. */
  method UpdateMyProfile(db: Database, me: UserId, upd: UserUpdate) returns (r: Result<UserView, Error>)
    requires db.Valid() && me in db.users && ValidUserUpdate(upd)
    modifies db`users
    ensures db.Valid()
    ensures r.Err? <==> Conflict(old(db.users), old(db.users[me]), upd).Some?
    ensures r.Err? ==> r.error == BadRequest(Conflict(old(db.users), old(db.users[me]), upd).value) && db.users == old(db.users)
    ensures r.Ok? ==> db.users == old(db.users)[me := ProfilePatched(old(db.users[me]), upd)] && r.value == ViewOf(me, db.users[me])
    ensures me in db.users && db.users[me].role == old(db.users[me].role) && db.users[me].active == old(db.users[me].active)
    ensures db.users[me].password == old(db.users[me].password)
  {
    var patched := PatchProfile(db.users, me, upd);
    if patched.Err? {
      return Err(patched.error);
    }
    WriteUser(db, me, patched.value);
    r := Ok(ViewOf(me, patched.value));
  }

  /** update_user: 404 for an unknown id, then the profile fields as above,
      then the role and the active flag. */
  method UpdateUser(db: Database, id: UserId, upd: UserUpdate) returns (r: Result<UserView, Error>)
    requires db.Valid() && ValidUserUpdate(upd)
    modifies db`users
    ensures db.Valid()
    ensures id !in old(db.users) ==> r == Err(NotFound(UserMissing))
    ensures id in old(db.users) ==>
              && (r.Err? <==> Conflict(old(db.users), old(db.users[id]), upd).Some?)
              && (r.Err? ==> r.error == BadRequest(Conflict(old(db.users), old(db.users[id]), upd).value))
    ensures r.Err? ==> db.users == old(db.users)
    ensures r.Ok? ==>
              && id in old(db.users)
              && db.users == old(db.users)[id := AdminPatched(old(db.users[id]), upd)]
              && r.value == ViewOf(id, db.users[id])
  {
    if id !in db.users {
      return Err(NotFound(UserMissing));
    }
    var patched := PatchProfile(db.users, id, upd);
    if patched.Err? {
      return Err(patched.error);
    }
    var user := patched.value;
    if upd.role.Some? {
      user := user.(role := upd.role.value);
    }
    if upd.active.Some? {
      user := user.(active := upd.active.value);
    }
    WriteUser(db, id, user);
    r := Ok(ViewOf(id, user));
  }

  // Deletion

  /** Removes the row of an account that no test refers to any more. */
  method RemoveUserRow(db: Database, id: UserId)
    requires db.Valid() && db.ResultsFollowCompletion()
    requires forall t :: t in db.tests ==> db.tests[t].userId != id
    modifies db`users
    ensures db.Valid() && db.ResultsFollowCompletion()
    ensures db.users == old(db.users) - {id}
  {
    db.users := db.users - {id};
  }

  /** delete_user: 404 for an unknown id, 400 when the administrator names
      their own account, otherwise the account goes together with all its
      tests and what hangs off them. */
  method DeleteUser(db: Database, me: UserId, id: UserId) returns (r: Result<(), Error>)
    requires db.Valid() && db.ResultsFollowCompletion()
    modifies db`users, db`tests, db`answers, db`results, db`links
    ensures db.Valid() && db.ResultsFollowCompletion()
    ensures id !in old(db.users) ==> r == Err(NotFound(UserMissing))
    ensures id in old(db.users) && id == me ==> r == Err(BadRequest(SelfDeletion))
    ensures r.Ok? <==> id in old(db.users) && id != me
    ensures r.Err? ==>
              && db.users == old(db.users) && db.tests == old(db.tests) && db.answers == old(db.answers)
              && db.results == old(db.results) && db.links == old(db.links)
    ensures r.Ok? ==>
              var gone := TestsOf(old(db.tests), id);
              && db.users == old(db.users) - {id}
              && db.tests == old(db.tests) - gone
              && db.answers == AnswersWithoutTests(old(db.answers), gone)
              && db.results == old(db.results) - gone
              && db.links == LinksWithoutTests(old(db.links), old(db.results), gone)
    ensures r.Ok? ==> TestsOf(db.tests, id) == {}
  {
    if id !in db.users {
      return Err(NotFound(UserMissing));
    }
    if id == me {
      return Err(BadRequest(SelfDeletion));
    }
    var gone := TestsOf(db.tests, id);
    RemoveTests(db, gone);
    RemoveUserRow(db, id);
    assert TestsOf(db.tests, id) == {};
    r := Ok(());
  }
}
