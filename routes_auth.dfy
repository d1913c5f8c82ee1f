/** Registration and login (app/routes/auth.py). Password hashing, password
    verification and token signing belong to foreign libraries; they are
    the parameters `hasher`, `verify` and `issue`. The configured token
    lifetime is the parameter `expireMinutes`. */
module RoutesAuth {
  import opened Models
  import opened Store
  import Listing

  /** The role as the token's "role" claim spells it. */
  function RoleClaim(role: UserRole): string {
    match role
    case Regular => "user"
    case Admin => "admin"
  }

  /** The account a username query finds: `.first()` of the rows holding the
      name, of which the unique constraint allows at most one. */
  function FindByUsername(users: map<UserId, User>, name: string): (r: Option<UserId>)
    ensures r.Some? <==> UsernameInUse(users, name)
    ensures r.Some? ==> r.value in users && users[r.value].username == name
    ensures UniqueUsernames(users) ==> forall id :: id in users && users[id].username == name ==> r == Some(id)
  {
    var holders := set id | id in users && users[id].username == name;
    if holders == {} then
      assert forall id :: id in users && users[id].username == name ==> id in holders;
      None
    else Some(Listing.MinOf(holders))
  }

  // Registration

  /** RegisterRequest, with its length bounds; the e-mail syntax check is
      not modelled. */
  datatype RegisterRequest = RegisterRequest(username: string, email: string, password: string)

  predicate ValidRegisterRequest(req: RegisterRequest) {
    3 <= |req.username| <= 50 && 8 <= |req.password| <= 100
  }

  /** The row register inserts: role USER, active, empty name, lastname and
      phone, and the hash of the password in place of the password. */
  function Registered(req: RegisterRequest, hash: PasswordHash): (u: User)
    ensures u.username == req.username && u.email == req.email && u.password == hash
    ensures u.role == Regular && u.active
    ensures u.name == "" && u.lastname == "" && u.phone == ""
  {
    User(req.username, req.email, hash, Regular, "", "", "", true)
  }

  /** Adding a row under a fresh id with a username and an e-mail no row
      holds keeps both columns unique. */
  lemma InsertKeepsUnique(users: map<UserId, User>, id: UserId, v: User)
    requires id !in users && UniqueUsernames(users) && UniqueEmails(users)
    requires !UsernameInUse(users, v.username) && !EmailInUse(users, v.email)
    ensures UniqueUsernames(users[id := v]) && UniqueEmails(users[id := v])
  {
    var after := users[id := v];
    forall a, b | a in after && b in after && a != b
      ensures after[a].username != after[b].username && after[a].email != after[b].email
    {
      if a == id {
        assert after[b] == users[b];
      } else if b == id {
        assert after[a] == users[a];
      }
    }
  }

  /** register: 400 for a username in use, then 400 for an e-mail in use,
      with nothing inserted; otherwise the new row under the next id. */
  method Register(db: Database, req: RegisterRequest, hasher: string -> PasswordHash) returns (r: Result<(UserId, User), Error>)
    requires db.Valid() && ValidRegisterRequest(req)
    modifies db`users, db`nextUserId
    ensures db.Valid()
    ensures UsernameInUse(old(db.users), req.username) ==> r == Err(BadRequest(UsernameTaken))
    ensures !UsernameInUse(old(db.users), req.username) && EmailInUse(old(db.users), req.email) ==> r == Err(BadRequest(EmailTaken))
    ensures r.Ok? <==> !UsernameInUse(old(db.users), req.username) && !EmailInUse(old(db.users), req.email)
    ensures r.Err? ==> db.users == old(db.users) && db.nextUserId == old(db.nextUserId)
    ensures r.Ok? ==>
              && r.value.0 == old(db.nextUserId) && r.value.0 !in old(db.users)
              && r.value.1 == Registered(req, hasher(req.password))
              && db.users == old(db.users)[r.value.0 := r.value.1]
              && db.nextUserId == old(db.nextUserId) + 1
  {
    if UsernameInUse(db.users, req.username) {
      return Err(BadRequest(UsernameTaken));
    }
    if EmailInUse(db.users, req.email) {
      return Err(BadRequest(EmailTaken));
    }
    var id := db.nextUserId;
    var row := User(req.username, req.email, hasher(req.password), Regular, "", "", "", true);
    InsertKeepsUnique(db.users, id, row);
    db.users := db.users[id := row];
    db.nextUserId := id + 1;
    r := Ok((id, row));
  }

  // Login

  datatype LoginRequest = LoginRequest(username: string, password: string)

  predicate ValidLoginRequest(req: LoginRequest) {
    3 <= |req.username| <= 50 && 1 <= |req.password|
  }

  datatype TokenResponse = TokenResponse(accessToken: string, tokenType: string, expiresIn: Option<int>)

  /** The reported lifetime: the configured minutes when positive, else
      none. */
  function ExpiresIn(expireMinutes: int): Option<int> {
    if expireMinutes > 0 then Some(expireMinutes) else None
  }

  /** login: the account is looked up by username; an unknown username and
      a wrong password give the same 401, an inactive account gives 403 but
      only to a caller who gave its password, and otherwise a bearer token
      is issued for the username and the role. */
  function Login(users: map<UserId, User>, req: LoginRequest, verify: (string, PasswordHash) -> bool,
                 issue: (string, string) -> string, expireMinutes: int): (r: Result<TokenResponse, Error>)
    requires UniqueUsernames(users) && ValidLoginRequest(req)
    ensures !UsernameInUse(users, req.username) ==> r == Err(Unauthorized)
    ensures r.Err? ==> r.error == Unauthorized || r.error == Forbidden(InactiveUser)
    ensures r == Err(Unauthorized) <==>
              forall id :: id in users && users[id].username == req.username ==> !verify(req.password, users[id].password)
    ensures r == Err(Forbidden(InactiveUser)) <==>
              exists id :: id in users && users[id].username == req.username && verify(req.password, users[id].password) && !users[id].active
    ensures r.Ok? <==>
              exists id :: id in users && users[id].username == req.username && verify(req.password, users[id].password) && users[id].active
    ensures r.Ok? ==>
              forall id :: id in users && users[id].username == req.username ==>
                r.value == TokenResponse(issue(req.username, RoleClaim(users[id].role)), "bearer", ExpiresIn(expireMinutes))
    ensures r.Ok? ==> (r.value.expiresIn.Some? <==> expireMinutes > 0) && (r.value.expiresIn.Some? ==> r.value.expiresIn.value == expireMinutes)
  {
    var found := FindByUsername(users, req.username);
    if found.None? then Err(Unauthorized)
    else
      var user := users[found.value];
      if !verify(req.password, user.password) then Err(Unauthorized)
      else if !user.active then Err(Forbidden(InactiveUser))
      else Ok(TokenResponse(issue(user.username, RoleClaim(user.role)), "bearer", ExpiresIn(expireMinutes)))
  }

  /** Whoever just registered can log in with the password they chose, as a
      regular user, provided the verifier accepts a password against its own
      hash. */
  lemma {:induction false} RegisteredCanLogIn(users: map<UserId, User>, id: UserId, req: RegisterRequest, hasher: string -> PasswordHash,
                                              verify: (string, PasswordHash) -> bool, issue: (string, string) -> string, expireMinutes: int)
    requires UniqueUsernames(users) && ValidRegisterRequest(req)
    requires id in users && users[id] == Registered(req, hasher(req.password))
    requires verify(req.password, hasher(req.password))
    ensures Login(users, LoginRequest(req.username, req.password), verify, issue, expireMinutes)
            == Ok(TokenResponse(issue(req.username, "user"), "bearer", ExpiresIn(expireMinutes)))
  {
    assert FindByUsername(users, req.username) == Some(id);
  }

  /** A login that fails does not tell an unknown username from a wrong
      password: both give the same answer. */
  lemma {:induction false} UnknownAndWrongAlike(users: map<UserId, User>, unknown: LoginRequest, wrong: LoginRequest,
                                               verify: (string, PasswordHash) -> bool, issue: (string, string) -> string, expireMinutes: int)
    requires UniqueUsernames(users) && ValidLoginRequest(unknown) && ValidLoginRequest(wrong)
    requires !UsernameInUse(users, unknown.username)
    requires forall id :: id in users && users[id].username == wrong.username ==> !verify(wrong.password, users[id].password)
    ensures Login(users, unknown, verify, issue, expireMinutes) == Login(users, wrong, verify, issue, expireMinutes)
  {
    var found := FindByUsername(users, wrong.username);
    if found.Some? {
      assert !verify(wrong.password, users[found.value].password);
    }
  }
}
