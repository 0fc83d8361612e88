/** The account routes: registration (refused when the username or the
    email is taken; stores the password's hash) and login (404 unknown
    email, 400 wrong password, otherwise a token for `{ id, username }`). */
module AuthRoutes {
  import opened Base
  import opened Store
  import opened Tokens
  import opened Middleware

  /** The login answer: the token and the user's public fields. */
  datatype LoginBody = LoginBody(token: string, username: string, name: string)

  function Clashes(username: string, email: string): User -> bool {
    (u: User) => u.username == username || u.email == email
  }

  function HasEmail(email: string): User -> bool {
    (u: User) => u.email == email
  }

  /** POST /auth/register.  `salt` stands for bcrypt's random salt. */
  function Register(db: Db, c: Crypto, salt: string, name: string, username: string, email: string, password: string): (r: Reply<()>)
    ensures r.status == Conflict <==> exists u :: u in db.users && (u.username == username || u.email == email)
    ensures r.status != Conflict ==> r.status == Created
    ensures r.status == Conflict ==> r.db == db
    ensures r.status == Created ==>
      && |r.db.users| == |db.users| + 1
      && r.db.users[..|db.users|] == db.users
      && var u := r.db.users[|db.users|];
      && u.name == name && u.username == username && u.email == email
      && u.password == c.hash(password, salt)
      && r.db == db.(users := r.db.users, nextUser := r.db.nextUser)
  {
    if First(db.users, Clashes(username, email)).Some? then
      Reply(Conflict, None, db)
    else
      var u := User(db.nextUser, name, username, email, c.hash(password, salt));
      Reply(Created, None, db.(users := db.users + [u], nextUser := db.nextUser + 1))
  }

  /** POST /auth/login. */
  function Login(db: Db, c: Crypto, email: string, password: string): (r: Answer<LoginBody>)
    ensures r.status == NotFound <==> forall u :: u in db.users ==> u.email != email
    ensures r.status == OK || r.status == BadRequest || r.status == NotFound
    ensures r.status != OK <==> r.body.None?
    ensures r.status == BadRequest ==> exists u :: u in db.users && u.email == email && !c.matches(password, u.password)
    ensures r.status == OK ==>
      exists u :: u in db.users && u.email == email && c.matches(password, u.password)
        && r.body.value == LoginBody(c.sign(Claims(u.id, u.username)), u.username, u.name)
  {
    match First(db.users, HasEmail(email))
    case None => Answer(NotFound, None)
    case Some(u) =>
      if c.matches(password, u.password) then
        Answer(OK, Some(LoginBody(c.sign(Claims(u.id, u.username)), u.username, u.name)))
      else
        Answer(BadRequest, None)
  }

  /** The conflict check keeps usernames and emails unique. */
  lemma RegisterKeepsValid(db: Db, c: Crypto, salt: string, name: string, username: string, email: string, password: string)
    requires Valid(db)
    ensures Valid(Register(db, c, salt, name, username, email, password).db)
  {
    var r := Register(db, c, salt, name, username, email, password);
    if r.status == Created {
      var us := r.db.users;
      var n := |db.users|;
      forall i, j | 0 <= i < j < |us|
        ensures us[i].username != us[j].username && us[i].email != us[j].email
      {
        if j == n {
          assert us[i] == db.users[i];
          assert db.users[i] in db.users;
        }
      }
      forall i, j | 0 <= i < j < |us|
        ensures UserKey(us[i]) < UserKey(us[j])
      {
        if j == n {
          assert db.users[i] in db.users;
        }
      }
    }
  }

  /** Appending a user whose email nobody else has makes it the login match. */
  lemma NewEmailFound(users: seq<User>, nu: User, email: string)
    requires nu.email == email && forall u :: u in users ==> u.email != email
    ensures First(users + [nu], HasEmail(email)) == Some(nu)
  {
    var us := users + [nu];
    assert nu in us;
    assert forall x :: x in us ==> x in users || x == nu;
  }

  /** With sound crypto, a fresh registration can log in at once with the
      same email and password, and the token carries the new user's id and
      username. */
  lemma RegisterThenLogin(db: Db, c: Crypto, salt: string, name: string, username: string, email: string, password: string)
    requires Sound(c)
    requires forall u :: u in db.users ==> u.username != username && u.email != email
    ensures var r1 := Register(db, c, salt, name, username, email, password);
      var r2 := Login(r1.db, c, email, password);
      && r1.status == Created
      && r2.status == OK
      && r2.body.value.username == username && r2.body.value.name == name
      && c.verify(r2.body.value.token) == Some(Claims(db.nextUser, username))
  {
    var nu := User(db.nextUser, name, username, email, c.hash(password, salt));
    NewEmailFound(db.users, nu, email);
    assert c.matches(password, nu.password);
  }

  /** Once registered, a username cannot be registered again. */
  lemma RegisterTwiceConflicts(db: Db, c: Crypto, salt: string, salt': string, name: string, username: string,
                               email: string, email': string, password: string, password': string)
    ensures var r1 := Register(db, c, salt, name, username, email, password);
      r1.status == Created ==> Register(r1.db, c, salt', name, username, email', password').status == Conflict
  {
    var r1 := Register(db, c, salt, name, username, email, password);
    if r1.status == Created {
      assert r1.db.users[|db.users|] in r1.db.users;
    }
  }

  /** With sound crypto, the token of a successful login passes the
      middleware with the user's id and username. */
  lemma LoginTokenAuthenticates(db: Db, c: Crypto, email: string, password: string)
    requires Sound(c)
    ensures var r := Login(db, c, email, password);
      r.status == OK ==>
        exists u :: u in db.users && u.email == email
          && Authenticate(c.verify, Some(Bearer + r.body.value.token)) == Next(Claims(u.id, u.username))
  {
    var r := Login(db, c, email, password);
    if r.status == OK {
      var u :| u in db.users && u.email == email && c.matches(password, u.password)
        && r.body.value == LoginBody(c.sign(Claims(u.id, u.username)), u.username, u.name);
      SignedTokenAccepted(c, Claims(u.id, u.username));
    }
  }
}
