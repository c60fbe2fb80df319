/** routers/userRouter.ts: registration with unique emails, login, the
    `authenticateToken` middleware that every authenticated handler runs
    first, and the profile. Password hashing, hash comparison, token signing
    and token verification belong to libraries: a hash arrives as an input,
    and the other three are function parameters. */
module UserRouter {
  import opened Tables
  import opened Schema
  import Text

  const UserExists := "User already exists"
  const InvalidLogin := "Invalid email or password"
  const UserDeleted := "User not found. Was the user deleted?"

  /** What `authenticateToken` does: answer with a bare status, or hand the
      principal id in the verified token to the handler. */
  datatype AuthOutcome = Reject(status: int) | Pass(principal: int)

  /** A user as the profile shows it: every column except the password. */
  datatype PublicUser = PublicUser(id: int, name: string, email: string, role: Role)

  /** `findFirst({ where: eq(user.email, email) })`. */
  function FindByEmail(users: seq<User>, email: string): (r: Option<User>)
    ensures r.Some? <==> exists u | u in users :: u.email == email
    ensures r.Some? ==> r.value in users && r.value.email == email
  {
    FindFirst(users, (u: User) => u.email == email)
  }

  /** The row registration inserts: a fresh id, role "user", the password hash. */
  function NewUser(users: seq<User>, name: string, email: string, passwordHash: string): (u: User)
    ensures u.role == Regular
    ensures u.name == name && u.email == email && u.password == passwordHash
    ensures u.id > 0 && forall v | v in users :: v.id < u.id
  {
    User(FreshKey(users, UserKey), name, passwordHash, email, Regular)
  }

  /** Adding a user whose email is new keeps ids and emails unique. */
  lemma NewUserKeepsInvariant(users: seq<User>, name: string, email: string, passwordHash: string)
    requires UniqueKeys(users, UserKey) && UniqueEmails(users)
    requires forall v | v in users :: v.email != email
    ensures UniqueKeys(users + [NewUser(users, name, email, passwordHash)], UserKey)
    ensures UniqueEmails(users + [NewUser(users, name, email, passwordHash)])
  {
    var u := NewUser(users, name, email, passwordHash);
    var t := users + [u];
    AppendFresh(users, UserKey, u);
    forall i, j | 0 <= i < |t| && 0 <= j < |t| && i != j ensures t[i].email != t[j].email {
      if i < |users| && j < |users| {
        assert t[i] == users[i] && t[j] == users[j];
      } else if i < |users| {
        assert t[i] in users;
      } else {
        assert t[j] in users;
      }
    }
  }

  /** POST /api/v1/users/register: an unused email gets a new user with role
      "user" and the reply carries a token for its id; a used email is refused
      and nothing is inserted. */
  method Register(db: Db, name: string, email: string, passwordHash: string, sign: int -> string)
    returns (r: Reply<string>)
    requires db.Valid()
    modifies db`users
    ensures db.Valid()
    ensures (exists u | u in old(db.users) :: u.email == email) ==>
      r == Refused(400, UserExists) && db.users == old(db.users)
    ensures (forall u | u in old(db.users) :: u.email != email) ==>
      var u := NewUser(old(db.users), name, email, passwordHash);
      db.users == old(db.users) + [u] && r == Ok(200, sign(u.id))
  {
    if FindByEmail(db.users, email).Some? {
      return Refused(400, UserExists);
    }
    var u := NewUser(db.users, name, email, passwordHash);
    NewUserKeepsInvariant(db.users, name, email, passwordHash);
    db.users := db.users + [u];
    r := Ok(200, sign(u.id));
  }

  /** POST /api/v1/users/login: a token for the user with that email when the
      password matches its hash; otherwise one message for both failures.
      `matches(password, hash)` stands for `bcrypt.compare`. */
  function Login(db: Db, email: string, password: string, matches: (string, string) -> bool, sign: int -> string)
    : (r: Reply<string>)
    reads db
    ensures r.Ok? || r == Refused(400, InvalidLogin)
    ensures r.Ok? ==> r.status == 200
    ensures r.Ok? ==>
      exists u | u in db.users :: u.email == email && matches(password, u.password) && r.value == sign(u.id)
    ensures (forall u | u in db.users :: u.email != email) ==> r == Refused(400, InvalidLogin)
  {
    match FindByEmail(db.users, email)
    case None => Refused(400, InvalidLogin)
    case Some(u) => if !matches(password, u.password) then Refused(400, InvalidLogin) else Ok(200, sign(u.id))
  }

  /** With unique emails, login succeeds exactly when the user with that email
      has a password hash the password matches. */
  lemma LoginSucceedsIff(db: Db, email: string, password: string, matches: (string, string) -> bool, sign: int -> string)
    requires UniqueEmails(db.users)
    ensures Login(db, email, password, matches, sign).Ok? <==>
      exists u | u in db.users :: u.email == email && matches(password, u.password)
  {
    if u :| u in db.users && u.email == email && matches(password, u.password) {
      var v := FindByEmail(db.users, email).value;
      var i :| 0 <= i < |db.users| && db.users[i] == u;
      var j :| 0 <= j < |db.users| && db.users[j] == v;
      assert i == j;
    }
  }

  /** `authHeader && authHeader.split(" ")[1]`: the word after the first space,
      which must not be empty. */
  function BearerToken(header: Option<string>): (token: Option<string>)
    ensures token.Some? ==> header.Some? && ' ' in header.value && token.value != [] && ' ' !in token.value
    ensures token.Some? <==>
      header.Some? && |Text.Split(header.value, ' ')| >= 2 && Text.Split(header.value, ' ')[1] != []
    ensures token.Some? ==> token.value == Text.Split(header.value, ' ')[1]
  {
    if header.None? then None
    else
      match Text.SecondField(header.value, ' ')
      case None => None
      case Some(word) =>
        assert word == Text.Split(header.value, ' ')[1];
        if word == [] then None else Some(word)
  }

  /** `Bearer <token>`, alone or followed by more space-separated words, gives
      back the token: the second word, whatever comes after it. */
  lemma BearerTokenOfScheme(scheme: string, token: string, rest: string)
    requires ' ' !in scheme && ' ' !in token && token != []
    requires rest == [] || rest[0] == ' '
    ensures BearerToken(Some(scheme + [' '] + token + rest)) == Some(token)
  {
    assert scheme + [' '] + token + rest == scheme + [' '] + (token + rest);
    Text.SplitPrefix(scheme, token + rest, ' ');
    if rest == [] {
      assert token + rest == token;
      Text.SplitNoSeparator(token, ' ');
    } else {
      assert token + rest == token + [' '] + rest[1..];
      Text.SplitPrefix(token, rest[1..], ' ');
    }
  }

  /** A header with no space, or with two spaces in a row after the first
      word, has no token. */
  lemma NoTokenWithoutWord(scheme: string, rest: string)
    requires ' ' !in scheme
    ensures BearerToken(Some(scheme)) == None
    ensures BearerToken(Some(scheme + [' '] + [' '] + rest)) == None
  {
    Text.SplitPrefix(scheme, [' '] + rest, ' ');
    Text.SplitPrefix([], rest, ' ');
    assert scheme + [' '] + [' '] + rest == scheme + [' '] + ([' '] + rest);
    assert [] + [' '] + rest == [' '] + rest;
  }

  /** `authenticateToken`: no token is 401, a token that does not verify is
      403, otherwise the handler runs for the principal in the token.
      `verify` stands for `jwt.verify` with the server's secret. */
  function AuthenticateToken(header: Option<string>, verify: string -> Option<int>): (r: AuthOutcome)
    ensures BearerToken(header).None? <==> r == Reject(401)
    ensures r.Pass? <==> BearerToken(header).Some? && verify(BearerToken(header).value).Some?
    ensures r.Pass? ==> r.principal == verify(BearerToken(header).value).value
    ensures r.Reject? ==> r.status == 401 || r.status == 403
  {
    match BearerToken(header)
    case None => Reject(401)
    case Some(token) =>
      match verify(token)
      case None => Reject(403)
      case Some(principal) => Pass(principal)
  }

  function Public(u: User): (p: PublicUser)
    ensures p.id == u.id && p.name == u.name && p.email == u.email && p.role == u.role
  {
    PublicUser(u.id, u.name, u.email, u.role)
  }

  /** GET /api/v1/users/profile: the principal's row without its password, or
      404 when the principal no longer exists. */
  function Profile(db: Db, principal: int): (r: Reply<PublicUser>)
    reads db
    ensures FindUser(db, principal).None? <==> r == Refused(404, UserDeleted)
    ensures r.Ok? ==> r.status == 200
    ensures r.Ok? ==> exists u | u in db.users :: u.id == principal && r.value == Public(u)
    ensures FindUser(db, principal).Some? ==> r == Ok(200, Public(FindUser(db, principal).value))
  {
    match FindUser(db, principal)
    case None => Refused(404, UserDeleted)
    case Some(u) => Ok(200, Public(u))
  }

  /** GET /api/v1/users/verify: after the middleware the handler only sets
      status 200 and never sends it, so only a rejected token gets a reply. */
  function VerifyRoute(auth: AuthOutcome): (r: Reply<()>)
    ensures r == Silent <==> auth.Pass?
    ensures auth.Reject? ==> r == Bare(auth.status)
  {
    match auth
    case Reject(status) => Bare(status)
    case Pass(_) => Silent
  }
}
