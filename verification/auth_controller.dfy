/** The account handlers of controllers/authController.js over an in-memory
    user collection, with bcrypt and JWT as supplied functions: `register`
    (required fields, one account per email, hashed password, no password in
    the reply) and `login` (one uniform answer for every failed attempt, and
    a one-day token carrying the stored id and role). */
module AuthController {
  import opened Common
  import Store
  import Text
  import Crypto
  import opened UserModel

  function UserEmail(u: User): string { u.email }

  /** The JSON body of both requests. */
  datatype Credentials = Credentials(email: Option<string>, password: Option<string>, role: Option<string>)

  /** The `{ token, role }` reply of a successful login. */
  datatype Session = Session(token: string, role: string)

  const MissingCredentials := "Email and password are required"
  const InvalidCredentials := "Invalid credentials"

  /** `User.findOne({ email })`: the query value is cast through the path's
      `trim` setter before it is compared with the stored emails. */
  function FindByEmail(users: seq<User>, email: string): (r: Option<User>)
    ensures r.Some? ==> r.value in users && r.value.email == Text.Trim(email)
    ensures r.None? <==> forall u :: u in users ==> u.email != Text.Trim(email)
  {
    Store.Find(users, UserEmail, Text.Trim(email))
  }

  /** What a stored collection of users keeps: unique ids, unique emails,
      trimmed non-empty emails. */
  predicate WellKept(users: seq<User>)
  {
    && Store.UniqueKeys(users, UserId)
    && Store.UniqueKeys(users, UserEmail)
    && forall k :: 0 <= k < |users| ==> ValidUser(users[k])
  }

  /** `register`. A falsy email or password is 400; an email already stored
      (after trimming) is 400 with nothing stored; a document the schema
      refuses is 500 (the catch); otherwise the user is saved with the
      password hashed, and the reply is the new user without the password. */
  function Register(users: seq<User>, body: Credentials, freshId: Id, salt: nat, bcrypt: Crypto.Bcrypt): (r: Handled<Identity, seq<User>>)
    requires Store.Find(users, UserId, freshId).None?
    ensures !Truthy(body.email) || !Truthy(body.password) ==> r == Handled(Err(400, MissingCredentials), users)
    ensures Truthy(body.email) && Truthy(body.password) && FindByEmail(users, body.email.value).Some? ==>
              r == Handled(Err(400, "Email already in use"), users)
    ensures r.reply.Err? ==> r.state == users && (r.reply.code == 400 || r.reply.code == 500)
    ensures r.reply.Ok? <==>
              && Truthy(body.email) && Truthy(body.password)
              && FindByEmail(users, body.email.value).None?
              && !Text.AllSpace(body.email.value)
              && (body.role.Some? ==> body.role.value == "user" || body.role.value == "admin")
    ensures r.reply.Ok? ==>
              && |r.state| == |users| + 1
              && r.state[..|users|] == users
              && var u := r.state[|users|];
                 && r.reply.code == 201
                 && r.reply.body == IdentityOf(u)
                 && u.id == freshId
                 && u.email == Text.Trim(body.email.value)
                 && u.password == bcrypt.hash(body.password.value, salt)
                 && RoleName(u.role) == (if body.role.Some? then body.role.value else "user")
                 && u.recentlyViewedTasks == []
                 && ValidUser(u)
  {
    if !Truthy(body.email) || !Truthy(body.password) then Handled(Err(400, MissingCredentials), users)
    else if FindByEmail(users, body.email.value).Some? then Handled(Err(400, "Email already in use"), users)
    else match NewUser(freshId, body.email.value, body.password.value, body.role)
      case Failure(e) => Handled(Err(500, e), users)
      case Success(u) =>
        var saved := PreSave(u, true, salt, bcrypt);
        var s := users + [saved];
        assert s[..|users|] == users;
        Handled(Ok(201, IdentityOf(saved)), s)
  }

  /** Appending a valid user whose id and email are both new keeps the
      collection well kept. */
  lemma AppendKeepsUsersWellKept(users: seq<User>, u: User)
    requires WellKept(users) && ValidUser(u)
    requires Store.Find(users, UserId, u.id).None? && Store.Find(users, UserEmail, u.email).None?
    ensures WellKept(users + [u])
  {
    Store.AppendUnique(users, UserId, u);
    Store.AppendUnique(users, UserEmail, u);
    var s := users + [u];
    forall k | 0 <= k < |s| ensures ValidUser(s[k]) {
      if k < |users| {
        assert s[k] == users[k];
      }
    }
  }

  /** Registration keeps ids and emails unique and every email valid. */
  lemma RegisterKeepsUsersWellKept(users: seq<User>, body: Credentials, freshId: Id, salt: nat, bcrypt: Crypto.Bcrypt)
    requires Store.Find(users, UserId, freshId).None? && WellKept(users)
    ensures WellKept(Register(users, body, freshId, salt, bcrypt).state)
  {
    var r := Register(users, body, freshId, salt, bcrypt);
    if r.reply.Ok? {
      var u := r.state[|users|];
      assert r.state == users + [u];
      assert u.id == freshId && u.email == Text.Trim(body.email.value);
      AppendKeepsUsersWellKept(users, u);
    }
  }

  /** The role is taken from the body as sent: anyone may open an admin
      account for an unused email. */
  lemma AnyoneCanRegisterAsAdmin(users: seq<User>, email: string, password: string, freshId: Id, salt: nat, bcrypt: Crypto.Bcrypt)
    requires Store.Find(users, UserId, freshId).None?
    requires !Text.AllSpace(email) && password != "" && FindByEmail(users, email).None?
    ensures var r := Register(users, Credentials(Some(email), Some(password), Some("admin")), freshId, salt, bcrypt);
            r.reply.Ok? && r.reply.body.role == Admin && r.state[|users|].role == Admin
  {
    assert email != "";
  }

  /** `login`. A falsy email or password is 400; an unknown email and a wrong
      password get the same 401; otherwise the reply carries a one-day token
      for `{ id, role }` of the stored user, and that role. */
  function Login(users: seq<User>, body: Credentials, jwt: Crypto.Jwt, bcrypt: Crypto.Bcrypt): (r: Reply<Session>)
    ensures !Truthy(body.email) || !Truthy(body.password) ==> r == Err(400, MissingCredentials)
    ensures r.Err? ==> r == Err(400, MissingCredentials) || r == Err(401, InvalidCredentials)
    ensures r.Ok? <==>
              && Truthy(body.email) && Truthy(body.password)
              && FindByEmail(users, body.email.value).Some?
              && ComparePassword(FindByEmail(users, body.email.value).value, body.password.value, bcrypt)
    ensures r.Ok? ==>
              var u := FindByEmail(users, body.email.value).value;
              && r.code == 200
              && r.body.role == RoleName(u.role)
              && r.body.token == jwt.sign(Crypto.TokenPayload(u.id, RoleName(u.role)), Crypto.OneDaySeconds)
              && (Crypto.Sound(jwt) ==> jwt.verify(r.body.token) == Some(Crypto.TokenPayload(u.id, r.body.role)))
  {
    if !Truthy(body.email) || !Truthy(body.password) then Err(400, MissingCredentials)
    else match FindByEmail(users, body.email.value)
      case None => Err(401, InvalidCredentials)
      case Some(u) =>
        if !ComparePassword(u, body.password.value, bcrypt) then Err(401, InvalidCredentials)
        else
          var payload := Crypto.TokenPayload(u.id, RoleName(u.role));
          Ok(200, Session(jwt.sign(payload, Crypto.OneDaySeconds), RoleName(u.role)))
  }

  /** A caller cannot tell an unknown email from a wrong password. */
  lemma FailedLoginsLookAlike(users: seq<User>, unknown: Credentials, wrong: Credentials, jwt: Crypto.Jwt, bcrypt: Crypto.Bcrypt)
    requires Truthy(unknown.email) && Truthy(unknown.password) && FindByEmail(users, unknown.email.value).None?
    requires Truthy(wrong.email) && Truthy(wrong.password) && FindByEmail(users, wrong.email.value).Some?
    ensures !ComparePassword(FindByEmail(users, wrong.email.value).value, wrong.password.value, bcrypt) ==>
              Login(users, unknown, jwt, bcrypt) == Login(users, wrong, jwt, bcrypt) == Err(401, InvalidCredentials)
  {
  }

  /** Registering and then logging in with the same email and password
      succeeds and yields a token for the new account, when bcrypt accepts a
      password against its own hash. */
  lemma RegisterThenLogin(users: seq<User>, email: string, password: string, role: Option<string>, freshId: Id,
                          salt: nat, bcrypt: Crypto.Bcrypt, jwt: Crypto.Jwt)
    requires Store.Find(users, UserId, freshId).None?
    requires Crypto.Matches(bcrypt) && Crypto.Sound(jwt)
    requires Register(users, Credentials(Some(email), Some(password), role), freshId, salt, bcrypt).reply.Ok?
    ensures var s := Register(users, Credentials(Some(email), Some(password), role), freshId, salt, bcrypt).state;
            var r := Login(s, Credentials(Some(email), Some(password), None), jwt, bcrypt);
            && r.Ok?
            && jwt.verify(r.body.token) == Some(Crypto.TokenPayload(freshId, r.body.role))
            && r.body.role == (if role.Some? then role.value else "user")
  {
    var body := Credentials(Some(email), Some(password), role);
    var r := Register(users, body, freshId, salt, bcrypt);
    var u := r.state[|users|];
    assert r.state == users + [u];
    assert u.email == Text.Trim(email) && u.password == bcrypt.hash(password, salt);
    Text.TrimIdempotent(email);
    Store.FindAppended(users, UserEmail, u);
    assert FindByEmail(r.state, email) == Some(u);
    assert bcrypt.compare(password, u.password);
    assert ComparePassword(u, password, bcrypt);
    var l := Login(r.state, Credentials(Some(email), Some(password), None), jwt, bcrypt);
    assert l.Ok? && l.body.role == RoleName(u.role);
  }
}
