/** The task router of routes/tasks.js: `optionalAuth`, which turns an
    `Authorization: Bearer <token>` header into an identity or leaves the
    request anonymous, and the route table that says, for each verb and
    path, which guard runs before which handler. */
module TaskRoutes {
  import opened Common
  import Store
  import Text
  import Crypto
  import opened UserModel
  import opened AdminMiddleware
  import AuthController

  const BearerPrefix := "Bearer "

  /** `authHeader.split(' ')[1]` for a header that starts with the prefix:
      the text after `Bearer ` up to the next space. */
  function BearerToken(header: string): (token: string)
    requires Text.StartsWith(header, BearerPrefix)
    ensures token == Text.UpTo(header[|BearerPrefix|..], ' ')
    ensures ' ' !in token
  {
    var rest := header[|BearerPrefix|..];
    assert header == "Bearer" + [' '] + rest;
    Text.SplitAfterWord("Bearer", ' ', rest);
    Text.SplitFirst(rest, ' ');
    Text.Split(header, ' ')[1]
  }

  /** `optionalAuth`: the identity of the stored user a valid bearer token
      names, loaded without its password; any missing piece (no header, no
      prefix, a token that does not verify, a user that is gone) leaves the
      request anonymous. The role is the stored one, not the token's. */
  function OptionalAuth(header: Option<string>, jwt: Crypto.Jwt, users: seq<User>): (r: Option<Identity>)
    ensures r.Some? <==>
              && header.Some? && Text.StartsWith(header.value, BearerPrefix)
              && jwt.verify(BearerToken(header.value)).Some?
              && Store.Find(users, UserId, jwt.verify(BearerToken(header.value)).value.id).Some?
    ensures r.Some? ==>
              var u := Store.Find(users, UserId, jwt.verify(BearerToken(header.value)).value.id).value;
              u in users && r.value == IdentityOf(u)
  {
    if header.None? || !Text.StartsWith(header.value, BearerPrefix) then None
    else match jwt.verify(BearerToken(header.value))
      case None => None
      case Some(claims) =>
        match Store.Find(users, UserId, claims.id)
        case None => None
        case Some(u) => Some(IdentityOf(u))
  }

  /** A token from a successful login, sent back as a bearer header,
      authenticates as the account that logged in (with its stored role),
      given a verifier that accepts what the signer produced. */
  lemma LoginTokenAuthenticates(users: seq<User>, body: AuthController.Credentials, jwt: Crypto.Jwt, bcrypt: Crypto.Bcrypt)
    requires Crypto.Sound(jwt) && Crypto.SpaceFree(jwt) && Store.UniqueKeys(users, UserId)
    ensures AuthController.Login(users, body, jwt, bcrypt).Ok? ==>
              var u := AuthController.FindByEmail(users, body.email.value).value;
              var token := AuthController.Login(users, body, jwt, bcrypt).body.token;
              OptionalAuth(Some(BearerPrefix + token), jwt, users) == Some(IdentityOf(u))
  {
    if !AuthController.Login(users, body, jwt, bcrypt).Ok? {
      return;
    }
    var u := AuthController.FindByEmail(users, body.email.value).value;
    var token := AuthController.Login(users, body, jwt, bcrypt).body.token;
    var header := BearerPrefix + token;
    assert header[|BearerPrefix|..] == token;
    UpToWithoutSeparator(token, ' ');
    var k :| 0 <= k < |users| && users[k] == u;
    Store.FindUnique(users, UserId, k);
  }

  lemma UpToWithoutSeparator(s: string, sep: char)
    requires sep !in s
    ensures Text.UpTo(s, sep) == s
  {
  }

  /** A header that does not start with the prefix never authenticates. */
  lemma NoBearerNoIdentity(header: string, jwt: Crypto.Jwt, users: seq<User>)
    requires !Text.StartsWith(header, BearerPrefix)
    ensures OptionalAuth(Some(header), jwt, users).None?
  {
  }

  datatype Verb = Get | Post | Put | Delete

  /** A path segment of a route: a fixed word, or a `:param` that matches
      any one non-empty segment. */
  datatype Segment = Literal(word: string) | Param

  /** The middleware that runs before a handler. */
  datatype Guard =
    | OptionalAuthentication      // optionalAuth
    | Authentication              // authMiddleware
    | AdminAuthentication         // authMiddleware, then adminMiddleware

  datatype Action = ListTasks | ReadTask | ListRecentlyViewed | CreateTask | UpdateTask | DeleteTask

  datatype Route = Route(verb: Verb, path: seq<Segment>, guard: Guard, action: Action)

  /** The routes in registration order, paths relative to `/api/tasks`. */
  const Routes: seq<Route> := [
    Route(Get, [], OptionalAuthentication, ListTasks),
    Route(Get, [Literal("recently-viewed"), Literal("list")], Authentication, ListRecentlyViewed),
    Route(Get, [Param], OptionalAuthentication, ReadTask),
    Route(Post, [], AdminAuthentication, CreateTask),
    Route(Put, [Param], AdminAuthentication, UpdateTask),
    Route(Delete, [Param], AdminAuthentication, DeleteTask)
  ]

  predicate SegmentMatches(s: Segment, part: string)
  {
    if s.Literal? then part == s.word else part != ""
  }

  predicate RouteMatches(r: Route, verb: Verb, parts: seq<string>)
  {
    && r.verb == verb
    && |r.path| == |parts|
    && forall k :: 0 <= k < |parts| ==> SegmentMatches(r.path[k], parts[k])
  }

  /** The position of the first route from `i` on that matches. */
  function FirstMatch(routes: seq<Route>, verb: Verb, parts: seq<string>, i: nat): (r: Option<nat>)
    requires i <= |routes|
    ensures r.Some? ==> i <= r.value < |routes| && RouteMatches(routes[r.value], verb, parts)
    ensures r.Some? ==> forall k :: i <= k < r.value ==> !RouteMatches(routes[k], verb, parts)
    ensures r.None? ==> forall k :: i <= k < |routes| ==> !RouteMatches(routes[k], verb, parts)
    decreases |routes| - i
  {
    if i == |routes| then None
    else if RouteMatches(routes[i], verb, parts) then Some(i)
    else FirstMatch(routes, verb, parts, i + 1)
  }

  /** Express dispatch: the first registered route that matches the verb
      and the path segments. */
  function Dispatch(verb: Verb, parts: seq<string>): (r: Option<Route>)
    ensures r.Some? ==> r.value in Routes && RouteMatches(r.value, verb, parts)
    ensures r.None? <==> forall k :: 0 <= k < |Routes| ==> !RouteMatches(Routes[k], verb, parts)
  {
    match FirstMatch(Routes, verb, parts, 0)
    case None => None
    case Some(k) => Some(Routes[k])
  }

  /** The answer of `authMiddleware` to a request without a valid identity;
      its wording is not part of this model, only its status. */
  const NotAuthenticated := "Not authenticated"

  /** What a guard decides for the identity its authentication produced. */
  function Admit(guard: Guard, user: Option<Identity>): (d: Decision)
    ensures guard == OptionalAuthentication ==> d == Next
    ensures guard == Authentication ==> (d.Next? <==> user.Some?)
    ensures guard == AdminAuthentication ==> (d.Next? <==> user.Some? && IsAdmin(user.value))
    ensures d.Respond? ==> d.code == 401 || (d == Respond(403, "Forbidden") && user.Some?)
  {
    match guard
    case OptionalAuthentication => Next
    case Authentication => if user.None? then Respond(401, NotAuthenticated) else Next
    case AdminAuthentication => if user.None? then Respond(401, NotAuthenticated) else AdminGate(user)
  }

  /** Every write to tasks is guarded by authentication and the admin gate:
      only an admin identity reaches the handler. */
  lemma WritesAreAdminOnly(verb: Verb, parts: seq<string>, user: Option<Identity>)
    requires verb != Get && Dispatch(verb, parts).Some?
    ensures Dispatch(verb, parts).value.guard == AdminAuthentication
    ensures Admit(Dispatch(verb, parts).value.guard, user).Next? <==> user.Some? && IsAdmin(user.value)
  {
  }

  /** The listing and reading a single task are open: whatever identity the
      optional authentication produced, the handler runs. */
  lemma ReadsAreOpen(id: string, user: Option<Identity>)
    requires id != ""
    ensures Dispatch(Get, []) == Some(Routes[0]) && Routes[0].action == ListTasks
    ensures Dispatch(Get, [id]) == Some(Routes[2]) && Routes[2].action == ReadTask
    ensures Admit(Routes[0].guard, user) == Next && Admit(Routes[2].guard, user) == Next
  {
    assert RouteMatches(Routes[0], Get, []);
    assert !RouteMatches(Routes[0], Get, [id]) && !RouteMatches(Routes[1], Get, [id]);
    assert RouteMatches(Routes[2], Get, [id]);
  }

  /** `/recently-viewed/list` reaches the recently-viewed handler behind
      authentication, and no other route matches it, so its place in the
      registration order does not matter. */
  lemma RecentlyViewedNeedsIdentity(user: Option<Identity>)
    ensures var parts := ["recently-viewed", "list"];
            && Dispatch(Get, parts) == Some(Routes[1])
            && Routes[1].action == ListRecentlyViewed
            && (forall k :: 0 <= k < |Routes| && RouteMatches(Routes[k], Get, parts) ==> k == 1)
            && (Admit(Routes[1].guard, user).Next? <==> user.Some?)
  {
    var parts := ["recently-viewed", "list"];
    assert RouteMatches(Routes[1], Get, parts);
    assert !RouteMatches(Routes[0], Get, parts);
  }
}
