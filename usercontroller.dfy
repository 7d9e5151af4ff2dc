/**
 * The HTTP handler for logging in and registering. The `users` table is a
 * map from user name to password that registration inserts into.
 */
module UserControllerModel {
  import opened Wrappers
  import opened JavaText
  import opened QueryString
  import opened Http
  import opened Sql

  /** The handler a request reaches: only two method and path pairs are known. */
  datatype UserRoute = LoginRoute | RegisterRoute | NotFound

  function UserRouteOf(req: Request): UserRoute {
    if req.verb == "POST" && req.path == "/login" then LoginRoute
    else if req.verb == "POST" && req.path == "/register" then RegisterRoute
    else NotFound
  }

  /** The stored password equals the supplied one; a missing name or password never matches. */
  predicate Credentials(users: map<string, string>, params: map<string, string>) {
    "username" in params && "password" in params
    && params["username"] in users && users[params["username"]] == params["password"]
  }

  /** The response to a login body. */
  function LoginAnswer(users: map<string, string>, body: string): Response {
    var params := QueryParams(Some(body));
    var username := if "username" in params then Some(params["username"]) else None;
    var stored := if username.Some? && username.value in users then Some(users[username.value]) else None;
    if stored.Some? && "password" in params && stored.value == params["password"] then
      Response(200, "Login successful")
    else
      Response(401, "Invalid credentials")
  }

  /** A login succeeds exactly on matching credentials; anything else is a 401. */
  lemma LoginAnswerCredentials(users: map<string, string>, body: string)
    ensures var r := LoginAnswer(users, body);
      (r.status == 200 <==> Credentials(users, QueryParams(Some(body))))
      && (r.status == 200 || r == Response(401, "Invalid credentials"))
  {
  }

  /** `username.trim().isEmpty()`, or the parameter is missing. */
  predicate MissingOrBlank(params: map<string, string>, key: string) {
    key !in params || IsBlank(params[key])
  }

  /**
   * `INSERT INTO users`: the name goes through its `VARCHAR(50) UNIQUE`
   * column and the password through `VARCHAR(100)`. The result is the pair
   * stored, or nothing when a constraint refuses the row.
   */
  function StoredUser(users: map<string, string>, username: string, password: string): (r: Option<(string, string)>)
    ensures r.Some? <==>
      Varchar(username, 50).Some? && Varchar(password, 100).Some? && Varchar(username, 50).value !in users
    ensures r.Some? ==> r.value == (Varchar(username, 50).value, Varchar(password, 100).value)
    ensures |username| <= 50 && |password| <= 100 ==>
      (r.Some? <==> username !in users) && (r.Some? ==> r.value == (username, password))
  {
    var name, secret := Varchar(username, 50), Varchar(password, 100);
    if name.Some? && secret.Some? && name.value !in users then Some((name.value, secret.value)) else None
  }

  /** The checks of `handleRegister` in order; success gives the user to insert. */
  function RegisterDecision(users: map<string, string>, params: map<string, string>): Result<(string, string), Response> {
    if MissingOrBlank(params, "username") || MissingOrBlank(params, "password") then
      Failure(Response(400, "Username and password are required"))
    else if params["username"] in users then
      Failure(Response(409, "User already exists"))
    else if StoredUser(users, params["username"], params["password"]).None? then
      Failure(Response(500, "Registration failed"))
    else
      Success(StoredUser(users, params["username"], params["password"]).value)
  }

  /**
   * A registration inserts a user exactly when both fields are present and
   * not blank, the name is new and both pass their columns; it stores the
   * name and password as sent, untrimmed, when they fit, and never replaces
   * a password.
   */
  lemma RegisterDecisionAccepts(users: map<string, string>, params: map<string, string>)
    ensures RegisterDecision(users, params).Success? <==>
      !MissingOrBlank(params, "username") && !MissingOrBlank(params, "password")
      && params["username"] !in users && StoredUser(users, params["username"], params["password"]).Some?
    ensures RegisterDecision(users, params).Success? ==>
      RegisterDecision(users, params).value == StoredUser(users, params["username"], params["password"]).value
    ensures RegisterDecision(users, params).Success? && |params["username"]| <= 50 && |params["password"]| <= 100 ==>
      RegisterDecision(users, params).value == (params["username"], params["password"])
    ensures ("username" in params && params["username"] in users) ==> RegisterDecision(users, params).Failure?
  {
  }

  /** Every answer `handleRegister` can give. */
  predicate RegisterAnswer(resp: Response) {
    resp in {Response(400, "Username and password are required"), Response(409, "User already exists"),
             Response(500, "Registration failed"), Response(200, "Registration successful")}
  }

  /** What `handleRegister` does with `body`: the answer and the users table it leaves, from `users`. */
  predicate Registered(users: map<string, string>, body: string, users': map<string, string>, resp: Response) {
    match RegisterDecision(users, QueryParams(Some(body)))
    case Failure(e) => resp == e && users' == users
    case Success(u) => resp == Response(200, "Registration successful") && users' == users[u.0 := u.1]
  }

  class UserController {
    var users: map<string, string>

    constructor (users: map<string, string>)
      ensures this.users == users
    {
      this.users := users;
    }

    /** `handle`: POST `/login`, POST `/register`, and 404 for everything else. */
    method Handle(req: Request) returns (resp: Response)
      modifies this
      ensures UserRouteOf(req) != RegisterRoute ==> users == old(users)
      ensures UserRouteOf(req) == NotFound ==> resp == Response(404, "Not Found")
      ensures UserRouteOf(req) == LoginRoute ==> resp == LoginAnswer(users, req.body)
      ensures UserRouteOf(req) == RegisterRoute ==> RegisterAnswer(resp) && Registered(old(users), req.body, users, resp)
    {
      match UserRouteOf(req)
      case LoginRoute =>
        resp := HandleLogin(req.body);
      case RegisterRoute =>
        resp := HandleRegister(req.body);
      case NotFound =>
        resp := Response(404, "Not Found");
    }

    /** `handleLogin`: looks the name up and compares the password. */
    method HandleLogin(body: string) returns (resp: Response)
      ensures resp == LoginAnswer(users, body)
    {
      var params := ParseQuery(Some(body));
      if "username" in params && params["username"] in users
        && "password" in params && users[params["username"]] == params["password"]
      {
        resp := Response(200, "Login successful");
      } else {
        resp := Response(401, "Invalid credentials");
      }
    }

    /** `handleRegister`: validation, the duplicate check, then the insert. */
    method HandleRegister(body: string) returns (resp: Response)
      modifies this
      ensures RegisterAnswer(resp)
      ensures Registered(old(users), body, users, resp)
    {
      var params := ParseQuery(Some(body));
      if !("username" in params) || !("password" in params)
        || IsBlank(params["username"]) || IsBlank(params["password"])
      {
        return Response(400, "Username and password are required");
      }
      var username, password := params["username"], params["password"];
      if username in users {
        return Response(409, "User already exists");
      }
      var ok := AddUser(username, password);
      if ok {
        resp := Response(200, "Registration successful");
      } else {
        resp := Response(500, "Registration failed");
      }
    }

    /** `UserDAO.addUser`: true exactly when the table's constraints let the row through; the stored pair is added. */
    method AddUser(username: string, password: string) returns (ok: bool)
      modifies this
      ensures ok <==> StoredUser(old(users), username, password).Some?
      ensures users == if ok then old(users)[StoredUser(old(users), username, password).value.0 := StoredUser(old(users), username, password).value.1] else old(users)
    {
      var row := StoredUser(users, username, password);
      ok := row.Some?;
      if ok {
        users := users[row.value.0 := row.value.1];
      }
    }
  }

  /**
   * A user who registered can log in with the name and password stored,
   * which are the ones sent when they fit their columns.
   */
  lemma RegisteredCanLogIn(users: map<string, string>, username: string, password: string)
    requires StoredUser(users, username, password).Some?
    ensures var (name, secret) := StoredUser(users, username, password).value;
      Credentials(users[name := secret], map["username" := name, "password" := secret])
    ensures |username| <= 50 && |password| <= 100 ==>
      Credentials(users[username := password], map["username" := username, "password" := password])
  {
  }

  /**
   * A password padded with spaces past 100 characters registers, cut to
   * 100 characters, and the same password then fails to log in.
   */
  lemma PaddedPasswordRefused(users: map<string, string>, username: string, password: string)
    requires |username| <= 50 && username !in users && |password| > 100
    requires forall k :: 100 <= k < |password| ==> password[k] == ' '
    ensures StoredUser(users, username, password) == Some((username, password[..100]))
    ensures !Credentials(users[username := password[..100]], map["username" := username, "password" := password])
  {
    assert password[..100] != password by {
      assert |password[..100]| != |password|;
    }
  }
}
