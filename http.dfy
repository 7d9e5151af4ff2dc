/**
 * The exchange as the handlers see it, and the server's choice of handler:
 * every context is a path prefix and the longest one that matches wins.
 */
module Http {
  import opened Wrappers
  import opened JavaText

  /**
   * Method, path, query and body of an exchange. The query is the URI's query as
   * `URI.getQuery()` gives it, already percent-decoded (absent when the URI has
   * none); the body is the raw text, not decoded.
   */
  datatype Request = Request(verb: string, path: string, query: Option<string>, body: string)

  /** What `sendResponse` writes: the status and the text. */
  datatype Response = Response(status: int, body: string)

  /** The handlers the server mounts; `LoginContext` is the user handler. */
  datatype Context = RootContext | HealthContext | LoginContext | StudentsContext

  /** The root handler's reply to every exchange it receives, with status 200. */
  const WelcomeText: string := "Welcome to the Student Tracker API"

  /** The health handler's reply, with status 200. */
  const HealthText: string := "Server is running"

  /** The handler of the longest mounted prefix of the path: `/`, `/health`, `/login`, `/students`. */
  function ContextOf(path: string): Context {
    if StartsWith(path, "/students") then StudentsContext
    else if StartsWith(path, "/health") then HealthContext
    else if StartsWith(path, "/login") then LoginContext
    else RootContext
  }

  /**
   * Only `/login` is mounted for the user handler: a request for `/register`
   * reaches the root handler, which welcomes every request with a 200.
   */
  lemma RegisterNotMounted()
    ensures ContextOf("/register") == RootContext
  {
    assert !StartsWith("/register", "/students") by { assert "/register"[1] != "/students"[1]; }
    assert !StartsWith("/register", "/health") by { assert "/register"[1] != "/health"[1]; }
    assert !StartsWith("/register", "/login") by { assert "/register"[1] != "/login"[1]; }
  }

  /**
   * The handler table with the user handler mounted at `/register` as well,
   * the route the desktop client's `register` posts to.
   */
  function MountedContextOf(path: string): Context {
    if StartsWith(path, "/register") then LoginContext else ContextOf(path)
  }

  /** Mounting `/register` sends it to the user handler and changes no other route. */
  lemma RegisterMounted(path: string)
    ensures MountedContextOf("/register") == LoginContext
    ensures !StartsWith(path, "/register") ==> MountedContextOf(path) == ContextOf(path)
  {
    assert StartsWith("/register", "/register") by {
      assert "/register"[..|"/register"|] == "/register";
    }
  }
}
