/**
 * The in-memory login service of the desktop client: a map of users and
 * the name of whoever is logged in, if anyone.
 */
module AuthenticationModel {
  import opened Wrappers

  /** `users.containsKey(username) && users.get(username).equals(password)`; `null` never matches. */
  predicate Accepts(users: map<string, string>, username: Option<string>, password: Option<string>) {
    username.Some? && password.Some? && username.value in users && users[username.value] == password.value
  }

  class AuthenticationService {
    var users: map<string, string>
    var currentUser: Option<string>

    /** Logged in, the current user is a known one. */
    predicate Valid()
      reads this
    {
      currentUser.Some? ==> currentUser.value in users
    }

    /** The two built-in accounts and nobody logged in. */
    constructor ()
      ensures Valid()
      ensures users == map["admin" := "admin123", "user" := "user123"] && currentUser == None
    {
      users := map["admin" := "admin123", "user" := "user123"];
      currentUser := None;
    }

    /** A failed login leaves the previous session as it was. */
    method Login(username: Option<string>, password: Option<string>) returns (ok: bool)
      requires Valid()
      modifies this
      ensures Valid() && users == old(users)
      ensures ok <==> Accepts(users, username, password)
      ensures currentUser == if ok then username else old(currentUser)
      ensures ok ==> IsAuthenticated() && GetCurrentUser() == username
      ensures !ok ==> IsAuthenticated() == old(IsAuthenticated())
    {
      if username.Some? && username.value in users && password.Some? && users[username.value] == password.value {
        currentUser := username;
        return true;
      }
      return false;
    }

    /** `logout`: nobody is logged in any more. */
    method Logout()
      modifies this
      ensures Valid() && users == old(users) && currentUser == None
      ensures !IsAuthenticated()
    {
      currentUser := None;
    }

    /** `isAuthenticated`: somebody is logged in. */
    function IsAuthenticated(): bool
      reads this
    {
      currentUser.Some?
    }

    function GetCurrentUser(): Option<string>
      reads this
    {
      currentUser
    }

    /** A new name with a password is added; an existing password is never replaced. */
    method AddUser(username: Option<string>, password: Option<string>) returns (ok: bool)
      requires Valid()
      modifies this
      ensures Valid() && currentUser == old(currentUser)
      ensures ok <==> username.Some? && password.Some? && username.value !in old(users)
      ensures users == if ok then old(users)[username.value := password.value] else old(users)
    {
      if username.Some? && password.Some? && username.value !in users {
        users := users[username.value := password.value];
        return true;
      }
      return false;
    }
  }

  /**
   * Adding users never changes whether existing credentials are accepted:
   * every stored password stays as it was.
   */
  lemma AddKeepsAccepted(users: map<string, string>, username: string, password: string, u: Option<string>, p: Option<string>)
    requires username !in users
    requires u.Some? && u.value in users
    ensures Accepts(users[username := password], u, p) <==> Accepts(users, u, p)
  {
  }

  /** The built-in accounts log in with their own passwords and with no other. */
  lemma BuiltInAccounts(p: Option<string>)
    ensures var users := map["admin" := "admin123", "user" := "user123"];
      (Accepts(users, Some("admin"), p) <==> p == Some("admin123"))
      && (Accepts(users, Some("user"), p) <==> p == Some("user123"))
  {
  }
}
