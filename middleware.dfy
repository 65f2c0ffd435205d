/** The route guard in front of the notes screen and the pages API: public paths
    pass, every other request needs a `token` cookie that verifies as a JWT, and a
    request that fails either test is sent to the login page `/`. */
module Middleware {
  import opened Wrappers
  import opened Strings

  /** What the guard answers: let the request through, or redirect it. */
  datatype Decision = Next | Redirect(location: string)

  /** The login page every rejected request is sent to. */
  const LoginPage: string := "/"

  /** Paths reachable without signing in: the auth API, the login page itself and
      anything under `/register`. */
  predicate IsPublic(pathname: string) {
    StartsWith(pathname, "/api/auth") || pathname == "/" || StartsWith(pathname, "/register")
  }

  /** `!token`: a missing cookie and an empty cookie value both count as no token. */
  predicate HasToken(token: Option<string>) {
    token.Some? && token.value != []
  }

  /** The `middleware` function. `token` is the value of the `token` cookie, if any;
      `verifies` stands for `jwt.verify` with the server's secret, reduced to whether it
      returns or throws. */
  function Decide(pathname: string, token: Option<string>, verifies: string -> bool): (d: Decision)
    ensures d == Next <==> IsPublic(pathname) || (HasToken(token) && verifies(token.value))
    ensures d.Redirect? ==> d.location == LoginPage
  {
    if IsPublic(pathname) then Next
    else if !HasToken(token) then Redirect(LoginPage)
    else if verifies(token.value) then Next
    else Redirect(LoginPage)
  }

  /** `config.matcher`: `/notes/:path*` and `/api/pages/:path*`, each matching the bare
      prefix and anything below it. */
  predicate Matched(pathname: string) {
    || pathname == "/notes" || StartsWith(pathname, "/notes/")
    || pathname == "/api/pages" || StartsWith(pathname, "/api/pages/")
  }

  /** What a request meets: the middleware runs only on matched paths; every other
      path goes straight through. */
  function Guard(pathname: string, token: Option<string>, verifies: string -> bool): (d: Decision)
    ensures !Matched(pathname) ==> d == Next
    ensures Matched(pathname) ==> d == Decide(pathname, token, verifies)
  {
    if Matched(pathname) then Decide(pathname, token, verifies) else Next
  }

  /** No matched path is public, so the public-path exception never opens a protected one. */
  lemma MatchedIsNotPublic(pathname: string)
    requires Matched(pathname)
    ensures !IsPublic(pathname)
  {
    if StartsWith(pathname, "/notes/") || pathname == "/notes" {
      assert pathname[1] == 'n';
    } else {
      assert pathname[..10] == "/api/pages";
      assert pathname[5] == 'p';
      assert pathname[1] == 'a';
    }
  }

  /** Every protected path lets a request through exactly when it carries a token that
      verifies; otherwise the request lands on the login page. */
  lemma ProtectedNeedsValidToken(pathname: string, token: Option<string>, verifies: string -> bool)
    requires Matched(pathname)
    ensures Guard(pathname, token, verifies) == Next <==> HasToken(token) && verifies(token.value)
    ensures Guard(pathname, token, verifies) != Next ==> Guard(pathname, token, verifies) == Redirect(LoginPage)
  {
    MatchedIsNotPublic(pathname);
  }

  /** A protected page requested without a cookie, or with an empty one, is redirected
      whatever the verifier would say. */
  lemma ProtectedWithoutTokenRedirects(pathname: string, verifies: string -> bool)
    requires Matched(pathname)
    ensures Guard(pathname, None, verifies) == Redirect(LoginPage)
    ensures Guard(pathname, Some([]), verifies) == Redirect(LoginPage)
  {
    MatchedIsNotPublic(pathname);
  }

  /** The decision on a protected path depends on the token only through whether it
      verifies: two tokens the verifier treats alike get the same answer. */
  lemma ProtectedDependsOnlyOnVerification(pathname: string, t1: string, t2: string, verifies: string -> bool)
    requires Matched(pathname) && t1 != [] && t2 != [] && verifies(t1) == verifies(t2)
    ensures Guard(pathname, Some(t1), verifies) == Guard(pathname, Some(t2), verifies)
  {
    MatchedIsNotPublic(pathname);
  }
}
