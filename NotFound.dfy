/** The catch-all route (src/pages/NotFound.tsx). Besides showing a 404 page it doubles as
    the landing page of the OAuth redirect: while the URL carries an OAuth answer it shows a
    spinner and leaves the session handling to the auth provider. The inputs are the auth
    state (`loading`, whether a user is signed in) and the URL's hash and query string. */
module NotFound {
  import opened Wrappers
  import opened Text

  /** `isOAuthCallback`: the hash holds "access_token" or the query string holds "code=";
      a callback is recognised exactly when one of the two markers occurs somewhere. */
  predicate IsOAuthCallback(hash: string, search: string): (b: bool)
    ensures b <==> (exists k :: OccursAt(hash, "access_token", k)) || (exists k :: OccursAt(search, "code=", k))
  {
    ContainsIffOccurs(hash, "access_token");
    ContainsIffOccurs(search, "code=");
    Contains(hash, "access_token") || Contains(search, "code=")
  }

  /** A `navigate(path, { replace })` call. */
  datatype Navigation = Navigation(path: string, replace: bool)

  /** What the effect does on one run: at most one navigation, and possibly the 404 log of
      the path. */
  datatype Effect = Effect(navigation: Option<Navigation>, logged: Option<string>)

  /** The `useEffect` body, branch by branch. */
  function RunEffect(loading: bool, signedIn: bool, callback: bool, pathname: string): (e: Effect)
    ensures e.navigation == Some(Navigation("/home", true)) <==> !loading && signedIn
    ensures e.navigation == Some(Navigation("/", true)) <==> !loading && !signedIn && !callback
    ensures e.navigation.None? <==> loading || (!signedIn && callback)
  {
    if !loading && signedIn then Effect(Some(Navigation("/home", true)), None)
    else if !loading && !signedIn && !callback then Effect(Some(Navigation("/", true)), None)
    else if !loading && !callback then Effect(None, Some(pathname))
    else Effect(None, None)
  }

  /** The 404 log is dead code: every state that reaches it was already redirected. */
  lemma NeverLogs(loading: bool, signedIn: bool, callback: bool, pathname: string)
    ensures RunEffect(loading, signedIn, callback, pathname).logged.None?
  {
  }

  datatype View = Spinner | NotFoundPage

  /** The spinner while auth is loading or during a callback, the 404 page otherwise. */
  function Render(loading: bool, callback: bool): (v: View)
    ensures v == Spinner <==> loading || callback
  {
    if loading || callback then Spinner else NotFoundPage
  }

  /** The 404 page is only ever drawn while a redirect to "/home" or "/" is under way. */
  lemma PageOnlyWhileLeaving(loading: bool, signedIn: bool, hash: string, search: string, pathname: string)
    requires Render(loading, IsOAuthCallback(hash, search)) == NotFoundPage
    ensures RunEffect(loading, signedIn, IsOAuthCallback(hash, search), pathname).navigation.Some?
  {
  }
}
