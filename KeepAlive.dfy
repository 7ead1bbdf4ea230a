/** The keep-alive ping (scripts/keep-alive.js), run on a schedule so the hosted database
    is not paused for inactivity: one GET of the REST API root, counted as a success for any
    answer below 500. The process is modelled by its request and its exit code. */
module KeepAlive {
  import opened Wrappers
  import opened SupabaseEndpoint

  const RestRoot: string := "/rest/v1/"

  /** The answer to the request: a status code, or a request error. */
  datatype Reply = Status(code: int) | RequestError(message: string)

  /** The request made (none without configuration) and the exit code. */
  datatype Run = Run(request: Option<Request>, exitCode: int)

  /** A status in [200, 500) means the project is up and reachable. */
  predicate Reachable(code: int) {
    200 <= code < 500
  }

  function KeepAlive(url: Option<string>, key: Option<string>, reply: Reply): (r: Run)
    ensures r.request.None? <==> !Configured(url, key)
    ensures r.request.Some? ==> r.request.value == GetRequest(url.value, key.value, RestRoot)
    ensures r.exitCode == 0 <==> Configured(url, key) && reply.Status? && Reachable(reply.code)
    ensures r.exitCode == 0 || r.exitCode == 1
  {
    if !Configured(url, key) then Run(None, 1)
    else
      var req := Some(GetRequest(url.value, key.value, RestRoot));
      match reply
      case Status(code) => if Reachable(code) then Run(req, 0) else Run(req, 1)
      case RequestError(_) => Run(req, 1)
  }

  /** Client errors count as reachable: a 404 or a 401 still proves the project is awake;
      only a server error, a status below 200 or a failed request fails the run. */
  lemma ClientErrorsAreReachable(url: string, key: string, code: int)
    requires url != "" && key != ""
    requires 400 <= code < 500
    ensures KeepAlive(Some(url), Some(key), Status(code)).exitCode == 0
    ensures KeepAlive(Some(url), Some(key), Status(code + 100)).exitCode == 1
  {
  }
}
