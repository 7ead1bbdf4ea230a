/** What the two maintenance scripts (scripts/keep-alive.js, scripts/monitor.js) share: the
    environment check, the hostname taken from the project URL, and a GET request
    authenticated with the project key. */
module SupabaseEndpoint {
  import opened Wrappers

  /** `!SUPABASE_URL || !SUPABASE_KEY` is false: both variables are set and non-empty. */
  predicate Configured(url: Option<string>, key: Option<string>) {
    url.Some? && url.value != "" && key.Some? && key.value != ""
  }

  /** `replace(/^https?:\/\//, '')`: one leading "https://" or "http://" removed. */
  function StripScheme(url: string): (r: string)
    ensures |r| <= |url| && r == url[|url| - |r|..]
    ensures "https://" <= url ==> "https://" + r == url
    ensures !("https://" <= url) && "http://" <= url ==> "http://" + r == url
    ensures !("https://" <= url) && !("http://" <= url) ==> r == url
  {
    if "https://" <= url then url[8..]
    else if "http://" <= url then url[7..]
    else url
  }

  /** `replace(/\/$/, '')`: one trailing '/' removed, and nothing else changed. */
  function StripTrailingSlash(s: string): (r: string)
    ensures |s| > 0 && s[|s| - 1] == '/' ==> r + "/" == s
    ensures |s| == 0 || s[|s| - 1] != '/' ==> r == s
  {
    if |s| > 0 && s[|s| - 1] == '/' then s[..|s| - 1] else s
  }

  /** The hostname the scripts connect to: the URL less at most one scheme in front and at
      most one '/' behind. */
  function Hostname(url: string): (r: string)
    ensures exists scheme, slash :: Framing(scheme, slash) && scheme + r + slash == url
  {
    var t := StripScheme(url);
    var r := StripTrailingSlash(t);
    HostnameParts(url, t, r);
    r
  }

  lemma HostnameParts(url: string, t: string, r: string)
    requires "https://" <= url ==> "https://" + t == url
    requires !("https://" <= url) && "http://" <= url ==> "http://" + t == url
    requires !("https://" <= url) && !("http://" <= url) ==> t == url
    requires |t| > 0 && t[|t| - 1] == '/' ==> r + "/" == t
    requires |t| == 0 || t[|t| - 1] != '/' ==> r == t
    ensures exists scheme, slash :: Framing(scheme, slash) && scheme + r + slash == url
  {
    var scheme := if "https://" <= url then "https://" else if "http://" <= url then "http://" else "";
    var slash := if |t| > 0 && t[|t| - 1] == '/' then "/" else "";
    assert r + slash == t;
    assert scheme + t == url;
    assert scheme + r + slash == url;
    assert Framing(scheme, slash);
  }

  /** What may surround the hostname in the configured URL. */
  ghost predicate Framing(scheme: string, slash: string) {
    (scheme == "https://" || scheme == "http://" || scheme == "") && (slash == "/" || slash == "")
  }

  /** A URL of the form scheme + host + "/" gives back the host, whatever the host is. */
  lemma HostnameOfUrl(host: string)
    ensures Hostname("https://" + host + "/") == host
    ensures Hostname("http://" + host + "/") == host
    ensures host == [] || host[|host| - 1] != '/' ==>
      Hostname("https://" + host) == host && Hostname("http://" + host) == host
  {
    assert "https://" <= "https://" + host + "/";
    assert ("https://" + host + "/")[8..] == host + "/";
    assert ("http://" + host + "/")[4] == ':' != "https://"[4];
    assert "http://" <= "http://" + host + "/";
    assert ("http://" + host + "/")[7..] == host + "/";
    assert (host + "/")[..|host|] == host;
    assert "https://" <= "https://" + host && ("https://" + host)[8..] == host;
    assert ("http://" + host)[4] == ':' != "https://"[4];
    assert "http://" <= "http://" + host && ("http://" + host)[7..] == host;
  }

  /** A string with no scheme and no trailing '/' is its own hostname. */
  lemma HostnameOfBareHost(host: string)
    requires !("https://" <= host) && !("http://" <= host)
    requires host == [] || host[|host| - 1] != '/'
    ensures Hostname(host) == host
  {
  }

  /** Without a scheme, only the one trailing '/' goes: "host/" gives "host" and "host//"
      gives "host/". */
  lemma HostnameOfBareHostSlash(host: string)
    requires !("https://" <= host + "/") && !("http://" <= host + "/")
    ensures Hostname(host + "/") == host
  {
    assert (host + "/")[..|host|] == host;
  }

  /** The HTTPS request both scripts make: the key goes in the `apikey` header and, as a
      bearer token, in `Authorization`. */
  datatype Request = Request(hostname: string, path: string, apikey: string, authorization: string)

  function GetRequest(url: string, key: string, path: string): (r: Request)
    ensures r.hostname == Hostname(url) && r.path == path
    ensures r.apikey == key && r.authorization == "Bearer " + key
  {
    Request(Hostname(url), path, key, "Bearer " + key)
  }
}
