/** URL base-path joining of the web server (web/server.go). The configured
    base, `Config.Base`, is a parameter. */
module Server {
  import opened GoStrings

  /** `basePath`: every route is mounted below the configured base. */
  function BasePath(base: string, api: string): (r: string)
    ensures base == "" ==> r == api
    ensures base != "" ==> HasPrefix(r, "/")
  {
    if base != "" then
      var head := if HasPrefix(base, "/") then base else "/" + base;
      var route := if HasPrefix(api, "/") then RemoveFirst(api, '/') else api;
      head + ("/" + route)
    else api
  }

  /** When `s` starts with `c`, its first occurrence is its first character. */
  lemma RemoveLeading(s: string, c: char)
    requires |s| > 0 && s[0] == c
    ensures RemoveFirst(s, c) == s[1..]
  {
    assert IndexOf(s, c) == 0;
  }

  /** The route follows the last slash added, without its own leading slash. */
  lemma BasePathSuffix(base: string, api: string)
    requires base != ""
    ensures HasPrefix(api, "/") ==> HasSuffix(BasePath(base, api), "/" + api[1..])
    ensures !HasPrefix(api, "/") ==> HasSuffix(BasePath(base, api), "/" + api)
  {
    var head := if HasPrefix(base, "/") then base else "/" + base;
    var route := if HasPrefix(api, "/") then api[1..] else api;
    if HasPrefix(api, "/") {
      RemoveLeading(api, '/');
    }
    assert BasePath(base, api) == head + ("/" + route);
    SuffixOfConcat(head, "/" + route);
  }

  lemma SuffixOfConcat(a: string, b: string)
    ensures HasSuffix(a + b, b)
  {
    assert (a + b)[|a|..] == b;
  }

  /** With a base, one leading slash of the route makes no difference. */
  lemma BasePathLeadingSlash(base: string, api: string)
    requires base != "" && !HasPrefix(api, "/")
    ensures BasePath(base, "/" + api) == BasePath(base, api)
  {
    RemoveLeading("/" + api, '/');
    assert ("/" + api)[1..] == api;
  }

  /** Only the first slash is removed: a route "//x" keeps one. */
  lemma BasePathOneSlash()
    ensures BasePath("data", "//x") == "/data//x"
  {
    RemoveLeading("//x", '/');
    assert "//x"[1..] == "/x";
  }

  /** The result begins with the base, given a leading slash if it had none. */
  lemma BasePathPrefix(base: string, api: string)
    requires base != ""
    ensures HasPrefix(BasePath(base, api), if HasPrefix(base, "/") then base + "/" else "/" + base + "/")
  {
    var head := if HasPrefix(base, "/") then base else "/" + base;
    var route := if HasPrefix(api, "/") then RemoveFirst(api, '/') else api;
    var r := BasePath(base, api);
    assert r == head + ("/" + route);
    assert r[..|head| + 1] == head + "/";
  }
}
