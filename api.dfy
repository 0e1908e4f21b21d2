/** The request paths and URLs of the API client (client/api_client.go;
    command/api_client.go holds identical copies of the path builders and
    of `trimPortFromHost`, client/cache.go another `trimPortFromHost`). */
module Api {

  import opened Text
  import opened Uri

  /** `buildQueryPath`: the page listing of a project with no tags, its
      search endpoint otherwise; the tags go, space-joined and encoded, into
      the `q` parameter. */
  function BuildQueryPath(project: string, tags: seq<string>, skip: int, limit: int): string {
    var params := "skip=" + IntString(skip) + "&sort=updated&limit=" + IntString(limit)
      + "&q=" + EncodeURIComponent(Join(tags, " "));
    if |tags| == 0 then "api/pages/" + project + "?" + params
    else "api/pages/" + project + "/search/query?" + params
  }

  /** `buildPagePath`. */
  function BuildPagePath(project: string, page: string): string {
    "api/pages/" + project + "/" + EncodeURIComponent(page)
  }

  /** `GetURL`: the page's address on the host. */
  function GetURL(host: string, project: string, page: string): string {
    host + "/" + project + "/" + EncodeURIComponent(page)
  }

  /** `trimPortFromHost`: the host up to its first `:`, or all of it. */
  function TrimPortFromHost(host: string): (r: string)
    ensures |r| <= |host| && r == host[..|r|]
    ensures ':' !in r
    ensures |r| < |host| <==> ':' in host
    ensures |r| < |host| ==> host[|r|] == ':'
  {
    var index := Index(host, ":");
    if index == -1 then
      CharAbsent(host, ':');
      host
    else
      FirstCharAt(host, ':', index);
      host[..index]
  }

  // ---------------------------------------------------------------------
  // What the paths carry

  lemma Split(prefix: string, q: string)
    ensures |prefix| <= |prefix + q| && (prefix + q)[..|prefix|] == prefix && (prefix + q)[|prefix|..] == q
  {
  }

  /** What an encoded component holds: no `/`, `?`, `&`, `+` or space, and
      it decodes back to the text. */
  lemma Component(s: string)
    requires IsBytes(s)
    ensures var e := EncodeURIComponent(s);
      '/' !in e && '?' !in e && '&' !in e && '+' !in e && ' ' !in e && DecodeURIComponent(e) == s
  {
    EncodeAlphabet(s);
    EncodeRoundTrip(s);
  }

  /** The page is the last path segment: it holds no `/` or `?`, and it
      decodes back to the page name. */
  lemma PagePathParts(project: string, page: string)
    requires IsBytes(page)
    ensures var prefix := "api/pages/" + project + "/";
      var r := BuildPagePath(project, page);
      |prefix| <= |r| && r[..|prefix|] == prefix &&
      '/' !in r[|prefix|..] && '?' !in r[|prefix|..] &&
      DecodeURIComponent(r[|prefix|..]) == page
  {
    Split("api/pages/" + project + "/", EncodeURIComponent(page));
    Component(page);
  }

  /** The URL is the host, then the project, then the page as one segment
      that decodes back to it. */
  lemma URLParts(host: string, project: string, page: string)
    requires IsBytes(page)
    ensures var prefix := host + "/" + project + "/";
      var r := GetURL(host, project, page);
      |prefix| <= |r| && r[..|prefix|] == prefix &&
      '/' !in r[|prefix|..] && '?' !in r[|prefix|..] &&
      DecodeURIComponent(r[|prefix|..]) == page
  {
    Split(host + "/" + project + "/", EncodeURIComponent(page));
    Component(page);
  }

  lemma {:induction false} JoinBytes(parts: seq<string>, sep: string)
    requires IsBytes(sep) && forall k :: 0 <= k < |parts| ==> IsBytes(parts[k])
    ensures IsBytes(Join(parts, sep))
    decreases |parts|
  {
    if |parts| > 1 {
      JoinBytes(parts[1..], sep);
      var a, b := parts[0] + sep, Join(parts[1..], sep);
      assert forall k :: 0 <= k < |a + b| ==> (a + b)[k] == (if k < |a| then a[k] else b[k - |a|]);
      assert forall k :: 0 <= k < |a| ==> a[k] == (if k < |parts[0]| then parts[0][k] else sep[k - |parts[0]|]);
    }
  }

  lemma Split3(x: string, p: string, q: string)
    ensures |x + p| <= |x + (p + q)|
    ensures (x + (p + q))[..|x + p|] == x + p && (x + (p + q))[|x + p|..] == q
  {
    assert x + (p + q) == (x + p) + q;
  }

  /** The query: the search endpoint exactly when there are tags; skip,
      sort and limit in that order; and a `q` value with no `&`, `?`, `+`
      or space in it that decodes to the tags joined by spaces (empty with
      no tags). */
  lemma QueryPathParts(project: string, tags: seq<string>, skip: int, limit: int)
    requires forall k :: 0 <= k < |tags| ==> IsBytes(tags[k])
    ensures var endpoint := if |tags| == 0 then "api/pages/" + project + "?"
        else "api/pages/" + project + "/search/query?";
      var prefix := endpoint + ("skip=" + IntString(skip) + "&sort=updated&limit=" + IntString(limit) + "&q=");
      var r := BuildQueryPath(project, tags, skip, limit);
      |prefix| <= |r| && r[..|prefix|] == prefix &&
      var q := r[|prefix|..];
      '&' !in q && '?' !in q && '+' !in q && ' ' !in q &&
      DecodeURIComponent(q) == Join(tags, " ") &&
      (|tags| == 0 ==> q == "")
  {
    var endpoint := if |tags| == 0 then "api/pages/" + project + "?"
      else "api/pages/" + project + "/search/query?";
    var params := "skip=" + IntString(skip) + "&sort=updated&limit=" + IntString(limit) + "&q=";
    var joined := Join(tags, " ");
    JoinBytes(tags, " ");
    var q := EncodeURIComponent(joined);
    assert BuildQueryPath(project, tags, skip, limit) == endpoint + (params + q);
    Split3(endpoint, params, q);
    Component(joined);
  }

}
