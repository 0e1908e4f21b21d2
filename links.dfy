/** `ExtractExternalLinks` (client/result.go; identical copies in
    client/api_client.go and command/api_client.go): at most one external
    URL per line of a page. */
module Links {

  import opened Wrappers
  import opened Text

  /** The schemes a link starts with, in the order they are tried. */
  const Includes: seq<string> := ["http://", "https://"]

  /** Image extensions: a line holding one gives no link. */
  const Excludes: seq<string> := [".png", ".gif", ".jpg", ".jpeg", ".svg"]

  /** The first keyword the line contains, or `""` (the `match` closure). */
  function FirstContained(line: string, keywords: seq<string>): (r: string)
    ensures r != "" ==> exists i :: 0 <= i < |keywords| && keywords[i] == r && Contains(line, r)
    ensures (forall i :: 0 <= i < |keywords| ==> keywords[i] != "") ==>
      (r == "" <==> forall i :: 0 <= i < |keywords| ==> !Contains(line, keywords[i]))
    decreases |keywords|
  {
    if keywords == [] then ""
    else if Contains(line, keywords[0]) then keywords[0]
    else
      var r := FirstContained(line, keywords[1..]);
      assert forall i :: 0 <= i < |keywords[1..]| ==> keywords[1..][i] == keywords[i + 1];
      r
  }

  /** The `match` closure, a loop returning at the first keyword found. */
  method MatchKeyword(line: string, keywords: seq<string>) returns (r: string)
    ensures r == FirstContained(line, keywords)
  {
    var i := 0;
    while i < |keywords|
      invariant 0 <= i <= |keywords|
      invariant FirstContained(line, keywords) == FirstContained(line, keywords[i..])
    {
      if Contains(line, keywords[i]) {
        return keywords[i];
      }
      assert keywords[i..][1..] == keywords[i + 1..];
      i := i + 1;
    }
    return "";
  }

  /** The regular expression `\[.*m.*\]` matches somewhere in `line`: a `[`,
      later `m`, later a `]`, with no newline from the `[` to the `]` (`.`
      does not match a newline). */
  predicate FoundBracket(line: string, m: string) {
    exists a, b, c :: 0 <= a < b && b + |m| <= c < |line| &&
      line[a] == '[' && At(line, b, m) && line[c] == ']' && '\n' !in line[a..c]
  }

  /** The line from the first occurrence of `m` on. */
  function FromScheme(line: string, m: string): (t: string)
    ensures Contains(line, m) ==> t == line[Index(line, m)..] && At(t, 0, m)
  {
    var index := Index(line, m);
    if index != -1 then line[index..] else line
  }

  /** `t` up to its first space. */
  function CutAtSpace(t: string): (u: string)
    ensures |u| <= |t| && u == t[..|u|] && ' ' !in u
    ensures |u| < |t| ==> t[|u|] == ' '
  {
    var index := Index(t, " ");
    if index != -1 then
      FirstCharAt(t, ' ', index);
      t[..index]
    else
      CharAbsent(t, ' ');
      t
  }

  /** A text starting with a space-free `m` keeps `m` when cut at its first
      space. */
  lemma CutKeepsScheme(t: string, m: string)
    requires At(t, 0, m) && ' ' !in m
    ensures At(CutAtSpace(t), 0, m)
  {
    var u := CutAtSpace(t);
    if |u| < |m| {
      assert false;
    }
    assert u[..|m|] == t[..|m|];
  }

  /** The bracket rule: the last character goes when the line has
      `[`...`m`...`]` and the first `]` of `u` is its last character. */
  function DropBracket(u: string, found: bool): (v: string)
    requires u != ""
    ensures v == u || v == u[..|u| - 1]
  {
    if found && Index(u, "]") == |u| - 1 then u[..|u| - 1] else u
  }

  /** The link a line gives. */
  function LinkOf(line: string): Option<string> {
    var m := FirstContained(line, Includes);
    if m == "" then None
    else if FirstContained(line, Excludes) != "" then None
    else
      var u := CutAtSpace(FromScheme(line, m));
      SchemeIn(line, m);
      CutKeepsScheme(FromScheme(line, m), m);
      Some(DropBracket(u, FoundBracket(line, m)))
  }

  lemma SchemeIn(line: string, m: string)
    requires m == FirstContained(line, Includes) && m != ""
    ensures Contains(line, m) && m == if Contains(line, "http://") then "http://" else "https://"
    ensures ' ' !in m && ']' !in m && At(FromScheme(line, m), 0, m)
  {
  }

  /** The values `f` gives for the lines, in line order, skipping `None`. */
  function Collect(f: string -> Option<string>, lines: seq<string>): seq<string>
    decreases |lines|
  {
    if lines == [] then []
    else
      var rest := Collect(f, lines[..|lines| - 1]);
      match f(lines[|lines| - 1])
      case None => rest
      case Some(u) => rest + [u]
  }

  /** The links of the lines. */
  function LinksOf(lines: seq<string>): seq<string> {
    Collect(LinkOf, lines)
  }

  lemma LinksSnocNone(lines: seq<string>, i: nat)
    requires i < |lines| && LinkOf(lines[i]) == None
    ensures LinksOf(lines[..i + 1]) == LinksOf(lines[..i])
  {
    assert lines[..i + 1][..i] == lines[..i];
  }

  lemma LinksSnocSome(lines: seq<string>, i: nat, u: string)
    requires i < |lines| && LinkOf(lines[i]) == Some(u)
    ensures LinksOf(lines[..i + 1]) == LinksOf(lines[..i]) + [u]
  {
    assert lines[..i + 1][..i] == lines[..i];
  }

  lemma LinkNone(line: string)
    requires FirstContained(line, Includes) == "" || FirstContained(line, Excludes) != ""
    ensures LinkOf(line) == None
  {
  }

  lemma LinkSome(line: string, m: string, c: string)
    requires m == FirstContained(line, Includes) && m != "" && FirstContained(line, Excludes) == ""
    requires c == CutAtSpace(FromScheme(line, m)) && c != ""
    ensures LinkOf(line) == Some(DropBracket(c, FoundBracket(line, m)))
  {
  }

  /** The rewriting of `line` once a scheme is found: from the scheme on,
      cut at a space, then the bracket rule. */
  method Trim(line: string, matched: string, foundBracket: bool) returns (r: string)
    requires Contains(line, matched) && matched != "" && ' ' !in matched
    ensures CutAtSpace(FromScheme(line, matched)) != ""
    ensures r == DropBracket(CutAtSpace(FromScheme(line, matched)), foundBracket)
  {
    r := line;
    var index := Index(r, matched);
    if index != -1 {
      r := r[index..];
    }
    assert r == FromScheme(line, matched);
    CutKeepsScheme(r, matched);
    index := Index(r, " ");
    if index != -1 {
      r := r[..index];
    }
    assert r == CutAtSpace(FromScheme(line, matched));
    if foundBracket && Index(r, "]") == |r| - 1 {
      r := r[..|r| - 1];
    }
  }

  /** One pass of the loop of `ExtractExternalLinks`: `None` where the loop
      moves on without appending. */
  method ExtractLine(line: string) returns (r: Option<string>)
    ensures r == LinkOf(line)
  {
    var matched := MatchKeyword(line, Includes);
    if matched == "" {
      LinkNone(line);
      return None;
    }
    var excluded := MatchKeyword(line, Excludes);
    if excluded != "" {
      LinkNone(line);
      return None;
    }
    var foundBracket := FoundBracket(line, matched);
    SchemeIn(line, matched);
    var link := Trim(line, matched, foundBracket);
    LinkSome(line, matched, CutAtSpace(FromScheme(line, matched)));
    return Some(link);
  }

  /** `ExtractExternalLinks`: the links of the page's lines, in order. */
  method ExtractExternalLinks(lines: seq<string>) returns (linkURLs: seq<string>)
    ensures linkURLs == LinksOf(lines)
  {
    linkURLs := [];
    for i := 0 to |lines|
      invariant linkURLs == LinksOf(lines[..i])
    {
      var link := ExtractLine(lines[i]);
      if link.Some? {
        LinksSnocSome(lines, i, link.value);
        linkURLs := linkURLs + [link.value];
      } else {
        LinksSnocNone(lines, i);
      }
    }
    assert lines[..|lines|] == lines;
  }

  // ---------------------------------------------------------------------
  // What the extraction promises

  /** Lines are handled one by one, in order. */
  lemma {:induction false} CollectAppend(f: string -> Option<string>, a: seq<string>, b: seq<string>)
    ensures Collect(f, a + b) == Collect(f, a) + Collect(f, b)
    decreases |b|
  {
    if b == [] {
      assert a + b == a;
    } else {
      assert (a + b)[..|a + b| - 1] == a + b[..|b| - 1];
      assert (a + b)[|a + b| - 1] == b[|b| - 1];
      CollectAppend(f, a, b[..|b| - 1]);
    }
  }

  lemma {:induction false} CollectBound(f: string -> Option<string>, lines: seq<string>)
    ensures |Collect(f, lines)| <= |lines|
    decreases |lines|
  {
    if lines != [] {
      CollectBound(f, lines[..|lines| - 1]);
    }
  }

  /** The links of consecutive runs of lines follow each other. */
  lemma LinksAppend(a: seq<string>, b: seq<string>)
    ensures LinksOf(a + b) == LinksOf(a) + LinksOf(b)
  {
    CollectAppend(LinkOf, a, b);
  }

  /** At most one link per line. */
  lemma LinksBound(lines: seq<string>)
    ensures |LinksOf(lines)| <= |lines|
  {
    CollectBound(LinkOf, lines);
  }

  /** A line with neither scheme gives nothing. */
  lemma NoSchemeNoLink(line: string)
    requires !Contains(line, "http://") && !Contains(line, "https://")
    ensures LinkOf(line) == None
  {
  }

  /** A line holding an image extension anywhere gives nothing. */
  lemma ImageNoLink(line: string, k: nat)
    requires k < |Excludes| && Contains(line, Excludes[k])
    ensures LinkOf(line) == None
  {
    assert forall i :: 0 <= i < |Excludes| ==> Excludes[i] != "";
  }

  /** What a link is made of: the scheme found first, and the line from
      that scheme's first occurrence cut at a space and put through the
      bracket rule. */
  lemma LinkParts(line: string, u: string)
    requires LinkOf(line) == Some(u)
    ensures var m := FirstContained(line, Includes);
      var c := CutAtSpace(FromScheme(line, m));
      Contains(line, m) && m == (if Contains(line, "http://") then "http://" else "https://") &&
      ' ' !in m && ']' !in m && m != "" &&
      At(c, 0, m) && u == DropBracket(c, FoundBracket(line, m))
  {
    var m := FirstContained(line, Includes);
    SchemeIn(line, m);
    CutKeepsScheme(FromScheme(line, m), m);
  }

  /** The bracket rule never cuts into the scheme. */
  lemma DropKeepsScheme(c: string, m: string, found: bool)
    requires At(c, 0, m) && ']' !in m && m != ""
    ensures var v := DropBracket(c, found); At(v, 0, m) && v == c[..|v|]
  {
    var v := DropBracket(c, found);
    assert forall k :: 0 <= k < |m| ==> c[k] == m[k];
    if v != c {
      assert Index(c, "]") == |c| - 1;
      assert At(c, |c| - 1, "]");
      assert c[|c| - 1] == ']';
    }
  }

  /** A link starts at the first occurrence of its scheme, `http://` being
      tried first; it is a space-free prefix of the line from there. */
  lemma LinkShape(line: string, u: string)
    requires LinkOf(line) == Some(u)
    ensures var m := if Contains(line, "http://") then "http://" else "https://";
      Contains(line, m) && At(u, 0, m) && ' ' !in u &&
      |u| <= |line| - Index(line, m) && u == line[Index(line, m)..][..|u|]
  {
    LinkParts(line, u);
    var m := FirstContained(line, Includes);
    var t := FromScheme(line, m);
    var c := CutAtSpace(t);
    DropKeepsScheme(c, m, FoundBracket(line, m));
    PrefixOfPrefix(t, c, u);
  }

  lemma PrefixOfPrefix(t: string, c: string, u: string)
    requires |c| <= |t| && c == t[..|c|] && |u| <= |c| && u == c[..|u|]
    ensures u == t[..|u|]
  {
  }

  /** The last character is dropped exactly when the line has `[`...`m`...`]`
      and the first `]` after cutting at a space is the cut's last character;
      what is dropped is then that `]`, the only one of the cut. */
  lemma DropExactly(line: string, u: string)
    requires LinkOf(line) == Some(u)
    ensures var m := FirstContained(line, Includes);
      var c := CutAtSpace(FromScheme(line, m));
      c != "" &&
      (FoundBracket(line, m) && Index(c, "]") == |c| - 1 ==> u == c[..|c| - 1] && c[|c| - 1] == ']' && ']' !in u) &&
      (!(FoundBracket(line, m) && Index(c, "]") == |c| - 1) ==> u == c)
  {
    LinkParts(line, u);
    var m := FirstContained(line, Includes);
    var c := CutAtSpace(FromScheme(line, m));
    if FoundBracket(line, m) && Index(c, "]") == |c| - 1 {
      FirstCharAt(c, ']', |c| - 1);
    }
  }

}
