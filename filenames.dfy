/** Cache file names: `EncodeFilename` of client/cache.go (copied in
    client/cache_repository.go), the slash-only `EncodeFilename` of
    command/api_client.go, and `canonicalFilepath` of command/files.go
    (copied in command/show.go), which joins a directory and an escaped
    name as Go's `path.Join` does. */
module Filenames {

  import opened Text

  // ---------------------------------------------------------------------
  // Escaping

  /** The escape written for one character of a client cache name. */
  function EscapeChar(c: char): string {
    if c == '/' then "%2F" else if c == ':' then "%3A" else if c == '|' then "%7C" else [c]
  }

  /** The characters a client cache name escapes. */
  predicate Escaped(c: char) {
    c == '/' || c == ':' || c == '|'
  }

  /** `EncodeFilename` of the client cache: `/`, then `:`, then `|` replaced. */
  function EncodeFilename(filename: string): string {
    var slashEscaped := ReplaceAll(filename, "/", "%2F");
    var colonEscaped := ReplaceAll(slashEscaped, ":", "%3A");
    ReplaceAll(colonEscaped, "|", "%7C")
  }

  /** The escape written for one character when only `/` is escaped. */
  function SlashChar(c: char): string {
    if c == '/' then "%2F" else [c]
  }

  /** `EncodeFilename` of command/api_client.go and the escaping step of
      `canonicalFilepath`. */
  function EncodeSlash(filename: string): string {
    ReplaceAll(filename, "/", "%2F")
  }

  function Unit(c: char): string {
    [c]
  }

  function SlashColon(c: char): string {
    if c == '/' then "%2F" else if c == ':' then "%3A" else [c]
  }

  lemma {:induction false} FlatUnit(s: string)
    ensures Flat(Unit, s) == s
    decreases |s|
  {
    if s != [] {
      FlatUnit(s[1..]);
      assert s == [s[0]] + s[1..];
    }
  }

  lemma SlashStep(s: string)
    ensures ReplaceAll(s, "/", "%2F") == Flat(SlashChar, s)
  {
    FlatUnit(s);
    forall k | 0 <= k < |s|
      ensures (Unit(s[k]) == "/" && SlashChar(s[k]) == "%2F") ||
              (SlashChar(s[k]) == Unit(s[k]) && UnitSafe(Unit(s[k]), "/"))
    {
    }
    ReplaceFlat(Unit, SlashChar, s, "/", "%2F");
  }

  /** The slash-only escaping writes `SlashChar` for every character. */
  lemma EncodeSlashFlat(s: string)
    ensures EncodeSlash(s) == Flat(SlashChar, s)
  {
    SlashStep(s);
  }

  lemma ColonStep(s: string)
    ensures ReplaceAll(Flat(SlashChar, s), ":", "%3A") == Flat(SlashColon, s)
  {
    forall k | 0 <= k < |s|
      ensures (SlashChar(s[k]) == ":" && SlashColon(s[k]) == "%3A") ||
              (SlashColon(s[k]) == SlashChar(s[k]) && UnitSafe(SlashChar(s[k]), ":"))
    {
    }
    ReplaceFlat(SlashChar, SlashColon, s, ":", "%3A");
  }

  lemma PipeStep(s: string)
    ensures ReplaceAll(Flat(SlashColon, s), "|", "%7C") == Flat(EscapeChar, s)
  {
    forall k | 0 <= k < |s|
      ensures (SlashColon(s[k]) == "|" && EscapeChar(s[k]) == "%7C") ||
              (EscapeChar(s[k]) == SlashColon(s[k]) && UnitSafe(SlashColon(s[k]), "|"))
    {
    }
    ReplaceFlat(SlashColon, EscapeChar, s, "|", "%7C");
  }

  /** The client escaping writes `EscapeChar` for every character: the
      three replacements never create what a later one rewrites. */
  lemma EncodeFilenameFlat(s: string)
    ensures EncodeFilename(s) == Flat(EscapeChar, s)
  {
    SlashStep(s);
    ColonStep(s);
    PipeStep(s);
  }

  // ---------------------------------------------------------------------
  // What the escaping promises

  lemma {:induction false} FlatEscapeAlphabet(s: string)
    ensures var r := Flat(EscapeChar, s); '/' !in r && ':' !in r && '|' !in r
    ensures |Flat(EscapeChar, s)| == |s| + 2 * CountWhere(Escaped, s)
    decreases |s|
  {
    if s != [] {
      FlatEscapeAlphabet(s[1..]);
    }
  }

  /** No `/`, `:` or `|` survives, and the name grows by two characters for
      each one escaped. */
  lemma EncodeFilenameAlphabet(s: string)
    ensures var r := EncodeFilename(s); '/' !in r && ':' !in r && '|' !in r
    ensures |EncodeFilename(s)| == |s| + 2 * CountWhere(Escaped, s)
  {
    EncodeFilenameFlat(s);
    FlatEscapeAlphabet(s);
  }

  /** Every character that is not escaped, `%` included, is copied. */
  lemma {:induction false} FlatEscapeKeeps(s: string)
    requires forall k :: 0 <= k < |s| ==> !Escaped(s[k])
    ensures Flat(EscapeChar, s) == s
    decreases |s|
  {
    if s != [] {
      FlatEscapeKeeps(s[1..]);
      assert s == [s[0]] + s[1..];
    }
  }

  /** Escaping an escaped name again changes nothing. */
  lemma EncodeFilenameIdempotent(s: string)
    ensures EncodeFilename(EncodeFilename(s)) == EncodeFilename(s)
  {
    var r := EncodeFilename(s);
    EncodeFilenameAlphabet(s);
    EncodeFilenameFlat(r);
    FlatEscapeKeeps(r);
  }

  /** The escaping loses information: a name holding `/` and the name
      holding `%2F` in its place share a file, `a/b` and `a%2Fb` say. */
  lemma EncodeFilenameCollides(a: string, b: string)
    ensures EncodeFilename(a + "/" + b) == EncodeFilename(a + "%2F" + b)
  {
    EncodeFilenameFlat(a + "/" + b);
    EncodeFilenameFlat(a + "%2F" + b);
    FlatAppend(EscapeChar, a + "/", b);
    FlatAppend(EscapeChar, a, "/");
    FlatAppend(EscapeChar, a + "%2F", b);
    FlatAppend(EscapeChar, a, "%2F");
    FlatEscapeKeeps("%2F");
    assert Flat(EscapeChar, "/") == "%2F" by {
      assert "/"[1..] == [];
    }
  }

  lemma {:induction false} FlatSlashAlphabet(s: string)
    ensures '/' !in Flat(SlashChar, s)
    ensures |Flat(SlashChar, s)| == |s| + 2 * CountWhere(c => c == '/', s)
    decreases |s|
  {
    if s != [] {
      FlatSlashAlphabet(s[1..]);
    }
  }

  lemma {:induction false} FlatSlashKeeps(s: string)
    requires '/' !in s
    ensures Flat(SlashChar, s) == s
    decreases |s|
  {
    if s != [] {
      FlatSlashKeeps(s[1..]);
      assert s == [s[0]] + s[1..];
    }
  }

  /** The slash-only escaping leaves no `/`, grows the name by two for each,
      and is idempotent. */
  lemma EncodeSlashProperties(s: string)
    ensures '/' !in EncodeSlash(s)
    ensures |EncodeSlash(s)| == |s| + 2 * CountWhere(c => c == '/', s)
    ensures EncodeSlash(EncodeSlash(s)) == EncodeSlash(s)
  {
    EncodeSlashFlat(s);
    FlatSlashAlphabet(s);
    EncodeSlashFlat(EncodeSlash(s));
    FlatSlashKeeps(EncodeSlash(s));
  }

  // ---------------------------------------------------------------------
  // Go's `path.Join` and `path.Clean`, after their documented rules

  /** The position of the last `/` of `p`. */
  function LastSlash(p: string): (i: nat)
    requires '/' in p
    ensures i < |p| && p[i] == '/' && '/' !in p[i + 1..]
    decreases |p|
  {
    if p[|p| - 1] == '/' then |p| - 1
    else
      assert '/' in p[..|p| - 1];
      var i := LastSlash(p[..|p| - 1]);
      assert p[i + 1..] == p[..|p| - 1][i + 1..] + [p[|p| - 1]];
      i
  }

  /** `strings.Split(p, "/")`, taken from the right: the last element is
      what follows the last `/`. */
  function SplitSlash(p: string): (r: seq<string>)
    ensures |r| >= 1
    decreases |p|
  {
    if '/' !in p then [p]
    else
      var i := LastSlash(p);
      SplitSlash(p[..i]) + [p[i + 1..]]
  }

  /** One element of the rules of `path.Clean`: empty and `.` elements
      vanish, `..` removes the element before it, and a `..` at the root is
      dropped. */
  function CleanStep(stack: seq<string>, e: string, rooted: bool): seq<string> {
    if e == "" || e == "." then stack
    else if e == ".." then
      if stack != [] && stack[|stack| - 1] != ".." then stack[..|stack| - 1]
      else if rooted then stack
      else stack + [".."]
    else stack + [e]
  }

  function Resolve(elems: seq<string>, rooted: bool): seq<string>
    decreases |elems|
  {
    if elems == [] then [] else CleanStep(Resolve(elems[..|elems| - 1], rooted), elems[|elems| - 1], rooted)
  }

  /** `path.Clean`: the shortest equivalent path, `.` for an empty one. */
  function Clean(p: string): (r: string)
    ensures r != ""
  {
    var rooted := p != [] && p[0] == '/';
    var body := Join(Resolve(SplitSlash(p), rooted), "/");
    var r := if rooted then "/" + body else body;
    if r == "" then "." else r
  }

  /** `path.Join` of two elements: the non-empty ones joined by `/` and
      cleaned, or the empty string. */
  function PathJoin(dir: string, name: string): string {
    if dir == "" then (if name == "" then "" else Clean(name))
    else if name == "" then Clean(dir)
    else Clean(dir + "/" + name)
  }

  /** `canonicalFilepath`. */
  function CanonicalFilepath(directory: string, filename: string): string {
    PathJoin(directory, EncodeSlash(filename))
  }

  lemma SplitSnoc(dir: string, name: string)
    requires '/' !in name
    ensures SplitSlash(dir + "/" + name) == SplitSlash(dir) + [name]
  {
    var p := dir + "/" + name;
    assert p[|dir|] == '/';
    var i := LastSlash(p);
    if i > |dir| {
      assert false;
    }
    if i < |dir| {
      assert false;
    }
    assert p[..|dir|] == dir && p[|dir| + 1..] == name;
  }

  lemma RootedSnoc(dir: string, name: string)
    requires dir != []
    ensures var p := dir + "/" + name; p != [] && p[0] == dir[0]
  {
  }

  /** A clean directory other than `""`, `.` and `/` is its resolved
      elements, joined, behind the root if it has one. */
  lemma CleanParts(dir: string)
    requires Clean(dir) == dir && dir != "" && dir != "." && dir != "/"
    ensures var rooted := dir[0] == '/';
      var stack := Resolve(SplitSlash(dir), rooted);
      stack != [] && (if rooted then "/" + Join(stack, "/") else Join(stack, "/")) == dir
  {
  }

  lemma ResolveSnoc(elems: seq<string>, name: string, rooted: bool)
    requires name != "" && name != "." && name != ".."
    ensures Resolve(elems + [name], rooted) == Resolve(elems, rooted) + [name]
  {
    assert (elems + [name])[..|elems + [name]| - 1] == elems;
  }

  lemma CleanIs(p: string, stack: seq<string>)
    requires p != [] && Resolve(SplitSlash(p), p[0] == '/') == stack && Join(stack, "/") != ""
    ensures Clean(p) == if p[0] == '/' then "/" + Join(stack, "/") else Join(stack, "/")
  {
  }

  lemma Assemble(dir: string, name: string, body: string, rooted: bool)
    requires dir == if rooted then "/" + body else body
    ensures (if rooted then "/" + (body + "/" + name) else body + "/" + name) == dir + "/" + name
  {
    if rooted {
      assert "/" + (body + "/" + name) == ("/" + body) + "/" + name;
    }
  }

  lemma ElementsSnoc(dir: string, name: string, stack: seq<string>)
    requires dir != [] && '/' !in name && name != "" && name != "." && name != ".."
    requires stack == Resolve(SplitSlash(dir), dir[0] == '/') && stack != []
    ensures var p := dir + "/" + name;
      p != [] && p[0] == dir[0] &&
      Resolve(SplitSlash(p), p[0] == '/') == stack + [name] &&
      Join(stack + [name], "/") == Join(stack, "/") + "/" + name
  {
    RootedSnoc(dir, name);
    SplitSnoc(dir, name);
    ResolveSnoc(SplitSlash(dir), name, dir[0] == '/');
    JoinSnoc(stack, name, "/");
  }

  /** A name that is a plain element (not empty, no `/`, not `.` or `..`)
      joined to a clean directory other than `""`, `.` and `/` is simply
      appended after a `/`. */
  lemma JoinClean(dir: string, name: string)
    requires Clean(dir) == dir && dir != "" && dir != "." && dir != "/"
    requires name != "" && '/' !in name && name != "." && name != ".."
    ensures PathJoin(dir, name) == dir + "/" + name
  {
    var rooted := dir[0] == '/';
    CleanParts(dir);
    var stack := Resolve(SplitSlash(dir), rooted);
    ElementsSnoc(dir, name, stack);
    CleanIs(dir + "/" + name, stack + [name]);
    Assemble(dir, name, Join(stack, "/"), rooted);
  }

  /** `canonicalFilepath` puts the escaped name inside a clean directory as
      its last element, whenever that name is a plain element. */
  lemma CanonicalInDirectory(directory: string, filename: string)
    requires Clean(directory) == directory && directory != "" && directory != "." && directory != "/"
    requires EncodeSlash(filename) != "" && EncodeSlash(filename) != "." && EncodeSlash(filename) != ".."
    ensures CanonicalFilepath(directory, filename) == directory + "/" + EncodeSlash(filename)
    ensures '/' !in EncodeSlash(filename)
  {
    EncodeSlashProperties(filename);
    JoinClean(directory, EncodeSlash(filename));
  }

}
