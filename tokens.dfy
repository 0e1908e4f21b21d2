/** The shapes of the `url` and `image` tokens of the line grammar
    (client/syntax/parser.go:57-59): what the text of such a token can
    look like, read off the patterns and carried through the token loop. */
module Tokens {

  import opened Wrappers
  import opened Text
  import opened Regexp
  import opened Grammar
  import opened Ast
  import opened Parser

  /** No space, tab or newline. */
  predicate NoBlank(v: string) {
    forall j :: 0 <= j < |v| ==> InClass(v[j], NonBlank)
  }

  /** `http://` or `https://`, followed by at least one more character. */
  predicate SchemeFirst(v: string) {
    (At(v, 0, "http://") && |v| > 7) || (At(v, 0, "https://") && |v| > 8)
  }

  predicate EndsWith(v: string, t: string) {
    |t| <= |v| && v[|v| - |t|..] == t
  }

  /** The text of a `url` token: a scheme, then at least one character, and
      no blank anywhere. */
  predicate UrlText(v: string) {
    SchemeFirst(v) && NoBlank(v)
  }

  /** The text of an `image` token: a gyazo address (whose unescaped `.`
      can be any character but '\n') with no blank after the host, or a
      blank-free URL that ends in an image extension. */
  predicate ImageText(v: string) {
    (At(v, 0, "https://gyazo") && |v| > 18 && v[13] != '\n' && At(v, 14, "com/") && NoBlank(v[14..]))
    || (SchemeFirst(v) && NoBlank(v) &&
        (EndsWith(v, ".png") || EndsWith(v, ".gif") || EndsWith(v, ".jpg") || EndsWith(v, ".jpeg")))
  }

  // ---------------------------------------------------------------------
  // Facts about positions of the input

  predicate NoBlankIn(s: string, a: nat, b: nat)
    requires a <= b <= |s|
  {
    forall j :: a <= j < b ==> InClass(s[j], NonBlank)
  }

  lemma LitNoBlank(s: string, a: nat, t: string)
    requires At(s, a, t) && NoBlank(t)
    ensures NoBlankIn(s, a, a + |t|)
  {
    forall j | a <= j < a + |t|
      ensures InClass(s[j], NonBlank)
    {
      assert s[j] == s[a..a + |t|][j - a];
    }
  }

  lemma NoBlankJoin(s: string, a: nat, b: nat, c: nat)
    requires a <= b <= c <= |s| && NoBlankIn(s, a, b) && NoBlankIn(s, b, c)
    ensures NoBlankIn(s, a, c)
  {
  }

  lemma NoBlankSlice(s: string, a: nat, b: nat)
    requires a <= b <= |s| && NoBlankIn(s, a, b)
    ensures NoBlank(s[a..b])
  {
    forall j | 0 <= j < b - a
      ensures InClass(s[a..b][j], NonBlank)
    {
      assert s[a..b][j] == s[a + j];
    }
  }

  lemma AtSlice(s: string, a: nat, b: nat, p: nat, t: string)
    requires a <= p && p + |t| <= b <= |s| && At(s, p, t)
    ensures At(s[a..b], p - a, t)
  {
    SliceOfSlice(s, a, b, p - a, p - a + |t|);
  }

  lemma AtJoin(s: string, i: nat, t: string, u: string)
    requires At(s, i, t) && At(s, i + |t|, u)
    ensures At(s, i, t + u)
  {
    SliceSplit(s, i, i + |t|, i + |t| + |u|);
  }

  // ---------------------------------------------------------------------
  // Unfolding the matcher

  lemma MatchLit(t: string, r: Regex, s: string, i: nat)
    requires i <= |s|
    ensures Match([Lit(t)] + r, s, i) == if At(s, i, t) then Match(r, s, i + |t|) else None
  {
    assert ([Lit(t)] + r)[0] == Lit(t);
    assert ([Lit(t)] + r)[1..] == r;
  }

  lemma MatchAny(r: Regex, s: string, i: nat)
    requires i <= |s|
    ensures Match([Any] + r, s, i) == if i < |s| && s[i] != '\n' then Match(r, s, i + 1) else None
  {
    assert ([Any] + r)[0] == Any;
    assert ([Any] + r)[1..] == r;
  }

  lemma MatchOpt(b: Regex, r: Regex, s: string, i: nat)
    requires i <= |s|
    ensures Match([Opt(b)] + r, s, i) == if Match(b + r, s, i).Some? then Match(b + r, s, i) else Match(r, s, i)
  {
    assert ([Opt(b)] + r)[0] == Opt(b);
    assert ([Opt(b)] + r)[1..] == r;
  }

  lemma MatchAlt(a: Regex, b: Regex, s: string, i: nat)
    requires i <= |s|
    ensures Match([Alt(a, b)], s, i) == if Match(a, s, i).Some? then Match(a, s, i) else Match(b, s, i)
  {
    assert [Alt(a, b)][1..] == [];
    assert a + [] == a;
    assert b + [] == b;
  }

  lemma {:induction false} GreedyHit(r: Regex, s: string, lo: nat, x: nat, e: nat) returns (y: nat)
    requires 1 <= lo <= |s| + 1 && x <= |s| && Greedy(r, s, lo, x) == Some(e)
    ensures lo <= y <= x && Match(r, s, y) == Some(e)
    decreases x
  {
    if Match(r, s, x).Some? {
      y := x;
    } else {
      y := GreedyHit(r, s, lo, x - 1, e);
    }
  }

  /** A greedy run followed by `r`: `r` matches somewhere inside the run,
      after at least one character. */
  lemma MatchPlus(k: Class, r: Regex, s: string, i: nat, e: nat) returns (y: nat)
    requires i <= |s| && Match([Plus(k)] + r, s, i) == Some(e)
    ensures i < y <= RunEnd(s, i, k) && Match(r, s, y) == Some(e)
  {
    assert ([Plus(k)] + r)[0] == Plus(k);
    assert ([Plus(k)] + r)[1..] == r;
    y := GreedyHit(r, s, i + 1, RunEnd(s, i, k), e);
  }

  /** `https?://` followed by `tail`: the scheme is at `i`, and `tail`
      matches right after it. */
  lemma SchemeTail(tail: Regex, s: string, i: nat, e: nat) returns (x: nat)
    requires i <= |s| && Match(Scheme + tail, s, i) == Some(e)
    ensures (At(s, i, "http://") && x == i + 7) || (At(s, i, "https://") && x == i + 8)
    ensures x <= |s| && Match(tail, s, x) == Some(e)
  {
    var r2 := [Lit("://")] + tail;
    SchemeSplit(tail);
    MatchLit("http", [Opt([Lit("s")])] + r2, s, i);
    MatchOpt([Lit("s")], r2, s, i + 4);
    MatchLit("s", r2, s, i + 4);
    if At(s, i + 4, "s") && Match(r2, s, i + 5).Some? {
      x := SchemeHttps(tail, s, i, e);
    } else {
      x := SchemeHttp(tail, s, i, e);
    }
  }

  lemma SchemeSplit(tail: Regex)
    ensures Scheme + tail == [Lit("http")] + ([Opt([Lit("s")])] + ([Lit("://")] + tail))
  {
  }

  lemma SchemeHttps(tail: Regex, s: string, i: nat, e: nat) returns (x: nat)
    requires At(s, i, "http") && At(s, i + 4, "s") && Match([Lit("://")] + tail, s, i + 5) == Some(e)
    ensures At(s, i, "https://") && x == i + 8 && x <= |s| && Match(tail, s, x) == Some(e)
  {
    MatchLit("://", tail, s, i + 5);
    AtJoin(s, i, "http", "s");
    AtJoin(s, i, "https", "://");
    x := i + 8;
  }

  lemma SchemeHttp(tail: Regex, s: string, i: nat, e: nat) returns (x: nat)
    requires At(s, i, "http") && Match([Lit("://")] + tail, s, i + 4) == Some(e)
    ensures At(s, i, "http://") && x == i + 7 && x <= |s| && Match(tail, s, x) == Some(e)
  {
    MatchLit("://", tail, s, i + 4);
    AtJoin(s, i, "http", "://");
    x := i + 7;
  }

  /** The run of `[^ \t\n]+` that ends a pattern reaches the end of the
      match, and holds no blank. */
  lemma RunToEnd(s: string, x: nat, e: nat)
    requires x <= |s| && Match([Plus(NonBlank)], s, x) == Some(e)
    ensures x < e && NoBlankIn(s, x, e)
  {
    SinglePlus(s, x, NonBlank);
  }

  lemma SchemeNoBlank(s: string, i: nat, x: nat)
    requires (At(s, i, "http://") && x == i + 7) || (At(s, i, "https://") && x == i + 8)
    ensures x <= |s| && NoBlankIn(s, i, x)
  {
    if At(s, i, "http://") && x == i + 7 {
      LitNoBlank(s, i, "http://");
    } else {
      LitNoBlank(s, i, "https://");
    }
  }

  lemma SchemeFirstSlice(s: string, i: nat, x: nat, e: nat)
    requires (At(s, i, "http://") && x == i + 7) || (At(s, i, "https://") && x == i + 8)
    requires x < e <= |s|
    ensures SchemeFirst(s[i..e])
  {
    if At(s, i, "http://") && x == i + 7 {
      AtSlice(s, i, e, i, "http://");
    } else {
      AtSlice(s, i, e, i, "https://");
    }
  }

  // ---------------------------------------------------------------------
  // The two patterns

  /** `url`: `https?://[^ \t\n]+`. */
  lemma UrlShape(s: string, i: nat, e: nat)
    requires i <= |s| && Match(Url, s, i) == Some(e)
    ensures UrlText(s[i..e])
  {
    var x := SchemeTail([Plus(NonBlank)], s, i, e);
    RunToEnd(s, x, e);
    SchemeNoBlank(s, i, x);
    NoBlankJoin(s, i, x, e);
    NoBlankSlice(s, i, e);
    SchemeFirstSlice(s, i, x, e);
  }

  /** One of the four extensions, matched at `y`. */
  lemma ExtMatch(s: string, y: nat, e: nat) returns (ext: string)
    requires y <= |s| && Match([ImageExt], s, y) == Some(e)
    ensures ext == ".png" || ext == ".gif" || ext == ".jpg" || ext == ".jpeg"
    ensures At(s, y, ext) && e == y + |ext|
  {
    MatchAlt([Lit(".png")], [Alt([Lit(".gif")], [Alt([Lit(".jpg")], [Lit(".jpeg")])])], s, y);
    MatchAlt([Lit(".gif")], [Alt([Lit(".jpg")], [Lit(".jpeg")])], s, y);
    MatchAlt([Lit(".jpg")], [Lit(".jpeg")], s, y);
    MatchLit(".png", [], s, y);
    MatchLit(".gif", [], s, y);
    MatchLit(".jpg", [], s, y);
    MatchLit(".jpeg", [], s, y);
    assert [Lit(".png")] + [] == [Lit(".png")];
    assert [Lit(".gif")] + [] == [Lit(".gif")];
    assert [Lit(".jpg")] + [] == [Lit(".jpg")];
    assert [Lit(".jpeg")] + [] == [Lit(".jpeg")];
    if At(s, y, ".png") {
      ext := ".png";
    } else if At(s, y, ".gif") {
      ext := ".gif";
    } else if At(s, y, ".jpg") {
      ext := ".jpg";
    } else {
      ext := ".jpeg";
    }
  }

  /** The gyazo branch of the image pattern. */
  lemma GyazoShape(s: string, i: nat, e: nat)
    requires i <= |s| && Match([Lit("https://gyazo"), Any, Lit("com/"), Plus(NonBlank)], s, i) == Some(e)
    ensures At(s[i..e], 0, "https://gyazo") && e - i > 18 && s[i..e][13] != '\n'
    ensures At(s[i..e], 14, "com/") && NoBlank(s[i..e][14..])
  {
    var r3 := [Lit("com/"), Plus(NonBlank)];
    assert [Lit("https://gyazo"), Any, Lit("com/"), Plus(NonBlank)] == [Lit("https://gyazo")] + ([Any] + r3);
    MatchLit("https://gyazo", [Any] + r3, s, i);
    MatchAny(r3, s, i + 13);
    assert r3 == [Lit("com/")] + [Plus(NonBlank)];
    MatchLit("com/", [Plus(NonBlank)], s, i + 14);
    RunToEnd(s, i + 18, e);
    LitNoBlank(s, i + 14, "com/");
    NoBlankJoin(s, i + 14, i + 18, e);
    NoBlankSlice(s, i + 14, e);
    AtSlice(s, i, e, i, "https://gyazo");
    AtSlice(s, i, e, i + 14, "com/");
    assert s[i..e][14..] == s[i + 14..e];
    assert s[i..e][13] == s[i + 13];
  }

  lemma EndsSlice(s: string, i: nat, y: nat, e: nat, ext: string)
    requires i <= y && At(s, y, ext) && e == y + |ext|
    ensures EndsWith(s[i..e], ext)
  {
    assert s[i..e][e - i - |ext|..] == s[y..e];
  }

  lemma ExtBlanks(s: string, i: nat, x: nat, y: nat, e: nat, ext: string)
    requires (At(s, i, "http://") && x == i + 7) || (At(s, i, "https://") && x == i + 8)
    requires x < y <= RunEnd(s, x, NonBlank) && At(s, y, ext) && e == y + |ext| && NoBlank(ext)
    ensures NoBlank(s[i..e])
  {
    SchemeNoBlank(s, i, x);
    LitNoBlank(s, y, ext);
    NoBlankJoin(s, i, x, y);
    NoBlankJoin(s, i, y, e);
    NoBlankSlice(s, i, e);
  }

  /** What follows the scheme in the URL-with-extension branch. */
  lemma ExtRest(s: string, i: nat, x: nat, e: nat)
    requires (At(s, i, "http://") && x == i + 7) || (At(s, i, "https://") && x == i + 8)
    requires x <= |s| && Match([Plus(NonBlank)] + [ImageExt], s, x) == Some(e)
    ensures SchemeFirst(s[i..e]) && NoBlank(s[i..e])
    ensures EndsWith(s[i..e], ".png") || EndsWith(s[i..e], ".gif") || EndsWith(s[i..e], ".jpg") || EndsWith(s[i..e], ".jpeg")
  {
    var y := MatchPlus(NonBlank, [ImageExt], s, x, e);
    var ext := ExtMatch(s, y, e);
    ExtBlanks(s, i, x, y, e, ext);
    SchemeFirstSlice(s, i, x, e);
    EndsSlice(s, i, y, e, ext);
  }

  /** The URL-with-extension branch of the image pattern. */
  lemma ExtShape(s: string, i: nat, e: nat)
    requires i <= |s| && Match(UrlBody + [ImageExt], s, i) == Some(e)
    ensures SchemeFirst(s[i..e]) && NoBlank(s[i..e])
    ensures EndsWith(s[i..e], ".png") || EndsWith(s[i..e], ".gif") || EndsWith(s[i..e], ".jpg") || EndsWith(s[i..e], ".jpeg")
  {
    assert UrlBody + [ImageExt] == Scheme + ([Plus(NonBlank)] + [ImageExt]);
    var x := SchemeTail([Plus(NonBlank)] + [ImageExt], s, i, e);
    ExtRest(s, i, x, e);
  }

  /** `image`: a gyazo address or a URL ending in an image extension. */
  lemma ImageShape(s: string, i: nat, e: nat)
    requires i <= |s| && Match(Image, s, i) == Some(e)
    ensures ImageText(s[i..e])
  {
    var a := [Lit("https://gyazo"), Any, Lit("com/"), Plus(NonBlank)];
    var b := UrlBody + [ImageExt];
    MatchAlt(a, b, s, i);
    if Match(a, s, i).Some? {
      GyazoShape(s, i, e);
    } else {
      ExtShape(s, i, e);
    }
  }

  // ---------------------------------------------------------------------
  // Through the token loop

  /** Every `url` token of a line is a scheme, at least one more
      character and no blank; every `image` token is a gyazo address or a
      URL ending in `.png`, `.gif`, `.jpg` or `.jpeg`. */
  lemma {:induction false} TokenShapes(s: string, i: nat)
    requires i <= |s|
    ensures forall t :: t in TokensAt(s, i).0 && t.name == "url" ==> UrlText(Value(t))
    ensures forall t :: t in TokensAt(s, i).0 && t.name == "image" ==> ImageText(Value(t))
    decreases |s| - i
  {
    var c := Choose(s, i, 0);
    if c.Some? {
      var (k, x) := c.value;
      TokensStep(s, i);
      FirstShape(s, i, k, x);
      TokenShapes(s, x);
    }
  }

  /** The token the choice reads at `i`. */
  lemma FirstShape(s: string, i: nat, k: nat, x: nat)
    requires i <= |s| && Choose(s, i, 0) == Some((k, x))
    ensures KindAt(k) == "url" ==> UrlText(s[i..x])
    ensures KindAt(k) == "image" ==> ImageText(s[i..x])
  {
    ChooseMatch(s, i, 0, k, x);
    if KindAt(k) == "url" {
      UrlRule(k);
      UrlShape(s, i, x);
    } else if KindAt(k) == "image" {
      ImageRule(k);
      ImageShape(s, i, x);
    }
  }

  lemma UrlRule(k: nat)
    requires k < RuleCount && KindAt(k) == "url"
    ensures PatternAt(k) == Url
  {
  }

  lemma ImageRule(k: nat)
    requires k < RuleCount && KindAt(k) == "image"
    ensures PatternAt(k) == Image
  {
  }

  /** The same for the children of a line. */
  lemma LineTokenShapes(line: string)
    ensures forall t :: t in LineAt(line, 0).0.children && t.name == "url" ==> UrlText(Value(t))
    ensures forall t :: t in LineAt(line, 0).0.children && t.name == "image" ==> ImageText(Value(t))
  {
    LineBody(line);
    TokenShapes(line, HeadAt(line, LeadingBlanks(line)).1);
  }

  // ---------------------------------------------------------------------
  // Ordered choice decided by the first character

  /** The character every alternative but `image` starts with: `[` for the
      links and the bolds, `h` for `url`, `#` for `tag`. */
  function FirstChar(k: nat): char {
    if k == 12 then 'h' else if k == 15 then '#' else '['
  }

  lemma FirstLitFails(r: Regex, t: string, s: string, i: nat)
    requires i < |s| && r != [] && r[0] == Lit(t) && t != [] && s[i] != t[0]
    ensures Match(r, s, i) == None
  {
    if i + |t| <= |s| {
      assert s[i..i + |t|][0] == s[i];
    }
  }

  /** An alternative other than `image` and `text` fails where the input
      does not start with its first character. */
  lemma LitRuleFails(s: string, i: nat, k: nat)
    requires i < |s| && k < 16 && k != 11 && s[i] != FirstChar(k)
    ensures Fails(s, i, k)
  {
    var r := PatternAt(k);
    if k == 0 {
      FirstLitFails(r, "[$", s, i);
    } else if k == 1 {
      assert r[0] == Lit("[");
      FirstLitFails(r, "[", s, i);
    } else if k == 2 {
      FirstLitFails(r, "[", s, i);
    } else if k == 3 {
      FirstLitFails(r, "[", s, i);
    } else if k == 4 {
      assert r[0] == Lit("[");
      FirstLitFails(r, "[", s, i);
    } else if k == 5 {
      assert r[0] == Lit("[");
      FirstLitFails(r, "[", s, i);
    } else if k == 6 {
      assert r[0] == Lit("[");
      FirstLitFails(r, "[", s, i);
    } else if k == 7 {
      assert r[0] == Lit("[");
      FirstLitFails(r, "[", s, i);
    } else if k == 8 {
      assert r[0] == Lit("[");
      FirstLitFails(r, "[", s, i);
    } else if k == 9 || k == 10 {
      FirstLitFails(r, "[", s, i);
    } else if k == 12 {
      assert r[0] == Lit("http");
      FirstLitFails(r, "http", s, i);
    } else if k == 13 || k == 14 {
      FirstLitFails(r, "[[", s, i);
    } else {
      FirstLitFails(r, "#", s, i);
    }
  }

  /** `image` fails where the input does not start with `h`. */
  lemma ImageFails(s: string, i: nat)
    requires i < |s| && s[i] != 'h'
    ensures Fails(s, i, 11)
  {
    var a := [Lit("https://gyazo"), Any, Lit("com/"), Plus(NonBlank)];
    var b := UrlBody + [ImageExt];
    MatchAlt(a, b, s, i);
    FirstLitFails(a, "https://gyazo", s, i);
    assert b[0] == Lit("http");
    FirstLitFails(b, "http", s, i);
  }

  lemma {:induction false} AllFailOf(s: string, i: nat, k: nat, j: nat)
    requires i <= |s| && k <= j <= RuleCount
    requires forall m :: k <= m < j ==> Fails(s, i, m)
    ensures AllFail(s, i, k, j)
    decreases j - k
  {
    if k < j {
      AllFailOf(s, i, k + 1, j);
    }
  }

  /** Where the input starts with none of `[`, `#`, `h` and '\n', no
      structured alternative matches, so the rest of the line is one `text`
      token. */
  lemma PlainStart(s: string, i: nat)
    requires i < |s| && s[i] != '[' && s[i] != '#' && s[i] != 'h' && s[i] != '\n'
    ensures TokensAt(s, i).0 == [Terminal("text", s[i..LineEnd(s, i)])]
  {
    forall m | 0 <= m < 16
      ensures Fails(s, i, m)
    {
      if m == 11 {
        ImageFails(s, i);
      } else {
        LitRuleFails(s, i, m);
      }
    }
    AllFailOf(s, i, 0, 16);
    PlainRest(s, i);
  }

  lemma TagMatch(s: string, i: nat)
    requires i + 1 < |s| && s[i] == '#' && s[i + 1] != '[' && InClass(s[i + 1], NonBlank)
    ensures Match(Tag, s, i) == Some(RunEnd(s, i + 1, NonBlank))
  {
    var a := [Lit("["), Plus(NonOpen), Lit("]")];
    var b := [Plus(NonBlank)];
    assert Tag == [Lit("#")] + [Alt(a, b)];
    assert At(s, i, "#") by {
      assert s[i..i + 1] == [s[i]];
    }
    MatchLit("#", [Alt(a, b)], s, i);
    MatchAlt(a, b, s, i + 1);
    FirstLitFails(a, "[", s, i + 1);
    SinglePlus(s, i + 1, NonBlank);
  }

  /** A `#` followed by a run of non-blank characters that does not open
      with `[`: every alternative before `tag` fails, and `tag` takes the
      whole run. */
  lemma TagChoice(s: string, i: nat)
    requires i + 1 < |s| && s[i] == '#' && s[i + 1] != '[' && InClass(s[i + 1], NonBlank)
    ensures Choose(s, i, 0) == Some((15, RunEnd(s, i + 1, NonBlank)))
  {
    forall m | 0 <= m < 15
      ensures Fails(s, i, m)
    {
      if m == 11 {
        ImageFails(s, i);
      } else {
        LitRuleFails(s, i, m);
      }
    }
    AllFailOf(s, i, 0, 15);
    ChooseAfter(s, i, 0, 15);
    TagMatch(s, i);
    assert PatternAt(15) == Tag;
  }

  /** An unindented line without a block marker is a simple text whose
      children are the tokens read from its first character. */
  lemma SimpleBody(line: string)
    requires LeadingBlanks(line) == 0
    requires !At(line, 0, ">") && !At(line, 0, "code:") && !At(line, 0, "table:")
    ensures LineAt(line, 0).0.name == "simple_text"
    ensures LineAt(line, 0).0.children == TokensAt(line, 0).0
    ensures LineAt(line, 0).0.attributes == map["indent" := ["0"]]
  {
    LineIndent(line);
    assert Decimal(0) == "0";
    LineKind(line);
    LineHead(line);
    var head := HeadAt(line, 0);
    assert BlockName(head.0.name) == "simple_text";
    HeadMarker(line, 0);
    assert head.1 == 0;
    LineBody(line);
  }

  /** A line whose blank run is followed by `code:` or `table:` is a code
      or table block, indented by the length of that run, whose children
      are the tokens read after the marker. */
  lemma DirectiveBody(line: string, w: nat, m: string)
    requires w == LeadingBlanks(line) && (m == "code:" || m == "table:") && At(line, w, m)
    ensures LineAt(line, 0).0.name == (if m == "code:" then "code_block" else "table_block")
    ensures LineAt(line, 0).0.children == TokensAt(line, w + |m|).0
    ensures LineAt(line, 0).0.attributes == map["indent" := [Decimal(w)]]
  {
    LineIndent(line);
    LineKind(line);
    LineHead(line);
    var head := HeadAt(line, w);
    assert BlockName(head.0.name) == (if m == "code:" then "code_block" else "table_block");
    HeadMarker(line, w);
    assert head.1 == w + |m|;
    LineBody(line);
  }

  lemma HashNoMarker(line: string)
    requires line != [] && line[0] == '#'
    ensures LeadingBlanks(line) == 0
    ensures !At(line, 0, ">") && !At(line, 0, "code:") && !At(line, 0, "table:")
  {
  }

  /** The tokens from a `#` followed by a name not opening with `[` and
      without a blank up to the end of the text: one `tag` token, the
      rest of the text. */
  lemma TagTokens(s: string, i: nat)
    requires i + 1 < |s| && s[i] == '#' && s[i + 1] != '[' && NoBlankIn(s, i + 1, |s|)
    ensures TokensAt(s, i).0 == [Terminal("tag", s[i..])]
  {
    TagWhole(s, i);
    TokensStepAt(s, i, 15, |s|);
    ChooseAtLineEnd(s, |s|);
    assert TokensAt(s, |s|).0 == [];
    assert s[i..|s|] == s[i..];
  }

  lemma RunAll(s: string, i: nat)
    requires i <= |s| && NoBlankIn(s, i, |s|)
    ensures RunEnd(s, i, NonBlank) == |s|
  {
  }

  /** On a `#` not followed by `[`, and with no blank up to the end of
      the text, the tag rule takes the rest of the text. */
  lemma TagWhole(s: string, i: nat)
    requires i + 1 < |s| && s[i] == '#' && s[i + 1] != '[' && NoBlankIn(s, i + 1, |s|)
    ensures Choose(s, i, 0) == Some((15, |s|))
  {
    TagChoice(s, i);
    RunAll(s, i + 1);
  }

  /** A line that is `#` and a blank-free name not opening with `[` (such
      as `#github.com/ohtomi/scrapbox`) is a simple text holding one `tag`
      token: the whole line. */
  lemma TagLine(line: string)
    requires |line| > 1 && line[0] == '#' && line[1] != '[' && NoBlankIn(line, 1, |line|)
    ensures LineAt(line, 0).0.name == "simple_text"
    ensures LineAt(line, 0).0.children == [Terminal("tag", line)]
    ensures LineAt(line, 0).0.attributes == map["indent" := ["0"]]
  {
    TagTokens(line, 0);
    assert line[0..] == line;
    HashNoMarker(line);
    SimpleBody(line);
  }

  /** A single line of blanks, then `code:` or `table:`, then a name not
      opening with `[`, `#` or `h` (such as `   code:sample.js`) is a code or
      table block indented by the number of blanks, whose only child is the
      `text` token holding the name: the marker line is read by the inline
      grammar. */
  lemma DirectiveLine(line: string, w: nat, m: string)
    requires w == LeadingBlanks(line) && (m == "code:" || m == "table:")
    requires w + |m| < |line| && At(line, w, m) && NoNewline(line)
    requires line[w + |m|] != '[' && line[w + |m|] != '#' && line[w + |m|] != 'h'
    ensures LineAt(line, 0).0.name == (if m == "code:" then "code_block" else "table_block")
    ensures LineAt(line, 0).0.children == [Terminal("text", line[w + |m|..])]
    ensures LineAt(line, 0).0.attributes == map["indent" := [Decimal(w)]]
  {
    var h := w + |m|;
    PlainStart(line, h);
    NoNewlineEnd(line, h);
    assert line[h..|line|] == line[h..];
    DirectiveBody(line, w, m);
  }

  /** The blank run of `b + t` is `b` when `b` is blanks and `t` does not
      start with one. */
  lemma {:induction false} BlanksThen(b: string, t: string)
    requires forall k :: 0 <= k < |b| ==> b[k] == ' ' || b[k] == '\t'
    requires t != [] && t[0] != ' ' && t[0] != '\t'
    ensures LeadingBlanks(b + t) == |b|
    decreases |b|
  {
    if b == [] {
      assert b + t == t;
    } else {
      assert (b + t)[1..] == b[1..] + t;
      BlanksThen(b[1..], t);
    }
  }

  /** The code-directive example alone: a code block with indent 0
      whose one child is the `text` `sample.js`. */
  lemma CodeSample()
    ensures LineAt("code:sample.js", 0).0.name == "code_block"
    ensures LineAt("code:sample.js", 0).0.children == [Terminal("text", "sample.js")]
    ensures LineAt("code:sample.js", 0).0.attributes == map["indent" := ["0"]]
  {
    SmallDecimals();
    DirectiveShape("", "code:", "sample.js", "code:sample.js");
    DirectiveLine("code:sample.js", 0, "code:");
  }

  /** The code-directive example after three spaces: a code block with indent 3
      whose one child is the `text` `sample.js`. */
  lemma CodeSampleSpaces()
    ensures LineAt("   code:sample.js", 0).0.name == "code_block"
    ensures LineAt("   code:sample.js", 0).0.children == [Terminal("text", "sample.js")]
    ensures LineAt("   code:sample.js", 0).0.attributes == map["indent" := ["3"]]
  {
    SmallDecimals();
    DirectiveShape("   ", "code:", "sample.js", "   code:sample.js");
    DirectiveLine("   code:sample.js", 3, "code:");
  }

  /** The code-directive example after three tabs: a code block with indent 3
      whose one child is the `text` `sample.js`. */
  lemma CodeSampleTabs()
    ensures LineAt("\t\t\tcode:sample.js", 0).0.name == "code_block"
    ensures LineAt("\t\t\tcode:sample.js", 0).0.children == [Terminal("text", "sample.js")]
    ensures LineAt("\t\t\tcode:sample.js", 0).0.attributes == map["indent" := ["3"]]
  {
    SmallDecimals();
    DirectiveShape("\t\t\t", "code:", "sample.js", "\t\t\tcode:sample.js");
    DirectiveLine("\t\t\tcode:sample.js", 3, "code:");
  }

  /** The table-directive example alone: a table block with indent 0
      whose one child is the `text` `sample`. */
  lemma TableSample()
    ensures LineAt("table:sample", 0).0.name == "table_block"
    ensures LineAt("table:sample", 0).0.children == [Terminal("text", "sample")]
    ensures LineAt("table:sample", 0).0.attributes == map["indent" := ["0"]]
  {
    SmallDecimals();
    DirectiveShape("", "table:", "sample", "table:sample");
    DirectiveLine("table:sample", 0, "table:");
  }

  /** The table-directive example after three spaces: a table block with indent 3
      whose one child is the `text` `sample`. */
  lemma TableSampleSpaces()
    ensures LineAt("   table:sample", 0).0.name == "table_block"
    ensures LineAt("   table:sample", 0).0.children == [Terminal("text", "sample")]
    ensures LineAt("   table:sample", 0).0.attributes == map["indent" := ["3"]]
  {
    SmallDecimals();
    DirectiveShape("   ", "table:", "sample", "   table:sample");
    DirectiveLine("   table:sample", 3, "table:");
  }

  /** The table-directive example after three tabs: a table block with indent 3
      whose one child is the `text` `sample`. */
  lemma TableSampleTabs()
    ensures LineAt("\t\t\ttable:sample", 0).0.name == "table_block"
    ensures LineAt("\t\t\ttable:sample", 0).0.children == [Terminal("text", "sample")]
    ensures LineAt("\t\t\ttable:sample", 0).0.attributes == map["indent" := ["3"]]
  {
    SmallDecimals();
    DirectiveShape("\t\t\t", "table:", "sample", "\t\t\ttable:sample");
    DirectiveLine("\t\t\ttable:sample", 3, "table:");
  }

  /** The indents of the directive examples, written out. */
  lemma SmallDecimals()
    ensures Decimal(0) == "0" && Decimal(3) == "3"
  {
  }

  /** What `DirectiveLine` asks of a concrete line `b + m + name`. */
  lemma DirectiveShape(b: string, m: string, name: string, line: string)
    requires forall k :: 0 <= k < |b| ==> b[k] == ' ' || b[k] == '\t'
    requires name != [] && NoNewline(name) && name[0] != ' ' && name[0] != '\t'
    requires NoNewline(m) && m != [] && m[0] != ' ' && m[0] != '\t'
    requires line == b + m + name
    ensures LeadingBlanks(line) == |b| && |b| + |m| < |line|
    ensures At(line, |b|, m) && NoNewline(line)
    ensures line[|b| + |m|..] == name && line[|b| + |m|] == name[0]
  {
    assert line == b + (m + name);
    BlanksThen(b, m + name);
    assert line[|b|..|b| + |m|] == m;
    assert line[|b| + |m|..] == name;
    forall k | 0 <= k < |line|
      ensures line[k] != '\n'
    {
      if k < |b| {
        assert line[k] == b[k];
      } else if k < |b| + |m| {
        assert line[k] == m[k - |b|];
      } else {
        assert line[k] == name[k - |b| - |m|];
      }
    }
  }

  /** The tag example: `#github.com/ohtomi/scrapbox` is read as one `tag`
      token, the whole line. */
  lemma TagSample()
    ensures LineAt("#github.com/ohtomi/scrapbox", 0).0.children == [Terminal("tag", "#github.com/ohtomi/scrapbox")]
  {
    var line := "#github.com/ohtomi/scrapbox";
    forall k | 1 <= k < |line|
      ensures InClass(line[k], NonBlank)
    {
    }
    TagLine(line);
  }

}
