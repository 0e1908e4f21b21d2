/** Ordered choice on lines where an earlier alternative shadows a later
    one (client/syntax/parser.go:32-90): a bracketed image URL followed by
    a URL is taken whole by the first image-link pattern, ahead of the
    internal link that would match it too, and a doubly bracketed image URL
    by the bold-image pattern, ahead of the bold text. In neither case do
    the image and url patterns that match inside the brackets give tokens
    of their own. */
module Shadows {

  import opened Wrappers
  import opened Text
  import opened Regexp
  import opened Grammar
  import opened Ast
  import opened Parser
  import opened Tokens

  // ---------------------------------------------------------------------
  // Running the matcher forward

  /** `t` is not at `i` when one of its characters differs from the input. */
  lemma LitMismatch(s: string, i: nat, t: string, j: nat)
    requires j < |t| && i + j < |s| && s[i + j] != t[j]
    ensures !At(s, i, t)
  {
  }

  lemma AtFirst(s: string, i: nat, t: string)
    requires At(s, i, t) && t != []
    ensures i < |s| && s[i] == t[0]
  {
    assert s[i] == s[i..i + |t|][0];
  }

  /** An alternation followed by `r` tries its left side, then its right
      side, each followed by `r`. */
  lemma MatchAltRest(a: Regex, b: Regex, r: Regex, s: string, i: nat)
    requires i <= |s|
    ensures Match([Alt(a, b)] + r, s, i) == if Match(a + r, s, i).Some? then Match(a + r, s, i) else Match(b + r, s, i)
  {
    assert ([Alt(a, b)] + r)[0] == Alt(a, b);
    assert ([Alt(a, b)] + r)[1..] == r;
  }

  lemma MatchPlusRest(k: Class, r: Regex, s: string, i: nat)
    requires i <= |s|
    ensures Match([Plus(k)] + r, s, i) == if RunEnd(s, i, k) == i then None else Greedy(r, s, i + 1, RunEnd(s, i, k))
  {
    assert ([Plus(k)] + r)[0] == Plus(k);
    assert ([Plus(k)] + r)[1..] == r;
  }

  /** A greedy run stops at the highest point `z` from which `r` matches. */
  lemma {:induction false} GreedyAt(r: Regex, s: string, lo: nat, x: nat, z: nat)
    requires 1 <= lo <= z <= x <= |s|
    requires forall y :: z < y <= x ==> Match(r, s, y).None?
    requires Match(r, s, z).Some?
    ensures Greedy(r, s, lo, x) == Match(r, s, z)
    decreases x
  {
    if x > z {
      assert Match(r, s, x).None?;
      GreedyAt(r, s, lo, x - 1, z);
    }
  }

  /** `https://` at `i`: the scheme takes those eight characters. */
  lemma SchemeHttpsAt(tail: Regex, s: string, i: nat)
    requires At(s, i, "https://")
    ensures Match(Scheme + tail, s, i) == Match(tail, s, i + 8)
  {
    var r2 := [Lit("://")] + tail;
    assert s[i..i + 8][4] == s[i + 4];
    assert s[i..i + 4] == s[i..i + 8][..4];
    assert s[i + 5..i + 8] == s[i..i + 8][5..];
    assert At(s, i + 4, "s") by {
      assert s[i + 4..i + 5] == [s[i + 4]];
    }
    LitMismatch(s, i + 4, "://", 0);
    SchemeSplit(tail);
    MatchLit("http", [Opt([Lit("s")])] + r2, s, i);
    MatchOpt([Lit("s")], r2, s, i + 4);
    assert [Lit("s")] + r2 == [Lit("s")] + ([Lit("://")] + tail);
    MatchLit("s", r2, s, i + 4);
    MatchLit("://", tail, s, i + 5);
    MatchLit("://", tail, s, i + 4);
  }

  /** `http://` at `i`: the scheme takes those seven characters. */
  lemma SchemeHttpAt(tail: Regex, s: string, i: nat)
    requires At(s, i, "http://")
    ensures Match(Scheme + tail, s, i) == Match(tail, s, i + 7)
  {
    var r2 := [Lit("://")] + tail;
    assert s[i..i + 7][4] == s[i + 4];
    assert s[i..i + 4] == s[i..i + 7][..4];
    assert s[i + 4..i + 7] == s[i..i + 7][4..];
    LitMismatch(s, i + 4, "s", 0);
    SchemeSplit(tail);
    MatchLit("http", [Opt([Lit("s")])] + r2, s, i);
    MatchOpt([Lit("s")], r2, s, i + 4);
    MatchLit("s", r2, s, i + 4);
    MatchLit("://", tail, s, i + 4);
  }

  /** No extension matches where the input has no `.`. */
  lemma ExtFails(r: Regex, s: string, x: nat)
    requires x <= |s| && (x == |s| || s[x] != '.')
    ensures Match([ImageExt] + r, s, x) == None
  {
    var jpg := Alt([Lit(".jpg")], [Lit(".jpeg")]);
    var gif := Alt([Lit(".gif")], [jpg]);
    MatchAltRest([Lit(".png")], [gif], r, s, x);
    MatchAltRest([Lit(".gif")], [jpg], r, s, x);
    MatchAltRest([Lit(".jpg")], [Lit(".jpeg")], r, s, x);
    MatchLit(".png", r, s, x);
    MatchLit(".gif", r, s, x);
    MatchLit(".jpg", r, s, x);
    MatchLit(".jpeg", r, s, x);
    if x < |s| {
      LitMismatch(s, x, ".png", 0);
      LitMismatch(s, x, ".gif", 0);
      LitMismatch(s, x, ".jpg", 0);
      LitMismatch(s, x, ".jpeg", 0);
    }
  }

  /** `.png` at `x`: the extension takes those four characters. */
  lemma ExtPng(r: Regex, s: string, x: nat)
    requires At(s, x, ".png")
    ensures Match([ImageExt] + r, s, x) == Match(r, s, x + 4)
  {
    var jpg := Alt([Lit(".jpg")], [Lit(".jpeg")]);
    var gif := Alt([Lit(".gif")], [jpg]);
    MatchAltRest([Lit(".png")], [gif], r, s, x);
    MatchLit(".png", r, s, x);
    if Match(r, s, x + 4).None? {
      assert s[x..x + 4][1] == s[x + 1];
      MatchAltRest([Lit(".gif")], [jpg], r, s, x);
      MatchAltRest([Lit(".jpg")], [Lit(".jpeg")], r, s, x);
      MatchLit(".gif", r, s, x);
      MatchLit(".jpg", r, s, x);
      MatchLit(".jpeg", r, s, x);
      LitMismatch(s, x, ".gif", 1);
      LitMismatch(s, x, ".jpg", 1);
      LitMismatch(s, x, ".jpeg", 1);
    }
  }

  /** A pattern opening with `[` at a `[`: the rest of the pattern from
      the next character. */
  lemma OpenedBy(r: Regex, s: string, i: nat)
    requires i < |s| && s[i] == '[' && r != [] && r[0] == Lit("[")
    ensures Match(r, s, i) == Match(r[1..], s, i + 1)
  {
    assert s[i..i + 1] == [s[i]];
  }

  /** A pattern opening with a literal that is not at `i` fails there. */
  lemma LitFails(r: Regex, s: string, i: nat)
    requires i <= |s| && r != [] && r[0].Lit? && !At(s, i, r[0].text)
    ensures Match(r, s, i) == None
  {
  }

  /** A pattern opening with a run of a class the character at `i` is not
      in fails there. */
  lemma PlusFails(r: Regex, s: string, i: nat)
    requires i < |s| && r != [] && r[0].Plus? && !InClass(s[i], r[0].cls)
    ensures Match(r, s, i) == None
  {
  }

  /** A greedy run with no stopping point from which `r` matches fails. */
  lemma {:induction false} GreedyNone(r: Regex, s: string, lo: nat, x: nat)
    requires 1 <= lo <= |s| + 1 && x <= |s|
    requires forall y :: lo <= y <= x ==> Match(r, s, y).None?
    ensures Greedy(r, s, lo, x) == None
    decreases x
  {
    if x >= lo {
      assert Match(r, s, x).None?;
      GreedyNone(r, s, lo, x - 1);
    }
  }

  /** The first character and the next together are some of the patterns'
      openings: math needs `[$`, the styled links a style mark and the
      project link a `/` after the `[`. */
  lemma EarlyLinksFail(s: string, i: nat, k: nat)
    requires i + 1 < |s| && s[i] == '[' && k < 4
    requires s[i + 1] != '$' && !InClass(s[i + 1], StyleMark)
    ensures Fails(s, i, k)
  {
    var r := PatternAt(k);
    if k == 0 {
      LitMismatch(s, i, "[$", 1);
      LitFails(r, s, i);
    } else if k == 3 {
      OpenedBy(r, s, i);
      LitMismatch(s, i + 1, "/", 0);
      LitFails(r[1..], s, i + 1);
    } else {
      assert r[0] == Lit("[") && r[1] == Plus(StyleMark);
      OpenedBy(r, s, i);
      PlusFails(r[1..], s, i + 1);
    }
  }

  /** `[[`: every link pattern but the icon fails, since each needs a
      scheme, a character other than `[`, or `]`, right after the first `[`. */
  lemma NestedBracketFails(s: string, i: nat, k: nat)
    requires i + 1 < |s| && s[i] == '[' && s[i + 1] == '['
    requires 4 <= k <= 10 && k != 9
    ensures Fails(s, i, k)
  {
    var r := PatternAt(k);
    assert r[0] == Lit("[");
    OpenedBy(r, s, i);
    var t := r[1..];
    if k == 4 {
      ImageUrlOnBracket(t[1..], s, i + 1);
      assert t == [ImageUrl] + t[1..];
    } else if k == 6 {
      assert t[0] == Plus(NonOpen);
      PlusFails(t, s, i + 1);
    } else if k == 10 {
      assert t == [LazyStar(NonOpen), Lit("]")];
      assert [Lit("]")][0] == Lit("]");
      LitMismatch(s, i + 1, "]", 0);
      LitFails([Lit("]")], s, i + 1);
    } else {
      assert t[0] == Lit("http");
      LitMismatch(s, i + 1, "http", 0);
      LitFails(t, s, i + 1);
    }
  }

  /** An image URL, whichever branch, cannot start at a `[`. */
  lemma ImageUrlOnBracket(rest: Regex, s: string, j: nat)
    requires j < |s| && s[j] == '['
    ensures Match([ImageUrl] + rest, s, j) == None
  {
    var a := [Lit("https://gyazo"), Any, Lit("com/"), Plus(NonBlank)];
    var b := UrlBody + [ImageExt];
    MatchAltRest(a, b, rest, s, j);
    LitMismatch(s, j, "https://gyazo", 0);
    LitFails(a + rest, s, j);
    assert UrlBody[0] == Lit("http");
    assert (b + rest)[0] == b[0] == UrlBody[0];
    LitMismatch(s, j, "http", 0);
    LitFails(b + rest, s, j);
  }

  /** The icon pattern fails on a `[` with no `.icon]` after it. */
  lemma IconFails(s: string, i: nat)
    requires i < |s| && s[i] == '['
    requires forall x :: i + 1 < x <= |s| ==> !At(s, x, ".icon]")
    ensures Fails(s, i, 9)
  {
    var r := PatternAt(9);
    OpenedBy(r, s, i);
    assert r[1..] == [Plus(NonNewline)] + [Lit(".icon]")];
    MatchPlusRest(NonNewline, [Lit(".icon]")], s, i + 1);
    var e := RunEnd(s, i + 1, NonNewline);
    if e > i + 1 {
      forall y | i + 2 <= y <= e
        ensures Match([Lit(".icon]")], s, y).None?
      {
        LitFails([Lit(".icon]")], s, y);
      }
      GreedyNone([Lit(".icon]")], s, i + 2, e);
    }
  }

  // ---------------------------------------------------------------------
  // A bold image: `[[http://….png]]`

  /** The shape of a doubly bracketed `http` image URL: `[[http://`, at
      least one more character, `.png]]`, no blank anywhere and no `]`
      before the closing pair. */
  predicate BoldImageShape(s: string) {
    |s| >= 16 && s[0] == '[' && s[1] == '[' && At(s, 2, "http://") && At(s, |s| - 6, ".png]]")
    && NoBlankIn(s, 0, |s|) && forall j :: 0 <= j < |s| - 2 ==> s[j] != ']'
  }

  /** `.icon]` occurs nowhere in such a line: its only `]`s are the last
      two characters, and neither follows an `n`. */
  lemma BoldNoIcon(s: string)
    requires BoldImageShape(s)
    ensures forall x :: 1 < x <= |s| ==> !At(s, x, ".icon]")
  {
    assert s[|s| - 3] == s[|s| - 6..|s|][3];
    forall x | 1 < x <= |s|
      ensures !At(s, x, ".icon]")
    {
      if x + 6 <= |s| {
        assert s[x + 5] == s[x..x + 6][5];
        assert s[x + 4] == s[x..x + 6][4];
      }
    }
  }

  /** `.png]]` at `z`: the extension, then the closing pair, and no `.`
      after the extension's own. */
  lemma PngCloseAt(s: string, z: nat)
    requires At(s, z, ".png]]")
    ensures At(s, z, ".png") && At(s, z + 4, "]]")
    ensures forall y :: z < y < z + 6 ==> s[y] != '.'
  {
    assert s[z..z + 4] == s[z..z + 6][..4];
    assert s[z + 4..z + 6] == s[z..z + 6][4..];
    forall y | z < y < z + 6
      ensures s[y] != '.'
    {
      assert s[y] == s[z..z + 6][y - z];
    }
  }

  /** A blank-free run from `x` up to `z + 6`, the end of the input, where
      `.png]]` stands at `z`: the run followed by an extension and `]]`
      takes everything. */
  lemma PngCloseTail(s: string, x: nat, z: nat)
    requires x < z && z + 6 == |s| && At(s, z, ".png]]") && NoBlankIn(s, x, |s|)
    ensures Match([Plus(NonBlank)] + ([ImageExt] + [Lit("]]")]), s, x) == Some(|s|)
  {
    var R := [Lit("]]")];
    var T := [ImageExt] + R;
    PngCloseAt(s, z);
    RunAll(s, x);
    MatchPlusRest(NonBlank, T, s, x);
    forall y | z < y <= |s|
      ensures Match(T, s, y).None?
    {
      ExtFails(R, s, y);
    }
    ExtPng(R, s, z);
    MatchLit("]]", [], s, z + 4);
    assert R == [Lit("]]")] + [];
    GreedyAt(T, s, x + 1, |s|, z);
  }

  /** The bold-image pattern, with its image URL unfolded to the two
      branches and the scheme. */
  lemma BoldImageParts()
    ensures BoldImage == [Lit("[[")] + ([Opt([ImageUrl])] + [Lit("]]")])
    ensures ImageUrl == Alt([Lit("https://gyazo"), Any, Lit("com/"), Plus(NonBlank)], UrlBody + [ImageExt])
    ensures (UrlBody + [ImageExt]) + [Lit("]]")] == Scheme + ([Plus(NonBlank)] + ([ImageExt] + [Lit("]]")]))
  {
  }

  /** The gyazo branch of the image URL needs `https`, so it fails at
      `http://`. */
  lemma GyazoMisses(r: Regex, s: string, i: nat)
    requires At(s, i, "http://")
    ensures Match([Lit("https://gyazo"), Any, Lit("com/"), Plus(NonBlank)] + r, s, i) == None
  {
    assert s[i..i + 7][4] == s[i + 4];
    LitMismatch(s, i, "https://gyazo", 4);
    LitFails([Lit("https://gyazo"), Any, Lit("com/"), Plus(NonBlank)] + r, s, i);
  }

  /** `[[http://`, then a tail that the rest of the image URL and `]]`
      take to `e`: the bold-image pattern takes the same. */
  lemma BoldImageHead(s: string, e: nat)
    requires |s| >= 9 && s[0] == '[' && s[1] == '[' && At(s, 2, "http://")
    requires Match([Plus(NonBlank)] + ([ImageExt] + [Lit("]]")]), s, 9) == Some(e)
    ensures Match(BoldImage, s, 0) == Some(e)
  {
    var R := [Lit("]]")];
    var a := [Lit("https://gyazo"), Any, Lit("com/"), Plus(NonBlank)];
    var b := UrlBody + [ImageExt];
    BoldImageParts();
    assert s[0..2] == [s[0], s[1]];
    MatchLit("[[", [Opt([ImageUrl])] + R, s, 0);
    MatchOpt([ImageUrl], R, s, 2);
    MatchAltRest(a, b, R, s, 2);
    GyazoMisses(R, s, 2);
    SchemeHttpAt([Plus(NonBlank)] + ([ImageExt] + R), s, 2);
  }

  /** The bold-image pattern takes the whole line: `[[`, then the image URL
      (not a gyazo address, which would need `https`), then `]]`. */
  lemma BoldImageMatch(s: string)
    requires |s| >= 16 && s[0] == '[' && s[1] == '[' && At(s, 2, "http://")
    requires At(s, |s| - 6, ".png]]") && NoBlankIn(s, 9, |s|)
    ensures Match(BoldImage, s, 0) == Some(|s|)
  {
    PngCloseTail(s, 9, |s| - 6);
    BoldImageHead(s, |s|);
  }

  /** Every alternative before the bold image fails on such a line: a link
      needs something other than `[` after its `[`, the icon needs
      `.icon]`, and image and url need an `h`. */
  lemma BoldEarlierFail(s: string, m: nat)
    requires BoldImageShape(s) && m < 13
    ensures Fails(s, 0, m)
  {
    if m < 4 {
      EarlyLinksFail(s, 0, m);
    } else if m == 9 {
      BoldNoIcon(s);
      IconFails(s, 0);
    } else if m < 11 {
      NestedBracketFails(s, 0, m);
    } else if m == 11 {
      ImageFails(s, 0);
    } else {
      LitRuleFails(s, 0, m);
    }
  }

  /** On such a line the bold image takes the whole line, ahead of the
      bold-text pattern that would match it too. */
  lemma BoldImageChoice(s: string)
    requires BoldImageShape(s)
    ensures Choose(s, 0, 0) == Some((13, |s|))
  {
    forall m | 0 <= m < 13
      ensures Fails(s, 0, m)
    {
      BoldEarlierFail(s, m);
    }
    AllFailOf(s, 0, 0, 13);
    ChooseAfter(s, 0, 0, 13);
    BoldImageMatch(s);
  }

  // ---------------------------------------------------------------------
  // A bracketed image URL, a blank and a URL: `[https://….png https://…]`

  /** The shape of the line: `[https://` not followed by `gyazo`, a
      blank-free run ending in `.png` at `p - 4`, a blank at `p`, then
      `https://`, at least one more character and a blank-free run up to
      the closing `]` that ends the line. */
  predicate ImageLinkShape(s: string, p: nat) {
    13 < p && p + 11 <= |s| && s[0] == '[' && At(s, 1, "https://") && s[9] != 'g'
    && NoBlankIn(s, 9, p) && At(s, p - 4, ".png") && s[p] == ' '
    && At(s, p + 1, "https://") && NoBlankIn(s, p + 1, |s|) && s[|s| - 1] == ']'
  }

  /** The first image-link pattern, with its image URL unfolded to the two
      branches and the scheme. */
  lemma ImageLinkParts()
    ensures ImageLink1 == [Lit("[")] + ([ImageUrl] + ([Plus(Blanks)] + (UrlBody + [Lit("]")])))
    ensures ImageUrl == Alt([Lit("https://gyazo"), Any, Lit("com/"), Plus(NonBlank)], UrlBody + [ImageExt])
    ensures forall r :: (UrlBody + [ImageExt]) + r == Scheme + ([Plus(NonBlank)] + ([ImageExt] + r))
    ensures UrlBody + [Lit("]")] == Scheme + ([Plus(NonBlank)] + [Lit("]")])
  {
  }

  /** `https://`, a blank-free run and a closing `]` at the end of the
      input: a URL followed by `]` takes everything. */
  lemma UrlCloseAt(s: string, q: nat)
    requires q + 10 <= |s| && At(s, q, "https://") && NoBlankIn(s, q, |s|) && s[|s| - 1] == ']'
    ensures Match(UrlBody + [Lit("]")], s, q) == Some(|s|)
  {
    ImageLinkParts();
    SchemeHttpsAt([Plus(NonBlank)] + [Lit("]")], s, q);
    RunAll(s, q + 8);
    MatchPlusRest(NonBlank, [Lit("]")], s, q + 8);
    LitFails([Lit("]")], s, |s|);
    assert s[|s| - 1..|s|] == [s[|s| - 1]];
    MatchLit("]", [], s, |s| - 1);
    assert [Lit("]")] == [Lit("]")] + [];
    GreedyAt([Lit("]")], s, q + 9, |s|, |s| - 1);
  }

  /** One blank, then such a URL and `]`: the rest of the first image-link
      pattern after its image URL takes everything. */
  lemma BlankUrlCloseAt(s: string, p: nat)
    requires p + 11 <= |s| && s[p] == ' ' && At(s, p + 1, "https://") && NoBlankIn(s, p + 1, |s|) && s[|s| - 1] == ']'
    ensures Match([Plus(Blanks)] + (UrlBody + [Lit("]")]), s, p) == Some(|s|)
  {
    assert s[p + 1] == s[p + 1..p + 9][0];
    assert RunEnd(s, p, Blanks) == p + 1;
    MatchPlusRest(Blanks, UrlBody + [Lit("]")], s, p);
    UrlCloseAt(s, p + 1);
    GreedyAt(UrlBody + [Lit("]")], s, p + 1, p + 1, p + 1);
  }

  /** A blank-free run from `x` that ends with `.png` at `z` and stops
      there: the run followed by an extension and `r` is `r` right after
      the extension. */
  lemma PngRunThen(r: Regex, s: string, x: nat, z: nat)
    requires x < z && z + 4 < |s| && NoBlankIn(s, x, z + 4) && !InClass(s[z + 4], NonBlank)
    requires At(s, z, ".png") && Match(r, s, z + 4).Some?
    ensures Match([Plus(NonBlank)] + ([ImageExt] + r), s, x) == Match(r, s, z + 4)
  {
    var T := [ImageExt] + r;
    assert RunEnd(s, x, NonBlank) == z + 4;
    MatchPlusRest(NonBlank, T, s, x);
    forall y | z < y <= z + 4
      ensures Match(T, s, y).None?
    {
      if y < z + 4 {
        assert s[y] == s[z..z + 4][y - z];
      }
      ExtFails(r, s, y);
    }
    ExtPng(r, s, z);
    GreedyAt(T, s, x + 1, z + 4, z);
  }

  /** `[https://` not followed by `gyazo`, then a tail that the rest of
      the image URL and of the pattern take to `e`: the first image-link
      pattern takes the same. */
  lemma ImageLinkHead(s: string, e: nat)
    requires |s| > 9 && s[0] == '[' && At(s, 1, "https://") && s[9] != 'g'
    requires Match([Plus(NonBlank)] + ([ImageExt] + ([Plus(Blanks)] + (UrlBody + [Lit("]")]))), s, 9) == Some(e)
    ensures Match(ImageLink1, s, 0) == Some(e)
  {
    var R1 := [Plus(Blanks)] + (UrlBody + [Lit("]")]);
    var a := [Lit("https://gyazo"), Any, Lit("com/"), Plus(NonBlank)];
    var b := UrlBody + [ImageExt];
    ImageLinkParts();
    OpenedBy(ImageLink1, s, 0);
    assert ImageLink1[1..] == [Alt(a, b)] + R1;
    MatchAltRest(a, b, R1, s, 1);
    LitMismatch(s, 1, "https://gyazo", 8);
    LitFails(a + R1, s, 1);
    SchemeHttpsAt([Plus(NonBlank)] + ([ImageExt] + R1), s, 1);
  }

  /** The first image-link pattern takes the whole line. */
  lemma ImageLinkMatch(s: string, p: nat)
    requires ImageLinkShape(s, p)
    ensures Match(ImageLink1, s, 0) == Some(|s|)
  {
    var R1 := [Plus(Blanks)] + (UrlBody + [Lit("]")]);
    BlankUrlCloseAt(s, p);
    PngRunThen(R1, s, 9, p - 4);
    ImageLinkHead(s, |s|);
  }

  /** A `[` at `i` followed by `https://`. */
  predicate LinkOpen(s: string, i: nat) {
    i < |s| && s[i] == '[' && At(s, i + 1, "https://")
  }

  /** Math, the styled links and the project link fail on `[https://`. */
  lemma OpenLinksFail(s: string, i: nat)
    requires LinkOpen(s, i)
    ensures AllFail(s, i, 0, 4)
  {
    AtFirst(s, i + 1, "https://");
    forall m | 0 <= m < 4
      ensures Fails(s, i, m)
    {
      EarlyLinksFail(s, i, m);
    }
    AllFailOf(s, i, 0, 4);
  }

  /** At `[https://`, math, the styled links and the project link fail,
      so wherever the first image-link pattern matches it is the choice. */
  lemma ImageLinkFirst(s: string, i: nat, e: nat)
    requires LinkOpen(s, i)
    requires Match(ImageLink1, s, i) == Some(e)
    ensures Choose(s, i, 0) == Some((4, e))
  {
    OpenLinksFail(s, i);
    ChooseHit(s, i, 4, e);
  }

  /** On such a line the first image-link pattern, a link, takes the whole
      line, though the image and url patterns would match its inside. */
  lemma ImageLinkChoice(s: string, p: nat)
    requires ImageLinkShape(s, p)
    ensures Choose(s, 0, 0) == Some((4, |s|))
  {
    ImageLinkOpens(s, p);
    ImageLinkFirst(s, 0, |s|);
  }

  /** What the choice needs of an image-link line: its opening and the match
      of the first image-link pattern over all of it. */
  lemma ImageLinkOpens(s: string, p: nat)
    requires ImageLinkShape(s, p)
    ensures LinkOpen(s, 0)
    ensures Match(ImageLink1, s, 0) == Some(|s|)
  {
    ImageLinkMatch(s, p);
  }

  /** Every alternative before `k` fails and `k` matches: the choice is
      `k`. */
  lemma ChooseHit(s: string, i: nat, k: nat, e: nat)
    requires i <= |s| && k < RuleCount && AllFail(s, i, 0, k) && Match(PatternAt(k), s, i) == Some(e)
    ensures Choose(s, i, 0) == Some((k, e))
  {
    ChooseAfter(s, i, 0, k);
  }

  /** A line that opens with `[` is unindented and has no block marker. */
  lemma BracketNoMarker(line: string)
    requires line != [] && line[0] == '['
    ensures LeadingBlanks(line) == 0
    ensures !At(line, 0, ">") && !At(line, 0, "code:") && !At(line, 0, "table:")
  {
  }

  /** The tokens of a line the choice takes whole as alternative `k`: one
      token of kind `KindAt(k)`, the whole line. */
  lemma WholeToken(s: string, i: nat, k: nat)
    requires i <= |s| && Choose(s, i, 0) == Some((k, |s|))
    ensures k < RuleCount && TokensAt(s, i).0 == [Terminal(KindAt(k), s[i..])]
  {
    TokensStepAt(s, i, k, |s|);
    ChooseAtLineEnd(s, |s|);
    assert TokensAt(s, |s|).0 == [];
    assert s[i..|s|] == s[i..];
  }

  /** A line that opens with `[` and whose tokens are one token of kind
      `kind`, the whole line: a simple text with indent 0 holding just that
      token. */
  lemma BracketLine(line: string, kind: string)
    requires line != [] && line[0] == '[' && TokensAt(line, 0).0 == [Terminal(kind, line)]
    ensures LineAt(line, 0).0.name == "simple_text"
    ensures LineAt(line, 0).0.children == [Terminal(kind, line)]
    ensures LineAt(line, 0).0.attributes == map["indent" := ["0"]]
  {
    BracketNoMarker(line);
    SimpleBody(line);
  }

  /** A doubly bracketed `http` image URL ending in `.png` is one `bold`
      token, the whole line. */
  lemma BoldImageLine(line: string)
    requires BoldImageShape(line)
    ensures LineAt(line, 0).0.name == "simple_text"
    ensures LineAt(line, 0).0.children == [Terminal("bold", line)]
    ensures LineAt(line, 0).0.attributes == map["indent" := ["0"]]
  {
    BoldImageChoice(line);
    WholeToken(line, 0, 13);
    assert line[0..] == line;
    BracketLine(line, "bold");
  }

  /** The bold example: `[[http://avatars1.githubusercontent.com/u/1678258#.png]]`
      is one `bold` token, the whole line, though the bold-text pattern
      would also match it. */
  lemma BoldImageSample()
    ensures LineAt("[[http://avatars1.githubusercontent.com/u/1678258#.png]]", 0).0.children
      == [Terminal("bold", "[[http://avatars1.githubusercontent.com/u/1678258#.png]]")]
  {
    BoldSampleShape();
    BoldImageLine("[[http://avatars1.githubusercontent.com/u/1678258#.png]]");
  }

  lemma BoldSampleShape()
    ensures BoldImageShape("[[http://avatars1.githubusercontent.com/u/1678258#.png]]")
  {
    var a, b, c := "[[http://avatars1.", "githubusercontent.com/u/", "1678258#.png]]";
    BoldSampleSplit();
    BoldSamplePieces();
    BoldPieces(a, b, c);
  }

  /** The bold example, cut into three pieces. */
  lemma BoldSampleSplit()
    ensures "[[http://avatars1.githubusercontent.com/u/1678258#.png]]"
      == "[[http://avatars1." + "githubusercontent.com/u/" + "1678258#.png]]"
  {
  }

  lemma BoldSamplePieces()
    ensures BoldFirstPiece("[[http://avatars1.") && Plain("githubusercontent.com/u/")
    ensures BoldLastPiece("1678258#.png]]")
  {
    BoldFirstSample();
    var c := "1678258#.png]]";
    assert c[|c| - 6..] == ".png]]" by {
      forall k | 0 <= k < 6
        ensures c[|c| - 6..][k] == ".png]]"[k]
      {
      }
    }
    assert c[..|c| - 2] == "1678258#.png";
  }

  lemma BoldFirstSample()
    ensures BoldFirstPiece("[[http://avatars1.")
  {
    var a := "[[http://avatars1.";
    assert a[2..9] == "http://" by {
      forall k | 0 <= k < 7
        ensures a[2..9][k] == "http://"[k]
      {
      }
    }
  }

  /** Neither a blank nor a `]`. */
  predicate Plain(v: string) {
    forall j :: 0 <= j < |v| ==> InClass(v[j], NonBlank) && v[j] != ']'
  }

  /** `[[http://` and more, with no blank and no `]`. */
  predicate BoldFirstPiece(a: string) {
    |a| >= 9 && a[0] == '[' && a[1] == '[' && a[2..9] == "http://" && Plain(a)
  }

  /** Ends in `.png]]`, with no blank and no other `]`. */
  predicate BoldLastPiece(c: string) {
    |c| >= 6 && c[|c| - 6..] == ".png]]" && Plain(c[..|c| - 2]) && InClass(']', NonBlank)
  }

  lemma BoldPieces(a: string, b: string, c: string)
    requires BoldFirstPiece(a) && Plain(b) && BoldLastPiece(c) && |a + b + c| >= 16
    ensures BoldImageShape(a + b + c)
  {
    var s := a + b + c;
    assert s[2..9] == a[2..9];
    assert s[|s| - 6..|s|] == c[|c| - 6..];
    forall j | 0 <= j < |s|
      ensures InClass(s[j], NonBlank) && (j < |s| - 2 ==> s[j] != ']')
    {
      if j < |a| {
        assert s[j] == a[j];
      } else if j < |a| + |b| {
        assert s[j] == b[j - |a|];
      } else if j < |s| - 2 {
        assert s[j] == c[..|c| - 2][j - |a| - |b|];
      } else {
        assert s[j] == c[j - |a| - |b|];
        assert s[j] == ']' by {
          assert c[|c| - 6..][j - |a| - |b| - (|c| - 6)] == c[j - |a| - |b|];
        }
      }
    }
  }

  /** A bracketed URL ending in `.png`, a blank, a URL and `]`, the
      first URL neither a gyazo address nor followed by more than one
      blank, is one `link` token, the whole line. */
  lemma ImageLinkLine(line: string, p: nat)
    requires ImageLinkShape(line, p)
    ensures LineAt(line, 0).0.name == "simple_text"
    ensures LineAt(line, 0).0.children == [Terminal("link", line)]
    ensures LineAt(line, 0).0.attributes == map["indent" := ["0"]]
  {
    ImageLinkChoice(line, p);
    WholeToken(line, 0, 4);
    assert line[0..] == line;
    BracketLine(line, "link");
  }

  /** The image-link example: `[https://….png https://…]` is one `link`
      token, the whole line, though the image and url patterns would
      match the two URLs inside it. */
  lemma ImageLinkSample()
    ensures LineAt("[https://avatars1.githubusercontent.com/u/1678258#.png" + " https://avatars1.githubusercontent.com/u/1678258]", 0).0.children
      == [Terminal("link", "[https://avatars1.githubusercontent.com/u/1678258#.png" + " https://avatars1.githubusercontent.com/u/1678258]")]
  {
    var x := "[https://avatars1.githubusercontent.com/u/1678258#.png";
    var y := " https://avatars1.githubusercontent.com/u/1678258]";
    LinkSampleHalves();
    LinkHalves(x, y);
    ImageLinkLine(x + y, |x|);
  }

  /** The first URL of the line with its bracket: `[https://`, not `g`,
      no blank, ending in `.png`. */
  predicate LinkFirstHalf(x: string) {
    |x| >= 14 && x[0] == '[' && x[1..9] == "https://" && x[9] != 'g' && NoBlank(x) && x[|x| - 4..] == ".png"
  }

  /** The rest: a blank, `https://`, no other blank, closing `]`. */
  predicate LinkSecondHalf(y: string) {
    |y| >= 11 && y[0] == ' ' && y[1..9] == "https://" && NoBlank(y[1..]) && y[|y| - 1] == ']'
  }

  lemma LinkHalves(x: string, y: string)
    requires LinkFirstHalf(x) && LinkSecondHalf(y)
    ensures ImageLinkShape(x + y, |x|)
  {
    var s := x + y;
    var p := |x|;
    assert s[1..9] == x[1..9];
    assert s[p - 4..p] == x[|x| - 4..];
    assert s[p + 1..p + 9] == y[1..9];
    forall j | 9 <= j < p
      ensures InClass(s[j], NonBlank)
    {
      assert s[j] == x[j];
    }
    forall j | p + 1 <= j < |s|
      ensures InClass(s[j], NonBlank)
    {
      assert s[j] == y[1..][j - p - 1];
    }
  }

  lemma LinkSampleHalves()
    ensures LinkFirstHalf("[https://avatars1.githubusercontent.com/u/1678258#.png")
    ensures LinkSecondHalf(" https://avatars1.githubusercontent.com/u/1678258]")
  {
    LinkFirstSample();
    LinkSecondSample();
  }

  lemma LinkFirstSample()
    ensures LinkFirstHalf("[https://avatars1.githubusercontent.com/u/1678258#.png")
  {
    LinkFirstSplit();
    LinkFirstPieces();
    FirstHalfOf("[https://avatars1.", "githubusercontent.com/u/", "1678258#.png");
  }

  lemma LinkSecondSample()
    ensures LinkSecondHalf(" https://avatars1.githubusercontent.com/u/1678258]")
  {
    LinkSecondSplit();
    LinkSecondPieces();
    SecondHalfOf(" https://avatars1.", "githubusercontent.com/u/", "1678258]");
  }

  lemma LinkFirstSplit()
    ensures "[https://avatars1.githubusercontent.com/u/1678258#.png"
      == "[https://avatars1." + "githubusercontent.com/u/" + "1678258#.png"
  {
  }

  lemma LinkSecondSplit()
    ensures " https://avatars1.githubusercontent.com/u/1678258]"
      == " https://avatars1." + "githubusercontent.com/u/" + "1678258]"
  {
  }

  lemma LinkFirstPieces()
    ensures "[https://avatars1."[1..9] == "https://" && NoBlank("[https://avatars1.")
    ensures NoBlank("githubusercontent.com/u/")
    ensures "1678258#.png"[8..] == ".png" && NoBlank("1678258#.png")
  {
    var a := "[https://avatars1.";
    assert a[1..9] == "https://" by {
      forall k | 0 <= k < 8
        ensures a[1..9][k] == "https://"[k]
      {
      }
    }
    var c := "1678258#.png";
    assert c[8..] == ".png" by {
      forall k | 0 <= k < 4
        ensures c[8..][k] == ".png"[k]
      {
      }
    }
  }

  lemma LinkSecondPieces()
    ensures " https://avatars1."[1..9] == "https://" && NoBlank(" https://avatars1."[1..])
    ensures NoBlank("githubusercontent.com/u/") && NoBlank("1678258]")
  {
    var d := " https://avatars1.";
    assert d[1..9] == "https://" by {
      forall k | 0 <= k < 8
        ensures d[1..9][k] == "https://"[k]
      {
      }
    }
    forall k | 0 <= k < |d| - 1
      ensures InClass(d[1..][k], NonBlank)
    {
      assert d[1..][k] == d[k + 1];
    }
  }

  lemma FirstHalfOf(a: string, b: string, c: string)
    requires |a| >= 10 && a[0] == '[' && a[1..9] == "https://" && a[9] != 'g' && NoBlank(a) && NoBlank(b)
    requires |c| >= 4 && c[|c| - 4..] == ".png" && NoBlank(c)
    ensures LinkFirstHalf(a + b + c)
  {
    JoinNoBlank(a, b, c);
    assert (a + b + c)[1..9] == a[1..9];
    assert (a + b + c)[|a + b + c| - 4..] == c[|c| - 4..];
  }

  lemma SecondHalfOf(d: string, e: string, f: string)
    requires |d| >= 10 && d[0] == ' ' && d[1..9] == "https://" && NoBlank(d[1..]) && NoBlank(e)
    requires f != [] && f[|f| - 1] == ']' && NoBlank(f)
    ensures LinkSecondHalf(d + e + f)
  {
    JoinNoBlank(d[1..], e, f);
    assert (d + e + f)[1..] == d[1..] + e + f;
    assert (d + e + f)[1..9] == d[1..9];
  }

  lemma JoinNoBlank(a: string, b: string, c: string)
    requires NoBlank(a) && NoBlank(b) && NoBlank(c)
    ensures NoBlank(a + b + c)
  {
    forall j | 0 <= j < |a + b + c|
      ensures InClass((a + b + c)[j], NonBlank)
    {
      if j < |a| {
        assert (a + b + c)[j] == a[j];
      } else if j < |a| + |b| {
        assert (a + b + c)[j] == b[j - |a|];
      } else {
        assert (a + b + c)[j] == c[j - |a| - |b|];
      }
    }
  }
}
