/** The token patterns of the Scrapbox line grammar and the ordered choice
    among them (client/syntax/parser.go). */
module Grammar {

  import opened Wrappers
  import opened Text
  import opened Regexp

  /** `https?://` */
  const Scheme: Regex := [Lit("http"), Opt([Lit("s")]), Lit("://")]

  /** `https?://[^ \t\n]+` */
  const UrlBody: Regex := Scheme + [Plus(NonBlank)]

  /** `(\.png|\.gif|\.jpg|\.jpeg)` */
  const ImageExt: Elem := Alt([Lit(".png")], [Alt([Lit(".gif")], [Alt([Lit(".jpg")], [Lit(".jpeg")])])])

  /** `(https://gyazo.com/[^ \t\n]+|https?://[^ \t\n]+(\.png|\.gif|\.jpg|\.jpeg))`;
      the dot of `gyazo.com` is unescaped and matches any character but '\n'. */
  const ImageUrl: Elem :=
    Alt([Lit("https://gyazo"), Any, Lit("com/"), Plus(NonBlank)], UrlBody + [ImageExt])

  const Math: Regex := [Lit("[$"), Plus(Blanks), LazyStar(NonNewline), Lit("]")]
  const StyledUrl: Regex := [Lit("["), Plus(StyleMark), Plus(Blanks)] + Scheme + [LazyStar(NonBlank), Lit("]")]
  const StyledText: Regex := [Lit("["), Plus(StyleMark), Plus(Blanks), LazyStar(NonNewline), Lit("]")]
  const ProjectLink: Regex := [Lit("["), Lit("/"), Plus(SegmentChar), Star("/", [Plus(SegmentChar)]), Lit("]")]
  const ImageLink1: Regex := [Lit("["), ImageUrl, Plus(Blanks)] + UrlBody + [Lit("]")]
  const ImageLink2: Regex := [Lit("[")] + UrlBody + [Plus(Blanks), ImageUrl, Lit("]")]
  const LabeledLink1: Regex := [Lit("["), Plus(NonOpen), Plus(Blanks)] + UrlBody + [Lit("]")]
  const LabeledLink2: Regex := [Lit("[")] + UrlBody + [Plus(Blanks), Plus(NonOpen), Lit("]")]
  const ExternalLink: Regex := [Lit("[")] + Scheme + [Plus(UrlTail), Lit("]")]
  const Icon: Regex := [Lit("["), Plus(NonNewline), Lit(".icon]")]
  const InternalLink: Regex := [Lit("["), LazyStar(NonOpen), Lit("]")]
  const Image: Regex := [ImageUrl]
  const Url: Regex := UrlBody
  const BoldImage: Regex := [Lit("[["), Opt([ImageUrl]), Lit("]]")]
  const BoldText: Regex := [Lit("[["), LazyStar(NonNewline), Lit("]]")]
  const Tag: Regex := [Lit("#"), Alt([Lit("["), Plus(NonOpen), Lit("]")], [Plus(NonBlank)])]
  const PlainText: Regex := [Plus(NonNewline)]

  /** The number of alternatives of the `token` ordered choice. */
  const RuleCount: nat := 17

  /** The pattern of alternative `k` of the `token` ordered choice. */
  function PatternAt(k: nat): Regex
    requires k < RuleCount
  {
    if k == 0 then Math
    else if k == 1 then StyledUrl
    else if k == 2 then StyledText
    else if k == 3 then ProjectLink
    else if k == 4 then ImageLink1
    else if k == 5 then ImageLink2
    else if k == 6 then LabeledLink1
    else if k == 7 then LabeledLink2
    else if k == 8 then ExternalLink
    else if k == 9 then Icon
    else if k == 10 then InternalLink
    else if k == 11 then Image
    else if k == 12 then Url
    else if k == 13 then BoldImage
    else if k == 14 then BoldText
    else if k == 15 then Tag
    else PlainText
  }

  /** The name the terminals of alternative `k` carry: eleven kinds of
      link, then image, url, two kinds of bold, tag and text. */
  function KindAt(k: nat): string
    requires k < RuleCount
  {
    if k < 11 then "link"
    else if k == 11 then "image"
    else if k == 12 then "url"
    else if k < 15 then "bold"
    else if k == 15 then "tag"
    else "text"
  }

  /** The names a token can carry. */
  predicate IsTokenKind(kind: string) {
    kind == "link" || kind == "image" || kind == "url" || kind == "bold" || kind == "tag" || kind == "text"
  }

  lemma RulesWellFormed()
    ensures RuleCount == 17 && PatternAt(16) == PlainText && KindAt(16) == "text"
    ensures forall j :: 0 <= j < RuleCount ==> Consumes(PatternAt(j))
    ensures forall j :: 0 <= j < RuleCount ==> SingleLine(PatternAt(j))
    ensures forall j :: 0 <= j < RuleCount ==> IsTokenKind(KindAt(j))
  {
    RulesConsume();
    RulesSingleLine();
  }

  /** The last rule is plain text. */
  lemma PlainTextLast()
    ensures PatternAt(RuleCount - 1) == PlainText && KindAt(RuleCount - 1) == "text"
  {
  }

  /** Pattern `k` reads within one line. */
  lemma RuleSingleLine(k: nat)
    requires k < RuleCount
    ensures SingleLine(PatternAt(k))
  {
    RulesSingleLine();
  }

  lemma RulesConsume()
    ensures forall j :: 0 <= j < RuleCount ==> Consumes(PatternAt(j))
  {
    assert UrlBody[0] == Lit("http");
    var b := UrlBody + [ImageExt];
    assert b[0] == Lit("http");
    assert ElemConsumes(b[0]);
    assert ElemConsumes(ImageUrl);
    assert StyledUrl[0] == Lit("[");
    assert ImageLink1[0] == Lit("[");
    assert ImageLink2[0] == Lit("[");
    assert LabeledLink1[0] == Lit("[");
    assert LabeledLink2[0] == Lit("[");
    assert ExternalLink[0] == Lit("[");
  }

  lemma SingleLineConcat(a: Regex, b: Regex)
    requires SingleLine(a) && SingleLine(b)
    ensures SingleLine(a + b)
  {
  }

  lemma SchemeSingleLine()
    ensures SingleLine(Scheme) && SingleLine(UrlBody)
  {
    SingleLineConcat(Scheme, [Plus(NonBlank)]);
  }

  lemma ImageExtSingleLine()
    ensures ElemSingleLine(ImageExt)
  {
    var jpg := Alt([Lit(".jpg")], [Lit(".jpeg")]);
    assert ElemSingleLine(Lit(".jpg")) && ElemSingleLine(Lit(".jpeg"));
    assert ElemSingleLine(jpg);
    var gif := Alt([Lit(".gif")], [jpg]);
    assert ElemSingleLine(Lit(".gif"));
    assert ElemSingleLine(gif);
    assert ElemSingleLine(Lit(".png"));
  }

  lemma ImageUrlSingleLine()
    ensures ElemSingleLine(ImageUrl)
  {
    SchemeSingleLine();
    ImageExtSingleLine();
    SingleLineConcat(UrlBody, [ImageExt]);
  }

  lemma StyledSingleLine()
    ensures SingleLine(Math) && SingleLine(StyledUrl) && SingleLine(StyledText)
  {
    SchemeSingleLine();
    SingleLineConcat([Lit("["), Plus(StyleMark), Plus(Blanks)], Scheme);
    SingleLineConcat([Lit("["), Plus(StyleMark), Plus(Blanks)] + Scheme, [LazyStar(NonBlank), Lit("]")]);
  }

  lemma ImageLinksSingleLine()
    ensures SingleLine(ImageLink1) && SingleLine(ImageLink2)
  {
    SchemeSingleLine();
    ImageUrlSingleLine();
    SingleLineConcat([Lit("["), ImageUrl, Plus(Blanks)], UrlBody);
    SingleLineConcat([Lit("["), ImageUrl, Plus(Blanks)] + UrlBody, [Lit("]")]);
    SingleLineConcat([Lit("[")], UrlBody);
    SingleLineConcat([Lit("[")] + UrlBody, [Plus(Blanks), ImageUrl, Lit("]")]);
  }

  lemma LabeledLinksSingleLine()
    ensures SingleLine(LabeledLink1) && SingleLine(LabeledLink2)
  {
    SchemeSingleLine();
    SingleLineConcat([Lit("["), Plus(NonOpen), Plus(Blanks)], UrlBody);
    SingleLineConcat([Lit("["), Plus(NonOpen), Plus(Blanks)] + UrlBody, [Lit("]")]);
    SingleLineConcat([Lit("[")], UrlBody);
    SingleLineConcat([Lit("[")] + UrlBody, [Plus(Blanks), Plus(NonOpen), Lit("]")]);
  }

  lemma BracketLinksSingleLine()
    ensures SingleLine(ProjectLink) && SingleLine(ExternalLink) && SingleLine(Icon) && SingleLine(InternalLink)
  {
    SchemeSingleLine();
    SingleLineConcat([Lit("[")], Scheme);
    SingleLineConcat([Lit("[")] + Scheme, [Plus(UrlTail), Lit("]")]);
  }

  lemma OthersSingleLine()
    ensures SingleLine(Image) && SingleLine(Url) && SingleLine(BoldImage) && SingleLine(BoldText)
    ensures SingleLine(PlainText)
  {
    SchemeSingleLine();
    ImageUrlSingleLine();
  }

  lemma TagSingleLine()
    ensures SingleLine(Tag)
  {
    var bracketed: Regex := [Lit("["), Plus(NonOpen), Lit("]")];
    assert ElemSingleLine(Lit("[")) && ElemSingleLine(Lit("]"));
    assert SingleLine(bracketed);
    assert ElemSingleLine(Lit("#"));
  }

  lemma RulesSingleLine()
    ensures forall j :: 0 <= j < RuleCount ==> SingleLine(PatternAt(j))
  {
    StyledSingleLine();
    ImageLinksSingleLine();
    LabeledLinksSingleLine();
    BracketLinksSingleLine();
    OthersSingleLine();
    TagSingleLine();
  }

  /** The `token` ordered choice at position `i`, trying alternatives from
      index `k` on: the first rule whose pattern matches, and where its
      match ends. */
  function Choose(s: string, i: nat, k: nat): (c: Option<(nat, nat)>)
    requires i <= |s| && k <= RuleCount
    ensures c.Some? ==> k <= c.value.0 < RuleCount && i < c.value.1 <= |s|
    decreases RuleCount - k
  {
    if k == RuleCount then None
    else
      var m := Match(PatternAt(k), s, i);
      if m.Some? then
        RulesWellFormed();
        MatchConsumes(PatternAt(k), s, i);
        Some((k, m.value))
      else Choose(s, i, k + 1)
  }

  /** The alternative `Choose` picks matches, and ends where its match
      ends. */
  lemma {:induction false} ChooseMatch(s: string, i: nat, k: nat, j: nat, e: nat)
    requires i <= |s| && k <= RuleCount && j < RuleCount && Choose(s, i, k) == Some((j, e))
    ensures Match(PatternAt(j), s, i) == Some(e)
    decreases RuleCount - k
  {
    var m := Match(PatternAt(k), s, i);
    if m.None? {
      assert Choose(s, i, k) == Choose(s, i, k + 1);
      ChooseMatch(s, i, k + 1, j, e);
    }
  }

  /** Alternative `k` does not match at `i`. */
  predicate Fails(s: string, i: nat, k: nat)
    requires i <= |s| && k < RuleCount
  {
    Match(PatternAt(k), s, i).None?
  }

  /** Every alternative from `k` up to, not including, `j` fails at `i`. */
  predicate AllFail(s: string, i: nat, k: nat, j: nat)
    requires i <= |s| && k <= j <= RuleCount
    decreases j - k
  {
    k == j || (Fails(s, i, k) && AllFail(s, i, k + 1, j))
  }

  /** `Choose` is an ordered choice: every alternative before the one it
      picks fails, and it fails only when every alternative does. */
  lemma {:induction false} ChooseFirst(s: string, i: nat, k: nat)
    requires i <= |s| && k <= RuleCount
    ensures Choose(s, i, k).Some? ==> AllFail(s, i, k, Choose(s, i, k).value.0)
    ensures Choose(s, i, k).None? <==> AllFail(s, i, k, RuleCount)
    decreases RuleCount - k
  {
    if k < RuleCount {
      if Fails(s, i, k) {
        ChooseFirst(s, i, k + 1);
        assert Choose(s, i, k) == Choose(s, i, k + 1);
      } else {
        assert Choose(s, i, k).value.0 == k;
      }
    }
  }

  /** When the alternatives from `k` to `j` fail, the choice from `k` is the
      choice from `j`. */
  lemma {:induction false} ChooseAfter(s: string, i: nat, k: nat, j: nat)
    requires i <= |s| && k <= j <= RuleCount && AllFail(s, i, k, j)
    ensures Choose(s, i, k) == Choose(s, i, j)
    decreases j - k
  {
    if k < j {
      ChooseAfter(s, i, k + 1, j);
      assert Choose(s, i, k) == Choose(s, i, k + 1);
    }
  }

  lemma {:induction false} AllFailLast(s: string, i: nat, k: nat)
    requires i <= |s| && k < RuleCount && AllFail(s, i, k, RuleCount)
    ensures Fails(s, i, RuleCount - 1)
    decreases RuleCount - k
  {
    if k < RuleCount - 1 {
      AllFailLast(s, i, k + 1);
    }
  }

  /** The `text` alternative matches as far as the end of the line. */
  lemma PlainTextMatch(s: string, i: nat)
    requires i <= |s|
    ensures i < |s| && s[i] != '\n' ==> Match(PlainText, s, i) == Some(LineEnd(s, i))
    ensures i == |s| || s[i] == '\n' ==> Match(PlainText, s, i).None?
  {
    if i < |s| && s[i] != '\n' {
      var e := RunEnd(s, i, NonNewline);
      RunEndIsLineEnd(s, i);
      assert PlainText[1..] == [];
      assert Match([], s, e) == Some(e);
      assert Greedy([], s, i + 1, e) == Some(e);
    }
  }

  lemma {:induction false} RunEndIsLineEnd(s: string, i: nat)
    requires i <= |s|
    ensures RunEnd(s, i, NonNewline) == LineEnd(s, i)
    decreases |s| - i
  {
    if i < |s| && s[i] != '\n' {
      RunEndIsLineEnd(s, i + 1);
    }
  }

  /** The ordered choice fails exactly at the end of a line, and a chosen
      token never reaches past it. */
  lemma ChooseAtLineEnd(s: string, i: nat)
    requires i <= |s|
    ensures Choose(s, i, 0).None? <==> (i == |s| || s[i] == '\n')
    ensures Choose(s, i, 0).Some? ==> Choose(s, i, 0).value.1 <= LineEnd(s, i)
  {
    RulesWellFormed();
    PlainTextMatch(s, i);
    var c := Choose(s, i, 0);
    if c.Some? {
      ChooseMatch(s, i, 0, c.value.0, c.value.1);
      MatchWithinLine(PatternAt(c.value.0), s, i);
    } else {
      ChooseFirst(s, i, 0);
      AllFailLast(s, i, 0);
    }
  }

  function ShiftChoice(c: Option<(nat, nat)>, d: nat): Option<(nat, nat)> {
    if c.Some? then Some((c.value.0, c.value.1 + d)) else None
  }

  /** The ordered choice at `x` depends only on the line `x` lies on:
      `l` is the text of that line, and `y` the same position in it. */
  lemma {:induction false} ChooseView(s: string, l: string, i0: nat, n: nat, x: nat, y: nat, k: nat)
    requires View(s, i0, n) && l == s[i0..n] && y <= |l| && x == y + i0 && k <= RuleCount
    ensures Choose(s, x, k) == ShiftChoice(Choose(l, y, k), i0)
    decreases RuleCount - k
  {
    if k < RuleCount {
      RuleView(s, l, i0, n, x, y, k);
      if Match(PatternAt(k), l, y).None? {
        ChooseView(s, l, i0, n, x, y, k + 1);
        ChooseShiftMiss(s, l, i0, x, y, k);
      } else {
        ChooseShiftHit(s, l, i0, x, y, k);
      }
    }
  }

  /** Alternative `k` matches the same at `x` as at `y` in the line. */
  lemma RuleView(s: string, l: string, i0: nat, n: nat, x: nat, y: nat, k: nat)
    requires View(s, i0, n) && l == s[i0..n] && y <= |l| && x == y + i0 && k < RuleCount
    ensures Match(PatternAt(k), s, x) == Shift(Match(PatternAt(k), l, y), i0)
  {
    var p := PatternAt(k);
    RuleSingleLine(k);
    assert x - i0 == y;
    MatchView(p, s, i0, n, x);
  }

  /** An alternative that matches on the line matches, shifted, in the
      whole text. */
  lemma ChooseShiftHit(s: string, l: string, i0: nat, x: nat, y: nat, k: nat)
    requires x <= |s| && y <= |l| && x == y + i0 && k < RuleCount
    requires Match(PatternAt(k), s, x) == Shift(Match(PatternAt(k), l, y), i0)
    requires Match(PatternAt(k), l, y).Some?
    ensures Choose(s, x, k) == ShiftChoice(Choose(l, y, k), i0)
  {
  }

  /** An alternative that fails on the line fails in the whole text, and
      the choice moves on to the next one in both. */
  lemma ChooseShiftMiss(s: string, l: string, i0: nat, x: nat, y: nat, k: nat)
    requires x <= |s| && y <= |l| && x == y + i0 && k < RuleCount
    requires Match(PatternAt(k), s, x) == Shift(Match(PatternAt(k), l, y), i0)
    requires Match(PatternAt(k), l, y).None?
    requires Choose(s, x, k + 1) == ShiftChoice(Choose(l, y, k + 1), i0)
    ensures Choose(s, x, k) == ShiftChoice(Choose(l, y, k), i0)
  {
  }

}
