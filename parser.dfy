/** The Scrapbox document grammar of client/syntax/parser.go.  A document is
    a run of lines separated by '\n'; a line is an optional indentation, an
    optional block marker (`>`, `code:`, `table:`) and a run of inline
    tokens, and the line callback turns the three into one node. */
module Parser {

  import opened Wrappers
  import opened Text
  import opened Regexp
  import opened Grammar
  import opened Ast

  /** `ws`: `[ \t]+` */
  const Ws: Regex := [Plus(Blanks)]

  /** The node `Maybe` yields when its parser does not match. */
  const Missing: Node := Terminal("missing", "")

  /** `indent`: the blank run at `i`, or the missing node. */
  function IndentAt(s: string, i: nat): (r: (Node, nat))
    requires i <= |s|
    ensures i <= r.1 <= |s|
  {
    var m := Match(Ws, s, i);
    if m.Some? then (Terminal("ws", s[i..m.value]), m.value) else (Missing, i)
  }

  /** `head`: the first block marker that matches at `i`, or the missing node. */
  function HeadAt(s: string, i: nat): (r: (Node, nat))
    requires i <= |s|
    ensures i <= r.1 <= |s|
  {
    if At(s, i, ">") then (Terminal("quoted", ">"), i + 1)
    else if At(s, i, "code:") then (Terminal("code", "code:"), i + 5)
    else if At(s, i, "table:") then (Terminal("table", "table:"), i + 6)
    else (Missing, i)
  }

  /** `rest`: the tokens the Kleene loop reads from `i`, and where it stops. */
  function TokensAt(s: string, i: nat): (r: (seq<Node>, nat))
    requires i <= |s|
    ensures i <= r.1 <= |s|
    decreases |s| - i
  {
    match Choose(s, i, 0)
    case None => ([], i)
    case Some(c) =>
      var r := TokensAt(s, c.1);
      ([Terminal(KindAt(c.0), s[i..c.1])] + r.0, r.1)
  }

  /** The name the callback gives a line with the given head node name. */
  function BlockName(head: string): string {
    if head == "quoted" then "quoted_text"
    else if head == "code" then "code_block"
    else if head == "table" then "table_block"
    else "simple_text"
  }

  /** The line callback: children[0] is the indentation, children[1] the
      head, children[2] the token run. */
  function Callback(indent: Node, head: Node, rest: Node): Node {
    var attributes: Attributes :=
      if indent.name == "ws" then map["indent" := [Decimal(|Value(indent)|)]]
      else if indent.name == "missing" then map["indent" := [Decimal(0)]]
      else map[];
    NonTerminal(BlockName(head.name), Children(rest), attributes)
  }

  /** `line` at `i`: the node the callback builds, and where the line's
      tokens end. */
  function LineAt(s: string, i: nat): (r: (Node, nat))
    requires i <= |s|
    ensures i <= r.1 <= |s|
  {
    var (ind, j) := IndentAt(s, i);
    var (hd, h) := HeadAt(s, j);
    var (ts, e) := TokensAt(s, h);
    (Callback(ind, hd, NonTerminal("rest", ts, map[])), e)
  }

  /** `root` from `pos`: stop at the end of the input, otherwise read a line
      and go on after the '\n' that ends it. */
  function Lines(s: string, pos: nat): seq<Node>
    requires pos <= |s|
    decreases |s| - pos
  {
    if pos == |s| then []
    else
      var line := LineAt(s, pos);
      [line.0] + (if At(s, line.1, "\n") then Lines(s, line.1 + 1) else [])
  }

  /** The Kleene loop over the `token` choice, reading from `i`. */
  method TokenizeRest(s: string, i: nat) returns (tokens: seq<Node>, end: nat)
    requires i <= |s|
    ensures (tokens, end) == TokensAt(s, i)
    ensures end == LineEnd(s, i) && Values(tokens) == s[i..end]
  {
    tokens := [];
    var pos := i;
    assert tokens + TokensAt(s, pos).0 == TokensAt(s, pos).0;
    while true
      invariant i <= pos <= |s|
      invariant TokensAt(s, i) == (tokens + TokensAt(s, pos).0, TokensAt(s, pos).1)
      decreases |s| - pos
    {
      var c := Choose(s, pos, 0);
      if c.None? {
        break;
      }
      var token := Terminal(KindAt(c.value.0), s[pos..c.value.1]);
      assert TokensAt(s, pos).0 == [token] + TokensAt(s, c.value.1).0;
      assert tokens + ([token] + TokensAt(s, c.value.1).0) == (tokens + [token]) + TokensAt(s, c.value.1).0;
      tokens := tokens + [token];
      pos := c.value.1;
    }
    assert tokens + [] == tokens;
    end := pos;
    TokensEnd(s, i);
    TokensSpell(s, i);
  }

  /** The `line` parser at `i`: indentation, head and token run, then the
      callback. */
  method ParseLine(s: string, i: nat) returns (line: Node, end: nat)
    requires i <= |s|
    ensures (line, end) == LineAt(s, i)
    ensures end == LineEnd(s, i)
  {
    var (indent, j) := IndentAt(s, i);
    var (head, h) := HeadAt(s, j);
    var tokens, e := TokenizeRest(s, h);
    line := Callback(indent, head, NonTerminal("rest", tokens, map[]));
    end := e;
    LineParts(s, i, indent, j, head, h, tokens, e);
    LineStop(s, i);
  }

  /** `Parse`: the root node over every line of `contents`. */
  method Parse(contents: string) returns (root: Node)
    requires forall k :: 0 <= k < |contents| ==> contents[k] != '\r'
    ensures root == NonTerminal("root", Lines(contents, 0), map[])
  {
    var lines: seq<Node> := [];
    var pos := 0;
    ConcatEmpty(Lines(contents, 0));
    while pos < |contents|
      invariant pos <= |contents|
      invariant lines + Lines(contents, pos) == Lines(contents, 0)
      decreases |contents| - pos
    {
      var line, e := ParseLine(contents, pos);
      if !At(contents, e, "\n") {
        LinesEnd(contents, pos, line, e);
        root := NonTerminal("root", lines + [line], map[]);
        return;
      }
      var next := e + 1;
      LinesMore(contents, pos, line, e, next);
      ConcatSnoc(lines, line, Lines(contents, next));
      lines := lines + [line];
      pos := next;
    }
    assert Lines(contents, pos) == [];
    ConcatEmpty(lines);
    root := NonTerminal("root", lines, map[]);
  }

  lemma ConcatEmpty<T>(a: seq<T>)
    ensures [] + a == a && a + [] == a
  {
  }

  lemma ConcatSnoc<T>(a: seq<T>, x: T, b: seq<T>)
    ensures a + ([x] + b) == (a + [x]) + b
  {
  }

  lemma LineParts(s: string, i: nat, indent: Node, j: nat, head: Node, h: nat, tokens: seq<Node>, e: nat)
    requires i <= |s| && (indent, j) == IndentAt(s, i)
    requires j <= |s| && (head, h) == HeadAt(s, j)
    requires h <= |s| && (tokens, e) == TokensAt(s, h)
    ensures LineAt(s, i) == (Callback(indent, head, NonTerminal("rest", tokens, map[])), e)
  {
  }

  // ---------------------------------------------------------------------
  // Tokens

  lemma TokensStep(s: string, i: nat)
    requires i <= |s| && Choose(s, i, 0).Some?
    ensures var c := Choose(s, i, 0).value;
      TokensAt(s, i) == ([Terminal(KindAt(c.0), s[i..c.1])] + TokensAt(s, c.1).0, TokensAt(s, c.1).1)
  {
  }

  /** The Kleene loop stops exactly at the end of the line. */
  lemma {:induction false} TokensEnd(s: string, i: nat)
    requires i <= |s|
    ensures TokensAt(s, i).1 == LineEnd(s, i)
    decreases |s| - i
  {
    ChooseAtLineEnd(s, i);
    var c := Choose(s, i, 0);
    if c.Some? {
      LineEndSkip(s, i, c.value.1);
      TokensEnd(s, c.value.1);
    }
  }

  /** The tokens spell out, in order, exactly the text the loop read. */
  lemma {:induction false} TokensSpell(s: string, i: nat)
    requires i <= |s|
    ensures Values(TokensAt(s, i).0) == s[i..TokensAt(s, i).1]
    decreases |s| - i
  {
    var c := Choose(s, i, 0);
    if c.Some? {
      var x := c.value.1;
      TokensStep(s, i);
      TokensSpell(s, x);
      var rest := TokensAt(s, x);
      var t := Terminal(KindAt(c.value.0), s[i..x]);
      assert Values([t] + rest.0) == s[i..x] + Values(rest.0);
      SliceSplit(s, i, x, rest.1);
    }
  }

  /** Every token is a non-empty terminal named after its pattern. */
  lemma {:induction false} TokensShape(s: string, i: nat)
    requires i <= |s|
    ensures forall t :: t in TokensAt(s, i).0 ==> t.Terminal? && IsTokenKind(t.name) && t.value != []
    decreases |s| - i
  {
    var c := Choose(s, i, 0);
    if c.Some? {
      RuleKinds();
      TokensStep(s, i);
      TokensShape(s, c.value.1);
    }
  }

  /** A `text` token reads to the end of the line, so it is always the last
      token. */
  lemma {:induction false} TextLast(s: string, i: nat)
    requires i <= |s|
    ensures forall k :: 0 <= k < |TokensAt(s, i).0| - 1 ==> TokensAt(s, i).0[k].name != "text"
    decreases |s| - i
  {
    var c := Choose(s, i, 0);
    if c.Some? {
      var (k, x) := c.value;
      TokensStep(s, i);
      if KindAt(k) == "text" {
        ChooseMatch(s, i, 0, k, x);
        TextRuleIsLast(s, i, k);
        ChooseAtLineEnd(s, x);
      } else {
        TextLast(s, x);
      }
    }
  }

  lemma LineEndSkip(s: string, i: nat, x: nat)
    requires i <= |s| && i <= x <= LineEnd(s, i)
    ensures LineEnd(s, x) == LineEnd(s, i)
    decreases x - i
  {
    if i < x {
      LineEndSkip(s, i + 1, x);
    }
  }

  /** Skipping characters other than '\n' keeps the line end. */
  lemma {:induction false} LineEndFrom(s: string, i: nat, x: nat)
    requires i <= x <= |s| && forall j :: i <= j < x ==> s[j] != '\n'
    ensures LineEnd(s, x) == LineEnd(s, i)
    decreases x - i
  {
    if i < x {
      LineEndFrom(s, i + 1, x);
    }
  }

  /** Only the last alternative is named `text`, and it reads to the end of
      the line. */
  lemma TextRuleIsLast(s: string, i: nat, k: nat)
    requires i <= |s| && k < RuleCount && KindAt(k) == "text"
    requires Match(PatternAt(k), s, i).Some?
    ensures Match(PatternAt(k), s, i) == Some(LineEnd(s, i))
  {
    RuleKinds();
    PlainTextMatch(s, i);
  }

  lemma RuleKinds()
    ensures forall k :: 0 <= k < RuleCount ==> IsTokenKind(KindAt(k))
    ensures forall k :: 0 <= k < 16 ==> KindAt(k) != "text"
    ensures RuleCount == 17 && PatternAt(16) == PlainText && KindAt(16) == "text"
  {
  }

  /** When no structured alternative matches where the tokens start, the
      rest of the line is one `text` token. */
  lemma PlainRest(s: string, i: nat)
    requires i < |s| && s[i] != '\n'
    requires AllFail(s, i, 0, 16)
    ensures TokensAt(s, i).0 == [Terminal("text", s[i..LineEnd(s, i)])]
  {
    var e := LineEnd(s, i);
    PlainChoice(s, i, e);
    TokensStepAt(s, i, 16, e);
    ChooseAtLineEnd(s, e);
  }

  /** When every rule before plain text fails, plain text takes the rest
      of the line. */
  lemma PlainChoice(s: string, i: nat, e: nat)
    requires i < |s| && s[i] != '\n' && e == LineEnd(s, i)
    requires AllFail(s, i, 0, 16)
    ensures Choose(s, i, 0) == Some((16, e))
  {
    ChooseAfter(s, i, 0, 16);
    PlainTextMatch(s, i);
    PlainTextLast();
    assert Choose(s, i, 16) == Some((16, e));
  }

  // ---------------------------------------------------------------------
  // Indentation and block markers

  /** The number of spaces and tabs `s` starts with. */
  function LeadingBlanks(s: string): (r: nat)
    ensures r <= |s|
    decreases |s|
  {
    if s != [] && (s[0] == ' ' || s[0] == '\t') then 1 + LeadingBlanks(s[1..]) else 0
  }

  lemma {:induction false} BlankRun(s: string, i: nat)
    requires i <= |s|
    ensures RunEnd(s, i, Blanks) == i + LeadingBlanks(s[i..])
    decreases |s| - i
  {
    if i < |s| && InClass(s[i], Blanks) {
      assert s[i..][1..] == s[i + 1..];
      BlankRun(s, i + 1);
    }
  }

  lemma SinglePlus(s: string, i: nat, k: Class)
    requires i <= |s|
    ensures Match([Plus(k)], s, i) == if RunEnd(s, i, k) > i then Some(RunEnd(s, i, k)) else None
  {
    var e := RunEnd(s, i, k);
    assert [Plus(k)][1..] == [];
    if e > i {
      assert Match([], s, e) == Some(e);
      assert Greedy([], s, i + 1, e) == Some(e);
    }
  }

  /** The indentation read at `i` is the run of spaces and tabs there. */
  lemma IndentRun(s: string, i: nat)
    requires i <= |s|
    ensures var e := RunEnd(s, i, Blanks);
      IndentAt(s, i) == (if e > i then (Terminal("ws", s[i..e]), e) else (Missing, i))
  {
    SinglePlus(s, i, Blanks);
  }

  /** The head read at `w` is the first marker `w` starts with; its text is
      the marker the line's name stands for. */
  lemma HeadMarker(s: string, w: nat)
    requires w <= |s|
    ensures var m := Marker(BlockName(HeadAt(s, w).0.name));
      HeadAt(s, w).1 == w + |m| && s[w..HeadAt(s, w).1] == m
  {
  }

  lemma MarkersSingleLine()
    ensures NoNewline(">") && NoNewline("code:") && NoNewline("table:")
  {
  }

  lemma LitNoNewline(s: string, w: nat, t: string)
    requires At(s, w, t) && NoNewline(t)
    ensures forall j :: w <= j < w + |t| ==> s[j] != '\n'
  {
    forall j | w <= j < w + |t|
      ensures s[j] != '\n'
    {
      assert s[j] == s[w..w + |t|][j - w];
    }
  }

  /** The marker holds no '\n', so the tokens after it end where the line
      ends. */
  lemma HeadStop(s: string, w: nat)
    requires w <= |s|
    ensures LineEnd(s, HeadAt(s, w).1) == LineEnd(s, w)
  {
    MarkersSingleLine();
    if At(s, w, ">") {
      LitNoNewline(s, w, ">");
    } else if At(s, w, "code:") {
      LitNoNewline(s, w, "code:");
    } else if At(s, w, "table:") {
      LitNoNewline(s, w, "table:");
    }
    LineEndFrom(s, w, HeadAt(s, w).1);
  }

  lemma IndentStop(s: string, i: nat)
    requires i <= |s|
    ensures LineEnd(s, IndentAt(s, i).1) == LineEnd(s, i)
  {
    IndentRun(s, i);
    var e := RunEnd(s, i, Blanks);
    forall j | i <= j < e
      ensures s[j] != '\n'
    {
      ClassExcludesNewline(s[j], Blanks);
    }
    LineEndFrom(s, i, IndentAt(s, i).1);
  }

  // ---------------------------------------------------------------------
  // Lines

  lemma LineName(s: string, i: nat)
    requires i <= |s|
    ensures LineAt(s, i).0.name == BlockName(HeadAt(s, IndentAt(s, i).1).0.name)
  {
  }

  lemma LineTokens(s: string, i: nat)
    requires i <= |s|
    ensures var h := HeadAt(s, IndentAt(s, i).1).1;
      LineAt(s, i).0.children == TokensAt(s, h).0 && LineAt(s, i).1 == TokensAt(s, h).1
  {
  }

  /** A line ends where its '\n' is, or at the end of the input. */
  lemma LineStop(s: string, i: nat)
    requires i <= |s|
    ensures LineAt(s, i).1 == LineEnd(s, i)
  {
    var w := IndentAt(s, i).1;
    var h := HeadAt(s, w).1;
    IndentStop(s, i);
    HeadStop(s, w);
    TokensEnd(s, h);
    LineTokens(s, i);
  }

  lemma LeadingBlanksRun(line: string)
    ensures IndentAt(line, 0).1 == LeadingBlanks(line)
    ensures IndentAt(line, 0).0 == (if LeadingBlanks(line) > 0 then Terminal("ws", line[..LeadingBlanks(line)]) else Missing)
  {
    BlankRun(line, 0);
    assert line[0..] == line;
    IndentRun(line, 0);
  }

  /** The `indent` attribute of a line is the decimal count of its leading
      spaces and tabs, each tab counting one, and "0" when there are none. */
  lemma LineIndent(line: string)
    ensures LineAt(line, 0).0.attributes == map["indent" := [Decimal(LeadingBlanks(line))]]
  {
    LeadingBlanksRun(line);
  }

  /** The text of a block marker, by the name of the line it starts. */
  function Marker(name: string): string {
    if name == "quoted_text" then ">"
    else if name == "code_block" then "code:"
    else if name == "table_block" then "table:"
    else ""
  }

  lemma HeadKind(s: string, w: nat)
    requires w <= |s|
    ensures var name := BlockName(HeadAt(s, w).0.name);
      (name == "quoted_text" <==> At(s, w, ">")) &&
      (name == "code_block" <==> At(s, w, "code:")) &&
      (name == "table_block" <==> At(s, w, "table:")) &&
      (name == "simple_text" <==> !At(s, w, ">") && !At(s, w, "code:") && !At(s, w, "table:"))
  {
    if At(s, w, "code:") {
      assert s[w] == s[w..w + 5][0] == 'c';
    }
    if At(s, w, "table:") {
      assert s[w] == s[w..w + 6][0] == 't';
    }
    if At(s, w, ">") {
      assert s[w] == s[w..w + 1][0] == '>';
    }
  }

  lemma LineHead(line: string)
    ensures LineAt(line, 0).0.name == BlockName(HeadAt(line, LeadingBlanks(line)).0.name)
  {
    LeadingBlanksRun(line);
    LineName(line, 0);
  }

  /** After its indentation, a line that starts with `>`, `code:` or
      `table:` is a quoted text, a code block or a table block; any other
      line is a simple text. */
  lemma LineKind(line: string)
    ensures var w := LeadingBlanks(line);
      var name := LineAt(line, 0).0.name;
      (name == "quoted_text" <==> At(line, w, ">")) &&
      (name == "code_block" <==> At(line, w, "code:")) &&
      (name == "table_block" <==> At(line, w, "table:")) &&
      (name == "simple_text" <==> !At(line, w, ">") && !At(line, w, "code:") && !At(line, w, "table:"))
  {
    LineHead(line);
    HeadKind(line, LeadingBlanks(line));
  }

  lemma LineBody(line: string)
    ensures var h := HeadAt(line, LeadingBlanks(line)).1;
      LineAt(line, 0).0.children == TokensAt(line, h).0 && LineAt(line, 0).1 == TokensAt(line, h).1
  {
    LeadingBlanksRun(line);
    LineTokens(line, 0);
  }

  /** A line without '\n' is spelled out by its indentation, its block
      marker and the values of its children, in that order. */
  lemma LineSpell(line: string)
    requires NoNewline(line)
    ensures line == line[..LeadingBlanks(line)] + Marker(LineAt(line, 0).0.name) + Values(LineAt(line, 0).0.children)
  {
    var w := LeadingBlanks(line);
    var h := HeadAt(line, w).1;
    LineHead(line);
    LineBody(line);
    HeadMarker(line, w);
    TokensSpell(line, h);
    TokensEnd(line, h);
    NoNewlineEnd(line, h);
    SliceSplit(line, 0, w, h);
    SliceSplit(line, 0, h, |line|);
    assert line[0..|line|] == line;
  }

  lemma NoNewlineEnd(s: string, i: nat)
    requires i <= |s| && NoNewline(s)
    ensures LineEnd(s, i) == |s|
    decreases |s| - i
  {
    if i < |s| {
      NoNewlineEnd(s, i + 1);
    }
  }

  /** The children of a line are non-empty terminals of the token kinds, so
      neither the indentation nor the marker is among them, and only the
      last child can be a `text` token. */
  lemma LineChildren(line: string)
    ensures forall t :: t in LineAt(line, 0).0.children ==> t.Terminal? && IsTokenKind(t.name) && t.value != []
    ensures forall k :: 0 <= k < |LineAt(line, 0).0.children| - 1 ==> LineAt(line, 0).0.children[k].name != "text"
  {
    var h := HeadAt(line, LeadingBlanks(line)).1;
    LineBody(line);
    TokensShape(line, h);
    TextLast(line, h);
  }

  lemma PlainLine(line: string, h: nat)
    requires h == HeadAt(line, LeadingBlanks(line)).1
    requires h < |line| && NoNewline(line)
    requires AllFail(line, h, 0, 16)
    ensures LineAt(line, 0).0.children == [Terminal("text", line[h..])]
  {
    NoNewlineEnd(line, h);
    SliceToEnd(line, h, LineEnd(line, h));
    assert line[h] != '\n';
    PlainRest(line, h);
    LineBody(line);
  }

  lemma SliceToEnd(s: string, h: nat, e: nat)
    requires h <= e == |s|
    ensures s[h..e] == s[h..]
  {
  }
  // ---------------------------------------------------------------------
  // A line depends only on its own text

  lemma WsSingleLine()
    ensures SingleLine(Ws)
  {
    assert ElemSingleLine(Ws[0]);
  }

  lemma IndentView(s: string, l: string, i0: nat, n: nat, x: nat, y: nat)
    requires View(s, i0, n) && l == s[i0..n] && y <= |l| && x == y + i0
    ensures IndentAt(s, x).0 == IndentAt(l, y).0 && IndentAt(s, x).1 == IndentAt(l, y).1 + i0
  {
    WsSingleLine();
    MatchView(Ws, s, i0, n, x);
    var m := Match(Ws, l, y);
    if m.Some? {
      SliceOfSlice(s, i0, n, y, m.value);
    }
  }

  lemma HeadView(s: string, l: string, i0: nat, n: nat, x: nat, y: nat)
    requires View(s, i0, n) && l == s[i0..n] && y <= |l| && x == y + i0
    ensures HeadAt(s, x).0 == HeadAt(l, y).0 && HeadAt(s, x).1 == HeadAt(l, y).1 + i0
  {
    MarkersSingleLine();
    AtView(s, i0, n, x, ">");
    AtView(s, i0, n, x, "code:");
    AtView(s, i0, n, x, "table:");
  }

  /** The tokens read at `x` are those read from the text of the line
      alone, at `y` in it. */
  lemma {:induction false} TokensView(s: string, l: string, i0: nat, n: nat, x: nat, y: nat)
    requires View(s, i0, n) && l == s[i0..n] && y <= |l| && x == y + i0
    ensures TokensAt(s, x).0 == TokensAt(l, y).0 && TokensAt(s, x).1 == TokensAt(l, y).1 + i0
    decreases |s| - x
  {
    ChooseView(s, l, i0, n, x, y, 0);
    var c := Choose(l, y, 0);
    if c.Some? {
      var k := c.value.0;
      var z := c.value.1;
      var w := z + i0;
      assert ShiftChoice(c, i0) == Some((k, w));
      SliceView(s, l, i0, n, x, y, w, z);
      TokensView(s, l, i0, n, w, z);
      TokensViewStep(s, l, i0, x, y, k, w, z);
    } else {
      TokensViewStop(s, l, i0, x, y);
    }
  }

  lemma SliceView(s: string, l: string, i0: nat, n: nat, x: nat, y: nat, w: nat, z: nat)
    requires i0 <= n <= |s| && l == s[i0..n] && y <= z <= |l| && x == y + i0 && w == z + i0
    ensures s[x..w] == l[y..z]
  {
    SliceOfSlice(s, i0, n, y, z);
  }

  lemma TokensViewStep(s: string, l: string, i0: nat, x: nat, y: nat, k: nat, w: nat, z: nat)
    requires x <= |s| && y <= |l| && w == z + i0
    requires Choose(l, y, 0) == Some((k, z)) && Choose(s, x, 0) == Some((k, w))
    requires w <= |s| && s[x..w] == l[y..z]
    requires TokensAt(s, w).0 == TokensAt(l, z).0 && TokensAt(s, w).1 == TokensAt(l, z).1 + i0
    ensures TokensAt(s, x).0 == TokensAt(l, y).0 && TokensAt(s, x).1 == TokensAt(l, y).1 + i0
  {
    TokensStepAt(s, x, k, w);
    TokensStepAt(l, y, k, z);
  }

  lemma TokensViewStop(s: string, l: string, i0: nat, x: nat, y: nat)
    requires x <= |s| && y <= |l| && x == y + i0
    requires Choose(l, y, 0).None? && Choose(s, x, 0).None?
    ensures TokensAt(s, x).0 == TokensAt(l, y).0 && TokensAt(s, x).1 == TokensAt(l, y).1 + i0
  {
  }

  lemma TokensStepAt(s: string, i: nat, k: nat, y: nat)
    requires i <= |s| && Choose(s, i, 0) == Some((k, y))
    ensures k < RuleCount && i < y <= |s|
    ensures TokensAt(s, i) == ([Terminal(KindAt(k), s[i..y])] + TokensAt(s, y).0, TokensAt(s, y).1)
  {
  }

  /** The line read at `x` is the line read from the text of that line
      alone, and ends at the same place. */
  lemma LineView(s: string, l: string, i0: nat, n: nat, x: nat, y: nat)
    requires View(s, i0, n) && l == s[i0..n] && y <= |l| && x == y + i0
    ensures LineAt(s, x).0 == LineAt(l, y).0 && LineAt(s, x).1 == LineAt(l, y).1 + i0
  {
    var (ind, j) := IndentAt(s, x);
    var (ind', j') := IndentAt(l, y);
    IndentView(s, l, i0, n, x, y);
    var (hd, h) := HeadAt(s, j);
    var (hd', h') := HeadAt(l, j');
    HeadView(s, l, i0, n, j, j');
    var (ts, e) := TokensAt(s, h);
    var (ts', e') := TokensAt(l, h');
    TokensView(s, l, i0, n, h, h');
    LineParts(s, x, ind, j, hd, h, ts, e);
    LineParts(l, y, ind', j', hd', h', ts', e');
  }

  /** Reading the lines from `x` does not look before the point `i0`
      where `t` starts. */
  lemma {:induction false} LinesShift(s: string, t: string, i0: nat, x: nat, y: nat)
    requires i0 <= |s| && t == s[i0..] && y <= |t| && x == y + i0
    ensures Lines(s, x) == Lines(t, y)
    decreases |s| - x
  {
    if y < |t| {
      assert s[i0..|s|] == t;
      LineView(s, t, i0, |s|, x, y);
      var line := LineAt(t, y).0;
      var e := LineAt(t, y).1;
      var e' := e + i0;
      NewlineView(s, t, i0, e', e);
      if At(t, e, "\n") {
        var f := e + 1;
        var f' := e' + 1;
        LinesShift(s, t, i0, f', f);
        LinesMore(s, x, line, e', f');
        LinesMore(t, y, line, e, f);
      } else {
        LinesEnd(s, x, line, e');
        LinesEnd(t, y, line, e);
      }
    }
  }

  lemma NewlineView(s: string, t: string, i0: nat, x: nat, y: nat)
    requires i0 <= |s| && t == s[i0..] && y <= |t| && x == y + i0
    ensures At(s, x, "\n") <==> At(t, y, "\n")
  {
    if y < |t| {
      assert s[x] == t[y];
      assert s[x..x + 1] == [s[x]];
      assert t[y..y + 1] == [t[y]];
    }
  }

  lemma LinesMore(s: string, pos: nat, line: Node, e: nat, f: nat)
    requires pos < |s| && line == LineAt(s, pos).0 && e == LineAt(s, pos).1
    requires At(s, e, "\n") && f == e + 1
    ensures Lines(s, pos) == [line] + Lines(s, f)
  {
  }

  lemma LinesEnd(s: string, pos: nat, line: Node, e: nat)
    requires pos < |s| && line == LineAt(s, pos).0 && e == LineAt(s, pos).1
    requires !At(s, e, "\n")
    ensures Lines(s, pos) == [line]
  {
    assert [line] + [] == [line];
  }

  lemma LineAlone(a: string)
    requires NoNewline(a)
    ensures LineAt(a, 0).1 == |a|
  {
    LineStop(a, 0);
    NoNewlineEnd(a, 0);
  }

  /** A line followed by '\n' contributes one node, read from its own text,
      and the rest of the document is read on its own. */
  lemma LinesCons(a: string, b: string)
    requires NoNewline(a)
    ensures Lines(a + "\n" + b, 0) == [LineAt(a, 0).0] + Lines(b, 0)
  {
    var s := a + "\n" + b;
    var n := |a|;
    var f := n + 1;
    NewlineSplit(a, b, s, n, f);
    LineView(s, a, 0, n, 0, 0);
    LineAlone(a);
    LinesMore(s, 0, LineAt(a, 0).0, n, f);
    LinesShift(s, b, f, f, 0);
  }

  lemma NewlineSplit(a: string, b: string, s: string, n: nat, f: nat)
    requires s == a + "\n" + b && n == |a| && f == n + 1
    ensures f <= |s| && View(s, 0, n) && s[0..n] == a && At(s, n, "\n") && s[f..] == b
  {
    assert s[n..f] == "\n";
  }

  /** A last line without '\n' contributes one node when it is not empty. */
  lemma LinesLastLine(a: string)
    requires NoNewline(a) && a != []
    ensures Lines(a, 0) == [LineAt(a, 0).0]
  {
    LineAlone(a);
    LinesEnd(a, 0, LineAt(a, 0).0, LineAt(a, 0).1);
  }

  /** The nodes for the '\n'-separated segments of a document: one line
      per segment, except that an empty last segment adds none. */
  function LinesOf(segments: seq<string>): seq<Node>
    decreases |segments|
  {
    if segments == [] then []
    else if |segments| == 1 then (if segments[0] == [] then [] else [LineAt(segments[0], 0).0])
    else [LineAt(segments[0], 0).0] + LinesOf(segments[1..])
  }

  /** The children of the root are the lines of the document, one per
      '\n'-separated segment, each read from its own text; an empty final
      segment (a trailing '\n', or an empty document) adds no line. */
  lemma {:induction false} LinesJoin(segments: seq<string>)
    requires forall k :: 0 <= k < |segments| ==> NoNewline(segments[k])
    ensures Lines(Join(segments, "\n"), 0) == LinesOf(segments)
    decreases |segments|
  {
    if |segments| == 1 {
      if segments[0] != [] {
        LinesLastLine(segments[0]);
      }
    } else if |segments| > 1 {
      var rest := segments[1..];
      assert forall k :: 0 <= k < |rest| ==> NoNewline(rest[k]) by {
        forall k | 0 <= k < |rest|
          ensures NoNewline(rest[k])
        {
          assert rest[k] == segments[k + 1];
        }
      }
      LinesJoin(rest);
      LinesCons(segments[0], Join(rest, "\n"));
    }
  }
}
