/** A leftmost-first matcher for the fragment of Go's RE2 syntax that the
    Scrapbox grammar uses.  A goparsec `Token(pattern, name)` matches its
    regular expression anchored at the cursor and takes the match Go's
    `regexp` reports there; that match is the one a backtracking matcher
    finds first when greedy repetitions try longer counts first, lazy ones
    shorter counts first, and alternations try their left branch first.
    `Match` is that matcher. */
module Regexp {

  import opened Wrappers
  import opened Text

  /** The bracket expressions of the grammar.  None of them contains '\n'. */
  datatype Class =
    | Blanks        // [ \t]
    | NonBlank      // [^ \t\n]
    | NonNewline    // [^\n], also what `.` matches
    | NonOpen       // [^[\n]
    | SegmentChar   // [^/ \n]
    | UrlTail       // [^[ \t\n]
    | StyleMark     // [*/\-_]

  predicate InClass(c: char, k: Class) {
    match k
    case Blanks => c == ' ' || c == '\t'
    case NonBlank => c != ' ' && c != '\t' && c != '\n'
    case NonNewline => c != '\n'
    case NonOpen => c != '[' && c != '\n'
    case SegmentChar => c != '/' && c != ' ' && c != '\n'
    case UrlTail => c != '[' && c != ' ' && c != '\t' && c != '\n'
    case StyleMark => c == '*' || c == '/' || c == '-' || c == '_'
  }

  lemma ClassExcludesNewline(c: char, k: Class)
    requires InClass(c, k)
    ensures c != '\n'
  {
  }

  /** One element of a regular expression; a regular expression is a
      sequence of them, matched one after the other. */
  datatype Elem =
    | Lit(text: string)                       // the characters of `text`
    | Any                                     // .
    | Plus(cls: Class)                        // cls+  (greedy)
    | LazyStar(cls: Class)                    // cls*? (lazy)
    | Alt(left: seq<Elem>, right: seq<Elem>)  // (left|right)
    | Opt(body: seq<Elem>)                    // (body)?  (greedy)
    | Star(lead: string, body: seq<Elem>)     // (lead body)*  (greedy)

  type Regex = seq<Elem>

  function Size(r: Regex): nat {
    if r == [] then 0 else ElemSize(r[0]) + Size(r[1..])
  }

  function ElemSize(e: Elem): nat {
    match e
    case Alt(a, b) => 1 + Size(a) + Size(b)
    case Opt(b) => 1 + Size(b)
    case Star(_, b) => 1 + Size(b)
    case _ => 1
  }

  lemma {:induction false} SizeAppend(a: Regex, b: Regex)
    ensures Size(a + b) == Size(a) + Size(b)
    decreases |a|
  {
    if a == [] {
      assert a + b == b;
    } else {
      assert (a + b)[1..] == a[1..] + b;
      SizeAppend(a[1..], b);
    }
  }

  /** The end of the longest run of `k` characters starting at `i`. */
  function RunEnd(s: string, i: nat, k: Class): (e: nat)
    requires i <= |s|
    ensures i <= e <= |s|
    ensures forall j :: i <= j < e ==> InClass(s[j], k)
    ensures e < |s| ==> !InClass(s[e], k)
    decreases |s| - i
  {
    if i < |s| && InClass(s[i], k) then RunEnd(s, i + 1, k) else i
  }

  /** The end of the leftmost-first match of `r` anchored at `i`, if any. */
  function Match(r: Regex, s: string, i: nat): (m: Option<nat>)
    requires i <= |s|
    ensures m.Some? ==> i <= m.value <= |s|
    decreases |s| - i, Size(r), |s| - i + 1
  {
    if r == [] then Some(i)
    else
      var rest := r[1..];
      assert Size(r) == ElemSize(r[0]) + Size(rest);
      match r[0]
      case Lit(t) =>
        if At(s, i, t) then Match(rest, s, i + |t|) else None
      case Any =>
        if i < |s| && s[i] != '\n' then Match(rest, s, i + 1) else None
      case Plus(k) =>
        var e := RunEnd(s, i, k);
        if e == i then None else Greedy(rest, s, i + 1, e)
      case LazyStar(k) =>
        Lazy(rest, s, i, i, k)
      case Alt(a, b) =>
        SizeAppend(a, rest);
        SizeAppend(b, rest);
        var m := Match(a + rest, s, i);
        if m.Some? then m else Match(b + rest, s, i)
      case Opt(b) =>
        SizeAppend(b, rest);
        var m := Match(b + rest, s, i);
        if m.Some? then m else Match(rest, s, i)
      case Star(lead, b) =>
        var m := if lead != [] && At(s, i, lead) then Match(b + r, s, i + |lead|) else None;
        if m.Some? then m else Match(rest, s, i)
  }

  /** A greedy repetition that may stop anywhere in `lo..x`: the longest
      stopping point from which `r` matches wins. */
  function Greedy(r: Regex, s: string, lo: nat, x: nat): (m: Option<nat>)
    requires 1 <= lo <= |s| + 1 && x <= |s|
    ensures m.Some? ==> lo <= m.value <= |s|
    decreases |s| + 1 - lo, 0, x
  {
    if x < lo then None
    else
      var m := Match(r, s, x);
      if m.Some? then m else Greedy(r, s, lo, x - 1)
  }

  /** A lazy repetition of `k` that has reached `x`: stop here if `r`
      matches, otherwise take one more `k` character. */
  function Lazy(r: Regex, s: string, lo: nat, x: nat, k: Class): (m: Option<nat>)
    requires lo <= x <= |s|
    ensures m.Some? ==> x <= m.value <= |s|
    decreases |s| - lo, Size(r) + 1, |s| - x
  {
    var m := Match(r, s, x);
    if m.Some? then m
    else if x < |s| && InClass(s[x], k) then Lazy(r, s, lo, x + 1, k)
    else None
  }

  // ---------------------------------------------------------------------
  // Locality: no element of the grammar matches '\n', so a match never
  // looks past the end of the line it starts on.

  predicate NoNewline(t: string) {
    forall k :: 0 <= k < |t| ==> t[k] != '\n'
  }

  predicate SingleLine(r: Regex) {
    forall k :: 0 <= k < |r| ==> ElemSingleLine(r[k])
  }

  predicate ElemSingleLine(e: Elem) {
    match e
    case Lit(t) => NoNewline(t)
    case Alt(a, b) =>
      (forall k :: 0 <= k < |a| ==> ElemSingleLine(a[k])) &&
      (forall k :: 0 <= k < |b| ==> ElemSingleLine(b[k]))
    case Opt(b) => forall k :: 0 <= k < |b| ==> ElemSingleLine(b[k])
    case Star(lead, b) => NoNewline(lead) && forall k :: 0 <= k < |b| ==> ElemSingleLine(b[k])
    case _ => true
  }

  function Shift(m: Option<nat>, d: nat): Option<nat> {
    if m.Some? then Some(m.value + d) else None
  }

  /** `s[i0..n]` is a view of `s` that ends where `s` ends or at a '\n'. */
  predicate View(s: string, i0: nat, n: nat) {
    i0 <= n <= |s| && (n == |s| || s[n] == '\n')
  }

  lemma SliceOfSlice(s: string, a: nat, b: nat, c: nat, d: nat)
    requires a <= b <= |s| && c <= d <= b - a
    ensures s[a..b][c..d] == s[a + c..a + d]
  {
    var u := s[a..b][c..d];
    var w := s[a + c..a + d];
    assert |u| == |w|;
    forall k | 0 <= k < |u|
      ensures u[k] == w[k]
    {
      assert u[k] == s[a..b][c + k];
    }
  }

  lemma AtView(s: string, i0: nat, n: nat, x: nat, t: string)
    requires View(s, i0, n) && i0 <= x <= n && NoNewline(t)
    ensures At(s, x, t) <==> At(s[i0..n], x - i0, t)
  {
    if x + |t| <= n {
      SliceOfSlice(s, i0, n, x - i0, x - i0 + |t|);
    }
  }

  lemma RunEndView(s: string, i0: nat, n: nat, x: nat, k: Class)
    requires View(s, i0, n) && i0 <= x <= n
    ensures RunEnd(s, x, k) == RunEnd(s[i0..n], x - i0, k) + i0
    decreases n - x
  {
    var l := s[i0..n];
    if x < n {
      assert l[x - i0] == s[x];
      RunEndView(s, i0, n, x + 1, k);
    } else if x < |s| && InClass(s[x], k) {
      ClassExcludesNewline(s[x], k);
    }
  }

  lemma SingleLineSplit(r: Regex)
    requires r != [] && SingleLine(r)
    ensures ElemSingleLine(r[0]) && SingleLine(r[1..])
  {
    assert forall k :: 0 <= k < |r[1..]| ==> r[1..][k] == r[k + 1];
  }

  lemma {:induction false} MatchView(r: Regex, s: string, i0: nat, n: nat, x: nat)
    requires View(s, i0, n) && i0 <= x <= n && SingleLine(r)
    ensures Match(r, s, x) == Shift(Match(r, s[i0..n], x - i0), i0)
    decreases |s| - x, Size(r), |s| - x + 1, 1
  {
    if r != [] {
      match r[0]
      case Lit(_) => LitView(r, s, i0, n, x);
      case Any => AnyView(r, s, i0, n, x);
      case Plus(_) => PlusView(r, s, i0, n, x);
      case LazyStar(k) =>
        assert Size(r) == ElemSize(r[0]) + Size(r[1..]);
        SingleLineSplit(r);
        LazyView(r[1..], s, i0, n, x, x, k);
      case Alt(_, _) => AltView(r, s, i0, n, x);
      case Opt(_) => OptView(r, s, i0, n, x);
      case Star(_, _) => StarView(r, s, i0, n, x);
    }
  }

  lemma {:induction false} LitView(r: Regex, s: string, i0: nat, n: nat, x: nat)
    requires View(s, i0, n) && i0 <= x <= n && SingleLine(r) && r != [] && r[0].Lit?
    ensures Match(r, s, x) == Shift(Match(r, s[i0..n], x - i0), i0)
    decreases |s| - x, Size(r), |s| - x + 1, 0
  {
    var t := r[0].text;
    assert Size(r) == ElemSize(r[0]) + Size(r[1..]);
    SingleLineSplit(r);
    AtView(s, i0, n, x, t);
    if At(s, x, t) {
      MatchView(r[1..], s, i0, n, x + |t|);
    }
  }

  lemma {:induction false} AnyView(r: Regex, s: string, i0: nat, n: nat, x: nat)
    requires View(s, i0, n) && i0 <= x <= n && SingleLine(r) && r != [] && r[0].Any?
    ensures Match(r, s, x) == Shift(Match(r, s[i0..n], x - i0), i0)
    decreases |s| - x, Size(r), |s| - x + 1, 0
  {
    assert Size(r) == ElemSize(r[0]) + Size(r[1..]);
    SingleLineSplit(r);
    if x < n {
      assert s[i0..n][x - i0] == s[x];
      MatchView(r[1..], s, i0, n, x + 1);
    }
  }

  lemma {:induction false} PlusView(r: Regex, s: string, i0: nat, n: nat, x: nat)
    requires View(s, i0, n) && i0 <= x <= n && SingleLine(r) && r != [] && r[0].Plus?
    ensures Match(r, s, x) == Shift(Match(r, s[i0..n], x - i0), i0)
    decreases |s| - x, Size(r), |s| - x + 1, 0
  {
    var k := r[0].cls;
    assert Size(r) == ElemSize(r[0]) + Size(r[1..]);
    SingleLineSplit(r);
    RunEndView(s, i0, n, x, k);
    var e := RunEnd(s, x, k);
    if e != x {
      GreedyView(r[1..], s, i0, n, x + 1, e);
    }
  }

  lemma {:induction false} AltView(r: Regex, s: string, i0: nat, n: nat, x: nat)
    requires View(s, i0, n) && i0 <= x <= n && SingleLine(r) && r != [] && r[0].Alt?
    ensures Match(r, s, x) == Shift(Match(r, s[i0..n], x - i0), i0)
    decreases |s| - x, Size(r), |s| - x + 1, 0
  {
    var a, b, rest := r[0].left, r[0].right, r[1..];
    assert Size(r) == ElemSize(r[0]) + Size(rest);
    SingleLineSplit(r);
    SizeAppend(a, rest);
    SizeAppend(b, rest);
    assert SingleLine(a + rest) && SingleLine(b + rest);
    MatchView(a + rest, s, i0, n, x);
    MatchView(b + rest, s, i0, n, x);
  }

  lemma {:induction false} OptView(r: Regex, s: string, i0: nat, n: nat, x: nat)
    requires View(s, i0, n) && i0 <= x <= n && SingleLine(r) && r != [] && r[0].Opt?
    ensures Match(r, s, x) == Shift(Match(r, s[i0..n], x - i0), i0)
    decreases |s| - x, Size(r), |s| - x + 1, 0
  {
    var b, rest := r[0].body, r[1..];
    assert Size(r) == ElemSize(r[0]) + Size(rest);
    SingleLineSplit(r);
    SizeAppend(b, rest);
    assert SingleLine(b + rest);
    MatchView(b + rest, s, i0, n, x);
    MatchView(rest, s, i0, n, x);
  }

  lemma {:induction false} StarView(r: Regex, s: string, i0: nat, n: nat, x: nat)
    requires View(s, i0, n) && i0 <= x <= n && SingleLine(r) && r != [] && r[0].Star?
    ensures Match(r, s, x) == Shift(Match(r, s[i0..n], x - i0), i0)
    decreases |s| - x, Size(r), |s| - x + 1, 0
  {
    var lead, b, rest := r[0].lead, r[0].body, r[1..];
    var l, y := s[i0..n], x - i0;
    assert Size(r) == ElemSize(r[0]) + Size(rest);
    SingleLineSplit(r);
    AtView(s, i0, n, x, lead);
    if lead != [] && At(s, x, lead) {
      assert SingleLine(b + r);
      var x', y' := x + |lead|, y + |lead|;
      assert x' - i0 == y';
      MatchView(b + r, s, i0, n, x');
    }
    MatchView(rest, s, i0, n, x);
    StarShift(r, s, l, i0, x, y);
  }

  /** A repetition matches the same in `s` at `x` as in `l` at `y`, shifted
      by `i0`, when its one-more-round and its skip do. */
  lemma StarShift(r: Regex, s: string, l: string, i0: nat, x: nat, y: nat)
    requires r != [] && r[0].Star? && x <= |s| && y <= |l| && x == y + i0
    requires At(s, x, r[0].lead) <==> At(l, y, r[0].lead)
    requires r[0].lead != [] && At(s, x, r[0].lead) ==>
      Match(r[0].body + r, s, x + |r[0].lead|) == Shift(Match(r[0].body + r, l, y + |r[0].lead|), i0)
    requires Match(r[1..], s, x) == Shift(Match(r[1..], l, y), i0)
    ensures Match(r, s, x) == Shift(Match(r, l, y), i0)
  {
  }

  lemma {:induction false} GreedyView(r: Regex, s: string, i0: nat, n: nat, lo: nat, x: nat)
    requires View(s, i0, n) && i0 + 1 <= lo <= n + 1 && i0 <= x <= n && SingleLine(r)
    ensures Greedy(r, s, lo, x) == Shift(Greedy(r, s[i0..n], lo - i0, x - i0), i0)
    decreases |s| + 1 - lo, 0, x, 0
  {
    if x >= lo {
      MatchView(r, s, i0, n, x);
      GreedyView(r, s, i0, n, lo, x - 1);
    }
  }

  lemma {:induction false} LazyView(r: Regex, s: string, i0: nat, n: nat, lo: nat, x: nat, k: Class)
    requires View(s, i0, n) && i0 <= lo <= x <= n && SingleLine(r)
    ensures Lazy(r, s, lo, x, k) == Shift(Lazy(r, s[i0..n], lo - i0, x - i0, k), i0)
    decreases |s| - lo, Size(r) + 1, |s| - x, 0
  {
    var l := s[i0..n];
    MatchView(r, s, i0, n, x);
    if Match(r, s, x).None? {
      if x < n {
        assert l[x - i0] == s[x];
        LazyView(r, s, i0, n, lo, x + 1, k);
      } else if x < |s| && InClass(s[x], k) {
        ClassExcludesNewline(s[x], k);
      }
    }
  }

  /** The first '\n' at or after `i`, or the end of `s`. */
  function LineEnd(s: string, i: nat): (n: nat)
    requires i <= |s|
    ensures i <= n <= |s| && (n == |s| || s[n] == '\n')
    ensures forall j :: i <= j < n ==> s[j] != '\n'
    decreases |s| - i
  {
    if i == |s| || s[i] == '\n' then i else LineEnd(s, i + 1)
  }

  /** A match of a single-line expression stays within its line. */
  lemma MatchWithinLine(r: Regex, s: string, i: nat)
    requires i <= |s| && SingleLine(r)
    ensures Match(r, s, i).Some? ==> Match(r, s, i).value <= LineEnd(s, i)
  {
    MatchView(r, s, i, LineEnd(s, i), i);
  }

  // ---------------------------------------------------------------------
  // Progress: an expression whose first element must read a character
  // consumes at least one.

  predicate Consumes(r: Regex) {
    r != [] && ElemConsumes(r[0])
  }

  predicate ElemConsumes(e: Elem) {
    match e
    case Lit(t) => t != []
    case Any => true
    case Plus(_) => true
    case Alt(a, b) => (a != [] && ElemConsumes(a[0])) && (b != [] && ElemConsumes(b[0]))
    case _ => false
  }

  lemma {:induction false} MatchConsumes(r: Regex, s: string, i: nat)
    requires i <= |s| && Consumes(r)
    ensures Match(r, s, i).Some? ==> Match(r, s, i).value > i
    decreases Size(r)
  {
    var rest := r[1..];
    assert Size(r) == ElemSize(r[0]) + Size(rest);
    match r[0]
    case Alt(a, b) =>
      SizeAppend(a, rest);
      SizeAppend(b, rest);
      MatchConsumes(a + rest, s, i);
      MatchConsumes(b + rest, s, i);
    case _ =>
  }

}
