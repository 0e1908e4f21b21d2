/** The four block constructors of client/syntax (quoted_text.go,
    simple_text.go, table_block.go, code_block.go). Each takes a node's
    children, drops the `indent` and `missing` placeholder children while
    ranging over them, and records an `indent` attribute.

    Go's `for i, child := range children` reads the ORIGINAL backing array
    at every index while `children = append(children[:i], children[i+1:]...)`
    shifts that same array left and shortens the slice. The model keeps that
    array explicit: the child after a removed one is never looked at, and a
    removal at an index past the shortened length panics (`None`). */
module Nodes {

  import opened Wrappers
  import opened Text
  import opened Ast

  predicate IsPlaceholder(n: Node) {
    n.name == "indent" || n.name == "missing"
  }

  predicate NoPlaceholder(cs: seq<Node>) {
    forall k :: 0 <= k < |cs| ==> !IsPlaceholder(cs[k])
  }

  /** The `indent` attribute a placeholder records: the length of an
      `indent` child's text, or 0 for `missing`. */
  function IndentOf(n: Node): string {
    if n.name == "indent" then Decimal(|Value(n)|) else Decimal(0)
  }

  /** The backing array after `append(children[:i], children[i+1:]...)` on a
      slice of length `len`: entries `i+1..len` move one place left and the
      rest of the array is untouched. */
  function RemoveAt(a: seq<Node>, len: nat, i: nat): (b: seq<Node>)
    requires i < len <= |a|
    ensures |b| == |a|
    ensures forall k :: 0 <= k < |b| ==> b[k] == (if i <= k < len - 1 then a[k + 1] else a[k])
  {
    a[..i] + a[i + 1..len] + a[len - 1..]
  }

  /** The range loop from index `i` on, with backing array `a`, current
      slice length `len` and the attributes so far: `None` when a removal
      slices past the current length. */
  function RangeFrom(a: seq<Node>, len: nat, i: nat, attrs: Attributes): Option<(seq<Node>, Attributes)>
    requires len <= |a| && i <= |a|
    decreases |a| - i
  {
    if i == |a| then Some((a[..len], attrs))
    else if IsPlaceholder(a[i]) then
      if i + 1 > len then None
      else RangeFrom(RemoveAt(a, len, i), len - 1, i + 1, attrs["indent" := [IndentOf(a[i])]])
    else RangeFrom(a, len, i + 1, attrs)
  }

  /** The children and attributes the constructors end with, as written. */
  function RangeStrip(children: seq<Node>): Option<(seq<Node>, Attributes)> {
    RangeFrom(children, |children|, 0, map[])
  }

  /** The node a constructor named `name` returns for `node`. */
  function Built(name: string, node: Node): (r: Option<Node>)
    ensures r.Some? ==> r.value.NonTerminal? && r.value.name == name
    ensures r.None? <==> RangeStrip(Children(node)).None?
  {
    match RangeStrip(Children(node))
    case None => None
    case Some(res) => Some(NonTerminal(name, res.0, res.1))
  }

  // ---------------------------------------------------------------------
  // The range loop over a backing array

  /** `append(children[:i], children[i+1:]...)`: shift `a[i+1..len]` one
      place left inside the same array. */
  method Remove(a: array<Node>, len: nat, i: nat)
    requires i < len <= a.Length
    modifies a
    ensures a[..] == RemoveAt(old(a[..]), len, i)
  {
    var k := i;
    while k < len - 1
      invariant i <= k <= len - 1
      invariant forall j :: 0 <= j < a.Length ==> a[j] == (if i <= j < k then old(a[j + 1]) else old(a[j]))
    {
      a[k] := a[k + 1];
      k := k + 1;
    }
  }

  lemma RangeRemove(a: seq<Node>, len: nat, i: nat, attrs: Attributes, b: seq<Node>, v: string)
    requires len <= |a| && i < |a| && IsPlaceholder(a[i]) && i + 1 <= len
    requires b == RemoveAt(a, len, i) && v == IndentOf(a[i])
    ensures RangeFrom(a, len, i, attrs) == RangeFrom(b, len - 1, i + 1, attrs["indent" := [v]])
  {
  }

  lemma RangePanic(a: seq<Node>, len: nat, i: nat, attrs: Attributes)
    requires len <= |a| && i < |a| && IsPlaceholder(a[i]) && i + 1 > len
    ensures RangeFrom(a, len, i, attrs) == None
  {
  }

  lemma RangeKeep(a: seq<Node>, len: nat, i: nat, attrs: Attributes)
    requires len <= |a| && i < |a| && !IsPlaceholder(a[i])
    ensures RangeFrom(a, len, i, attrs) == RangeFrom(a, len, i + 1, attrs)
  {
  }

  /** One turn of the range loop at index `i`: `ok` is false where Go
      panics. */
  method Visit(a: array<Node>, len: nat, i: nat, attributes: Attributes)
      returns (ok: bool, len': nat, attributes': Attributes)
    requires i < a.Length && len <= a.Length
    modifies a
    ensures len' <= a.Length
    ensures !ok <==> IsPlaceholder(old(a[i])) && i + 1 > len
    ensures ok && IsPlaceholder(old(a[i])) ==>
      a[..] == RemoveAt(old(a[..]), len, i) && len' == len - 1 && attributes' == attributes["indent" := [IndentOf(old(a[i]))]]
    ensures !IsPlaceholder(old(a[i])) ==> a[..] == old(a[..]) && len' == len && attributes' == attributes
    ensures !ok ==> a[..] == old(a[..])
    ensures ok ==> RangeFrom(old(a[..]), len, i, attributes) == RangeFrom(a[..], len', i + 1, attributes')
    ensures !ok ==> RangeFrom(old(a[..]), len, i, attributes) == None
  {
    ghost var before := a[..];
    var child := a[i];
    ok, len', attributes' := true, len, attributes;
    if child.name == "indent" {
      if i + 1 > len {
        RangePanic(before, len, i, attributes);
        return false, len, attributes;
      }
      Remove(a, len, i);
      RangeRemove(before, len, i, attributes, a[..], Decimal(|Value(child)|));
      len' := len - 1;
      attributes' := attributes["indent" := [Decimal(|Value(child)|)]];
    } else if child.name == "missing" {
      if i + 1 > len {
        RangePanic(before, len, i, attributes);
        return false, len, attributes;
      }
      Remove(a, len, i);
      RangeRemove(before, len, i, attributes, a[..], Decimal(0));
      len' := len - 1;
      attributes' := attributes["indent" := [Decimal(0)]];
    } else {
      RangeKeep(before, len, i, attributes);
    }
  }

  /** The loop the four constructors share. */
  method StripPlaceholders(children: seq<Node>) returns (r: Option<(seq<Node>, Attributes)>)
    ensures r == RangeStrip(children)
  {
    var a := new Node[|children|](j requires 0 <= j < |children| => children[j]);
    assert a[..] == children;
    var len: nat := a.Length;
    var attributes: Attributes := map[];
    var i := 0;
    while i < a.Length
      invariant 0 <= i <= a.Length && len <= a.Length
      invariant RangeFrom(a[..], len, i, attributes) == RangeStrip(children)
      decreases a.Length - i
    {
      var ok;
      ok, len, attributes := Visit(a, len, i, attributes);
      if !ok {
        return None;
      }
      i := i + 1;
    }
    r := Some((a[..len], attributes));
  }

  method Construct(name: string, node: Node) returns (r: Option<Node>)
    ensures r == Built(name, node)
  {
    var res := StripPlaceholders(Children(node));
    if res.None? {
      return None;
    }
    r := Some(NonTerminal(name, res.value.0, res.value.1));
  }

  /** `NewQuotedText`; `None` where Go panics. */
  method NewQuotedText(node: Node) returns (r: Option<Node>)
    ensures r == Built("quoted_text", node)
  {
    r := Construct("quoted_text", node);
  }

  /** `NewSimpleText`; `None` where Go panics. */
  method NewSimpleText(node: Node) returns (r: Option<Node>)
    ensures r == Built("simple_text", node)
  {
    r := Construct("simple_text", node);
  }

  /** `NewTableBlock`; `None` where Go panics. */
  method NewTableBlock(node: Node) returns (r: Option<Node>)
    ensures r == Built("table_block", node)
  {
    r := Construct("table_block", node);
  }

  /** `NewCodeBlock`; `None` where Go panics. */
  method NewCodeBlock(node: Node) returns (r: Option<Node>)
    ensures r == Built("code_block", node)
  {
    r := Construct("code_block", node);
  }

  // ---------------------------------------------------------------------
  // What the range loop does with no placeholder and with one

  lemma {:induction false} RangeNoMore(a: seq<Node>, len: nat, i: nat, attrs: Attributes)
    requires len <= |a| && i <= |a|
    requires forall k :: i <= k < |a| ==> !IsPlaceholder(a[k])
    ensures RangeFrom(a, len, i, attrs) == Some((a[..len], attrs))
    decreases |a| - i
  {
    if i < |a| {
      RangeNoMore(a, len, i + 1, attrs);
    }
  }

  lemma {:induction false} RangeSkip(a: seq<Node>, len: nat, i: nat, p: nat, attrs: Attributes)
    requires len <= |a| && i <= p <= |a|
    requires forall k :: i <= k < p ==> !IsPlaceholder(a[k])
    ensures RangeFrom(a, len, i, attrs) == RangeFrom(a, len, p, attrs)
    decreases p - i
  {
    if i < p {
      RangeSkip(a, len, i + 1, p, attrs);
    }
  }

  /** With no placeholder, the children are kept as they are and no
      attribute is set. */
  lemma StripNone(children: seq<Node>)
    requires NoPlaceholder(children)
    ensures RangeStrip(children) == Some((children, map[]))
  {
    RangeNoMore(children, |children|, 0, map[]);
    assert children[..|children|] == children;
  }

  /** After the only placeholder is shifted out, the rest of the slice is
      the other children, and none of them is a placeholder. */
  lemma RemovedRest(children: seq<Node>, p: nat, b: seq<Node>)
    requires p < |children| && b == RemoveAt(children, |children|, p)
    requires forall k :: 0 <= k < |children| && k != p ==> !IsPlaceholder(children[k])
    ensures forall k :: p + 1 <= k < |b| ==> !IsPlaceholder(b[k])
    ensures b[..|children| - 1] == children[..p] + children[p + 1..]
  {
    var n := |children|;
    assert forall k :: p + 1 <= k < n ==> b[k] == children[if k < n - 1 then k + 1 else k];
  }

  /** With exactly one placeholder, it is removed, every other child is kept
      in order, and `indent` records it. */
  lemma StripOne(children: seq<Node>, p: nat)
    requires p < |children| && IsPlaceholder(children[p])
    requires forall k :: 0 <= k < |children| && k != p ==> !IsPlaceholder(children[k])
    ensures RangeStrip(children) == Some((children[..p] + children[p + 1..], map["indent" := [IndentOf(children[p])]]))
  {
    var n := |children|;
    RangeSkip(children, n, 0, p, map[]);
    var b := RemoveAt(children, n, p);
    var attrs: Attributes := map["indent" := [IndentOf(children[p])]];
    RangeRemove(children, n, p, map[], b, IndentOf(children[p]));
    RemovedRest(children, p, b);
    RangeNoMore(b, n - 1, p + 1, attrs);
  }

  /** The constructors always name the node after their block, and with at
      most one placeholder they never panic. */
  lemma BuiltOne(name: string, node: Node, p: nat)
    requires node.NonTerminal? && p < |node.children| && IsPlaceholder(node.children[p])
    requires forall k :: 0 <= k < |node.children| && k != p ==> !IsPlaceholder(node.children[k])
    ensures Built(name, node) == Some(NonTerminal(name, node.children[..p] + node.children[p + 1..],
      map["indent" := [if node.children[p].name == "indent" then Decimal(|Value(node.children[p])|) else "0"]]))
  {
    StripOne(node.children, p);
  }

  lemma BuiltNone(name: string, node: Node)
    requires NoPlaceholder(Children(node))
    ensures Built(name, node) == Some(NonTerminal(name, Children(node), map[]))
  {
    StripNone(Children(node));
  }

  // ---------------------------------------------------------------------
  // Two placeholders: what the code does, and what it evidently means

  /** Two placeholders side by side: the second is never inspected, so it
      stays among the children. */
  lemma AdjacentPlaceholderSurvives()
    ensures RangeStrip([Terminal("indent", "  "), Terminal("missing", ""), Terminal("text", "x")])
      == Some(([Terminal("missing", ""), Terminal("text", "x")], map["indent" := ["2"]]))
  {
    var c := [Terminal("indent", "  "), Terminal("missing", ""), Terminal("text", "x")];
    var b := RemoveAt(c, 3, 0);
    assert b == [Terminal("missing", ""), Terminal("text", "x"), Terminal("text", "x")];
    assert Decimal(|Value(c[0])|) == "2";
    var attrs: Attributes := map["indent" := ["2"]];
    assert RangeFrom(c, 3, 0, map[]) == RangeFrom(b, 2, 1, attrs);
    assert RangeFrom(b, 2, 1, attrs) == RangeFrom(b, 2, 2, attrs);
    assert RangeFrom(b, 2, 2, attrs) == RangeFrom(b, 2, 3, attrs);
    assert b[..2] == [Terminal("missing", ""), Terminal("text", "x")];
  }

  /** A placeholder after a removed one and another child: the shifted
      array still holds it past the shortened length, and removing it
      slices out of range. */
  lemma TrailingPlaceholderPanics()
    ensures RangeStrip([Terminal("indent", " "), Terminal("text", "x"), Terminal("missing", "")]).None?
  {
    var c := [Terminal("indent", " "), Terminal("text", "x"), Terminal("missing", "")];
    var b := RemoveAt(c, 3, 0);
    assert b == [Terminal("text", "x"), Terminal("missing", ""), Terminal("missing", "")];
    var attrs: Attributes := map["indent" := [Decimal(1)]];
    assert RangeFrom(c, 3, 0, map[]) == RangeFrom(b, 2, 1, attrs);
    var b' := RemoveAt(b, 2, 1);
    assert b' == b;
    var attrs' := attrs["indent" := [Decimal(0)]];
    assert RangeFrom(b, 2, 1, attrs) == RangeFrom(b', 1, 2, attrs');
  }

  /** The evidently intended stripping: drop every placeholder, keep every
      other child in order; the last placeholder decides `indent`. */
  function StripAll(children: seq<Node>): (r: (seq<Node>, Attributes))
    ensures NoPlaceholder(r.0) && |r.0| <= |children|
    ensures r.1 == map[] || r.1.Keys == {"indent"}
    decreases |children|
  {
    if children == [] then ([], map[])
    else
      var r := StripAll(children[..|children| - 1]);
      var x := children[|children| - 1];
      if IsPlaceholder(x) then (r.0, r.1["indent" := [IndentOf(x)]]) else (r.0 + [x], r.1)
  }

  lemma {:induction false} StripAllNone(children: seq<Node>)
    requires NoPlaceholder(children)
    ensures StripAll(children) == (children, map[])
    decreases |children|
  {
    if children != [] {
      var init := children[..|children| - 1];
      StripAllNone(init);
      assert init + [children[|children| - 1]] == children;
    }
  }

  /** Children after the last placeholder are appended unchanged. */
  lemma {:induction false} StripAllPlain(a: seq<Node>, b: seq<Node>)
    requires NoPlaceholder(b)
    ensures StripAll(a + b) == (StripAll(a).0 + b, StripAll(a).1)
    decreases |b|
  {
    if b == [] {
      assert a + b == a;
      assert StripAll(a).0 + b == StripAll(a).0;
    } else {
      var init, x := b[..|b| - 1], b[|b| - 1];
      assert (a + b)[..|a + b| - 1] == a + init;
      assert (a + b)[|a + b| - 1] == x;
      assert NoPlaceholder(init);
      StripAllPlain(a, init);
      assert (StripAll(a).0 + init) + [x] == StripAll(a).0 + b;
    }
  }

  /** Every placeholder is gone, and nothing else is. */
  lemma {:induction false} StripAllFilters(children: seq<Node>)
    ensures forall x :: x in StripAll(children).0 <==> x in children && !IsPlaceholder(x)
    decreases |children|
  {
    if children != [] {
      var init := children[..|children| - 1];
      StripAllFilters(init);
      assert children == init + [children[|children| - 1]];
    }
  }

  lemma StripAllLast(upto: seq<Node>, pre: seq<Node>, x: Node)
    requires upto == pre + [x] && IsPlaceholder(x) && StripAll(pre) == (pre, map[])
    ensures StripAll(upto) == (pre, map["indent" := [IndentOf(x)]])
  {
    assert upto[..|upto| - 1] == pre;
  }

  /** The intended stripping with exactly one placeholder. */
  lemma StripAllOne(children: seq<Node>, p: nat)
    requires p < |children| && IsPlaceholder(children[p])
    requires forall k :: 0 <= k < |children| && k != p ==> !IsPlaceholder(children[k])
    ensures StripAll(children) == (children[..p] + children[p + 1..], map["indent" := [IndentOf(children[p])]])
  {
    var pre, upto, post := children[..p], children[..p + 1], children[p + 1..];
    OnlyPlaceholder(children, p);
    StripAllNone(pre);
    StripAllLast(upto, pre, children[p]);
    StripAllPlain(upto, post);
    Rejoin(children, p + 1);
  }

  lemma Rejoin(s: seq<Node>, k: nat)
    requires k <= |s|
    ensures s[..k] + s[k..] == s
  {
  }

  lemma OnlyPlaceholder(children: seq<Node>, p: nat)
    requires p < |children|
    requires forall k :: 0 <= k < |children| && k != p ==> !IsPlaceholder(children[k])
    ensures NoPlaceholder(children[..p]) && NoPlaceholder(children[p + 1..])
    ensures children[..p + 1] == children[..p] + [children[p]]
  {
    var post := children[p + 1..];
    forall k | 0 <= k < |post|
      ensures !IsPlaceholder(post[k])
    {
      assert post[k] == children[p + 1 + k];
    }
  }

  /** With at most one placeholder the code as written does what the
      intended stripping does. */
  lemma StripAgrees(children: seq<Node>)
    requires forall j, k :: 0 <= j < k < |children| && IsPlaceholder(children[j]) ==> !IsPlaceholder(children[k])
    ensures RangeStrip(children) == Some(StripAll(children))
  {
    if p :| 0 <= p < |children| && IsPlaceholder(children[p]) {
      StripOne(children, p);
      StripAllOne(children, p);
    } else {
      StripNone(children);
      StripAllNone(children);
    }
  }


  /** The constructors with the intended stripping: the node is named after
      its block, holds every child but the placeholders, in order, and
      never panics. */
  function BuiltIntended(name: string, node: Node): (r: Node)
    ensures r.NonTerminal? && r.name == name && NoPlaceholder(r.children)
    ensures forall x :: x in r.children <==> x in Children(node) && !IsPlaceholder(x)
  {
    StripAllFilters(Children(node));
    NonTerminal(name, StripAll(Children(node)).0, StripAll(Children(node)).1)
  }

  /** With at most one placeholder the constructors as written build the
      intended node. */
  lemma BuiltAgrees(name: string, node: Node)
    requires forall j, k :: 0 <= j < k < |Children(node)| && IsPlaceholder(Children(node)[j]) ==> !IsPlaceholder(Children(node)[k])
    ensures Built(name, node) == Some(BuiltIntended(name, node))
  {
    StripAgrees(Children(node));
  }

}
