/** The parse tree goparsec builds: terminals carry the matched text,
    non-terminals carry children and string-list attributes. */
module Ast {

  type Attributes = map<string, seq<string>>

  datatype Node =
    | Terminal(name: string, value: string)
    | NonTerminal(name: string, children: seq<Node>, attributes: Attributes)

  /** `GetValue`: a terminal's text, or the concatenated values of a
      non-terminal's children. */
  function Value(n: Node): string {
    match n
    case Terminal(_, v) => v
    case NonTerminal(_, cs, _) => Values(cs)
  }

  function Values(ns: seq<Node>): string {
    if ns == [] then "" else Value(ns[0]) + Values(ns[1..])
  }

  /** `GetChildren`: a terminal has none. */
  function Children(n: Node): seq<Node> {
    if n.NonTerminal? then n.children else []
  }

  lemma {:induction false} ValuesAppend(a: seq<Node>, b: seq<Node>)
    ensures Values(a + b) == Values(a) + Values(b)
    decreases |a|
  {
    if a == [] {
      assert a + b == b;
    } else {
      assert (a + b)[1..] == a[1..] + b;
      ValuesAppend(a[1..], b);
    }
  }

}
