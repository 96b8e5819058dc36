/** The rule tree the scanner builds and the flattener walks. */
module CssTree {
  import opened CssText

  /** The selector the scanner gives the root, and the one the flattener
      treats as "the root" wherever it occurs. */
  const RootSelector: string := "root"

  /** A rule-tree vertex: raw selector or at-rule text, its nested blocks in
      source order and its own declaration fragments in source order. */
  datatype Node = Node(selector: string, children: seq<Node>, properties: seq<string>)
  {
    /** `is_at_rule`: the selector starts with `@`. */
    predicate IsAtRule() {
      |selector| > 0 && selector[0] == '@'
    }

    predicate IsRoot() {
      selector == RootSelector
    }
  }

  /** A fresh node, as the scanner creates it at `{`. */
  function Leaf(selector: string): (n: Node)
    ensures n.selector == selector && n.children == [] && n.properties == []
    ensures NodeCount(n) == 1 && Spine(n) == 0 && WellFormed(n)
  {
    Node(selector, [], [])
  }

  /** Number of nodes in the tree, the node itself included. */
  function NodeCount(n: Node): nat {
    1 + ForestCount(n.children)
  }

  function ForestCount(ns: seq<Node>): nat {
    if ns == [] then 0 else NodeCount(ns[0]) + ForestCount(ns[1..])
  }

  lemma {:induction false} ForestCountAppend(ns: seq<Node>, c: Node)
    ensures ForestCount(ns + [c]) == ForestCount(ns) + NodeCount(c)
  {
    if ns != [] {
      assert (ns + [c])[1..] == ns[1..] + [c];
      ForestCountAppend(ns[1..], c);
    }
  }

  /** A stored declaration: non-empty, already stripped, and not ending in a
      brace (the scanner never stores text that ends in a structural brace). */
  predicate IsDeclaration(p: string) {
    p != [] && Solid(p) && p[|p| - 1] != '{' && p[|p| - 1] != '}'
  }

  /** Every property of every node of the tree is a declaration. */
  predicate WellFormed(n: Node) {
    (forall i | 0 <= i < |n.properties| :: IsDeclaration(n.properties[i]))
    && (forall i | 0 <= i < |n.children| :: WellFormed(n.children[i]))
  }

  /** Depth of the rightmost path: the scanner's open nodes always lie on it,
      each the last child of the one below it on the stack. */
  function Spine(t: Node): nat {
    if t.children == [] then 0 else 1 + Spine(t.children[|t.children| - 1])
  }

  /** `stack[d]`: the node at depth `d` of the rightmost path (`stack[0]` is
      the tree itself). */
  function OpenAt(t: Node, d: nat): Node
    requires d <= Spine(t)
    decreases d
  {
    if d == 0 then t else OpenAt(t.children[|t.children| - 1], d - 1)
  }

  /** The children of `n` whose blocks are already closed: all but the last
      one, which is still open while `n` is below the top of the stack. */
  function ClosedChildren(n: Node): seq<Node> {
    if n.children == [] then [] else n.children[..|n.children| - 1]
  }

  /** `t` with its last, still open child replaced by `child`: how a change
      at depth `d + 1` of the stack shows at depth `d`. Everything else of
      `t` is kept. */
  function WithLastChild(t: Node, child: Node): (r: Node)
    requires t.children != []
    ensures r.selector == t.selector && r.properties == t.properties
    ensures ClosedChildren(r) == ClosedChildren(t)
    ensures r.children != [] && r.children[|r.children| - 1] == child
    ensures Spine(r) == 1 + Spine(child)
    ensures forall j | 0 < j <= Spine(r) :: OpenAt(r, j) == OpenAt(child, j - 1)
    ensures NodeCount(r) == NodeCount(t) - NodeCount(t.children[|t.children| - 1]) + NodeCount(child)
    ensures WellFormed(t) && WellFormed(child) ==> WellFormed(r)
  {
    var k := |t.children| - 1;
    assert t.children == t.children[..k] + [t.children[k]];
    ForestCountAppend(t.children[..k], t.children[k]);
    ForestCountAppend(t.children[..k], child);
    var r := t.(children := t.children[..k] + [child]);
    assert ClosedChildren(r) == t.children[..k];
    r
  }

  /** `stack[d].children.append(c)`, seen from the tree's root. */
  function AddChildAt(t: Node, d: nat, c: Node): (r: Node)
    requires d <= Spine(t)
    ensures Spine(r) == d + 1 + Spine(c) && r.selector == t.selector
    ensures OpenAt(r, d) == OpenAt(t, d).(children := OpenAt(t, d).children + [c])
    ensures OpenAt(r, d + 1) == c
    ensures forall k | 0 <= k < d :: OpenAt(r, k).selector == OpenAt(t, k).selector
                                    && OpenAt(r, k).properties == OpenAt(t, k).properties
                                    && ClosedChildren(OpenAt(r, k)) == ClosedChildren(OpenAt(t, k))
    ensures NodeCount(r) == NodeCount(t) + NodeCount(c)
    ensures WellFormed(t) && WellFormed(c) ==> WellFormed(r)
    decreases d
  {
    if d == 0 then
      ForestCountAppend(t.children, c);
      t.(children := t.children + [c])
    else
      var child := AddChildAt(t.children[|t.children| - 1], d - 1, c);
      WithLastChild(t, child)
  }

  /** `stack[d].properties.append(p)`, seen from the tree's root. */
  function AddPropertyAt(t: Node, d: nat, p: string): (r: Node)
    requires d <= Spine(t)
    ensures Spine(r) == Spine(t) && r.selector == t.selector
    ensures OpenAt(r, d) == OpenAt(t, d).(properties := OpenAt(t, d).properties + [p])
    ensures forall k | 0 <= k < d :: OpenAt(r, k).selector == OpenAt(t, k).selector
                                    && OpenAt(r, k).properties == OpenAt(t, k).properties
                                    && ClosedChildren(OpenAt(r, k)) == ClosedChildren(OpenAt(t, k))
    ensures NodeCount(r) == NodeCount(t)
    ensures WellFormed(t) && IsDeclaration(p) ==> WellFormed(r)
    decreases d
  {
    if d == 0 then
      t.(properties := t.properties + [p])
    else
      var child := AddPropertyAt(t.children[|t.children| - 1], d - 1, p);
      WithLastChild(t, child)
  }
}
