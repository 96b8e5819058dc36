/** `flatten_node`: a pre-order walk of the rule tree that emits flat CSS
    lines with fully composed selectors. */
module CssFlatten {
  import opened CssText
  import opened CssTree

  /** The selector of an ordinary rule nested under `prefix`:
      with no prefix the selector itself; a leading `&` is replaced by the
      prefix with no space; otherwise prefix and selector are joined by one
      space. The result always begins with the prefix. */
  function Compose(prefix: string, selector: string): (r: string)
    ensures prefix <= r
    ensures prefix == "" ==> r == selector
    ensures prefix != "" ==>
              r[|prefix|..] == if |selector| > 0 && selector[0] == '&' then selector[1..] else " " + selector
  {
    if prefix != "" then
      if |selector| > 0 && selector[0] == '&' then prefix + selector[1..]
      else prefix + " " + selector
    else selector
  }

  /** Each property on its own line behind `pad`. */
  function Indented(pad: string, properties: seq<string>): (r: seq<string>)
    ensures |r| == |properties|
    ensures forall i | 0 <= i < |r| :: r[i] == pad + properties[i]
  {
    if properties == [] then [] else [pad + properties[0]] + Indented(pad, properties[1..])
  }

  /** An at-rule's own properties: wrapped in a synthetic
      `prefix { ... }` block when a prefix is active, listed bare otherwise. */
  function AtRuleOwnLines(properties: seq<string>, prefix: string): seq<string> {
    if properties == [] then []
    else if prefix != "" then ["  " + prefix + " {"] + Indented("    ", properties) + ["  }"]
    else Indented("  ", properties)
  }

  /** The lines `flatten_node(n, prefix, results)` appends to `results`. A
      node whose selector is "root" emits nothing of its own; an at-rule is
      wrapped in `<selector> {` ... `}` around its own properties and its
      children's lines; an ordinary rule emits one block under its composed
      selector when it has properties, then its children's lines. */
  function Flatten(n: Node, prefix: string): (r: seq<string>)
    ensures n.IsRoot() ==> r == FlattenAll(n.children, prefix)
    ensures !n.IsRoot() && n.IsAtRule() ==>
              |r| >= 2 && r[0] == n.selector + " {" && r[|r| - 1] == "}"
    ensures !n.IsRoot() && n.IsAtRule() ==>
              var rest := FlattenAll(n.children, prefix);
              |r| >= 2 + |rest| && r[|r| - 1 - |rest|..|r| - 1] == rest
    ensures !n.IsRoot() && n.IsAtRule() ==>
              |r| == 2 + |AtRuleOwnLines(n.properties, prefix)| + |FlattenAll(n.children, prefix)|
    ensures !n.IsRoot() && n.IsAtRule() && n.properties == [] ==>
              r == [n.selector + " {"] + FlattenAll(n.children, prefix) + ["}"]
    ensures !n.IsRoot() && !n.IsAtRule() && n.properties != [] ==>
              |r| >= 2 + |n.properties| && r[0] == Compose(prefix, n.selector) + " {"
              && r[|n.properties| + 1] == "}"
              && r[|n.properties| + 2..] == FlattenAll(n.children, Compose(prefix, n.selector))
    ensures !n.IsRoot() && !n.IsAtRule() && n.properties == [] ==>
              r == FlattenAll(n.children, Compose(prefix, n.selector))
    decreases n
  {
    if n.IsRoot() then
      FlattenAll(n.children, prefix)
    else if n.IsAtRule() then
      [n.selector + " {"] + AtRuleOwnLines(n.properties, prefix) + FlattenAll(n.children, prefix) + ["}"]
    else
      var selector := Compose(prefix, n.selector);
      var own := if n.properties != [] then [selector + " {"] + Indented("  ", n.properties) + ["}"] else [];
      own + FlattenAll(n.children, selector)
  }

  /** The lines of sibling nodes, each flattened in turn under the same prefix. */
  function FlattenAll(ns: seq<Node>, prefix: string): seq<string>
    decreases ns
  {
    if ns == [] then [] else Flatten(ns[0], prefix) + FlattenAll(ns[1..], prefix)
  }

  /** The lines between a one-line header and whatever follows them. */
  lemma Middle(header: string, x: seq<string>, y: seq<string>, z: seq<string>)
    ensures var r := [header] + x + y + z;
            |r| == 1 + |x| + |y| + |z| && r[1..|x| + 1] == x
  {
    var r := [header] + x + y + z;
    assert forall i | 0 <= i < |x| :: r[1 + i] == x[i];
  }

  /** A block nested right after a one-line header: its opening line, its
      body and its closing line, in that order. */
  lemma Nested(header: string, open: string, body: seq<string>, close: string,
               y: seq<string>, z: seq<string>)
    ensures var r := [header] + ([open] + body + [close]) + y + z;
            |r| >= |body| + 3 && r[1] == open && r[2..|body| + 2] == body && r[|body| + 2] == close
  {
    var r := [header] + ([open] + body + [close]) + y + z;
    assert forall i | 0 <= i < |body| :: r[2 + i] == body[i];
  }

  /** Under an active prefix an at-rule wraps its own properties in the
      synthetic block `  <prefix> {`, indented by four spaces and closed by
      `  }`, right after its header. */
  lemma AtRuleWrapped(n: Node, prefix: string)
    requires !n.IsRoot() && n.IsAtRule() && n.properties != [] && prefix != ""
    ensures var r := Flatten(n, prefix);
            var m := |n.properties|;
            |r| >= m + 3 && r[1] == "  " + prefix + " {"
            && r[2..m + 2] == Indented("    ", n.properties) && r[m + 2] == "  }"
  {
    var header := n.selector + " {";
    var open := "  " + prefix + " {";
    var body := Indented("    ", n.properties);
    var rest := FlattenAll(n.children, prefix);
    assert AtRuleOwnLines(n.properties, prefix) == [open] + body + ["  }"];
    assert Flatten(n, prefix) == [header] + ([open] + body + ["  }"]) + rest + ["}"];
    Nested(header, open, body, "  }", rest, ["}"]);
  }

  /** With no prefix an at-rule lists its own properties bare, indented by
      two spaces, right after its header. */
  lemma AtRuleBare(n: Node)
    requires !n.IsRoot() && n.IsAtRule()
    ensures var r := Flatten(n, "");
            |r| >= |n.properties| + 2 && r[1..|n.properties| + 1] == Indented("  ", n.properties)
  {
    var header := n.selector + " {";
    var own := Indented("  ", n.properties);
    var rest := FlattenAll(n.children, "");
    if n.properties == [] {
      assert AtRuleOwnLines(n.properties, "") == [] == own;
    } else {
      assert AtRuleOwnLines(n.properties, "") == own;
    }
    assert Flatten(n, "") == [header] + own + rest + ["}"];
    Middle(header, own, rest, ["}"]);
  }

  /** An ordinary rule with properties lists them, indented by two spaces,
      right after its header. */
  lemma RuleBody(n: Node, prefix: string)
    requires !n.IsRoot() && !n.IsAtRule() && n.properties != []
    ensures var r := Flatten(n, prefix);
            |r| >= |n.properties| + 2 && r[1..|n.properties| + 1] == Indented("  ", n.properties)
  {
    var selector := Compose(prefix, n.selector);
    var header := selector + " {";
    var body := Indented("  ", n.properties);
    var rest := FlattenAll(n.children, selector);
    assert Flatten(n, prefix) == [header] + body + ["}"] + rest;
    Middle(header, body, ["}"], rest);
  }

  /** Siblings keep source order: flattening two runs of siblings is
      flattening each in turn. */
  lemma {:induction false} FlattenAllAppend(a: seq<Node>, b: seq<Node>, prefix: string)
    ensures FlattenAll(a + b, prefix) == FlattenAll(a, prefix) + FlattenAll(b, prefix)
  {
    if a != [] {
      assert (a + b)[0] == a[0] && (a + b)[1..] == a[1..] + b;
      var head := Flatten(a[0], prefix);
      calc {
        FlattenAll(a + b, prefix);
        head + FlattenAll(a[1..] + b, prefix);
        { FlattenAllAppend(a[1..], b, prefix); }
        head + (FlattenAll(a[1..], prefix) + FlattenAll(b, prefix));
        (head + FlattenAll(a[1..], prefix)) + FlattenAll(b, prefix);
      }
    } else {
      assert a + b == b;
    }
  }

  // ---------------------------------------------------------------------
  // Brace balance of the output
  // ---------------------------------------------------------------------

  /** A line that opens a block: every header ends in `{`. */
  predicate OpensBlock(line: string) {
    |line| > 0 && line[|line| - 1] == '{'
  }

  /** A line that closes a block: `}` or the synthetic wrapper's `  }`. */
  predicate ClosesBlock(line: string) {
    line == "}" || line == "  }"
  }

  function Delta(line: string): int {
    if OpensBlock(line) then 1 else if ClosesBlock(line) then -1 else 0
  }

  /** Blocks opened minus blocks closed. */
  function Level(lines: seq<string>): int {
    if lines == [] then 0 else Delta(lines[0]) + Level(lines[1..])
  }

  /** Starting at nesting depth `base`, no prefix of `lines` closes more
      blocks than are open. */
  predicate NeverBelow(lines: seq<string>, base: int) {
    base >= 0 && (lines == [] || NeverBelow(lines[1..], base + Delta(lines[0])))
  }

  /** Every `{` line is matched by a later `}` line and vice versa. */
  predicate Balanced(lines: seq<string>) {
    NeverBelow(lines, 0) && Level(lines) == 0
  }

  lemma {:induction false} Concatenated(a: seq<string>, b: seq<string>, base: int)
    ensures Level(a + b) == Level(a) + Level(b)
    ensures NeverBelow(a, base) && NeverBelow(b, base + Level(a)) ==> NeverBelow(a + b, base)
  {
    if a != [] {
      assert (a + b)[0] == a[0] && (a + b)[1..] == a[1..] + b;
      Concatenated(a[1..], b, base + Delta(a[0]));
    } else {
      assert a + b == b;
    }
  }

  lemma {:induction false} Raised(lines: seq<string>, base: int, higher: int)
    requires NeverBelow(lines, base) && base <= higher
    ensures NeverBelow(lines, higher)
  {
    if lines != [] {
      Raised(lines[1..], base + Delta(lines[0]), higher + Delta(lines[0]));
    }
  }

  lemma BalancedConcat(a: seq<string>, b: seq<string>)
    requires Balanced(a) && Balanced(b)
    ensures Balanced(a + b)
  {
    Concatenated(a, b, 0);
  }

  /** A balanced run between an opening and a closing line is balanced. */
  lemma BalancedWrap(open: string, x: seq<string>, close: string)
    requires OpensBlock(open) && ClosesBlock(close) && Balanced(x)
    ensures Balanced([open] + x + [close])
  {
    Raised(x, 0, 1);
    Concatenated(x, [close], 1);
    assert NeverBelow([close], 1 + Level(x));
    assert ([open] + x + [close])[1..] == x + [close];
    Concatenated([open], x + [close], 0);
  }

  /** An indented declaration is a body line and strips back to itself. */
  lemma DeclarationLine(pad: string, p: string)
    requires pad == "  " || pad == "    "
    requires IsDeclaration(p)
    ensures IsBodyLine(pad + p) && Delta(pad + p) == 0
    ensures Strip(pad + p) == p
  {
    var line := pad + p;
    assert line[|line| - 1] == p[|p| - 1];
    assert !ClosesBlock(line) by {
      assert "}"[0] == '}' && "  }"[2] == '}';
    }
    assert AllSpace(pad) by { assert IsSpace(' '); }
    assert line == pad + p + [];
    StripPadded(pad, p, []);
  }

  /** Declaration lines neither open nor close a block. */
  lemma {:induction false} IndentedBalanced(pad: string, properties: seq<string>, base: int)
    requires pad == "  " || pad == "    "
    requires base >= 0
    requires forall i | 0 <= i < |properties| :: IsDeclaration(properties[i])
    ensures NeverBelow(Indented(pad, properties), base) && Level(Indented(pad, properties)) == 0
  {
    if properties != [] {
      DeclarationLine(pad, properties[0]);
      IndentedBalanced(pad, properties[1..], base);
    }
  }

  lemma AtRuleOwnLinesBalanced(properties: seq<string>, prefix: string)
    requires forall i | 0 <= i < |properties| :: IsDeclaration(properties[i])
    ensures Balanced(AtRuleOwnLines(properties, prefix))
  {
    if properties != [] {
      if prefix != "" {
        IndentedBalanced("    ", properties, 0);
        BalancedWrap("  " + prefix + " {", Indented("    ", properties), "  }");
      } else {
        IndentedBalanced("  ", properties, 0);
      }
    }
  }

  /** The flattened output of a tree whose properties are declarations is
      brace-balanced: header lines ending in `{` and `}` lines match one for
      one, and no prefix closes more than it opened. */
  lemma {:induction false} FlattenBalanced(n: Node, prefix: string)
    requires WellFormed(n)
    ensures Balanced(Flatten(n, prefix))
    decreases n, 1
  {
    if n.IsRoot() {
      FlattenAllBalanced(n.children, prefix);
    } else if n.IsAtRule() {
      AtRuleOwnLinesBalanced(n.properties, prefix);
      FlattenAllBalanced(n.children, prefix);
      var own := AtRuleOwnLines(n.properties, prefix);
      var rest := FlattenAll(n.children, prefix);
      BalancedConcat(own, rest);
      BalancedWrap(n.selector + " {", own + rest, "}");
      AtRuleLines(n, prefix);
    } else {
      var selector := Compose(prefix, n.selector);
      FlattenAllBalanced(n.children, selector);
      var rest := FlattenAll(n.children, selector);
      if n.properties != [] {
        IndentedBalanced("  ", n.properties, 0);
        var body := Indented("  ", n.properties);
        BalancedWrap(selector + " {", body, "}");
        BalancedConcat([selector + " {"] + body + ["}"], rest);
      }
    }
  }

  lemma {:induction false} FlattenAllBalanced(ns: seq<Node>, prefix: string)
    requires forall i | 0 <= i < |ns| :: WellFormed(ns[i])
    ensures Balanced(FlattenAll(ns, prefix))
    decreases ns, 0
  {
    if ns != [] {
      FlattenBalanced(ns[0], prefix);
      FlattenAllBalanced(ns[1..], prefix);
      BalancedConcat(Flatten(ns[0], prefix), FlattenAll(ns[1..], prefix));
    }
  }

  // ---------------------------------------------------------------------
  // Declarations are carried over verbatim, in pre-order
  // ---------------------------------------------------------------------

  /** A line that is neither a header nor a closing brace. */
  predicate IsBodyLine(line: string) {
    !OpensBlock(line) && !ClosesBlock(line)
  }

  /** The declarations a run of output lines carries, indentation stripped. */
  function Declarations(lines: seq<string>): seq<string> {
    if lines == [] then []
    else (if IsBodyLine(lines[0]) then [Strip(lines[0])] else []) + Declarations(lines[1..])
  }

  lemma {:induction false} DeclarationsAppend(a: seq<string>, b: seq<string>)
    ensures Declarations(a + b) == Declarations(a) + Declarations(b)
  {
    if a != [] {
      assert (a + b)[0] == a[0] && (a + b)[1..] == a[1..] + b;
      DeclarationsAppend(a[1..], b);
    } else {
      assert a + b == b;
    }
  }

  /** The properties of the nodes the flattener emits, in pre-order: nodes
      whose selector is "root" contribute their children's only. */
  function Properties(n: Node): seq<string>
    decreases n
  {
    (if n.IsRoot() then [] else n.properties) + ForestProperties(n.children)
  }

  function ForestProperties(ns: seq<Node>): seq<string>
    decreases ns
  {
    if ns == [] then [] else Properties(ns[0]) + ForestProperties(ns[1..])
  }

  lemma {:induction false} IndentedDeclarations(pad: string, properties: seq<string>)
    requires pad == "  " || pad == "    "
    requires forall i | 0 <= i < |properties| :: IsDeclaration(properties[i])
    ensures Declarations(Indented(pad, properties)) == properties
  {
    if properties != [] {
      DeclarationLine(pad, properties[0]);
      IndentedDeclarations(pad, properties[1..]);
    }
  }

  lemma AtRuleOwnDeclarations(properties: seq<string>, prefix: string)
    requires forall i | 0 <= i < |properties| :: IsDeclaration(properties[i])
    ensures Declarations(AtRuleOwnLines(properties, prefix)) == properties
  {
    if properties != [] {
      if prefix != "" {
        IndentedDeclarations("    ", properties);
        DeclarationsWrapped("  " + prefix + " {", Indented("    ", properties), "  }");
      } else {
        IndentedDeclarations("  ", properties);
      }
    }
  }

  /** Nothing is lost, invented or reordered: the body lines of the output,
      stripped of indentation, are exactly the properties of the emitted
      nodes in pre-order. */
  lemma {:induction false} FlattenDeclarations(n: Node, prefix: string)
    requires WellFormed(n)
    ensures Declarations(Flatten(n, prefix)) == Properties(n)
    decreases n, 2
  {
    if n.IsRoot() {
      FlattenAllDeclarations(n.children, prefix);
    } else if n.IsAtRule() {
      AtRuleDeclarations(n, prefix);
    } else {
      RuleDeclarations(n, prefix);
    }
  }

  lemma {:induction false} AtRuleDeclarations(n: Node, prefix: string)
    requires WellFormed(n) && !n.IsRoot() && n.IsAtRule()
    ensures Declarations(Flatten(n, prefix)) == Properties(n)
    decreases n, 1
  {
    var own := AtRuleOwnLines(n.properties, prefix);
    var rest := FlattenAll(n.children, prefix);
    AtRuleLines(n, prefix);
    AtRuleOwnDeclarations(n.properties, prefix);
    FlattenAllDeclarations(n.children, prefix);
    DeclarationsAppend(own, rest);
    DeclarationsWrapped(n.selector + " {", own + rest, "}");
  }

  /** An at-rule's lines: its header, its own lines and its children's
      lines under the unchanged prefix, then `}`. */
  lemma AtRuleLines(n: Node, prefix: string)
    requires !n.IsRoot() && n.IsAtRule()
    ensures Flatten(n, prefix)
            == [n.selector + " {"] + (AtRuleOwnLines(n.properties, prefix) + FlattenAll(n.children, prefix)) + ["}"]
  {
  }

  /** A header and a closing line carry no declarations. */
  lemma DeclarationsWrapped(header: string, x: seq<string>, close: string)
    requires OpensBlock(header) && ClosesBlock(close)
    ensures Declarations([header] + x + [close]) == Declarations(x)
  {
    DeclarationsAppend([header], x);
    DeclarationsAppend([header] + x, [close]);
  }

  lemma {:induction false} RuleDeclarations(n: Node, prefix: string)
    requires WellFormed(n) && !n.IsRoot() && !n.IsAtRule()
    ensures Declarations(Flatten(n, prefix)) == Properties(n)
    decreases n, 1
  {
    var selector := Compose(prefix, n.selector);
    var rest := FlattenAll(n.children, selector);
    FlattenAllDeclarations(n.children, selector);
    if n.properties != [] {
      var header := selector + " {";
      var body := Indented("  ", n.properties);
      assert Flatten(n, prefix) == ([header] + body + ["}"]) + rest;
      IndentedDeclarations("  ", n.properties);
      DeclarationsWrapped(header, body, "}");
      DeclarationsAppend([header] + body + ["}"], rest);
    } else {
      assert Flatten(n, prefix) == rest;
    }
  }

  lemma {:induction false} FlattenAllDeclarations(ns: seq<Node>, prefix: string)
    requires forall i | 0 <= i < |ns| :: WellFormed(ns[i])
    ensures Declarations(FlattenAll(ns, prefix)) == ForestProperties(ns)
    decreases ns, 0
  {
    if ns != [] {
      FlattenDeclarations(ns[0], prefix);
      FlattenAllDeclarations(ns[1..], prefix);
      DeclarationsAppend(Flatten(ns[0], prefix), FlattenAll(ns[1..], prefix));
    }
  }

  // ---------------------------------------------------------------------
  // Every header carries the enclosing selector
  // ---------------------------------------------------------------------

  /** Every line of `lines` that opens a block begins with `prefix`, or is an
      at-rule header, or is the synthetic wrapper `"  " + selector + " {"`
      whose selector begins with `prefix`. */
  predicate HeadersUnder(lines: seq<string>, prefix: string) {
    forall i | 0 <= i < |lines| :: OpensBlock(lines[i]) ==>
      prefix <= lines[i] || lines[i][0] == '@' || "  " + prefix <= lines[i]
  }

  lemma HeadersUnderConcat(a: seq<string>, b: seq<string>, prefix: string)
    requires HeadersUnder(a, prefix) && HeadersUnder(b, prefix)
    ensures HeadersUnder(a + b, prefix)
  {
    forall i | 0 <= i < |a + b| && OpensBlock((a + b)[i])
      ensures prefix <= (a + b)[i] || (a + b)[i][0] == '@' || "  " + prefix <= (a + b)[i]
    {
      if i < |a| { assert (a + b)[i] == a[i]; } else { assert (a + b)[i] == b[i - |a|]; }
    }
  }

  /** A prefix of a prefix is a prefix: headers under a longer selector are
      headers under any selector it begins with. */
  lemma HeadersUnderShorter(lines: seq<string>, longer: string, prefix: string)
    requires HeadersUnder(lines, longer) && prefix <= longer
    ensures HeadersUnder(lines, prefix)
  {
    forall i | 0 <= i < |lines| && OpensBlock(lines[i])
      ensures prefix <= lines[i] || lines[i][0] == '@' || "  " + prefix <= lines[i]
    {
      if longer <= lines[i] {
        assert lines[i][..|prefix|] == longer[..|prefix|];
      } else if "  " + longer <= lines[i] {
        assert ("  " + longer)[..|prefix| + 2] == "  " + prefix;
      }
    }
  }

  lemma IndentedNoHeaders(pad: string, properties: seq<string>, prefix: string)
    requires forall i | 0 <= i < |properties| :: IsDeclaration(properties[i])
    ensures HeadersUnder(Indented(pad, properties), prefix)
  {
    var r := Indented(pad, properties);
    forall i | 0 <= i < |r| ensures !OpensBlock(r[i]) {
      var p := properties[i];
      assert IsDeclaration(p);
      assert r[i][|r[i]| - 1] == p[|p| - 1];
    }
  }

  /** Selector composition only ever extends the selector a node is
      flattened under: each header of the output begins with it, except
      an at-rule's own header, whose synthetic wrapper carries it instead. */
  lemma {:induction false} FlattenHeaders(n: Node, prefix: string)
    requires WellFormed(n)
    ensures HeadersUnder(Flatten(n, prefix), prefix)
    ensures !n.IsRoot() && !n.IsAtRule() ==>
              HeadersUnder(Flatten(n, prefix)[(if n.properties == [] then 0 else |n.properties| + 2)..],
                           Compose(prefix, n.selector))
    decreases n, 1
  {
    if n.IsRoot() {
      FlattenAllHeaders(n.children, prefix);
    } else if n.IsAtRule() {
      var header := n.selector + " {";
      var own := AtRuleOwnLines(n.properties, prefix);
      var rest := FlattenAll(n.children, prefix);
      assert HeadersUnder([header], prefix) by { assert header[0] == '@'; }
      assert HeadersUnder(own, prefix) by {
        if n.properties != [] {
          if prefix != "" {
            var body := Indented("    ", n.properties);
            IndentedNoHeaders("    ", n.properties, prefix);
            assert HeadersUnder(["  " + prefix + " {"], prefix);
            assert HeadersUnder(["  }"], prefix);
            HeadersUnderConcat(["  " + prefix + " {"], body, prefix);
            HeadersUnderConcat(["  " + prefix + " {"] + body, ["  }"], prefix);
          } else {
            IndentedNoHeaders("  ", n.properties, prefix);
          }
        }
      }
      FlattenAllHeaders(n.children, prefix);
      assert HeadersUnder(["}"], prefix);
      HeadersUnderConcat([header], own, prefix);
      HeadersUnderConcat([header] + own, rest, prefix);
      HeadersUnderConcat([header] + own + rest, ["}"], prefix);
    } else {
      var selector := Compose(prefix, n.selector);
      var rest := FlattenAll(n.children, selector);
      FlattenAllHeaders(n.children, selector);
      HeadersUnderShorter(rest, selector, prefix);
      if n.properties != [] {
        var body := Indented("  ", n.properties);
        assert HeadersUnder([selector + " {"], prefix);
        IndentedNoHeaders("  ", n.properties, prefix);
        assert HeadersUnder(["}"], prefix);
        HeadersUnderConcat([selector + " {"], body, prefix);
        HeadersUnderConcat([selector + " {"] + body, ["}"], prefix);
        HeadersUnderConcat([selector + " {"] + body + ["}"], rest, prefix);
      }
    }
  }

  lemma {:induction false} FlattenAllHeaders(ns: seq<Node>, prefix: string)
    requires forall i | 0 <= i < |ns| :: WellFormed(ns[i])
    ensures HeadersUnder(FlattenAll(ns, prefix), prefix)
    decreases ns, 0
  {
    if ns != [] {
      FlattenHeaders(ns[0], prefix);
      FlattenAllHeaders(ns[1..], prefix);
      HeadersUnderConcat(Flatten(ns[0], prefix), FlattenAll(ns[1..], prefix), prefix);
    }
  }

  /** Worked example: `&:hover` nested in `.card` becomes `.card:hover`. */
  lemma ParentReferenceExample()
    ensures Flatten(Node("&:hover", [], ["color: blue;"]), ".card")
            == [".card:hover {", "  color: blue;", "}"]
  {
    var n := Node("&:hover", [], ["color: blue;"]);
    assert !n.IsRoot() && !n.IsAtRule() by { assert n.selector[0] == '&'; }
    assert Compose(".card", "&:hover") == ".card:hover" by {
      assert "&:hover"[1..] == ":hover";
      assert ".card" + ":hover" == ".card:hover";
    }
    assert ".card:hover" + " {" == ".card:hover {";
    assert Indented("  ", ["color: blue;"]) == ["  color: blue;"] by {
      assert Indented("  ", ["color: blue;"])[0] == "  " + "color: blue;";
      assert "  " + "color: blue;" == "  color: blue;";
    }
    assert FlattenAll([], ".card:hover") == [];
  }

  /** Worked example: `p` nested in `.card` becomes `.card p`. */
  lemma DescendantExample()
    ensures Flatten(Node("p", [], ["margin: 0;"]), ".card") == [".card p {", "  margin: 0;", "}"]
  {
    var p := Node("p", [], ["margin: 0;"]);
    assert !p.IsRoot() && !p.IsAtRule() by { assert |p.selector| == 1; }
    assert Compose(".card", "p") == ".card p" by {
      assert ".card" + " " + "p" == ".card p";
    }
    assert ".card p" + " {" == ".card p {";
    assert Indented("  ", ["margin: 0;"]) == ["  margin: 0;"] by {
      assert Indented("  ", ["margin: 0;"])[0] == "  " + "margin: 0;";
      assert "  " + "margin: 0;" == "  margin: 0;";
    }
    assert FlattenAll([], ".card p") == [];
    assert Flatten(p, ".card")
           == [".card p" + " {"] + Indented("  ", p.properties) + ["}"] + FlattenAll([], ".card p");
  }

  /** Worked example: an `@media` block nested in `.card` is hoisted, and its
      own declarations are wrapped in a `.card` block inside it. */
  lemma AtRuleExample()
    ensures Flatten(Node("@media (max-width: 600px)", [], ["padding: 0;"]), ".card")
            == ["@media (max-width: 600px) {", "  .card {", "    padding: 0;", "  }", "}"]
  {
    var n := Node("@media (max-width: 600px)", [], ["padding: 0;"]);
    assert !n.IsRoot() && n.IsAtRule() by { assert n.selector[0] == '@'; }
    assert "@media (max-width: 600px)" + " {" == "@media (max-width: 600px) {";
    assert "  " + ".card" + " {" == "  .card {";
    assert FlattenAll([], ".card") == [];
    assert Indented("    ", ["padding: 0;"]) == ["    padding: 0;"] by {
      assert Indented("    ", ["padding: 0;"])[0] == "    " + "padding: 0;";
      assert "    " + "padding: 0;" == "    padding: 0;";
    }
  }
}
