/** The body of `replace_style`: the text of one `<style>` block is parsed,
    flattened from the empty prefix and joined back between its tags. */
module StyleBlock {
  import opened CssText
  import opened CssTree
  import opened CssParser
  import opened CssFlatten

  /** The flat lines of a style sheet: its rule tree flattened from the
      empty prefix. */
  function ExpandedLines(css: string): seq<string> {
    Flatten(ParseCss(css), "")
  }

  /** One style block rewritten. A block whose text is all whitespace comes
      back byte for byte; any other block keeps both tags verbatim and gets
      the flattened lines, joined by newlines, on lines of their own between
      them. A block that flattens to nothing (only comments, or only
      declarations outside any rule) becomes the two tags around an empty
      line. */
  method ReplaceStyle(openTag: string, css: string, closeTag: string) returns (r: string)
    ensures Strip(css) == [] ==> r == openTag + css + closeTag
    ensures Strip(css) != [] ==>
              r == openTag + "\n" + Join(ExpandedLines(css), "\n") + "\n" + closeTag
    ensures Strip(css) != [] && ExpandedLines(css) == [] ==> r == openTag + "\n\n" + closeTag
  {
    if Strip(css) == [] {
      return openTag + css + closeTag;
    }
    var root := Parse(css);
    var lines := Flatten(root, "");
    var flat := Join(lines, "\n");
    r := openTag + "\n" + flat + "\n" + closeTag;
    assert flat == [] ==> "\n" + flat + "\n" == "\n\n";
  }

  /** What the flattened lines hold: their braces balance, and between the
      headers and closing braces stand exactly the properties of every node
      not named `root`, stripped, node by node in pre-order: a rule's own
      declarations before those of its nested rules, siblings in source
      order. Declarations written outside any rule belong to the root and
      do not appear. */
  lemma ExpansionSound(css: string)
    ensures Balanced(ExpandedLines(css))
    ensures Declarations(ExpandedLines(css)) == ForestProperties(ParseCss(css).children)
    ensures forall i | 0 <= i < |Declarations(ExpandedLines(css))| ::
              IsDeclaration(Declarations(ExpandedLines(css))[i])
  {
    var text := StripComments(css);
    ScanWellFormed(text, |text|);
    var root := ParseCss(css);
    assert root.IsRoot();
    FlattenBalanced(root, "");
    FlattenDeclarations(root, "");
    assert Properties(root) == ForestProperties(root.children);
    ForestPropertiesAreDeclarations(root.children);
  }

  lemma {:induction false} PropertiesAreDeclarations(n: Node)
    requires WellFormed(n)
    ensures forall i | 0 <= i < |Properties(n)| :: IsDeclaration(Properties(n)[i])
    decreases n, 1
  {
    var own := if n.IsRoot() then [] else n.properties;
    ForestPropertiesAreDeclarations(n.children);
    assert Properties(n) == own + ForestProperties(n.children);
  }

  lemma {:induction false} ForestPropertiesAreDeclarations(ns: seq<Node>)
    requires forall i | 0 <= i < |ns| :: WellFormed(ns[i])
    ensures forall i | 0 <= i < |ForestProperties(ns)| :: IsDeclaration(ForestProperties(ns)[i])
    decreases ns, 0
  {
    if ns != [] {
      PropertiesAreDeclarations(ns[0]);
      ForestPropertiesAreDeclarations(ns[1..]);
    }
  }
}
