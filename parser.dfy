/** The scanner and tree builder of `parse_css`: a single left-to-right walk
    over the comment-stripped text that tracks string-literal state, a text
    buffer and the stack of open nodes.

    The stack is kept as its height: every open node is the last child of
    the node below it, so `stack[d]` is `OpenAt(tree, d)` and the current
    node is `OpenAt(tree, depth)`. */
module CssParser {
  import opened CssText
  import opened CssTree

  /** Lexical state: outside any string literal, or inside one opened by `quote`. */
  datatype Mode = Normal | Quoted(quote: char)

  /** The scanner's simplified escape test for a quote at index `i`: the
      character before it is a backslash that is not itself preceded by a
      backslash. Only the two preceding characters are inspected. */
  predicate Escaped(text: string, i: nat)
    requires i < |text|
  {
    i > 0 && text[i - 1] == '\\' && (i < 2 || text[i - 2] != '\\')
  }

  /** The lexical state after reading `text[i]` in state `m`. */
  function NextMode(m: Mode, text: string, i: nat): Mode
    requires i < |text|
  {
    match m
    case Quoted(q) => if text[i] == q && !Escaped(text, i) then Normal else m
    case Normal => if text[i] == '"' || text[i] == '\'' then Quoted(text[i]) else Normal
  }

  /** The lexical state before reading `text[n]`; it depends on the text
      alone, never on the tree being built. */
  function ModeAt(text: string, n: nat): (m: Mode)
    requires n <= |text|
    ensures m.Quoted? ==> m.quote == '"' || m.quote == '\''
  {
    if n == 0 then Normal else NextMode(ModeAt(text, n - 1), text, n - 1)
  }

  /** What one character means to the tree builder. */
  datatype Token = Plain(c: char) | OpenBrace | CloseBrace | Semicolon

  /** `text[i]` is a `{`, `}` or `;` outside any string literal: the only
      characters that change the tree or clear the buffer. */
  predicate Structural(text: string, i: nat)
    requires i < |text|
  {
    ModeAt(text, i) == Normal && (text[i] == '{' || text[i] == '}' || text[i] == ';')
  }

  /** The meaning of `text[i]`: inside a string literal every character,
      braces and semicolons included, is plain text. */
  function TokenAt(text: string, i: nat): (t: Token)
    requires i < |text|
    ensures ModeAt(text, i).Quoted? ==> t == Plain(text[i])
    ensures t.Plain? <==> !Structural(text, i)
    ensures t.Plain? ==> t.c == text[i]
  {
    if ModeAt(text, i).Quoted? then Plain(text[i])
    else if text[i] == '{' then OpenBrace
    else if text[i] == '}' then CloseBrace
    else if text[i] == ';' then Semicolon
    else Plain(text[i])
  }

  /** The builder's state between two characters: the tree rooted at `root`,
      `len(stack) - 1` and the text buffer. */
  datatype ScanState = ScanState(tree: Node, depth: nat, buffer: string)
  {
    predicate Valid() {
      depth <= Spine(tree)
    }

    /** The node `current` refers to: the top of the stack. */
    function Current(): Node
      requires Valid()
    {
      OpenAt(tree, depth)
    }
  }

  function Initial(): (s: ScanState)
    ensures s.Valid() && s.tree.selector == RootSelector
    ensures s.tree == Leaf(RootSelector) && s.depth == 0 && s.buffer == []
    ensures s.tree.children == [] && s.tree.properties == []
  {
    ScanState(Leaf(RootSelector), 0, "")
  }

  /** One turn of the scanning loop, given what the character means. A
      plain character (any character inside a string literal, an
      opening quote, anything but `{`, `}` and `;`) only joins the buffer;
      `{`, `}` and `;` clear it, and only `{` adds a node. */
  function Step(s: ScanState, t: Token): (r: ScanState)
    requires s.Valid()
    ensures r.Valid() && r.tree.selector == s.tree.selector
    ensures t.Plain? ==> r == s.(buffer := s.buffer + [t.c])
    ensures !t.Plain? ==> r.buffer == []
    ensures NodeCount(r.tree) == NodeCount(s.tree) + (if t == OpenBrace then 1 else 0)
  {
    match t
    case Plain(c) =>
      s.(buffer := s.buffer + [c])
    case OpenBrace =>
      ScanState(AddChildAt(s.tree, s.depth, Leaf(Strip(s.buffer))), s.depth + 1, "")
    case CloseBrace =>
      var p := Strip(s.buffer);
      var tree := if p != [] then AddPropertyAt(s.tree, s.depth, p) else s.tree;
      ScanState(tree, if s.depth > 0 then s.depth - 1 else 0, "")
    case Semicolon =>
      var p := Strip(s.buffer + [';']);
      ScanState(if p != [] then AddPropertyAt(s.tree, s.depth, p) else s.tree, s.depth, "")
  }

  /** `{` appends exactly one new child to the end of the current node's
      children, with the trimmed buffer as its selector, and makes it current. */
  lemma StepOpen(s: ScanState)
    requires s.Valid()
    ensures var r := Step(s, OpenBrace);
            r.depth == s.depth + 1 && r.Current() == Leaf(Strip(s.buffer))
            && OpenAt(r.tree, s.depth).children == s.Current().children + [Leaf(Strip(s.buffer))]
            && OpenAt(r.tree, s.depth).properties == s.Current().properties
  {
  }

  /** `}` stores the trimmed buffer on the current node if it is non-empty,
      then pops the stack, except that the root is never popped. */
  lemma StepClose(s: ScanState)
    requires s.Valid()
    ensures var r := Step(s, CloseBrace);
            r.depth == (if s.depth > 0 then s.depth - 1 else 0) && Spine(r.tree) == Spine(s.tree)
            && OpenAt(r.tree, s.depth).properties
               == s.Current().properties + (if Strip(s.buffer) == [] then [] else [Strip(s.buffer)])
  {
  }

  /** `;` stores the trimmed buffer with its `;` on the current node; every
      property stored this way ends with `;`. */
  lemma StepSemicolon(s: ScanState)
    requires s.Valid()
    ensures var r := Step(s, Semicolon);
            var p := Strip(s.buffer + [';']);
            r.depth == s.depth && p != [] && p[|p| - 1] == ';'
            && r.Current().properties == s.Current().properties + [p]
  {
    StripAppendSolid(s.buffer, ';');
  }

  /** The state after the first `n` characters of `text`: the stack is never
      empty and its bottom is always the root. */
  function ScanTo(text: string, n: nat): (s: ScanState)
    requires n <= |text|
    ensures s.Valid() && s.tree.selector == RootSelector
  {
    if n == 0 then Initial() else Step(ScanTo(text, n - 1), TokenAt(text, n - 1))
  }

  /** The tree `parse_css` returns for comment-free text: the root, with
      every block opened so far attached, closed or not. */
  function ParseText(text: string): Node {
    ScanTo(text, |text|).tree
  }

  /** `parse_css(css)`. */
  function ParseCss(css: string): Node {
    ParseText(StripComments(css))
  }

  /** Number of `{` outside string literals among the first `n` characters. */
  function OpenCount(text: string, n: nat): nat
    requires n <= |text|
  {
    if n == 0 then 0
    else OpenCount(text, n - 1) + (if TokenAt(text, n - 1) == OpenBrace then 1 else 0)
  }

  /** Every unquoted `{` creates exactly one node, and nothing else does. */
  lemma {:induction false} NodeCountIsOpenCount(text: string, n: nat)
    requires n <= |text|
    ensures NodeCount(ScanTo(text, n).tree) == 1 + OpenCount(text, n)
  {
    if n > 0 {
      NodeCountIsOpenCount(text, n - 1);
    }
  }

  /** The buffer, once stripped, is empty or could be stored as a declaration. */
  predicate BufferOk(s: ScanState) {
    Strip(s.buffer) == [] || IsDeclaration(Strip(s.buffer))
  }

  /** A plain character keeps the tree; the stripped buffer stays storable
      if the character is not a brace and either it is not whitespace or the
      buffer was storable already. */
  lemma StepPlainKeepsBuffer(s: ScanState, c: char)
    requires s.Valid()
    requires c != '{' && c != '}' && (BufferOk(s) || !IsSpace(c))
    ensures BufferOk(Step(s, Plain(c)))
  {
    if IsSpace(c) {
      StripAppendSpace(s.buffer, c);
    } else {
      StripAppendSolid(s.buffer, c);
    }
  }

  lemma StepOpenWellFormed(s: ScanState)
    requires s.Valid() && WellFormed(s.tree)
    ensures WellFormed(Step(s, OpenBrace).tree)
  {
  }

  lemma StepCloseWellFormed(s: ScanState)
    requires s.Valid() && WellFormed(s.tree) && BufferOk(s)
    ensures WellFormed(Step(s, CloseBrace).tree)
  {
  }

  lemma StepSemicolonWellFormed(s: ScanState)
    requires s.Valid() && WellFormed(s.tree)
    ensures WellFormed(Step(s, Semicolon).tree)
  {
    StripAppendSolid(s.buffer, ';');
  }

  /** A plain character after which the scanner is outside any string
      literal is no brace, and it is not whitespace unless the scanner was
      outside a string literal before it too (otherwise it is the closing
      quote). */
  lemma PlainIntoNormal(text: string, i: nat)
    requires i < |text| && TokenAt(text, i).Plain? && ModeAt(text, i + 1) == Normal
    ensures text[i] != '{' && text[i] != '}'
    ensures ModeAt(text, i) == Normal || !IsSpace(text[i])
  {
    assert ModeAt(text, i + 1) == NextMode(ModeAt(text, i), text, i);
  }

  /** Every stored property is a stripped, non-empty declaration that does
      not end in a brace; outside a string literal the buffer, once
      stripped, is empty or such a declaration too. */
  lemma {:induction false} ScanWellFormed(text: string, n: nat)
    requires n <= |text|
    ensures WellFormed(ScanTo(text, n).tree)
    ensures ModeAt(text, n) == Normal ==> BufferOk(ScanTo(text, n))
  {
    if n > 0 {
      var i := n - 1;
      ScanWellFormed(text, i);
      var s := ScanTo(text, i);
      var t := TokenAt(text, i);
      var r := Step(s, t);
      assert ScanTo(text, n) == r;
      assert WellFormed(r.tree) by {
        match t
        case Plain(c) =>
        case OpenBrace => StepOpenWellFormed(s);
        case CloseBrace => StepCloseWellFormed(s);
        case Semicolon => StepSemicolonWellFormed(s);
      }
      assert ModeAt(text, n) == Normal ==> BufferOk(r) by {
        if ModeAt(text, n) == Normal {
          assert Strip([]) == [];
          if t.Plain? {
            PlainIntoNormal(text, i);
            StepPlainKeepsBuffer(s, t.c);
          }
        }
      }
    }
  }

  /** Text after the last structural character only goes into the buffer;
      it is attached nowhere. */
  lemma {:induction false} TrailingTextIgnored(text: string, k: nat, n: nat)
    requires k <= n <= |text|
    requires forall i | k <= i < n :: !Structural(text, i)
    ensures ScanTo(text, n).tree == ScanTo(text, k).tree
    ensures ScanTo(text, n).depth == ScanTo(text, k).depth
    ensures ScanTo(text, n).buffer == ScanTo(text, k).buffer + text[k..n]
  {
    if n > k {
      TrailingTextIgnored(text, k, n - 1);
      assert text[k..n] == text[k..n - 1] + [text[n - 1]];
    }
  }

  /** A string literal lasts until its own quote character appears without
      the escape described by `Escaped`. */
  lemma {:induction false} StaysQuoted(text: string, k: nat, n: nat)
    requires k <= n <= |text| && ModeAt(text, k).Quoted?
    requires forall i | k <= i < n :: text[i] != ModeAt(text, k).quote || Escaped(text, i)
    ensures ModeAt(text, n) == ModeAt(text, k)
  {
    if n > k {
      StaysQuoted(text, k, n - 1);
    }
  }

  /** Inside a string literal `{`, `}` and `;` are inert: until the literal's
      unescaped closing quote the tree and the stack stay as they are and
      every character only joins the buffer. */
  lemma StringLiteralInert(text: string, k: nat, n: nat)
    requires k <= n <= |text| && ModeAt(text, k).Quoted?
    requires forall i | k <= i < n :: text[i] != ModeAt(text, k).quote || Escaped(text, i)
    ensures ScanTo(text, n).tree == ScanTo(text, k).tree
    ensures ScanTo(text, n).depth == ScanTo(text, k).depth
    ensures ScanTo(text, n).buffer == ScanTo(text, k).buffer + text[k..n]
  {
    forall i | k <= i < n ensures !Structural(text, i) {
      StaysQuoted(text, k, i);
    }
    TrailingTextIgnored(text, k, n);
  }

  /** An unescaped matching quote ends the literal; an escaped one, or the
      other kind of quote, does not. */
  lemma QuoteCloses(text: string, i: nat)
    requires i < |text| && ModeAt(text, i).Quoted?
    ensures ModeAt(text, i + 1) == Normal <==> text[i] == ModeAt(text, i).quote && !Escaped(text, i)
  {
  }

  // One turn of the scanning loop, branch by branch: from the state
  // `(tree, depth, buffer)` after `i` characters, the state after `text[i]`,
  // written as the loop body computes it.

  lemma QuotedTurn(text: string, i: nat, tree: Node, depth: nat, buffer: string, quote: char)
    requires i < |text| && Agrees(text, i, tree, depth, buffer, true, quote)
    ensures Agrees(text, i + 1, tree, depth, buffer + [text[i]],
                   !(text[i] == quote && !Escaped(text, i)), quote)
  {
    assert ScanTo(text, i + 1) == Step(ScanTo(text, i), Plain(text[i]));
  }

  lemma QuoteOpensTurn(text: string, i: nat, tree: Node, depth: nat, buffer: string, quote: char)
    requires i < |text| && Agrees(text, i, tree, depth, buffer, false, quote)
    requires text[i] == '"' || text[i] == '\''
    ensures Agrees(text, i + 1, tree, depth, buffer + [text[i]], true, text[i])
  {
    assert ScanTo(text, i + 1) == Step(ScanTo(text, i), Plain(text[i]));
  }

  lemma OpenTurn(text: string, i: nat, tree: Node, depth: nat, buffer: string, quote: char)
    requires i < |text| && Agrees(text, i, tree, depth, buffer, false, quote) && text[i] == '{'
    ensures depth <= Spine(tree)
    ensures Agrees(text, i + 1, AddChildAt(tree, depth, Leaf(Strip(buffer))), depth + 1, "", false, quote)
  {
    assert TokenAt(text, i) == OpenBrace;
    assert ScanTo(text, i + 1) == Step(ScanTo(text, i), OpenBrace);
  }

  lemma CloseTurn(text: string, i: nat, tree: Node, depth: nat, buffer: string, quote: char)
    requires i < |text| && Agrees(text, i, tree, depth, buffer, false, quote) && text[i] == '}'
    ensures depth <= Spine(tree)
    ensures Agrees(text, i + 1,
                   if Strip(buffer) != [] then AddPropertyAt(tree, depth, Strip(buffer)) else tree,
                   if depth > 0 then depth - 1 else 0, "", false, quote)
  {
    assert TokenAt(text, i) == CloseBrace;
    assert ScanTo(text, i + 1) == Step(ScanTo(text, i), CloseBrace);
  }

  lemma SemicolonTurn(text: string, i: nat, tree: Node, depth: nat, buffer: string, quote: char)
    requires i < |text| && Agrees(text, i, tree, depth, buffer, false, quote) && text[i] == ';'
    ensures depth <= Spine(tree)
    ensures var p := Strip(buffer + [';']);
            Agrees(text, i + 1, if p != [] then AddPropertyAt(tree, depth, p) else tree, depth, "", false, quote)
  {
    assert TokenAt(text, i) == Semicolon;
    assert ScanTo(text, i + 1) == Step(ScanTo(text, i), Semicolon);
  }

  lemma OtherTurn(text: string, i: nat, tree: Node, depth: nat, buffer: string, quote: char)
    requires i < |text| && Agrees(text, i, tree, depth, buffer, false, quote)
    requires text[i] != '"' && text[i] != '\'' && text[i] != '{' && text[i] != '}' && text[i] != ';'
    ensures Agrees(text, i + 1, tree, depth, buffer + [text[i]], false, quote)
  {
    assert ScanTo(text, i + 1) == Step(ScanTo(text, i), Plain(text[i]));
  }

  /** The loop's variables after `i` characters: the tree, stack height and
      buffer are those of the specification, and `in_string` and
      `string_char` track the lexical state. */
  predicate Agrees(text: string, i: nat, root: Node, depth: nat, buffer: string,
                   inString: bool, stringChar: char)
    requires i <= |text|
  {
    ScanState(root, depth, buffer) == ScanTo(text, i)
    && inString == ModeAt(text, i).Quoted?
    && (inString ==> stringChar == ModeAt(text, i).quote)
  }

  /** One turn of the loop of `parse_css`: reads `text[i]`
      and returns the updated tree, stack height, buffer and string state. */
  method ScanChar(text: string, i: nat, root: Node, depth: nat, buffer: string,
                  inString: bool, stringChar: char)
    returns (tree: Node, height: nat, rest: string, quoted: bool, quote: char)
    requires i < |text| && Agrees(text, i, root, depth, buffer, inString, stringChar)
    ensures Agrees(text, i + 1, tree, height, rest, quoted, quote)
  {
    var c := text[i];
    tree, height, quoted, quote := root, depth, inString, stringChar;
    if inString {
      QuotedTurn(text, i, root, depth, buffer, stringChar);
      if c == stringChar {
        if i > 0 && text[i - 1] == '\\' && (i < 2 || text[i - 2] != '\\') {
        } else {
          quoted := false;
        }
      }
      rest := buffer + [c];
    } else if c == '"' || c == '\'' {
      QuoteOpensTurn(text, i, root, depth, buffer, stringChar);
      quoted := true;
      quote := c;
      rest := buffer + [c];
    } else if c == '{' {
      OpenTurn(text, i, root, depth, buffer, stringChar);
      var selector := Strip(buffer);
      tree := AddChildAt(root, depth, Leaf(selector));
      height := depth + 1;
      rest := "";
    } else if c == '}' {
      CloseTurn(text, i, root, depth, buffer, stringChar);
      var prop := Strip(buffer);
      if prop != [] {
        tree := AddPropertyAt(root, depth, prop);
      }
      if depth > 0 {
        height := depth - 1;
      }
      rest := "";
    } else if c == ';' {
      SemicolonTurn(text, i, root, depth, buffer, stringChar);
      var prop := Strip(buffer + [c]);
      if prop != [] {
        tree := AddPropertyAt(root, depth, prop);
      }
      rest := "";
    } else {
      OtherTurn(text, i, root, depth, buffer, stringChar);
      rest := buffer + [c];
    }
  }

  /** `parse_css`: strips comments, then walks the text one character at a
      time. */
  method Parse(css: string) returns (root: Node)
    ensures root == ParseCss(css)
    ensures root.selector == RootSelector
    ensures NodeCount(root) == 1 + OpenCount(StripComments(css), |StripComments(css)|)
    ensures WellFormed(root)
  {
    var text := StripComments(css);
    root := Leaf(RootSelector);
    var depth := 0;
    var buffer := "";
    var inString := false;
    var stringChar := '"';
    var i := 0;
    while i < |text|
      invariant i <= |text|
      invariant Agrees(text, i, root, depth, buffer, inString, stringChar)
    {
      root, depth, buffer, inString, stringChar := ScanChar(text, i, root, depth, buffer, inString, stringChar);
      i := i + 1;
    }
    NodeCountIsOpenCount(text, |text|);
    ScanWellFormed(text, |text|);
  }
}
