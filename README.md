# Nested-CSS expander, modelled in Dafny

`expand_css.py` rewrites the `<style>` blocks of HTML pages that use nested
CSS (rules inside rules, `&` parent references, `@media` blocks inside rules)
into flat CSS. It works in three parts, and this project models each one:

* **Scanner / tree builder** (`parse_css`). It removes `/* … */` comments.
  It then walks the text one character at a time, tracking whether it is
  inside a string literal, a text buffer and a stack of open rule nodes.
  Module `CssParser` (parser.dfy), on top of `CssText` (text.dfy) and
  `CssTree` (tree.dfy).
  * `Parse` is a method whose loop mirrors the source's loop.
  * It is proved equal to the specification function `ParseCss`, a left fold
    of one-character steps.
  * The stack of open nodes is always the rightmost path of the tree. The
    model therefore keeps the tree plus the stack's height: `stack[d]` is
    `OpenAt(tree, d)`.
* **Flattener** (`flatten_node`). A pre-order walk that composes full
  selectors and emits flat lines. Module `CssFlatten` (flatten.dfy) models it
  as a function from the tree to the sequence of lines the source appends to
  its accumulator.
* **Per-block glue**, the body of `replace_style`. Given the opening tag, the
  CSS text and the closing tag, it produces the replacement text. Module
  `StyleBlock` (style_block.dfy).

`str.strip()` is modelled with the exact set of characters Python's
`str.isspace()` accepts.

The comment regular expression `/\*.*?\*/` with DOTALL is modelled as the
regular-expression engine's left-to-right scan. At each position, a `/*`
that has a `*/` at or after two characters past it is removed, up to and
including the first such `*/`.

The escape test for a closing quote only looks at the two preceding
characters, as the source does. A quote preceded by `\\` therefore ends the
literal, and so does one preceded by `\\\`. This is modelled as written.

Declarations written outside any block are stored on the root, and the
flattener emits nothing of the root's own, so they are silently dropped.
This is modelled as written. The declaration facts are stated about the
flattened lines before they are joined: a declaration or selector that
spans several source lines spans several lines of the joined text.

Any node whose selector is literally `root` is treated as the root by the
flattener, wherever it occurs. This is modelled as written.

## Model

| member | source | states |
|---|---|---|
| CssTree.Leaf | expand_css.py:6-11 | a fresh node has no children and no properties: it counts as one node, has no open descendants and is well formed |
| CssText.Strip | expand_css.py:47 | the result of `strip()` neither starts nor ends with whitespace |
| CssText.StripPadded | expand_css.py:55 | whitespace around a text with no whitespace at its ends is exactly what `strip()` removes |
| CssText.TrimLeftAppend | expand_css.py:30-72 | appending a character to the buffer appends it to the buffer's `lstrip()`, unless both are whitespace only |
| CssText.StripAppendSpace | expand_css.py:30-72 | a whitespace character appended to the buffer does not change what `strip()` returns |
| CssText.StripAppendSolid | expand_css.py:62-64 | after appending a non-whitespace character such as `;`, the stripped buffer is non-empty and ends with that character |
| CssText.FindClose | expand_css.py:19 | the lazy `.*?\*/` part finds the first `*/` at or after the given index, or reports that there is none |
| CssText.StripComments | expand_css.py:19 | removing comments never lengthens the text |
| CssText.NoOpenerUnchanged | expand_css.py:19 | text containing no `/*` comes back unchanged |
| CssText.NoCloserUnchanged | expand_css.py:19 | text containing no `*/` comes back unchanged: an unterminated comment is kept |
| CssText.LeadingCommentRemoved | expand_css.py:19 | a comment at the start of the text is removed, up to its first `*/` |
| CssText.CommentRemoved | expand_css.py:19 | a comment is removed wherever it stands, up to its first `*/`; text before it holding no `/*` is kept verbatim |
| CssText.Join | expand_css.py:152 | `"\n".join` of no lines is empty; otherwise it starts with the first line, and is that line when there is only one |
| CssText.JoinAppend | expand_css.py:152 | joining one more line appends the separator and that line: every line appears in order, one separator between neighbours |
| CssTree.WithLastChild | expand_css.py:46-56 | a change to the open child of a node on the stack replaces only that last child: the node's selector, properties and closed children are kept, and its size and well-formedness follow the child's |
| CssTree.AddChildAt | expand_css.py:46-52 | appending a child to the node at depth `d` of the stack puts it last among that node's children and makes it the node at depth `d + 1`; nodes lower on the stack keep their selector, their properties and their closed children; the node count grows by the child's size; well-formedness is kept |
| CssTree.AddPropertyAt | expand_css.py:55-56 | appending a property to the node at depth `d` puts it last among that node's properties; the stack's shape, the node count and the nodes below it (selector, properties, closed children) are unchanged; a declaration keeps the tree well formed |
| CssParser.ModeAt | expand_css.py:33-40 | a string literal is only ever opened by `"` or `'` |
| CssParser.TokenAt | expand_css.py:33-69 | inside a string literal every character, braces and `;` included, is plain text; a character is structural exactly when it is an unquoted `{`, `}` or `;` |
| CssParser.QuoteCloses | expand_css.py:33-38 | inside a literal, the next character ends it if and only if it is the literal's own quote and the escape test does not apply |
| CssParser.StaysQuoted | expand_css.py:33-40 | a literal stays open, with the same quote, until its own quote appears unescaped |
| CssParser.StringLiteralInert | expand_css.py:33-40 | until the literal's unescaped closing quote, the tree and the stack do not change and every character only joins the buffer |
| CssParser.Initial | expand_css.py:21-23 | the scan starts with the root alone on the stack |
| CssParser.Step | expand_css.py:31-69 | one loop turn keeps the stack non-empty with the root at its bottom; a plain character only joins the buffer; `{`, `}` and `;` clear it; the node count grows by one exactly on `{` |
| CssParser.StepOpen | expand_css.py:46-52 | `{` appends exactly one new node, selector the stripped buffer, last among the current node's children, leaves the current node's properties alone and makes the new node current |
| CssParser.StepClose | expand_css.py:53-61 | `}` stores the stripped buffer on the current node when it is non-empty, then pops the stack; with only the root left, the stack is unchanged |
| CssParser.StepSemicolon | expand_css.py:62-67 | `;` stores the stripped buffer with its `;` on the current node; every property stored this way ends with `;`; the stack is unchanged |
| CssParser.ScanTo | expand_css.py:29-70 | after any number of characters the stack is non-empty and its bottom is the root |
| CssParser.NodeCountIsOpenCount | expand_css.py:46-52 | the number of non-root nodes equals the number of unquoted `{` read so far |
| CssParser.StepPlainKeepsBuffer | expand_css.py:39-44 | a plain character other than a brace keeps the buffer's stripped text empty or a storable declaration |
| CssParser.StepOpenWellFormed | expand_css.py:46-52 | `{` keeps every stored property a declaration |
| CssParser.StepCloseWellFormed | expand_css.py:53-57 | `}` stores only a non-empty stripped declaration |
| CssParser.StepSemicolonWellFormed | expand_css.py:62-66 | `;` stores only a non-empty stripped declaration |
| CssParser.PlainIntoNormal | expand_css.py:33-44 | a plain character after which no literal is open is neither `{` nor `}`, and is not whitespace unless it was read outside a literal |
| CssParser.ScanWellFormed | expand_css.py:53-67 | every stored property is non-empty, already stripped and does not end in a brace |
| CssParser.TrailingTextIgnored | expand_css.py:29-72 | text with no structural character goes only into the buffer: text after the last `{`, `}` or `;` is attached nowhere |
| CssParser.QuotedTurn | expand_css.py:33-40 | inside a literal the character joins the buffer and the literal ends exactly on its own unescaped quote |
| CssParser.QuoteOpensTurn | expand_css.py:42-45 | outside a literal a quote opens one with that quote character and joins the buffer |
| CssParser.OpenTurn | expand_css.py:46-52 | outside a literal, `{` appends a new node named by the stripped buffer to the current node, pushes it and clears the buffer |
| CssParser.CloseTurn | expand_css.py:53-61 | outside a literal, `}` stores the non-empty stripped buffer, pops unless only the root is open, and clears the buffer |
| CssParser.SemicolonTurn | expand_css.py:62-67 | outside a literal, `;` stores the stripped buffer with its `;` and clears the buffer |
| CssParser.OtherTurn | expand_css.py:68-69 | outside a literal, any other character only joins the buffer |
| CssParser.ScanChar | expand_css.py:31-69 | one turn of the loop takes the loop's variables after `i` characters to the scan's state, stack height, buffer and string state after `i + 1` characters |
| CssParser.Parse | expand_css.py:17-72 | the loop computes `ParseCss`; the result is rooted at `root`, has one node per unquoted `{` of the comment-free text besides the root, and every property is a declaration |
| CssFlatten.Compose | expand_css.py:86-92 | an empty prefix gives the selector; a selector starting with `&` is glued to the prefix without it; any other is joined to the prefix by one space; the result always starts with the prefix |
| CssFlatten.Flatten | expand_css.py:74-129 | the root emits only its children's lines; an at-rule's output starts with `<selector> {` and ends with `}`; its children's lines come just before that `}`, flattened under the unchanged prefix, and only its own lines stand between header and children: none at all when it has no properties; an ordinary rule with properties emits its own block first, under its composed selector, followed by its children's lines under that composed selector; one without properties emits only its descendants, under its composed selector |
| CssFlatten.FlattenAllAppend | expand_css.py:127-129 | siblings are flattened in source order |
| CssFlatten.BalancedWrap | expand_css.py:96-124 | a header, balanced lines and a closing line together are balanced |
| CssFlatten.DeclarationLine | expand_css.py:105-110 | an indented declaration neither opens nor closes a block, and strips back to the declaration |
| CssFlatten.IndentedBalanced | expand_css.py:104-123 | the property lines of a block open and close nothing |
| CssFlatten.AtRuleOwnLinesBalanced | expand_css.py:100-110 | an at-rule's own properties, in the synthetic `prefix { … }` block or bare, are balanced |
| CssFlatten.FlattenBalanced | expand_css.py:74-129 | the flattened output is brace-balanced: `{` header lines and `}` lines match one for one and no prefix of the output closes more than it opened |
| CssFlatten.FlattenAllBalanced | expand_css.py:113-129 | the lines of a run of siblings are balanced |
| CssFlatten.DeclarationsAppend | expand_css.py:96-129 | the declarations of joined output are the declarations of each part, in order |
| CssFlatten.IndentedDeclarations | expand_css.py:104-123 | property lines carry exactly the node's properties, in order |
| CssFlatten.AtRuleOwnDeclarations | expand_css.py:100-110 | an at-rule's own lines carry exactly its properties, with or without the synthetic wrapper |
| CssFlatten.DeclarationsWrapped | expand_css.py:96-124 | headers and closing lines carry no declarations |
| CssFlatten.FlattenDeclarations | expand_css.py:74-129 | nothing is lost, invented or reordered: the output's body lines, stripped, are the properties of all emitted nodes in pre-order, with `root` nodes contributing none of their own |
| CssFlatten.AtRuleWrapped | expand_css.py:103-107 | under an active prefix, an at-rule's header is followed by the synthetic `  <prefix> {` line, its properties indented by four spaces, and `  }` |
| CssFlatten.AtRuleBare | expand_css.py:108-110 | with no prefix, an at-rule's header is followed by its properties, indented by two spaces |
| CssFlatten.RuleBody | expand_css.py:120-124 | an ordinary rule's header is followed by its properties, indented by two spaces |
| CssFlatten.AtRuleDeclarations | expand_css.py:95-117 | an at-rule's output carries its own properties, then its descendants' |
| CssFlatten.RuleDeclarations | expand_css.py:119-129 | an ordinary rule's output carries its own properties, then its descendants' |
| CssFlatten.FlattenAllDeclarations | expand_css.py:113-129 | siblings' declarations come out in source order |
| CssFlatten.HeadersUnderConcat | expand_css.py:113-129 | joining two outputs whose headers carry a selector gives one whose headers carry it |
| CssFlatten.HeadersUnderShorter | expand_css.py:86-92 | headers that start with a composed selector also start with the prefix it was composed from |
| CssFlatten.IndentedNoHeaders | expand_css.py:104-123 | property lines never look like block headers |
| CssFlatten.FlattenHeaders | expand_css.py:86-129 | every block header begins with the incoming prefix, except at-rule headers (`@…`), and a synthetic header `  <prefix> {` carries it after its indent; below an ordinary rule, every header of its descendants begins with the rule's composed selector, so at the top level each descendant header begins with its ancestor's own selector |
| CssFlatten.FlattenAllHeaders | expand_css.py:113-129 | every header in a run of siblings carries the shared prefix, except at-rule headers, which the source emits verbatim |
| CssFlatten.ParentReferenceExample | expand_css.py:87-88 | `&:hover` under `.card` becomes `.card:hover` |
| CssFlatten.DescendantExample | expand_css.py:119-124 | `p` under `.card` becomes `.card p` |
| CssFlatten.AtRuleExample | expand_css.py:95-117 | an `@media` block under `.card` wraps its own declarations in a `.card` block |
| StyleBlock.ReplaceStyle | expand_css.py:145-153 | a block whose CSS is blank is returned byte for byte; otherwise both tags are kept verbatim around the flattened lines, joined by newlines and set on their own lines; a non-blank block that flattens to nothing becomes the two tags around an empty line |
| StyleBlock.ExpansionSound | expand_css.py:145-153 | the flattened lines, before they are joined, are brace-balanced, and their body lines are exactly the properties of every node not named `root`, node by node in pre-order (a rule's own declarations before its nested rules', siblings in source order), each one a stripped, non-empty declaration |
| StyleBlock.PropertiesAreDeclarations | expand_css.py:53-67 | every property a well-formed tree emits is a declaration |
| StyleBlock.ForestPropertiesAreDeclarations | expand_css.py:53-67 | the same holds for a run of sibling trees |

## Left out

- Reading and writing files, console output and the logging of exceptions in `process_file` (expand_css.py:131-135, 154-164). These are input and output.
- Finding `<style>` blocks and substituting them (expand_css.py:138, 158). This is the regular-expression engine's search. The model starts from one match's three groups.
- The command-line entry point, argument handling and file discovery (expand_css.py:166-182).
- The exception path of `replace_style` (expand_css.py:154-156). The only exception the core can raise is Python's recursion limit on very deep nesting, which is a property of the runtime.
- The `parent` field of `Node` (expand_css.py:9). It is set but never read.
- `string_char` starts as `None` in the source and as `"` in the model. It is only read while inside a literal, after it has been set, so the difference is never observable.
- Parse: the tree is an immutable value and the stack is its rightmost path plus a height. Aliasing between `current`, the stack entries and the tree's nodes is not modelled. Because children are attached at `{`, the resulting tree is the one the source builds.
- StripComments: modelled as a recursive scan, not as a regular-expression engine. Only the removal behaviour of this one pattern is captured.
