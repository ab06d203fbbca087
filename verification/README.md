# Docx structural layer, modelled in Dafny

This project models the structural layer of a `.docx` → HTML converter: the
`Docx` class of `Docx/Docx.class.php`. That layer

- walks the children of the document body and turns `w:tbl` and `w:p`
  elements into table and paragraph nodes (`loadNodesFromElement`);
- rebuilds nested HTML lists from the flat run of nodes, each of which only
  carries a list level (`_listPostProcessor`). A step between consecutive
  levels becomes `<ul><li…>` / `<li…>` fragments in front of the current node
  and `</li></ul>` / `</li>` fragments after the previous node. Nodes inside a
  list are retyped as list items;
- offers small helpers: an html-id sanitiser (`getHtmlIdFromString`), twip to
  point rounding (`twipToPt`), and lookups in the link and file attachment
  registries (`getAttachedLinks`, `getAttachedFiles`).

Nodes are immutable records (`Nodes.Node`). The post-processor is a left fold
(`Lists.Run`) that carries `currentListLevel` and returns new nodes. It is
also written as the index-based loop of the source
(`Lists.ListPostProcessorLoop`), and the two are proved to compute the same
nodes. A position-wise description (`Lists.Annotated`) says what node `i`
becomes from its two neighbours alone. The fold is proved to agree with it,
and the fragment counts and the `<ul>` balance are stated as lemmas.

Modules: `Wrappers` (Option, Result), `Nodes`, `Lists`, `ListExamples`,
`Loader`, `HtmlIds`, `Units`, `Attachments`.

## Behaviour kept as the code has it

The code has a few quirks; the model keeps each of them:

- Every `<ul><li…>` opened for a node carries that node's class attribute,
  at every nesting level opened for it.
- A level-0 node that follows a list gets a stray `<li…>` prepended.
- A list still open after the last node is never closed.
- `getHtmlIdFromString(" A&nbsp;B<br>")` is `docx__AB`: the prefix ends in
  `_`, and the leading space also becomes `_`.
- `twipToPt` rounds halves away from zero, as PHP's `round` does.
- The attachment lookups return the last matching entry, because the loop
  overwrites its result on every match.

## Model

| member | source | states |
|---|---|---|
| `Lists.ClassAttr` | Docx/Docx.class.php:133-138 | The class attribute is empty exactly when the node has no style or the style's html class is empty; otherwise it is ` class="X"`. |
| `Lists.Run` | Docx/Docx.class.php:124-162 | The fold keeps one node per input node. The level it carries after each node is that node's level, or 0 before any node, which is what `$currentListLevel = $node->getListLevel();` maintains. |
| `Lists.ListPostProcessor` | Docx/Docx.class.php:123-164 | Returns the same number of nodes in the same order, with levels and styles unchanged. Nodes with level > 0 become list items; level-0 nodes keep their kind. |
| `Lists.CloseStep` | Docx/Docx.class.php:143-151 | The closing half of one iteration writes into `nodeArr[i-1]` exactly the closing fragments of the step from the current level to the node's level, and touches nothing else. |
| `Lists.OpenStep` | Docx/Docx.class.php:152-160 | The opening half of one iteration prepends to the node exactly the opening fragments of the step from the current level to the node's level. |
| `Lists.ListPostProcessorLoop` | Docx/Docx.class.php:123-164 | The index-based loop with its inner per-level loops computes exactly the fold. Its invariant shows that `nodeArr[i-1]` is only written when `i > 0`. |
| `Lists.PostProcessorPointwise` | Docx/Docx.class.php:125-161 | At every index, the fold's output equals the node computed from the previous node's level (opening fragments) and the next node's level (closing fragments). |
| `Lists.PrependFragments` | Docx/Docx.class.php:152-160 | Rising from level c to l prepends exactly l − c entries `<ul><li CLS>`. Not rising with c > 0 prepends one `<li CLS>`, including for a level-0 node after a list. Otherwise nothing is prepended. |
| `Lists.AppendFragments` | Docx/Docx.class.php:143-151 | Falling from c to l appends exactly c − l separate `</li></ul>` entries to the previous node. Staying at c = l > 0 appends one `</li>`. Otherwise nothing is appended, and the last node never gets anything. |
| `Lists.UlBalance` | Docx/Docx.class.php:124-161 | For any node sequence, the `<ul>` opened minus the `<ul>` closed by the pass equals the level of the last node (0 for none). So a list open at the end stays unclosed. |
| `ListExamples.SameLevelListExample` | Docx/Docx.class.php:143-160 | Levels 0,1,1,0 give `<ul><li>`, then `</li>`, `<li>`, then `</li></ul>`, then a stray `<li>` on the level-0 node. |
| `ListExamples.NestedListExample` | Docx/Docx.class.php:143-160 | Levels 0,1,2,0 put two separate `</li></ul>` entries on the level-2 node, and the styled node's class on its `<ul><li…>`. |
| `ListExamples.OpenAtEndExample` | Docx/Docx.class.php:152-163 | Starting at level 2 puts the class on both `<ul><li…>`. An empty class gives no attribute, and the final list is not closed. |
| `Loader.Classify` | Docx/Docx.class.php:97-104 | `w:tbl` gives Table, `w:p` gives Para, and any other tag gives no node, in both directions. |
| `Loader.Collect` | Docx/Docx.class.php:92-110 | The collected nodes are fresh (no fragments) and are never more than the children. |
| `Loader.Positions` | Docx/Docx.class.php:92-110 | The positions of the kept children are increasing, all recognized, and include every recognized child. |
| `Loader.CollectKeepsRecognizedInOrder` | Docx/Docx.class.php:92-110 | The k-th collected node is the node built for the k-th recognized child. Only `w:tbl` and `w:p` children produce nodes, in source order. |
| `Loader.CollectConcat` | Docx/Docx.class.php:92-110 | Children are handled independently: collecting a concatenation gives the concatenation of the results. |
| `Loader.LoadNodesFromElement` | Docx/Docx.class.php:90-115 | Returns one node per recognized child, after post-processing. The `<ul>` it leaves open equal the level of the last collected node. |
| `Loader.LoadedNodeShape` | Docx/Docx.class.php:90-115 | The k-th loaded node keeps its child's level and style. It is a list item inside a list, and otherwise Table or Para as its tag says. |
| `Loader.LoadBody` | Docx/Docx.class.php:74-80 | No body element gives `NoBodyElement`, and only then is the result a failure. Otherwise the result is exactly the first body's children loaded by `loadNodesFromElement`, one node per recognized child. |
| `HtmlIds.GetHtmlIdFromString` | Docx/Docx.class.php:201-207 | The id always starts with `docx_` and contains only `[A-Za-z0-9_]`. |
| `HtmlIds.HtmlIdPipeline` | Docx/Docx.class.php:202-205 | The replacements, tag stripping, trimming and filtering never touch the `docx_` prefix. The id is the prefix followed by the sanitised raw text, and trimming never changes the result. |
| `HtmlIds.CleanIdUnchanged` | Docx/Docx.class.php:201-207 | Raw text that is already `[A-Za-z0-9_]*` comes back unchanged behind the prefix. |
| `HtmlIds.EmptyIdExample` | Docx/Docx.class.php:201-207 | Empty input yields `docx_`. |
| `HtmlIds.NbspExample` | Docx/Docx.class.php:201-207 | `" A&nbsp;B<br>"` yields `docx__AB`: `&nbsp;` is removed before spaces become `_`. |
| `Units.TwipToPt` | Docx/Docx.class.php:249-252 | `20·pt` is within 10 twips of the input. A tie rounds away from zero. |
| `Units.TwipToPtUnique` | Docx/Docx.class.php:249-252 | Only one integer meets those bounds, so they fully specify the rounding. |
| `Units.TwipToPtExact` | Docx/Docx.class.php:249-252 | Multiples of 20 convert exactly. |
| `Units.TwipToPtNegate` | Docx/Docx.class.php:249-252 | Rounding is symmetric: `twipToPt(−t) = −twipToPt(t)`. |
| `Units.TwipToPtExamples` | Docx/Docx.class.php:249-252 | 240 → 12, 0 → 0, 10 → 1, 9 → 0, −10 → −1. |
| `Attachments.LastMatch` | Docx/Docx.class.php:219-223 | The position found carries the id, and no later entry does. When nothing is found, no entry carries the id. |
| `Attachments.ScanLast` | Docx/Docx.class.php:218-224 | The overwrite loop returns the last matching entry, or the empty result when none matches. |
| `Attachments.GetAttachedLinks` | Docx/Docx.class.php:214-225 | Reads only the link registry. A null or empty id returns all links. Any other id returns the link at the last position that carries it (`LastMatch`), or the empty result. |
| `Attachments.LookupById` | Docx/Docx.class.php:218-224 | A lookup by a real id never returns the whole registry. It is empty exactly when no entry carries the id, and otherwise returns an entry of the registry that carries it. |
| `Attachments.GetAttachedFiles` | Docx/Docx.class.php:231-242 | The same lookup, over the file registry only: a null or empty id returns all files, any other id the file at the last position that carries it, or the empty result. |

## Left out

- A missing `w:body` (lines 77-79): the source throws an exception, and its constructor then dumps it and exits (lines 37-42). `Loader.LoadBody` returns `Failure(NoBodyElement)` instead, because exceptions and process exit are outside the model.
- XML parsing, the libxml flags and namespace registration (lines 55-69) belong to PHP's DOM library. The result of the `//w:body` query enters `Loader.LoadBody` as a list of bodies, each given by its children.
- The `Para` and `Table` node classes are not part of this model. A child element enters as its tag name plus the list level and style class those constructors would read from it (`Nodes.Element`).
- `prependAdditional` / `appendAdditional` are not part of this model. New prepend fragments go in front of existing ones, and new append fragments after existing ones. Within one step a node only receives copies of one fragment, so the order inside a step does not matter.
- `attachToDocx`, `attachNode` and the `_constructedNodes` record (lines 106, 170-172) are registry side effects of node code that is not part of this model. So is the `$bIsFromRootElement` flag.
- `render` (lines 179-186) only concatenates each node's own `render` output, which is not part of this model. `getXPath` (lines 191-193) is a plain accessor.
- The constructor's file loading (line 36) and `var_dump`/`die` (lines 37-42) are I/O and process exit.
- HtmlIds.GetHtmlIdFromString: `strip_tags` is approximated. Each `<…>` span is removed, and an unclosed `<` removes the rest. PHP's quote handling inside tags, its nesting depth for a `<` inside a tag (PHP turns `<a<b>c>d` into `d`, the model into `c>d`), its `<?` and `<!` handling, comments, and `<` followed by whitespace are not modelled. The prefix and character-set guarantees hold regardless, because the final filter removes every other character.
- Attachments.GetAttachedLinks: PHP's loose `==` is modelled as string equality. Numeric strings such as `"1"` and `"01"`, which loose `==` treats as equal, are treated as different.
- Attachments.GetAttachedFiles: same loose-`==` simplification as for links.
- Units.TwipToPt: `$twip / 20` is computed exactly, with no floating point, so behaviour for very large values may differ from PHP's. PHP's `round` returns a float; the model returns the same whole number as an integer.
- The classes `LinkAttachment` and `FileAttachment` are not part of this model. An attachment is its linkup id plus an uninterpreted payload.
