# Loom site generator and viewer, modelled in Dafny

The repository turns the branching story trees ("looms") that an editor exports into a static web
site. Each document is a flat table of nodes, and each node has an optional parent. The generator
`process_document` normalises that table into `{rootId, nodes}`: every node gets its content and
its parent, and its `children` list is filled in. In the browser, `viewer.js` keeps one piece of
state, `currentPath`, the ids from the root to the node being read. It changes that path when the
page loads and when a node is clicked. It also draws three things from the path: the reader text,
the choices that continue the story, and the whole tree.

The model has seven modules:

- `Wrappers` (wrappers.dfy): `Option`.
- `Seqs` (seqs.dfy):
  - JavaScript's `indexOf`;
  - duplicate-free sequences;
  - "listed in the order of another sequence" (`FollowsOrder`), with its lemmas.
- `Html` (html.dfy):
  - `escapeHtml` as its five chained `.replace` passes;
  - an independent per-character definition and a standard entity decoder;
  - the reader block, which is escaped content with newlines turned into `<br>`.
- `Loom` (loom.dfy):
  - the document the viewer reads, as a `map<string, Node>`;
  - parent chains (`IsChain`), and the path from the root to a node (`PathTo`);
  - well-formed documents and trees.
- `Viewer` (viewer.dfy):
  - the navigation state machine as a class whose fields are `currentPath` and the URL fragment;
  - pure specifications of what `selectNode` and `init` leave behind.
- `Render` (render.dfy): the reader, the choices panel and the tree, returned as data instead of
  DOM nodes.
- `Site` (site.dfy):
  - `process_document` as its two imperative passes, proved equal to a loop-free specification
    `Normalise`, with the properties of that specification;
  - the file-name filter of `generate_site.py` line 90.

Conventions:

- JavaScript values that may be `null`, `undefined` or `''` are `Option<string>`, and falsy means
  `None` or `Some("")`.
- A Python JSON field is a `Field`: a missing key, `null` or a string.
- Python dicts keep insertion order, so they are a key sequence plus a map (`Site.Dict`).

## Model

| member | source | states |
|---|---|---|
| Seqs.IndexOf | viewer/viewer.js:44 | `indexOf`: -1 exactly when the id is absent, otherwise the first index holding it |
| Viewer.Truncate | viewer/viewer.js:44-46 | the kept path is a non-empty prefix of the old path that ends at the first occurrence of the id |
| Viewer.RootPath | viewer/viewer.js:29-31 | in a well-formed document `[rootId]` is a parent chain and is the root's own path |
| Viewer.SelectTipKeepsPath | viewer/viewer.js:44-46 | selecting the tip of a path without repeated ids leaves the path unchanged |
| Viewer.SelectIsPathTo | viewer/viewer.js:42-51 | from any chain, selecting a node gives that node's root path, whether by truncation or by a fresh walk |
| Viewer.SelectChildExtends | viewer/viewer.js:100-107 | clicking a choice (a child of the tip) extends the path by exactly that child |
| Viewer.RestoreMatchesSelect | viewer/viewer.js:18-25 | restoring a tip from the fragment gives the same path as selecting it from the root-only path |
| Viewer.Viewer.constructor | viewer/viewer.js:4-27 | page load: the state is valid and the path is the one `init` derives from the fragment |
| Viewer.Viewer.Init | viewer/viewer.js:18-27 | a known, non-empty fragment restores the path to that node; anything else starts from the root |
| Viewer.Viewer.StartFromRoot | viewer/viewer.js:29-31 | the path becomes exactly `[rootId]`, a valid chain |
| Viewer.Viewer.ReconstructPath | viewer/viewer.js:33-40 | the `unshift` loop yields a root-first parent chain that ends at the leaf, which is the node's unique path |
| Viewer.Viewer.SelectNode | viewer/viewer.js:42-54 | the new path is the truncation when the id is on the path and the fresh walk otherwise; it ends at the id, stays valid, and the fragment names it |
| Viewer.Viewer.UpdateHash | viewer/viewer.js:56-59 | the persisted token is the last element of the path |
| Loom.ChainPrefix | viewer/viewer.js:46 | every non-empty prefix of a parent chain is a parent chain |
| Loom.ChainStep | viewer/viewer.js:36-38 | every node after the first in a chain has a truthy `parentId` |
| Loom.ChainUnique | viewer/viewer.js:33-40 | two parent chains that end at the same node are equal |
| Loom.PathTo | viewer/viewer.js:33-40 | the walk from a rooted node is a chain ending at that node |
| Loom.PathToUnique | viewer/viewer.js:33-40 | any chain ending at a node is that node's path |
| Loom.PathToParent | viewer/viewer.js:36-38 | a node's path is its parent's path followed by the node |
| Loom.PathToPrefix | viewer/viewer.js:33-40 | each prefix of a path is the path of the node it ends at |
| Loom.ChainDistinct | viewer/viewer.js:33-40 | a path built by the walk never repeats an id |
| Loom.DepthBound | viewer/viewer.js:33-40 | no path is longer than the document has nodes |
| Loom.ChildDeeper | viewer/viewer.js:191-197 | a listed child is rooted, one level deeper than its parent, within the node count |
| Loom.ChainFollowsChildren | viewer/viewer.js:33-40 | in a tree every chain starts at the root and descends along `children` edges |
| Html.EscapePasses | viewer/viewer.js:206-211 | the five chained passes, `&` first; the empty text stays empty and the output holds no `<`, `>`, `"` or `'` |
| Html.ReplaceAll | viewer/viewer.js:207-211 | a global `.replace` of one character leaves only replacement text and the other characters |
| Html.EscapeHtml | viewer/viewer.js:204-212 | empty text gives `''`; the output has no `<`, `>`, `"` or `'` |
| Html.EscapePassesChar | viewer/viewer.js:206-211 | because `&` is replaced first, each character goes to exactly its own entity, never escaped twice |
| Html.EscapeHtmlPerChar | viewer/viewer.js:204-212 | the chained passes equal escaping each character on its own |
| Html.EscapeHtmlRoundTrip | viewer/viewer.js:204-212 | decoding the five entities recovers the input exactly |
| Html.ReaderBlock | viewer/viewer.js:77 | a reader block holds no raw newline |
| Html.ReaderBlockShowsContent | viewer/viewer.js:77 | a reader block decodes to its content exactly; every `<` and every `>` in it belongs to a `<br>` tag, and it holds no quote characters |
| Html.BreakTagsEach | viewer/viewer.js:77 | escaping each character and turning each newline into `<br>` leaves no `<` or `>` outside a `<br>` tag |
| Render.PathText | viewer/viewer.js:70-72 | the texts the reader shows are the non-empty contents on the path |
| Render.ReaderBlocks | viewer/viewer.js:70-80 | at most one block per path node |
| Render.NodeBlocks | viewer/viewer.js:71-79 | a node with falsy content adds no block; one with content adds exactly one block, which decodes to that content |
| Render.ReaderBlocksCount | viewer/viewer.js:70-80 | the reader holds as many blocks as the path has non-empty contents |
| Render.ReaderBlockAt | viewer/viewer.js:70-80 | the `j`-th block decodes to the `j`-th non-empty content of the path |
| Render.ReaderShowsPathText | viewer/viewer.js:70-80 | one block per non-empty content, in path order, each decoding to that content |
| Render.ReaderBlocksAppend | viewer/viewer.js:70-80 | extending the path appends that node's block, if any, after the others |
| Render.PreviewText | viewer/viewer.js:105 | the content verbatim up to 150 characters, else its first 150 plus `...`; falsy content gives the placeholder |
| Render.PreviewHtmlAsWritten | viewer/viewer.js:105-106 | the preview markup as written: it decodes to the preview text, placeholder included, and holds no markup character |
| Render.PlaceholderShownAsText | viewer/viewer.js:105-106 | as written, the `<em>Empty</em>` placeholder is escaped, so the tags show as literal text |
| Render.PreviewHtml | viewer/viewer.js:105-106 | corrected preview: the placeholder stays markup; content previews decode to the preview text and contain no markup |
| Render.Choices | viewer/viewer.js:90-110 | no panel iff the tip has no children; otherwise the title and one item per child, in declared order, whose markup shows that child's preview text (as written, the placeholder too) as plain text |
| Render.ChoicesAgreeExceptEmpty | viewer/viewer.js:105-106 | an item's markup equals the corrected preview exactly when the child's content is truthy: the two differ only for empty children |
| Render.TreeLabel | viewer/viewer.js:170 | a label of 1 to 30 characters: a prefix of the content, or `Empty` for falsy content |
| Render.CreateTreeNode | viewer/viewer.js:160-202 | every entry at every depth carries its node's label, is active iff on the path, starred iff bookmarked, with one child entry per declared child in order |
| Render.RenderTree | viewer/viewer.js:147-158 | the whole tree drawn from the root, with the same properties |
| Site.Put | generate_site.py:35 | dict assignment keeps a valid ordered dict and maps the key to the new value; a new key goes last, an existing key keeps its place |
| Site.ParentOf | generate_site.py:38 | `node.get('parentId')`: a string parent as `Some`, `null` or a missing key as `None` |
| Site.Copied | generate_site.py:35-40 | the record the first pass stores: the key as `id`, the content, the parent and no children |
| Site.ContentOf | generate_site.py:37 | content is `value` when truthy, else `text`, else `''` |
| Site.ChildrenOf | generate_site.py:43-46 | the ids the linking pass appends to one parent, never more than the ids handled |
| Site.FromList | generate_site.py:26-27 | a list of nodes becomes a valid ordered dict |
| Site.TableOf | generate_site.py:23-27 | a missing, listed or dict node table becomes a valid ordered dict |
| Site.CopyNext | generate_site.py:34-40 | copying one node appends it, with its copied fields, at the end of the table |
| Site.LinkOne | generate_site.py:44-46 | one linking step: append the id to its parent's children when the parent is a truthy known key, otherwise change nothing |
| Site.LinkOneOnlyAppends | generate_site.py:44-46 | a linking step keeps every key, changes no field but `children`, and either leaves a list alone or appends the id to its own parent's list |
| Site.Linking | generate_site.py:43-46 | the table after the loop has handled the first `j` ids, step by step |
| Site.LinkingKeepsParent | generate_site.py:43-46 | the linking pass keeps every node and its `parentId` |
| Site.LinkNext | generate_site.py:43-46 | one linking step appends the node to its parent's children exactly as the specification says |
| Site.LinkingIsLinkedUpTo | generate_site.py:43-46 | the step-by-step table equals the loop-free description after any number of steps |
| Site.CopyNodes | generate_site.py:34-40 | the first pass yields every key, in order, copied with empty children |
| Site.LinkChildren | generate_site.py:42-51 | the second pass yields the fully linked table and the last id whose parent is `None` |
| Site.LastRoot | generate_site.py:47-51 | `root_id` after the loop has handled the first `j` ids |
| Site.ChooseRoot | generate_site.py:47-56 | `root_id` after the loop, with the first-key fallback of an empty `root_id` |
| Site.Normalise | generate_site.py:16-61 | the loop-free description of `process_document`: the chosen root, the keys in order, and every node copied with the ids whose parent it is as children |
| Site.ProcessDocument | generate_site.py:16-61 | the result equals the specification `Normalise` of the input table |
| Site.ChildrenOfMembers | generate_site.py:43-46 | an id is appended to `p` iff it was handled and its parent is `p`, a truthy string |
| Site.ChildrenOfOrdered | generate_site.py:43-46 | appended children follow the key order |
| Site.NormalisedNodes | generate_site.py:34-40 | the output keeps the key set and order, each id, `parentId` and content; `bookmarked` is never set |
| Site.NormalisedChildren | generate_site.py:43-46 | `c` is a child of `p` iff `c` is a node whose `parentId` is `p` (and `p` is not `''`) |
| Site.NormalisedChildrenOrdered | generate_site.py:43-46 | each child list is duplicate-free and lists its ids in the order of the keys |
| Site.DanglingUnlisted | generate_site.py:44-46 | a node whose parent is `''` or names no node is in no child list |
| Site.LastRootExists | generate_site.py:43-51 | after any number of steps `root_id` is `None` iff no handled id has a `None` parent; otherwise it names a node whose parent is `None` |
| Site.LastRootNotAhead | generate_site.py:43-51 | `root_id` never names an id the loop has not reached yet |
| Site.LastRootIsLast | generate_site.py:47-51 | `root_id` names the `i`-th id iff that id has a `None` parent and no later handled id has one (a later root overwrites) |
| Site.RootIsLastParentless | generate_site.py:43-56 | when some node has a `None` parent, the root is the last such id in iteration order |
| Site.RootFallback | generate_site.py:53-56 | the root is `None` iff the table is empty; it has a `None` parent whenever some node does; otherwise it is the first key |
| Site.DanglingRootOnlyAsFallback | generate_site.py:44-56 | a node with a parent becomes root only as the first key, and only when no node has a `None` parent |
| Site.NormalisedChildrenPointBack | generate_site.py:43-46 | every listed child is a node whose `parentId` is that parent |
| Site.NormalisedChildrenComplete | generate_site.py:43-46 | every node whose `parentId` names a node is listed under it |
| Site.NormalisedWellFormed | generate_site.py:58-61 | for an acyclic table with a `None`-parent node, the output is a document the viewer's walk accepts |
| Site.NormalisedTree | generate_site.py:58-61 | with exactly one parentless node, the output is a tree rooted at it |
| Site.FromListHas | generate_site.py:27 | every element's id is a key |
| Site.FromListOnlyIds | generate_site.py:27 | every key is some element's id |
| Site.FromListLastWins | generate_site.py:27 | the value under an id is its last element; a later duplicate overwrites |
| Site.FromListKeyIndex | generate_site.py:27 | every key first occurs as an id somewhere in the list |
| Site.FromListOrderAt | generate_site.py:27 | each key first occurs in the list after the key before it |
| Site.FromListOrder | generate_site.py:27 | keys keep the order in which ids first occur |
| Site.KeepAllowed | generate_site.py:90 | the filter keeps only allowed characters, each allowed one as often as in the input |
| Site.KeepAllowedAppend | generate_site.py:90 | the filter works left to right: filtering a concatenation filters each part and keeps the parts in order |
| Site.KeepAllowedSingle | generate_site.py:90 | one character is kept exactly when it is allowed |
| Site.TrimStart | generate_site.py:90 | removes exactly the leading spaces |
| Site.TrimEnd | generate_site.py:90 | removes exactly the trailing spaces |
| Site.SafeName | generate_site.py:90 | the file name holds only alphanumerics, space, `-`, `_`, `.` and has no leading or trailing space |
| Site.KeepAllowedKeepsAllowed | generate_site.py:90 | filtering an already-clean string changes nothing |
| Site.SafeNameIdempotent | generate_site.py:90 | sanitising a sanitised name gives it back |

## Left out

- DOM construction, `innerHTML`, `onclick` wiring and the `render()` calls. Renders are functions of the document and the path, applied to the state the methods leave.
- The `setTimeout` scroll to the bottom (viewer/viewer.js:84-87) and the resizer (viewer/viewer.js:115-145): layout side effects with no logical content.
- `window.location.hash` and `history.replaceState`. The fragment is the field `hash`, without its `#`, with no URL encoding.
- `isTip` (viewer/viewer.js:163) is computed but never used, so it has no counterpart.
- JavaScript object lookup: `nodes[hash]` also finds inherited keys such as `constructor`. The model tests map membership only.
- Malformed documents. The source's `reconstructPath` loops forever on a cyclic parent chain, throws when a parent is missing, and stops early at an id `''`. Viewer.Viewer.ReconstructPath instead requires `Rooted`: the chain ends at a parentless node through known nodes.
- Viewer.Viewer.SelectNode requires the id to be a node and the state to be valid; the page only offers ids of drawn nodes.
- Render.CreateTreeNode requires a `Linked` document. On a cycle in `children` the source recursion would not end.
- Render.Choices follows the code as written: an empty child's preview is the escaped placeholder. Render.PreviewHtml is the corrected preview, and Render.ChoicesAgreeExceptEmpty states that the two panels differ exactly on empty children.
- Render.TreeLabel counts characters, where JavaScript's `slice(0, 30)` counts UTF-16 code units.
- Render.PreviewText: same as Render.TreeLabel, for the 150-character cut.
- `tipNode.children &&` (viewer/viewer.js:94): the model's nodes always have a children list.
- File system, templates, `json.load`/`json.dumps`, `html.escape` of the title, and every `print`. The warnings are the only use of `doc_id`, so Site.ProcessDocument has no such parameter.
- JSON values other than strings and `null` in `id`, `value`, `text` and `parentId`, and a `doc_data` that is not an object.
- Site.FromList requires every element to carry a string `id`. A missing `id` raises `KeyError` in the source; a `null` id becomes a `None` key, which the model's string keys exclude.
- `bookmarked` is not copied by `process_document`, so generated pages never show a star. Site.NormalisedNodes states this, and the viewer's star rule is modelled over any document.
- Site.NormalisedWellFormed and Site.NormalisedTree take acyclicity (`AllRooted`) and the absence of an id `''` as hypotheses. The generator checks neither.
- Site.DanglingRootOnlyAsFallback: a node whose parent names a missing node is never chosen by the loop. It can still become root through the first-key fallback of generate_site.py:54-56, and the lemma states exactly when.
- Site.SafeName treats only ASCII letters and digits as alphanumeric, where Python's `isalnum` also accepts other Unicode letters and digits. Python's `strip()` removes all whitespace, but after the filter the only whitespace left is a space, so trimming spaces is the same.
- The `.html` suffix (generate_site.py:91), and two documents whose names sanitise to the same file.

## Findings

| source | as written | input that shows it | evidently intended | confidence | as-written member | corrected member |
|---|---|---|---|---|---|---|
| viewer/viewer.js:105-106 | the placeholder `<em>Empty</em>` is passed through `escapeHtml` with the content previews | a child whose content is `''` or missing: its preview markup is `&lt;em&gt;Empty&lt;/em&gt;`, shown as literal tags | the placeholder rendered as emphasised "Empty", only real content escaped | high; not executed | Render.PlaceholderShownAsText | Render.PreviewHtml |
