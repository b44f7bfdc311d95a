/**
 * The three views the viewer redraws after every change of path (viewer/viewer.js:61-111, 147-202),
 * as data instead of DOM nodes: reader blocks as HTML strings, choices as target/preview pairs,
 * and the tree as nested label records.
 */
module Render {
  import opened Wrappers
  import opened Loom
  import opened Html

  /** The contents the reader shows: the non-empty contents of the path's nodes, in path order. */
  function PathText(nodes: map<string, Node>, path: seq<string>): (texts: seq<string>)
    requires forall x :: x in path ==> x in nodes
    ensures forall j :: 0 <= j < |texts| ==> texts[j] != ""
  {
    if path == [] then []
    else
      var c := nodes[path[0]].content;
      (if Truthy(c) then [c.value] else []) + PathText(nodes, path[1..])
  }

  /** `renderReader`'s block loop (viewer/viewer.js:70-80): one block per node whose content is truthy. */
  function ReaderBlocks(nodes: map<string, Node>, path: seq<string>): (blocks: seq<string>)
    requires forall x :: x in path ==> x in nodes
    ensures |blocks| <= |path|
  {
    if path == [] then []
    else
      NodeBlocks(nodes[path[0]]) + ReaderBlocks(nodes, path[1..])
  }

  /** The reader holds one block per non-empty content on the path. */
  lemma {:induction false} ReaderBlocksCount(nodes: map<string, Node>, path: seq<string>)
    requires forall x :: x in path ==> x in nodes
    ensures |ReaderBlocks(nodes, path)| == |PathText(nodes, path)|
  {
    if path != [] {
      ReaderBlocksCount(nodes, path[1..]);
    }
  }

  /** The `j`-th reader block shows the `j`-th non-empty content of the path. */
  lemma {:induction false} ReaderBlockAt(nodes: map<string, Node>, path: seq<string>, j: nat)
    requires forall x :: x in path ==> x in nodes
    requires j < |ReaderBlocks(nodes, path)| && j < |PathText(nodes, path)|
    ensures DecodeHtml(ReaderBlocks(nodes, path)[j]) == PathText(nodes, path)[j]
  {
    var rest := path[1..];
    var c := nodes[path[0]].content;
    var head, texts := NodeBlocks(nodes[path[0]]), if Truthy(c) then [c.value] else [];
    assert ReaderBlocks(nodes, path) == head + ReaderBlocks(nodes, rest);
    assert PathText(nodes, path) == texts + PathText(nodes, rest);
    if j >= |head| {
      ReaderBlockAt(nodes, rest, j - |head|);
    }
  }

  /** The reader holds one block per non-empty content on the path, in path order, each showing exactly that content. */
  lemma ReaderShowsPathText(nodes: map<string, Node>, path: seq<string>)
    requires forall x :: x in path ==> x in nodes
    ensures |ReaderBlocks(nodes, path)| == |PathText(nodes, path)|
    ensures forall j :: 0 <= j < |PathText(nodes, path)| ==>
      DecodeHtml(ReaderBlocks(nodes, path)[j]) == PathText(nodes, path)[j]
  {
    ReaderBlocksCount(nodes, path);
    forall j | 0 <= j < |PathText(nodes, path)|
      ensures DecodeHtml(ReaderBlocks(nodes, path)[j]) == PathText(nodes, path)[j]
    {
      ReaderBlockAt(nodes, path, j);
    }
  }

  /** The block a single node contributes to the reader: none when its content is falsy. */
  function NodeBlocks(n: Node): (blocks: seq<string>)
    ensures !Truthy(n.content) ==> blocks == []
    ensures Truthy(n.content) ==> |blocks| == 1 && DecodeHtml(blocks[0]) == n.content.value
  {
    if Truthy(n.content) then
      ReaderBlockShowsContent(n.content.value);
      [ReaderBlock(n.content.value)]
    else []
  }

  /** The reader of a path starting at `x` opens with `x`'s block. */
  lemma ReaderBlocksCons(nodes: map<string, Node>, x: string, rest: seq<string>)
    requires x in nodes && forall y :: y in rest ==> y in nodes
    ensures ReaderBlocks(nodes, [x] + rest) == NodeBlocks(nodes[x]) + ReaderBlocks(nodes, rest)
  {
    assert ([x] + rest)[0] == x && ([x] + rest)[1..] == rest;
  }

  /** Extending the path by a node adds that node's block, if it has content, after the others. */
  lemma {:induction false} ReaderBlocksAppend(nodes: map<string, Node>, path: seq<string>, id: string)
    requires forall x :: x in path ==> x in nodes
    requires id in nodes
    ensures ReaderBlocks(nodes, path + [id]) == ReaderBlocks(nodes, path) + NodeBlocks(nodes[id])
  {
    if path == [] {
      assert [] + [id] == [id] + [];
      ReaderBlocksCons(nodes, id, []);
    } else {
      var x, rest := path[0], path[1..];
      assert path == [x] + rest;
      assert path + [id] == [x] + (rest + [id]);
      ReaderBlocksAppend(nodes, rest, id);
      ReaderBlocksCons(nodes, x, rest);
      ReaderBlocksCons(nodes, x, rest + [id]);
    }
  }

  const PreviewLength := 150
  const Ellipsis := "..."
  const EmptyPlaceholder := "<em>Empty</em>"

  /** The preview string of a choice (viewer/viewer.js:105), before it is escaped. */
  function PreviewText(content: Option<string>): (r: string)
    ensures !Truthy(content) ==> r == EmptyPlaceholder
    ensures Truthy(content) && |content.value| <= PreviewLength ==> r == content.value
    ensures Truthy(content) && |content.value| > PreviewLength ==>
      |r| == PreviewLength + |Ellipsis| && r[..PreviewLength] <= content.value && r[PreviewLength..] == Ellipsis
  {
    if Truthy(content) then
      var s := content.value;
      s[..if |s| < PreviewLength then |s| else PreviewLength] + (if |s| > PreviewLength then Ellipsis else "")
    else EmptyPlaceholder
  }

  /** The preview markup as the source writes it (viewer/viewer.js:106): the placeholder is escaped too. */
  function PreviewHtmlAsWritten(content: Option<string>): (r: string)
    ensures DecodeHtml(r) == PreviewText(content)
    ensures forall x :: x in r ==> !IsMarkupChar(x)
  {
    EscapeHtmlRoundTrip(PreviewText(content));
    EscapeHtml(PreviewText(content))
  }

  /** As written, an empty child's preview shows the `<em>` tags as literal text instead of emphasis. */
  lemma PlaceholderShownAsText(content: Option<string>)
    requires !Truthy(content)
    ensures DecodeHtml(PreviewHtmlAsWritten(content)) == EmptyPlaceholder
    ensures '<' !in PreviewHtmlAsWritten(content)
  {
    EscapeHtmlRoundTrip(EmptyPlaceholder);
  }

  /** The preview markup with the placeholder kept as markup: the evidently intended rendering. */
  function PreviewHtml(content: Option<string>): (r: string)
    ensures !Truthy(content) ==> r == EmptyPlaceholder
    ensures Truthy(content) ==> DecodeHtml(r) == PreviewText(content)
    ensures Truthy(content) ==> forall x :: x in r ==> !IsMarkupChar(x)
  {
    if Truthy(content) then
      EscapeHtmlRoundTrip(PreviewText(content));
      EscapeHtml(PreviewText(content))
    else EmptyPlaceholder
  }

  /** One continuation offered at the tip: the child to select and its preview markup. */
  datatype Choice = Choice(target: string, previewHtml: string)

  /** The choices panel: nothing at all, or a title over the items. */
  datatype ChoicesPanel = NoChoices | Offered(title: string, items: seq<Choice>)

  const ChoicesTitle := "Continue with..."

  /** The choices panel (viewer/viewer.js:90-110): empty when the tip has no children, one item per child otherwise. */
  function Choices(nodes: map<string, Node>, path: seq<string>): (r: ChoicesPanel)
    requires |path| > 0 && path[|path| - 1] in nodes
    requires forall c :: c in nodes[path[|path| - 1]].children ==> c in nodes
    ensures var kids := nodes[path[|path| - 1]].children;
      && (r.NoChoices? <==> kids == [])
      && (r.Offered? ==> r.title == ChoicesTitle && |r.items| == |kids|)
      && (r.Offered? ==> forall i :: 0 <= i < |kids| ==>
            && r.items[i].target == kids[i]
            && DecodeHtml(r.items[i].previewHtml) == PreviewText(nodes[kids[i]].content)
            && forall x :: x in r.items[i].previewHtml ==> !IsMarkupChar(x))
  {
    var kids := nodes[path[|path| - 1]].children;
    if |kids| > 0 then
      Offered(ChoicesTitle, seq(|kids|, i requires 0 <= i < |kids| => Choice(kids[i], PreviewHtmlAsWritten(nodes[kids[i]].content))))
    else NoChoices
  }

  /** The panel as written agrees with the corrected preview on every child with content, and on no empty one. */
  lemma ChoicesAgreeExceptEmpty(nodes: map<string, Node>, path: seq<string>, i: nat)
    requires |path| > 0 && path[|path| - 1] in nodes
    requires forall c :: c in nodes[path[|path| - 1]].children ==> c in nodes
    requires i < |nodes[path[|path| - 1]].children|
    ensures var c := nodes[nodes[path[|path| - 1]].children[i]].content;
      Choices(nodes, path).items[i].previewHtml == PreviewHtml(c) <==> Truthy(c)
  {
    var c := nodes[nodes[path[|path| - 1]].children[i]].content;
    if !Truthy(c) {
      assert '<' in PreviewHtml(c);
    }
  }

  const LabelLength := 30

  /** A tree label (viewer/viewer.js:170): the first 30 characters of the content, or `Empty`. */
  function TreeLabel(n: Node): (caption: string)
    ensures 0 < |caption| <= LabelLength
    ensures Truthy(n.content) ==>
      (caption <= n.content.value && |caption| == if |n.content.value| < LabelLength then |n.content.value| else LabelLength)
    ensures !Truthy(n.content) ==> caption == "Empty"
  {
    var shown := if Truthy(n.content) then n.content.value else "Empty";
    var cut := shown[..if |shown| < LabelLength then |shown| else LabelLength];
    if cut != "" then cut else "..."
  }

  /** A rendered tree entry: the node, its label, the active and bookmark markers, its children. */
  datatype TreeItem = TreeItem(id: string, caption: string, active: bool, starred: bool, children: seq<TreeItem>)

  /**
   * Every entry of `t`, at every depth, is drawn from its node: label from the content, active
   * exactly when the node is on the path, starred exactly when it is bookmarked, and one child
   * entry per declared child, in declared order.
   */
  ghost predicate Drawn(nodes: map<string, Node>, path: seq<string>, t: TreeItem)
    decreases t
  {
    && t.id in nodes
    && t.caption == TreeLabel(nodes[t.id])
    && t.active == (t.id in path)
    && t.starred == nodes[t.id].bookmarked
    && |t.children| == |nodes[t.id].children|
    && forall i :: 0 <= i < |t.children| ==>
         t.children[i].id == nodes[t.id].children[i] && Drawn(nodes, path, t.children[i])
  }

  /** `createTreeNode(nodeId)` (viewer/viewer.js:160-202), with the DOM replaced by the data it shows. */
  function CreateTreeNode(nodes: map<string, Node>, path: seq<string>, id: string): (t: TreeItem)
    requires Linked(nodes) && id in nodes
    ensures t.id == id && Drawn(nodes, path, t)
    decreases |nodes| - Depth(nodes, id)
  {
    var n := nodes[id];
    var kids := n.children;
    TreeItem(id, TreeLabel(n), id in path, n.bookmarked,
      seq(|kids|, i requires 0 <= i < |kids| =>
        ChildDeeper(nodes, id, kids[i]);
        CreateTreeNode(nodes, path, kids[i])))
  }

  /** `renderTree()`: the whole document drawn from the root. */
  function RenderTree(doc: Doc, path: seq<string>): (t: TreeItem)
    requires WellFormed(doc)
    ensures t.id == doc.rootId && Drawn(doc.nodes, path, t)
  {
    CreateTreeNode(doc.nodes, path, doc.rootId)
  }
}
