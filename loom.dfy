/**
 * The document the viewer navigates (`window.DOC_DATA`, viewer/viewer.js:1-2, 10): a root id and a
 * map from node id to node. A node's `parentId` links it upward; `children` lists its
 * continuations in display order.
 */
module Loom {
  import opened Wrappers
  import opened Seqs

  datatype Node = Node(
    id: string,
    content: Option<string>,   // None: `null` or absent
    parentId: Option<string>,  // None: `null` or absent
    children: seq<string>,
    bookmarked: bool)

  datatype Doc = Doc(rootId: string, nodes: map<string, Node>)

  /** JavaScript truthiness of an optional string: `null`, `undefined` and `''` are falsy. */
  predicate Truthy(s: Option<string>)
  {
    s.Some? && s.value != ""
  }

  /**
   * `p` is a root-first parent chain: every id names a node, every id is non-empty (a truthy
   * value of `curr`), the first node has a falsy `parentId`, and each later node's `parentId`
   * is its predecessor.
   */
  ghost predicate IsChain(nodes: map<string, Node>, p: seq<string>)
  {
    && |p| > 0
    && (forall i :: 0 <= i < |p| ==> p[i] in nodes && p[i] != "")
    && !Truthy(nodes[p[0]].parentId)
    && (forall i {:trigger nodes[p[i]]} :: 0 < i < |p| ==> nodes[p[i]].parentId == Some(p[i - 1]))
  }

  /** Walking `parentId` links up from `id` ends at a node with a falsy `parentId`, touching only known nodes. */
  ghost predicate Rooted(nodes: map<string, Node>, id: string)
  {
    exists p :: IsChain(nodes, p) && p[|p| - 1] == id
  }

  lemma ChainPrefix(nodes: map<string, Node>, p: seq<string>, k: nat)
    requires IsChain(nodes, p) && 0 < k <= |p|
    ensures IsChain(nodes, p[..k])
  {
  }

  /** Every node after the first in a chain has a truthy `parentId`. */
  lemma ChainStep(nodes: map<string, Node>, p: seq<string>)
    requires IsChain(nodes, p) && |p| > 1
    ensures Truthy(nodes[p[|p| - 1]].parentId)
  {
    assert nodes[p[|p| - 1]].parentId == Some(p[|p| - 2]);
  }

  /** A node has at most one parent chain. */
  lemma {:induction false} ChainUnique(nodes: map<string, Node>, p: seq<string>, q: seq<string>)
    requires IsChain(nodes, p) && IsChain(nodes, q)
    requires p[|p| - 1] == q[|q| - 1]
    ensures p == q
    decreases |p|
  {
    if |p| == 1 && |q| == 1 {
    } else if |p| == 1 {
      ChainStep(nodes, q);
      assert false;
    } else if |q| == 1 {
      ChainStep(nodes, p);
      assert false;
    } else {
      assert nodes[p[|p| - 1]].parentId == Some(p[|p| - 2]);
      assert nodes[q[|q| - 1]].parentId == Some(q[|q| - 2]);
      ChainPrefix(nodes, p, |p| - 1);
      ChainPrefix(nodes, q, |q| - 1);
      ChainUnique(nodes, p[..|p| - 1], q[..|q| - 1]);
      assert p == p[..|p| - 1] + [p[|p| - 1]];
      assert q == q[..|q| - 1] + [q[|q| - 1]];
    }
  }

  /** The path from the root to `id`, as `reconstructPath` collects it (viewer/viewer.js:33-40). */
  ghost function PathTo(nodes: map<string, Node>, id: string): (p: seq<string>)
    requires Rooted(nodes, id)
    ensures IsChain(nodes, p) && p[|p| - 1] == id
  {
    var p :| IsChain(nodes, p) && p[|p| - 1] == id; p
  }

  /** Any parent chain ending at `id` is the one `PathTo` gives. */
  lemma PathToUnique(nodes: map<string, Node>, id: string, p: seq<string>)
    requires IsChain(nodes, p) && p[|p| - 1] == id
    ensures PathTo(nodes, id) == p
  {
    ChainUnique(nodes, PathTo(nodes, id), p);
  }

  /** The path to a node is the path to its parent followed by the node itself. */
  lemma PathToParent(nodes: map<string, Node>, parent: string, id: string)
    requires Rooted(nodes, parent) && id in nodes && id != ""
    requires nodes[id].parentId == Some(parent)
    ensures Rooted(nodes, id)
    ensures PathTo(nodes, id) == PathTo(nodes, parent) + [id]
  {
    var pp := PathTo(nodes, parent);
    var p := pp + [id];
    assert IsChain(nodes, p);
    PathToUnique(nodes, id, p);
  }

  /** Every prefix of a node's path is the path of the node it ends at. */
  lemma PathToPrefix(nodes: map<string, Node>, id: string, i: nat)
    requires Rooted(nodes, id)
    requires i < |PathTo(nodes, id)|
    ensures Rooted(nodes, PathTo(nodes, id)[i])
    ensures PathTo(nodes, PathTo(nodes, id)[i]) == PathTo(nodes, id)[..i + 1]
  {
    var p := PathTo(nodes, id);
    ChainPrefix(nodes, p, i + 1);
    PathToUnique(nodes, p[i], p[..i + 1]);
  }

  /** A parent chain never repeats a node: a repeat would make the walk up from it cyclic. */
  lemma ChainDistinct(nodes: map<string, Node>, p: seq<string>)
    requires IsChain(nodes, p)
    ensures Distinct(p)
  {
    forall i, j | 0 <= i < j < |p| ensures p[i] != p[j] {
      if p[i] == p[j] {
        ChainPrefix(nodes, p, i + 1);
        ChainPrefix(nodes, p, j + 1);
        ChainUnique(nodes, p[..i + 1], p[..j + 1]);
        assert false;
      }
    }
  }

  /** The number of nodes on the path to `id`. */
  ghost function Depth(nodes: map<string, Node>, id: string): nat
    requires Rooted(nodes, id)
  {
    |PathTo(nodes, id)|
  }

  /** No path is longer than the document has nodes. */
  lemma DepthBound(nodes: map<string, Node>, id: string)
    requires Rooted(nodes, id)
    ensures Depth(nodes, id) <= |nodes|
  {
    var p := PathTo(nodes, id);
    ChainDistinct(nodes, p);
    DistinctBound(p, nodes.Keys);
  }

  /**
   * What the viewer relies on: ids are non-empty, every node's parent chain ends at a parentless
   * node through known nodes, and every listed child is a known node whose `parentId` is the parent.
   */
  ghost predicate Linked(nodes: map<string, Node>)
  {
    "" !in nodes && AllRooted(nodes) && ChildrenPointBack(nodes)
  }

  /** Every node's parent chain ends at a parentless node through known nodes: no cycle, no missing parent. */
  ghost predicate AllRooted(nodes: map<string, Node>)
  {
    forall k {:trigger Rooted(nodes, k)} :: k in nodes ==> Rooted(nodes, k)
  }

  /** Every listed child is a known node whose `parentId` is the parent. */
  ghost predicate ChildrenPointBack(nodes: map<string, Node>)
  {
    forall k, c :: k in nodes && c in nodes[k].children ==> c in nodes && nodes[c].parentId == Some(k)
  }

  /** Every node whose `parentId` names a node is listed among that node's children. */
  ghost predicate ChildrenComplete(nodes: map<string, Node>)
  {
    forall k, c :: k in nodes && c in nodes && nodes[c].parentId == Some(k) ==> c in nodes[k].children
  }

  /** `Linked`, and the root is a known node without a parent. */
  ghost predicate WellFormed(doc: Doc)
  {
    && Linked(doc.nodes)
    && doc.rootId in doc.nodes
    && !Truthy(doc.nodes[doc.rootId].parentId)
  }

  /** A child lies one level below its parent, and no level exceeds the node count. */
  lemma ChildDeeper(nodes: map<string, Node>, parent: string, c: string)
    requires Linked(nodes) && parent in nodes && c in nodes[parent].children
    ensures c in nodes && Rooted(nodes, c)
    ensures Depth(nodes, c) == Depth(nodes, parent) + 1 <= |nodes|
  {
    PathToParent(nodes, parent, c);
    DepthBound(nodes, c);
  }

  /**
   * A single tree: `WellFormed`, the root is the only node without a parent, and every node whose
   * `parentId` names a node is listed among that node's children.
   */
  ghost predicate IsTree(doc: Doc)
  {
    && WellFormed(doc)
    && (forall k :: k in doc.nodes && !Truthy(doc.nodes[k].parentId) ==> k == doc.rootId)
    && ChildrenComplete(doc.nodes)
  }

  /** In a tree every parent chain starts at the root and descends along `children` edges. */
  lemma ChainFollowsChildren(doc: Doc, p: seq<string>)
    requires IsTree(doc) && IsChain(doc.nodes, p)
    ensures p[0] == doc.rootId
    ensures forall i :: 0 < i < |p| ==> p[i] in doc.nodes[p[i - 1]].children
  {
  }
}
