/**
 * The viewer's navigation state (viewer/viewer.js:13-59): the current path from the root to the
 * tip, the four operations that replace it, and the URL fragment that persists the tip.
 */
module Viewer {
  import opened Wrappers
  import opened Seqs
  import opened Loom

  /** `path.slice(0, path.indexOf(id) + 1)`: the prefix of `path` that ends at the first `id`. */
  function Truncate(path: seq<string>, id: string): (r: seq<string>)
    requires id in path
    ensures |r| > 0 && r <= path
    ensures r[|r| - 1] == id && id !in r[..|r| - 1]
  {
    path[..IndexOf(path, id) + 1]
  }

  /** The path `selectNode(id)` leaves behind: a truncation when `id` is on the path, else a fresh walk. */
  ghost function Selected(nodes: map<string, Node>, path: seq<string>, id: string): seq<string>
    requires id in path || Rooted(nodes, id)
  {
    if IndexOf(path, id) != -1 then Truncate(path, id) else PathTo(nodes, id)
  }

  /** The path `init` sets up from the URL fragment (viewer/viewer.js:18-31). */
  ghost function InitialPath(doc: Doc, hash: string): seq<string>
    requires WellFormed(doc)
  {
    if hash != "" && hash in doc.nodes then PathTo(doc.nodes, hash) else [doc.rootId]
  }

  /** The root, having no parent, is its own path. */
  lemma RootPath(doc: Doc)
    requires WellFormed(doc)
    ensures IsChain(doc.nodes, [doc.rootId])
    ensures PathTo(doc.nodes, doc.rootId) == [doc.rootId]
  {
    PathToUnique(doc.nodes, doc.rootId, [doc.rootId]);
  }

  /** Selecting the tip of a path without repeated ids leaves the path as it is. */
  lemma SelectTipKeepsPath(nodes: map<string, Node>, path: seq<string>)
    requires |path| > 0 && Distinct(path)
    ensures Selected(nodes, path, path[|path| - 1]) == path
  {
    var tip := path[|path| - 1];
    var r := Truncate(path, tip);
    if |r| < |path| {
      assert false;
    }
  }

  /**
   * Whatever the current path, as long as it is a parent chain, `selectNode(id)` ends on the path
   * to `id`: truncating to an ancestor gives that ancestor's own path.
   */
  lemma SelectIsPathTo(nodes: map<string, Node>, path: seq<string>, id: string)
    requires IsChain(nodes, path) && Rooted(nodes, id)
    ensures Selected(nodes, path, id) == PathTo(nodes, id)
  {
    if id in path {
      var i := IndexOf(path, id);
      var r := Truncate(path, id);
      ChainPrefix(nodes, path, i + 1);
      PathToUnique(nodes, id, r);
    }
  }

  /** Selecting one of the tip's children extends the path by that child. */
  lemma SelectChildExtends(doc: Doc, path: seq<string>, c: string)
    requires WellFormed(doc) && IsChain(doc.nodes, path)
    requires c in doc.nodes[path[|path| - 1]].children
    ensures Selected(doc.nodes, path, c) == path + [c]
  {
    var tip := path[|path| - 1];
    PathToUnique(doc.nodes, tip, path);
    PathToParent(doc.nodes, tip, c);
    SelectIsPathTo(doc.nodes, path, c);
  }

  /** Restoring a known tip from the URL gives the path that selecting it from the root-only path gives. */
  lemma RestoreMatchesSelect(doc: Doc, hash: string)
    requires WellFormed(doc) && hash in doc.nodes
    ensures InitialPath(doc, hash) == Selected(doc.nodes, [doc.rootId], hash)
  {
    RootPath(doc);
    SelectIsPathTo(doc.nodes, [doc.rootId], hash);
  }

  /** One viewer session over a document. */
  class Viewer {
    const doc: Doc
    var currentPath: seq<string>
    var hash: string  // the URL fragment, without its leading '#'

    /** The document is well formed and the path is a root-first parent chain. */
    ghost predicate Valid()
      reads this
    {
      WellFormed(doc) && IsChain(doc.nodes, currentPath)
    }

    /** The page load: remember the document and the fragment, then `init()`. */
    constructor (doc: Doc, hash: string)
      requires WellFormed(doc)
      ensures Valid() && this.doc == doc && this.hash == hash
      ensures currentPath == InitialPath(doc, hash)
    {
      this.doc := doc;
      this.hash := hash;
      currentPath := [];
      new;
      Init();
    }

    /** `init()`: restore the tip named by the fragment, or start from the root. */
    method Init()
      requires WellFormed(doc)
      modifies this`currentPath
      ensures Valid() && currentPath == InitialPath(doc, hash)
    {
      if hash != "" && hash in doc.nodes {
        ReconstructPath(hash);
      } else {
        StartFromRoot();
      }
    }

    /** `startFromRoot()`. */
    method StartFromRoot()
      requires WellFormed(doc)
      modifies this`currentPath
      ensures Valid() && currentPath == [doc.rootId]
    {
      currentPath := [doc.rootId];
      RootPath(doc);
    }

    /** `reconstructPath(leafId)`: walk `parentId` links up from the leaf, prepending each id. */
    method ReconstructPath(leaf: string)
      requires Rooted(doc.nodes, leaf)
      modifies this`currentPath
      ensures IsChain(doc.nodes, currentPath) && currentPath[|currentPath| - 1] == leaf
      ensures currentPath == PathTo(doc.nodes, leaf)
    {
      ghost var chain := PathTo(doc.nodes, leaf);
      ghost var k := |chain|;
      currentPath := [];
      var curr: Option<string> := Some(leaf);
      while Truthy(curr)
        invariant 0 <= k <= |chain|
        invariant currentPath == chain[k..]
        invariant curr == if k == 0 then doc.nodes[chain[0]].parentId else Some(chain[k - 1])
        decreases k
      {
        var id := curr.value;
        currentPath := [id] + currentPath;
        curr := doc.nodes[id].parentId;
        k := k - 1;
      }
    }

    /** `selectNode(nodeId)`: truncate to the node if it is on the path, else rebuild; then persist the tip. */
    method SelectNode(id: string)
      requires Valid() && id in doc.nodes
      modifies this
      ensures Valid()
      ensures currentPath == Selected(doc.nodes, old(currentPath), id)
      ensures currentPath[|currentPath| - 1] == id && hash == id
    {
      var index := IndexOf(currentPath, id);
      if index != -1 {
        currentPath := currentPath[..index + 1];
        ChainPrefix(doc.nodes, old(currentPath), index + 1);
      } else {
        ReconstructPath(id);
      }
      UpdateHash();
    }

    /** `updateHash()`: the fragment names the tip. */
    method UpdateHash()
      requires |currentPath| > 0
      modifies this`hash
      ensures hash == currentPath[|currentPath| - 1]
    {
      hash := currentPath[|currentPath| - 1];
    }
  }
}
