/**
 * The site generator's document normaliser `process_document` (generate_site.py:16-61), which turns
 * a Loom node table into the `{rootId, nodes}` shape the viewer reads, and the file-name filter
 * of generate_site.py:90.
 */
module Site {
  import opened Wrappers
  import opened Seqs
  import Loom

  /** A field of a raw JSON node: a missing key, `null`, or a string. */
  datatype Field = Missing | Null | Str(s: string)

  /** A node as Loom stores it; only the keys `process_document` reads. */
  datatype RawNode = RawNode(id: Field, value: Field, text: Field, parentId: Field)

  /** An insertion-ordered Python dict with string keys. */
  datatype Dict<V> = Dict(keys: seq<string>, entries: map<string, V>)

  ghost predicate ValidDict<V>(d: Dict<V>)
  {
    Distinct(d.keys) && forall k :: k in d.entries <==> k in d.keys
  }

  /** `d[k] = v`: a new key goes to the end, an existing key keeps its place. */
  function Put<V>(d: Dict<V>, k: string, v: V): (r: Dict<V>)
    requires ValidDict(d)
    ensures ValidDict(r) && r.entries == d.entries[k := v]
    ensures r.keys == if k in d.entries then d.keys else d.keys + [k]
  {
    if k in d.entries then Dict(d.keys, d.entries[k := v])
    else
      assert forall i :: 0 <= i < |d.keys| ==> d.keys[i] in d.entries;
      Dict(d.keys + [k], d.entries[k := v])
  }

  /** Python truthiness of a JSON field: `None` and `''` are falsy. */
  predicate Truthy(f: Field)
  {
    f.Str? && f.s != ""
  }

  /** `node.get(key, default)`. */
  function Get(f: Field, default: Field): Field
  {
    if f.Missing? then default else f
  }

  /** A JSON string or `null`, as the viewer sees it. */
  function AsOption(f: Field): Option<string>
  {
    if f.Str? then Some(f.s) else None
  }

  /** `node.get('value', '') or node.get('text', '')` (generate_site.py:37). */
  function ContentOf(n: RawNode): (c: Option<string>)
    ensures Truthy(n.value) ==> c == Some(n.value.s)
    ensures !Truthy(n.value) ==> c == (if n.text.Missing? then Some("") else AsOption(n.text))
  {
    var v := Get(n.value, Str(""));
    AsOption(if Truthy(v) then v else Get(n.text, Str("")))
  }

  /** `node.get('parentId')` (generate_site.py:38). */
  function ParentOf(n: RawNode): Option<string>
  {
    AsOption(n.parentId)
  }

  /** The test of generate_site.py:45: `parent_id` is truthy and equals the key `p`. */
  predicate LinksTo(parent: Option<string>, p: string)
  {
    parent == Some(p) && p != ""
  }

  /** The keys among the first `j` of `t` whose node's parent is `p`: what the linking pass appends to `p`'s list. */
  function ChildrenOf(t: Dict<RawNode>, j: nat, p: string): (kids: seq<string>)
    requires ValidDict(t) && j <= |t.keys|
    ensures |kids| <= j
  {
    if j == 0 then []
    else
      var nid := t.keys[j - 1];
      ChildrenOf(t, j - 1, p) + (if LinksTo(ParentOf(t.entries[nid]), p) then [nid] else [])
  }

  /** The last of the first `j` keys of `t` whose parent is `None`: what the linking pass leaves in `root_id`. */
  function LastRoot(t: Dict<RawNode>, j: nat): Option<string>
    requires ValidDict(t) && j <= |t.keys|
  {
    if j == 0 then None
    else
      var nid := t.keys[j - 1];
      if ParentOf(t.entries[nid]).None? then Some(nid) else LastRoot(t, j - 1)
  }

  /** The root id `process_document` returns (generate_site.py:47-56). */
  function ChooseRoot(t: Dict<RawNode>): Option<string>
    requires ValidDict(t)
  {
    match LastRoot(t, |t.keys|)
    case Some(r) => Some(r)
    case None => if t.keys != [] then Some(t.keys[0]) else None
  }

  /** The node table after the first pass of generate_site.py:34-40: fields copied, no children yet. */
  function Copied(k: string, n: RawNode): Loom.Node
  {
    Loom.Node(k, ContentOf(n), ParentOf(n), [], false)
  }

  /** The value `process_document` returns: `{rootId, nodes}`, with the nodes in iteration order. */
  datatype Processed = Processed(rootId: Option<string>, order: seq<string>, nodes: map<string, Loom.Node>)

  /** What `process_document` computes from a node table, stated without its loops. */
  function Normalise(t: Dict<RawNode>): (out: Processed)
    requires ValidDict(t)
  {
    Processed(
      ChooseRoot(t),
      t.keys,
      map k | k in t.entries :: Copied(k, t.entries[k]).(children := ChildrenOf(t, |t.keys|, k)))
  }

  /** `{n['id']: n for n in nodes}` (generate_site.py:27): every element keyed by its id, a later duplicate winning. */
  function FromList(items: seq<RawNode>): (d: Dict<RawNode>)
    requires forall i :: 0 <= i < |items| ==> items[i].id.Str?
    ensures ValidDict(d)
  {
    if items == [] then Dict([], map[])
    else
      var last := items[|items| - 1];
      Put(FromList(items[..|items| - 1]), last.id.s, last)
  }

  /** The `nodes` entry of a document: absent, a list of nodes, or a dict of nodes. */
  datatype NodeTable = Absent | ListOf(items: seq<RawNode>) | DictOf(table: Dict<RawNode>)

  ghost predicate TableReadable(nodes: NodeTable)
  {
    match nodes
    case Absent => true
    case ListOf(items) => forall i :: 0 <= i < |items| ==> items[i].id.Str?
    case DictOf(table) => ValidDict(table)
  }

  /** `doc_data.get('nodes', {})`, converted to a dict when it is a list (generate_site.py:23-27). */
  function TableOf(nodes: NodeTable): (t: Dict<RawNode>)
    requires TableReadable(nodes)
    ensures ValidDict(t)
  {
    match nodes
    case Absent => Dict([], map[])
    case ListOf(items) => FromList(items)
    case DictOf(table) => table
  }

  /** The node table once the linking pass has handled the first `j` ids. */
  function LinkedUpTo(t: Dict<RawNode>, j: nat): map<string, Loom.Node>
    requires ValidDict(t) && j <= |t.keys|
  {
    map k | k in t.entries :: Copied(k, t.entries[k]).(children := ChildrenOf(t, j, k))
  }

  /** The table once the copying pass has handled the first `i` keys. */
  function CopiedUpTo(t: Dict<RawNode>, i: nat): Dict<Loom.Node>
    requires ValidDict(t) && i <= |t.keys|
  {
    Dict(t.keys[..i], map k | k in t.keys[..i] :: Copied(k, t.entries[k]))
  }

  /** Copying the `i`-th key adds it, with its copy, at the end. */
  lemma CopyNext(t: Dict<RawNode>, i: nat)
    requires ValidDict(t) && i < |t.keys|
    ensures ValidDict(CopiedUpTo(t, i))
    ensures Put(CopiedUpTo(t, i), t.keys[i], Copied(t.keys[i], t.entries[t.keys[i]])) == CopiedUpTo(t, i + 1)
  {
    var nid := t.keys[i];
    assert t.keys[..i + 1] == t.keys[..i] + [nid];
    assert nid !in t.keys[..i];
  }

  /** The copying pass ends where the linking pass starts. */
  lemma CopiedIsUnlinked(t: Dict<RawNode>)
    requires ValidDict(t)
    ensures CopiedUpTo(t, |t.keys|) == Dict(t.keys, LinkedUpTo(t, 0))
  {
    assert t.keys[..|t.keys|] == t.keys;
  }

  /** The linking pass only changes `children`: keys and the other fields stay as copied. */
  lemma LinkedLookup(t: Dict<RawNode>, j: nat, k: string)
    requires ValidDict(t) && j <= |t.keys|
    ensures k in LinkedUpTo(t, j) <==> k in t.entries
    ensures k in t.entries ==> LinkedUpTo(t, j)[k].parentId == ParentOf(t.entries[k])
  {
  }

  /** One entry of the linked table: the copied node with the children linked so far. */
  lemma LinkedAt(t: Dict<RawNode>, j: nat, k: string)
    requires ValidDict(t) && j < |t.keys| && k in t.entries
    ensures LinkedUpTo(t, j)[k] == Copied(k, t.entries[k]).(children := ChildrenOf(t, j, k))
    ensures LinkedUpTo(t, j + 1)[k] == Copied(k, t.entries[k]).(children := ChildrenOf(t, j + 1, k))
  {
  }

  /** Handling the `j`-th id when its parent is a truthy known key appends it to that parent's list. */
  lemma LinkAppends(t: Dict<RawNode>, j: nat, p: string)
    requires ValidDict(t) && j < |t.keys|
    requires ParentOf(t.entries[t.keys[j]]) == Some(p) && p != "" && p in t.entries
    ensures var m := LinkedUpTo(t, j);
      LinkedUpTo(t, j + 1) == m[p := m[p].(children := m[p].children + [t.keys[j]])]
  {
    var m, m' := LinkedUpTo(t, j), LinkedUpTo(t, j + 1);
    var expected := m[p := m[p].(children := m[p].children + [t.keys[j]])];
    forall k | k in t.entries
      ensures m'[k] == expected[k]
    {
      LinkedAt(t, j, k);
      if k == p {
        assert ChildrenOf(t, j + 1, p) == ChildrenOf(t, j, p) + [t.keys[j]];
      } else {
        assert ChildrenOf(t, j + 1, k) == ChildrenOf(t, j, k);
      }
    }
    assert m'.Keys == expected.Keys;
  }

  /** Handling the `j`-th id when its parent is falsy or unknown changes no list. */
  lemma LinkSkips(t: Dict<RawNode>, j: nat)
    requires ValidDict(t) && j < |t.keys|
    requires var parent := ParentOf(t.entries[t.keys[j]]); !(parent.Some? && parent.value != "" && parent.value in t.entries)
    ensures LinkedUpTo(t, j + 1) == LinkedUpTo(t, j)
  {
    var m, m' := LinkedUpTo(t, j), LinkedUpTo(t, j + 1);
    var parent := ParentOf(t.entries[t.keys[j]]);
    forall k | k in t.entries
      ensures m'[k] == m[k]
    {
      LinkedAt(t, j, k);
      assert !LinksTo(parent, k);
      assert ChildrenOf(t, j + 1, k) == ChildrenOf(t, j, k);
    }
  }

  /** Handling the id `nid` in the linking pass (generate_site.py:43-45), on the table `m`. */
  function LinkOne(m: map<string, Loom.Node>, nid: string): map<string, Loom.Node>
  {
    if nid !in m then m
    else
      var parent := m[nid].parentId;
      if parent.Some? && parent.value != "" && parent.value in m then
        var p := parent.value;
        m[p := m[p].(children := m[p].children + [nid])]
      else m
  }

  /** A linking step changes no node but the parent's, and only by appending `nid` to its children. */
  lemma LinkOneOnlyAppends(m: map<string, Loom.Node>, nid: string, k: string)
    requires k in m
    ensures LinkOne(m, nid).Keys == m.Keys
    ensures LinkOne(m, nid)[k] == m[k].(children := LinkOne(m, nid)[k].children)
    ensures LinkOne(m, nid)[k].children == m[k].children ||
      (LinkOne(m, nid)[k].children == m[k].children + [nid] && nid in m && m[nid].parentId == Some(k) && k != "")
  {
  }

  /** The table the linking pass holds after `j` ids, step by step. */
  function Linking(t: Dict<RawNode>, j: nat): map<string, Loom.Node>
    requires ValidDict(t) && j <= |t.keys|
  {
    if j == 0 then LinkedUpTo(t, 0)
    else LinkOne(Linking(t, j - 1), t.keys[j - 1])
  }

  /** The linking pass keeps every node and never changes a node's parent. */
  lemma {:induction false} LinkingKeepsParent(t: Dict<RawNode>, j: nat, k: string)
    requires ValidDict(t) && j <= |t.keys| && k in t.entries
    ensures k in Linking(t, j) && Linking(t, j)[k].parentId == ParentOf(t.entries[k])
  {
    if j > 0 {
      LinkingKeepsParent(t, j - 1, k);
    }
  }

  /** One step of the linking pass appends the `j`-th id exactly where `ChildrenOf` says. */
  lemma LinkNext(t: Dict<RawNode>, j: nat, m: map<string, Loom.Node>)
    requires ValidDict(t) && j < |t.keys| && m == LinkedUpTo(t, j)
    ensures LinkedUpTo(t, j + 1) == LinkOne(m, t.keys[j])
  {
    var nid := t.keys[j];
    LinkedLookup(t, j, nid);
    var parent := ParentOf(t.entries[nid]);
    if parent.Some? {
      LinkedLookup(t, j, parent.value);
    }
    if parent.Some? && parent.value != "" && parent.value in t.entries {
      LinkAppends(t, j, parent.value);
    } else {
      LinkSkips(t, j);
    }
  }

  /** The step-by-step table is the one described by `ChildrenOf`. */
  lemma {:induction false} LinkingIsLinkedUpTo(t: Dict<RawNode>, j: nat)
    requires ValidDict(t) && j <= |t.keys|
    ensures Linking(t, j) == LinkedUpTo(t, j)
  {
    if j > 0 {
      LinkingIsLinkedUpTo(t, j - 1);
      LinkNext(t, j - 1, Linking(t, j - 1));
    }
  }

  /** Once every id is handled, the table is the normalised one. */
  lemma LinkedAll(t: Dict<RawNode>)
    requires ValidDict(t)
    ensures LinkedUpTo(t, |t.keys|) == Normalise(t).nodes
  {
  }

  /** The first pass of generate_site.py:34-40: copy every node, with an empty children list, in iteration order. */
  method CopyNodes(t: Dict<RawNode>) returns (processed: Dict<Loom.Node>)
    requires ValidDict(t)
    ensures processed == Dict(t.keys, LinkedUpTo(t, 0))
  {
    processed := Dict([], map[]);
    var i := 0;
    while i < |t.keys|
      invariant 0 <= i <= |t.keys|
      invariant processed == CopiedUpTo(t, i)
    {
      var nid := t.keys[i];
      CopyNext(t, i);
      processed := Put(processed, nid, Copied(nid, t.entries[nid]));
      i := i + 1;
    }
    CopiedIsUnlinked(t);
  }

  /**
   * The second pass of generate_site.py:42-47: append each node to its parent's children when the
   * parent is truthy and known, and remember the last node with no parent.
   */
  method LinkChildren(t: Dict<RawNode>, copied: Dict<Loom.Node>) returns (processed: Dict<Loom.Node>, rootId: Option<string>)
    requires ValidDict(t) && copied == Dict(t.keys, Linking(t, 0))
    ensures processed == Dict(t.keys, Linking(t, |t.keys|))
    ensures rootId == LastRoot(t, |t.keys|)
  {
    var entries := copied.entries;
    rootId := None;
    var j := 0;
    while j < |t.keys|
      invariant j <= |t.keys|
      invariant entries == Linking(t, j)
      invariant rootId == LastRoot(t, j)
    {
      var nid := t.keys[j];
      LinkingKeepsParent(t, j, nid);
      var parentId := entries[nid].parentId;
      if parentId.Some? && parentId.value != "" && parentId.value in entries {
        var p := parentId.value;
        entries := entries[p := entries[p].(children := entries[p].children + [nid])];
      } else if parentId.None? {
        rootId := Some(nid);
      }
      j := j + 1;
    }
    processed := Dict(copied.keys, entries);
  }

  /** `process_document(doc_id, doc_data)`: copy the nodes, link children to parents, pick the root. */
  method ProcessDocument(nodes: NodeTable) returns (out: Processed)
    requires TableReadable(nodes)
    ensures out == Normalise(TableOf(nodes))
  {
    var t := TableOf(nodes);
    var copied := CopyNodes(t);
    var processed, rootId := LinkChildren(t, copied);
    LinkingIsLinkedUpTo(t, |t.keys|);
    LinkedAll(t);
    if rootId.None? && |processed.keys| > 0 {
      rootId := Some(processed.keys[0]);
    }
    out := Processed(rootId, processed.keys, processed.entries);
  }

  // Properties of the normalised document.

  /** The linking pass lists `c` under `p` exactly when `c` is among the handled keys and its parent is `p`. */
  lemma {:induction false} ChildrenOfMembers(t: Dict<RawNode>, j: nat, p: string, c: string)
    requires ValidDict(t) && j <= |t.keys|
    ensures c in ChildrenOf(t, j, p) <==> c in t.keys[..j] && c in t.entries && LinksTo(ParentOf(t.entries[c]), p)
  {
    if j > 0 {
      ChildrenOfMembers(t, j - 1, p, c);
      var nid := t.keys[j - 1];
      assert t.keys[..j] == t.keys[..j - 1] + [nid];
      assert c in t.keys[..j] <==> c in t.keys[..j - 1] || c == nid;
      if LinksTo(ParentOf(t.entries[nid]), p) {
        assert ChildrenOf(t, j, p) == ChildrenOf(t, j - 1, p) + [nid];
      } else {
        assert ChildrenOf(t, j, p) == ChildrenOf(t, j - 1, p);
      }
    }
  }

  /** The `a`-th id appended to `p` is a key before position `j`. */
  lemma {:induction false} ChildrenOfBounded(t: Dict<RawNode>, j: nat, p: string, a: nat)
    requires ValidDict(t) && j <= |t.keys| && a < |ChildrenOf(t, j, p)|
    ensures 0 <= IndexOf(t.keys, ChildrenOf(t, j, p)[a]) < j
  {
    var kids0, kids := ChildrenOf(t, j - 1, p), ChildrenOf(t, j, p);
    if a < |kids0| {
      assert kids[a] == kids0[a];
      ChildrenOfBounded(t, j - 1, p, a);
    } else {
      assert kids[a] == t.keys[j - 1];
      IndexOfDistinct(t.keys, j - 1);
    }
  }

  /** The `a`-th id appended to `p` comes, among the keys, after the id appended before it. */
  lemma {:induction false} ChildrenOfOrderedAt(t: Dict<RawNode>, j: nat, p: string, a: nat)
    requires ValidDict(t) && j <= |t.keys| && 0 < a < |ChildrenOf(t, j, p)|
    ensures IndexOf(t.keys, ChildrenOf(t, j, p)[a - 1]) < IndexOf(t.keys, ChildrenOf(t, j, p)[a])
  {
    var kids0, kids := ChildrenOf(t, j - 1, p), ChildrenOf(t, j, p);
    assert kids[a - 1] == kids0[a - 1];
    if a < |kids0| {
      assert kids[a] == kids0[a];
      ChildrenOfOrderedAt(t, j - 1, p, a);
    } else {
      assert kids[a] == t.keys[j - 1];
      IndexOfDistinct(t.keys, j - 1);
      ChildrenOfBounded(t, j - 1, p, a - 1);
    }
  }

  /** The linking pass lists children in the order of the keys. */
  lemma ChildrenOfOrdered(t: Dict<RawNode>, j: nat, p: string)
    requires ValidDict(t) && j <= |t.keys|
    ensures FollowsOrder(t.keys, ChildrenOf(t, j, p), j)
  {
    var kids := ChildrenOf(t, j, p);
    forall a | 0 <= a < |kids|
      ensures 0 <= IndexOf(t.keys, kids[a]) < j
    {
      ChildrenOfBounded(t, j, p, a);
    }
    forall a | 0 < a < |kids|
      ensures IndexOf(t.keys, kids[a - 1]) < IndexOf(t.keys, kids[a])
    {
      ChildrenOfOrderedAt(t, j, p, a);
    }
  }

  /** The normalised table keeps the key set, the order and every copied field; `children` is all that the linking adds. */
  lemma NormalisedNodes(t: Dict<RawNode>, k: string)
    requires ValidDict(t)
    ensures var out := Normalise(t);
      out.order == t.keys &&
      (k in out.nodes <==> k in t.entries) &&
      (k in t.entries ==>
        var n := out.nodes[k];
        n.id == k && n.content == ContentOf(t.entries[k]) && n.parentId == ParentOf(t.entries[k]) && !n.bookmarked)
  {
  }

  /** After linking, `c` is a child of the node `p` exactly when `c` is a node whose `parentId` is `p` (and `p` is not `''`). */
  lemma NormalisedChildren(t: Dict<RawNode>, p: string, c: string)
    requires ValidDict(t) && p in t.entries
    ensures var out := Normalise(t);
      p in out.nodes &&
      (c in out.nodes[p].children <==> c in out.nodes && out.nodes[c].parentId == Some(p) && p != "")
  {
    ChildrenOfMembers(t, |t.keys|, p, c);
    assert t.keys[..|t.keys|] == t.keys;
  }

  /** Every child list holds each child once, in iteration order. */
  lemma NormalisedChildrenOrdered(t: Dict<RawNode>, p: string)
    requires ValidDict(t) && p in t.entries
    ensures var kids := Normalise(t).nodes[p].children;
      Distinct(kids) && FollowsOrder(t.keys, kids, |t.keys|)
  {
    ChildrenOfOrdered(t, |t.keys|, p);
    FollowsOrderDistinct(t.keys, ChildrenOf(t, |t.keys|, p), |t.keys|);
  }

  /** A node whose parent is set but is `''` or names no node is in no child list. */
  lemma DanglingUnlisted(t: Dict<RawNode>, c: string)
    requires ValidDict(t) && c in t.entries
    requires var parent := ParentOf(t.entries[c]); parent.Some? && (parent.value == "" || parent.value !in t.entries)
    ensures var out := Normalise(t); forall p :: p in out.nodes ==> c !in out.nodes[p].children
  {
    var out := Normalise(t);
    forall p | p in out.nodes
      ensures c !in out.nodes[p].children
    {
      NormalisedChildren(t, p, c);
    }
  }

  /** The key at position `i` exists and has parent `None`. */
  predicate ParentlessAt(t: Dict<RawNode>, i: int)
  {
    0 <= i < |t.keys| && t.keys[i] in t.entries && ParentOf(t.entries[t.keys[i]]).None?
  }

  /** The loop finds a root exactly when some handled key has parent `None`, and the root is such a key. */
  lemma {:induction false} LastRootExists(t: Dict<RawNode>, j: nat)
    requires ValidDict(t) && j <= |t.keys|
    ensures LastRoot(t, j).None? <==> forall i :: 0 <= i < j ==> !ParentlessAt(t, i)
    ensures LastRoot(t, j).Some? ==>
      LastRoot(t, j).value in t.entries && ParentOf(t.entries[LastRoot(t, j).value]).None?
  {
    if j > 0 {
      LastRootExists(t, j - 1);
      if ParentlessAt(t, j - 1) {
        assert LastRoot(t, j) == Some(t.keys[j - 1]);
      } else {
        assert LastRoot(t, j) == LastRoot(t, j - 1);
      }
    }
  }

  /** The loop's root after `j` keys is never a key it has not reached. */
  lemma {:induction false} LastRootNotAhead(t: Dict<RawNode>, j: nat, i: nat)
    requires ValidDict(t) && j <= i < |t.keys|
    ensures LastRoot(t, j) != Some(t.keys[i])
  {
    if j > 0 {
      LastRootNotAhead(t, j - 1, i);
      assert t.keys[j - 1] != t.keys[i];
    }
  }

  /** After `j` keys, the loop's root is the key at `i` exactly when it has parent `None` and no later handled key does. */
  lemma {:induction false} LastRootIsLast(t: Dict<RawNode>, j: nat, i: nat)
    requires ValidDict(t) && i < j <= |t.keys|
    ensures LastRoot(t, j) == Some(t.keys[i]) <==>
      ParentlessAt(t, i) && forall i' :: i < i' < j ==> !ParentlessAt(t, i')
  {
    if i == j - 1 {
      if !ParentlessAt(t, i) {
        LastRootNotAhead(t, j - 1, i);
      }
    } else {
      LastRootIsLast(t, j - 1, i);
      if ParentlessAt(t, j - 1) {
        assert LastRoot(t, j) == Some(t.keys[j - 1]);
        assert t.keys[j - 1] != t.keys[i];
      } else {
        assert LastRoot(t, j) == LastRoot(t, j - 1);
      }
    }
  }

  /**
   * When some node has parent `None`, `process_document` picks the last one in iteration order:
   * the key at `i` is the root exactly when it has parent `None` and no later key does.
   */
  lemma RootIsLastParentless(t: Dict<RawNode>, i: nat)
    requires ValidDict(t) && i < |t.keys|
    requires exists i0 :: ParentlessAt(t, i0)
    ensures ChooseRoot(t) == Some(t.keys[i]) <==>
      ParentlessAt(t, i) && forall i' :: i < i' < |t.keys| ==> !ParentlessAt(t, i')
  {
    LastRootExists(t, |t.keys|);
    LastRootIsLast(t, |t.keys|, i);
  }

  /**
   * The rest of the root choice: no root exactly when there are no nodes; a root with parent
   * `None` whenever one exists; otherwise the first key.
   */
  lemma RootFallback(t: Dict<RawNode>)
    requires ValidDict(t)
    ensures ChooseRoot(t).None? <==> t.keys == []
    ensures (exists i :: ParentlessAt(t, i)) ==>
      ChooseRoot(t).Some? && ChooseRoot(t).value in t.entries && ParentOf(t.entries[ChooseRoot(t).value]).None?
    ensures (forall i :: !ParentlessAt(t, i)) && t.keys != [] ==> ChooseRoot(t) == Some(t.keys[0])
  {
    LastRootExists(t, |t.keys|);
  }

  /** A node with a dangling parent becomes the root only through the fallback: when no node lacks a parent and it is the first key. */
  lemma DanglingRootOnlyAsFallback(t: Dict<RawNode>, c: string)
    requires ValidDict(t) && c in t.entries && ParentOf(t.entries[c]).Some?
    requires ChooseRoot(t) == Some(c)
    ensures c == t.keys[0]
    ensures forall i :: !ParentlessAt(t, i)
  {
    RootFallback(t);
  }

  /** Every listed child is a node whose `parentId` is the parent. */
  lemma NormalisedChildrenPointBack(t: Dict<RawNode>)
    requires ValidDict(t)
    ensures Loom.ChildrenPointBack(Normalise(t).nodes)
  {
    var nodes := Normalise(t).nodes;
    forall k, c | k in nodes && c in nodes[k].children
      ensures c in nodes && nodes[c].parentId == Some(k)
    {
      NormalisedChildren(t, k, c);
    }
  }

  /** Every node whose `parentId` names a node is listed among that node's children. */
  lemma NormalisedChildrenComplete(t: Dict<RawNode>)
    requires ValidDict(t) && "" !in t.entries
    ensures Loom.ChildrenComplete(Normalise(t).nodes)
  {
    var nodes := Normalise(t).nodes;
    forall k, c | k in nodes && c in nodes && nodes[c].parentId == Some(k)
      ensures c in nodes[k].children
    {
      NormalisedChildren(t, k, c);
    }
  }

  /**
   * When every parent chain ends at a parentless node and some node has parent `None`, the output
   * is a document the viewer can walk.
   */
  lemma NormalisedWellFormed(t: Dict<RawNode>)
    requires ValidDict(t) && "" !in t.entries
    requires exists i :: ParentlessAt(t, i)
    requires Loom.AllRooted(Normalise(t).nodes)
    ensures Normalise(t).rootId.Some?
    ensures Loom.WellFormed(Loom.Doc(Normalise(t).rootId.value, Normalise(t).nodes))
  {
    var out := Normalise(t);
    RootFallback(t);
    NormalisedNodes(t, "");
    NormalisedNodes(t, out.rootId.value);
    NormalisedChildrenPointBack(t);
  }

  /** With a single parentless node `r`, whose parent is `None`, the output is a tree rooted at `r`. */
  lemma NormalisedTree(t: Dict<RawNode>, r: string)
    requires ValidDict(t) && "" !in t.entries
    requires r in t.entries && ParentOf(t.entries[r]).None?
    requires forall k :: k in t.entries && !Loom.Truthy(ParentOf(t.entries[k])) ==> k == r
    requires Loom.AllRooted(Normalise(t).nodes)
    ensures Normalise(t).rootId == Some(r)
    ensures Loom.IsTree(Loom.Doc(r, Normalise(t).nodes))
  {
    var out := Normalise(t);
    var i := IndexOf(t.keys, r);
    assert ParentlessAt(t, i);
    NormalisedWellFormed(t);
    NormalisedNodes(t, out.rootId.value);
    forall k | k in out.nodes && !Loom.Truthy(out.nodes[k].parentId)
      ensures k == r
    {
      NormalisedNodes(t, k);
    }
    NormalisedChildrenComplete(t);
  }

  /** The node ids of a list, in list order. */
  function Ids(items: seq<RawNode>): (ids: seq<string>)
    requires forall i :: 0 <= i < |items| ==> items[i].id.Str?
    ensures |ids| == |items| && forall i :: 0 <= i < |items| ==> ids[i] == items[i].id.s
  {
    seq(|items|, i requires 0 <= i < |items| => items[i].id.s)
  }

  /** Every element of the list is under its id. */
  lemma {:induction false} FromListHas(items: seq<RawNode>, i: nat)
    requires forall i :: 0 <= i < |items| ==> items[i].id.Str?
    requires i < |items|
    ensures items[i].id.s in FromList(items).entries
  {
    if i < |items| - 1 {
      FromListHas(items[..|items| - 1], i);
    }
  }

  /** Every key comes from some element's id. */
  lemma {:induction false} FromListOnlyIds(items: seq<RawNode>, k: string)
    requires forall i :: 0 <= i < |items| ==> items[i].id.Str?
    requires k in FromList(items).entries
    ensures exists i :: 0 <= i < |items| && items[i].id == Str(k)
  {
    var last := items[|items| - 1];
    if k != last.id.s {
      FromListOnlyIds(items[..|items| - 1], k);
      var i :| 0 <= i < |items| - 1 && items[..|items| - 1][i].id == Str(k);
      assert items[i].id == Str(k);
    }
  }

  /** The value under an id is the last element carrying it: a later duplicate overwrites an earlier one. */
  lemma {:induction false} FromListLastWins(items: seq<RawNode>, i: nat)
    requires forall i :: 0 <= i < |items| ==> items[i].id.Str?
    requires i < |items|
    requires forall i' :: i < i' < |items| ==> items[i'].id != items[i].id
    ensures items[i].id.s in FromList(items).entries
    ensures FromList(items).entries[items[i].id.s] == items[i]
  {
    FromListHas(items, i);
    if i < |items| - 1 {
      FromListLastWins(items[..|items| - 1], i);
    }
  }

  lemma IdsSnoc(items: seq<RawNode>)
    requires forall i :: 0 <= i < |items| ==> items[i].id.Str?
    requires items != []
    ensures Ids(items) == Ids(items[..|items| - 1]) + [items[|items| - 1].id.s]
  {
  }

  /** An id that the front of the list does not hold is first found at the end. */
  lemma FromListNewKey(items: seq<RawNode>)
    requires forall i :: 0 <= i < |items| ==> items[i].id.Str?
    requires items != [] && items[|items| - 1].id.s !in FromList(items[..|items| - 1]).entries
    ensures IndexOf(Ids(items), items[|items| - 1].id.s) == |items| - 1
  {
    var front, k := items[..|items| - 1], items[|items| - 1].id.s;
    IdsSnoc(items);
    assert k !in Ids(front) by {
      if k in Ids(front) {
        var i :| 0 <= i < |front| && Ids(front)[i] == k;
        FromListHas(front, i);
      }
    }
    IndexOfPrefix(Ids(front), [k], k);
  }

  /** Every key of a listed table first occurs as an id in the list. */
  lemma {:induction false} FromListKeyIndex(items: seq<RawNode>, a: nat)
    requires forall i :: 0 <= i < |items| ==> items[i].id.Str?
    requires a < |FromList(items).keys|
    ensures 0 <= IndexOf(Ids(items), FromList(items).keys[a]) < |items|
  {
    var front, k := items[..|items| - 1], items[|items| - 1].id.s;
    var keys0, keys := FromList(front).keys, FromList(items).keys;
    IdsSnoc(items);
    if a < |keys0| {
      assert keys[a] == keys0[a];
      FromListKeyIndex(front, a);
      IndexOfExtend(Ids(front), [k], keys0[a]);
    } else {
      assert k !in FromList(front).entries && keys[a] == k;
      FromListNewKey(items);
    }
  }

  /** Each key of a listed table first occurs as an id after the key before it. */
  lemma {:induction false} FromListOrderAt(items: seq<RawNode>, a: nat)
    requires forall i :: 0 <= i < |items| ==> items[i].id.Str?
    requires 0 < a < |FromList(items).keys|
    ensures IndexOf(Ids(items), FromList(items).keys[a - 1]) < IndexOf(Ids(items), FromList(items).keys[a])
  {
    var front, k := items[..|items| - 1], items[|items| - 1].id.s;
    var keys0, keys := FromList(front).keys, FromList(items).keys;
    IdsSnoc(items);
    assert keys[a - 1] == keys0[a - 1];
    FromListKeyIndex(front, a - 1);
    IndexOfExtend(Ids(front), [k], keys0[a - 1]);
    if a < |keys0| {
      assert keys[a] == keys0[a];
      FromListOrderAt(front, a);
      FromListKeyIndex(front, a);
      IndexOfExtend(Ids(front), [k], keys0[a]);
    } else {
      assert k !in FromList(front).entries && keys[a] == k;
      FromListNewKey(items);
    }
  }

  /** Keys keep the order in which their ids first occur in the list. */
  lemma FromListOrder(items: seq<RawNode>)
    requires forall i :: 0 <= i < |items| ==> items[i].id.Str?
    ensures FollowsOrder(Ids(items), FromList(items).keys, |items|)
  {
    var keys := FromList(items).keys;
    forall a | 0 <= a < |keys|
      ensures 0 <= IndexOf(Ids(items), keys[a]) < |items|
    {
      FromListKeyIndex(items, a);
    }
    forall a | 0 < a < |keys|
      ensures IndexOf(Ids(items), keys[a - 1]) < IndexOf(Ids(items), keys[a])
    {
      FromListOrderAt(items, a);
    }
  }

  // The page file name of generate_site.py:90.

  /** `str.isalnum`, for ASCII letters and digits. */
  predicate IsAlnum(c: char)
  {
    'a' <= c <= 'z' || 'A' <= c <= 'Z' || '0' <= c <= '9'
  }

  /** A character the file name may keep: alphanumeric, space, `-`, `_` or `.`. */
  predicate Allowed(c: char)
  {
    IsAlnum(c) || c == ' ' || c == '-' || c == '_' || c == '.'
  }

  predicate AllAllowed(s: string)
  {
    forall i :: 0 <= i < |s| ==> Allowed(s[i])
  }

  /** The list comprehension of line 90: the allowed characters, each as often as in `s`, in order. */
  function KeepAllowed(s: string): (r: string)
    ensures AllAllowed(r)
    ensures forall c :: Allowed(c) ==> multiset(r)[c] == multiset(s)[c]
  {
    if s == [] then []
    else
      assert s == [s[0]] + s[1..];
      (if Allowed(s[0]) then [s[0]] else []) + KeepAllowed(s[1..])
  }

  /** The filter works character by character: filtering a concatenation filters each part. */
  lemma {:induction false} KeepAllowedAppend(a: string, b: string)
    ensures KeepAllowed(a + b) == KeepAllowed(a) + KeepAllowed(b)
  {
    if a == [] {
      assert a + b == b;
    } else {
      assert (a + b)[0] == a[0] && (a + b)[1..] == a[1..] + b;
      KeepAllowedAppend(a[1..], b);
    }
  }

  /** A single character is kept exactly when it is allowed. */
  lemma KeepAllowedSingle(c: char)
    ensures KeepAllowed([c]) == if Allowed(c) then [c] else []
  {
    assert [c][1..] == [];
  }

  /** Leading spaces removed. */
  function TrimStart(s: string): (r: string)
    ensures r == [] || r[0] != ' '
    ensures |r| <= |s| && r == s[|s| - |r|..]
    ensures forall i :: 0 <= i < |s| - |r| ==> s[i] == ' '
    ensures AllAllowed(s) ==> AllAllowed(r)
  {
    if s != [] && s[0] == ' ' then TrimStart(s[1..]) else s
  }

  /** Trailing spaces removed. */
  function TrimEnd(s: string): (r: string)
    ensures r == [] || r[|r| - 1] != ' '
    ensures |r| <= |s| && r == s[..|r|]
    ensures forall i :: |r| <= i < |s| ==> s[i] == ' '
    ensures AllAllowed(s) ==> AllAllowed(r)
  {
    if s != [] && s[|s| - 1] == ' ' then TrimEnd(s[..|s| - 1]) else s
  }

  /** `safe_name`: the allowed characters of the document name, with surrounding spaces stripped. */
  function SafeName(name: string): (r: string)
    ensures AllAllowed(r)
    ensures r == [] || (r[0] != ' ' && r[|r| - 1] != ' ')
  {
    var trimmed := TrimStart(KeepAllowed(name));
    assert trimmed != [] ==> TrimEnd(trimmed)[0] == trimmed[0];
    TrimEnd(trimmed)
  }

  /** Filtering a string that holds only allowed characters changes nothing. */
  lemma {:induction false} KeepAllowedKeepsAllowed(s: string)
    requires AllAllowed(s)
    ensures KeepAllowed(s) == s
  {
    if s != [] {
      KeepAllowedKeepsAllowed(s[1..]);
    }
  }

  /** Sanitising a sanitised name gives it back. */
  lemma SafeNameIdempotent(name: string)
    ensures SafeName(SafeName(name)) == SafeName(name)
  {
    var r := SafeName(name);
    KeepAllowedKeepsAllowed(r);
    assert TrimStart(r) == r;
    assert TrimEnd(r) == r;
  }
}
