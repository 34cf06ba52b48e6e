/** src/merger.ts, part 1: the element tree and its path-addressed
    operations. Nodes are values, so the source's `deepCopyNode` before every
    edit is implicit: an operation never changes the tree it is given. */
module MergerTree {
  import opened Wrappers
  import opened Text
  import opened OrderedMaps
  import opened Fhir

  type ElementPath = string

  /** A node holds the element at its path and its children keyed by path,
      in insertion order. */
  datatype Node = Node(path: ElementPath, element: Element, children: OrderedMap<Node>)

  function Leaf(e: Element): (n: Node)
    ensures n.path == Path(e) && n.element == e && n.children == []
  {
    Node(Path(e), e, [])
  }

  /** Trees as the builders make them: at every node the child keys are
      distinct (a `Map` cannot repeat a key) and each key is its child's
      path. */
  predicate ValidNode(n: Node)
    decreases n, 1
  {
    DistinctKeys(n.children) && ValidChildren(n.children)
  }

  predicate ValidChildren(kids: OrderedMap<Node>)
    decreases kids, 0
  {
    forall i :: 0 <= i < |kids| ==> kids[i].key == kids[i].value.path && ValidNode(kids[i].value)
  }

  // ---------------------------------------------------------------------
  // Pre-order views

  /** One visited node: its path and element. */
  datatype Entry = Entry(path: ElementPath, element: Element)

  /** The nodes in pre-order (a node, then each child's subtree in key
      order). This is the reference the path operations are stated against. */
  function Entries(n: Node): (es: seq<Entry>)
    ensures |es| >= 1 && es[0] == Entry(n.path, n.element)
    decreases n, 1
  {
    [Entry(n.path, n.element)] + ChildEntries(n.children)
  }

  function ChildEntries(kids: OrderedMap<Node>): seq<Entry>
    decreases kids, 0
  {
    if |kids| == 0 then [] else Entries(kids[0].value) + ChildEntries(kids[1..])
  }

  /** `resolveElementDefinition`: the elements of the tree in pre-order. */
  function ResolveElementDefinition(node: Node): seq<Element>
    decreases node, 1
  {
    [node.element] + ResolveChildren(node.children)
  }

  function ResolveChildren(kids: OrderedMap<Node>): seq<Element>
    decreases kids, 0
  {
    if |kids| == 0 then [] else ResolveElementDefinition(kids[0].value) + ResolveChildren(kids[1..])
  }

  /** The elements of a pre-order list. */
  function ElementsOf(es: seq<Entry>): (r: seq<Element>)
    ensures |r| == |es| && forall i :: 0 <= i < |es| ==> r[i] == es[i].element
  {
    if |es| == 0 then [] else [es[0].element] + ElementsOf(es[1..])
  }

  /** `resolveElementDefinition` lists the tree's elements in pre-order. */
  lemma {:induction false} ResolveIsPreorder(n: Node)
    ensures ResolveElementDefinition(n) == ElementsOf(Entries(n))
    decreases n, 1
  {
    ResolveChildrenIsPreorder(n.children);
  }

  lemma {:induction false} ResolveChildrenIsPreorder(kids: OrderedMap<Node>)
    ensures ResolveChildren(kids) == ElementsOf(ChildEntries(kids))
    decreases kids, 0
  {
    if |kids| > 0 {
      ResolveIsPreorder(kids[0].value);
      ResolveChildrenIsPreorder(kids[1..]);
    }
  }

  /** Some entry of `es` is at path `p`. */
  predicate Occurs(es: seq<Entry>, p: ElementPath)
    decreases |es|
  {
    |es| > 0 && (es[0].path == p || Occurs(es[1..], p))
  }

  /** Position of the first entry at path `p`. */
  function FirstIndexOf(es: seq<Entry>, p: ElementPath): (k: nat)
    requires Occurs(es, p)
    ensures k < |es| && es[k].path == p
    decreases |es|
  {
    if es[0].path == p then 0 else FirstIndexOf(es[1..], p) + 1
  }

  /** No entry before the first one at `p` is at `p`. */
  lemma {:induction false} FirstIndexFirst(es: seq<Entry>, p: ElementPath)
    requires Occurs(es, p)
    ensures !Occurs(es[..FirstIndexOf(es, p)], p)
    decreases |es|
  {
    if es[0].path != p {
      var k := FirstIndexOf(es[1..], p);
      FirstIndexFirst(es[1..], p);
      var pre := es[..k + 1];
      assert pre[0] == es[0] && pre[1..] == es[1..][..k];
    }
  }

  /** `sub` sits inside `es` starting at position `k`. */
  predicate SubAt(es: seq<Entry>, k: nat, sub: seq<Entry>)
  {
    k + |sub| <= |es| && es[k..k + |sub|] == sub
  }

  // ---------------------------------------------------------------------
  // The operations

  /** `getNodeByPath`: the first node in pre-order whose path is `path`. */
  function GetNodeByPath(node: Node, path: ElementPath): Option<Node>
    decreases node, 1
  {
    if node.path == path then Some(node) else GetInChildren(node.children, path)
  }

  function GetInChildren(kids: OrderedMap<Node>, path: ElementPath): Option<Node>
    decreases kids, 0
  {
    if |kids| == 0 then None
    else match GetNodeByPath(kids[0].value, path)
      case Some(r) => Some(r)
      case None => GetInChildren(kids[1..], path)
  }

  /** `replaceNodeByPath`: the tree with the first node at `path` replaced by
      `newNode`; each ancestor re-binds the changed child under that child's
      own `path`. None when no node has the path. */
  function ReplaceNodeByPath(node: Node, path: ElementPath, newNode: Node): Option<Node>
    decreases node, 1
  {
    if node.path == path then Some(newNode)
    else match ReplaceInChildren(node.children, path, newNode)
      case None => None
      case Some(kv) => Some(node.(children := MapSet(node.children, kv.key, kv.value)))
  }

  function ReplaceInChildren(kids: OrderedMap<Node>, path: ElementPath, newNode: Node): Option<KV<Node>>
    decreases kids, 0
  {
    if |kids| == 0 then None
    else match ReplaceNodeByPath(kids[0].value, path, newNode)
      case Some(r) => Some(KV(kids[0].value.path, r))
      case None => ReplaceInChildren(kids[1..], path, newNode)
  }

  /** `addNodeByPath`: attaches `newNode` under key `path` to the first node
      in pre-order whose path is the parent of `path`, or to the root when
      `path` has no parent. Meeting a node whose path is `path` on the way is
      the source's "already exists" error; None when no parent is found. */
  function AddNodeByPath(node: Node, path: ElementPath, newNode: Node): Result<Option<Node>>
    decreases node, 1
  {
    if node.path == path then Err("Add node by path failed: " + path + " is already exists")
    else if ParentPath(path) == "" || node.path == ParentPath(path) then
      Ok(Some(node.(children := MapSet(node.children, path, newNode))))
    else
      var r :- AddInChildren(node.children, path, newNode);
      match r
      case None => Ok(None)
      case Some(kv) => Ok(Some(node.(children := MapSet(node.children, kv.key, kv.value))))
  }

  function AddInChildren(kids: OrderedMap<Node>, path: ElementPath, newNode: Node): Result<Option<KV<Node>>>
    decreases kids, 0
  {
    if |kids| == 0 then Ok(None)
    else
      var r :- AddNodeByPath(kids[0].value, path, newNode);
      match r
      case Some(n) => Ok(Some(KV(kids[0].key, n)))
      case None => AddInChildren(kids[1..], path, newNode)
  }

  /** What a child loop decided: drop the entry with this key, or put a new
      node under it. */
  datatype ChildEdit = Drop(key: string) | Put(key: string, node: Node)

  /** `deleteNodeByPath`: removes the first child entry, in pre-order, whose
      key is `path`. None when the root itself has the path or nothing is
      removed. */
  function DeleteNodeByPath(node: Node, path: ElementPath): Option<Node>
    decreases node, 1
  {
    if node.path == path then None
    else match DeleteInChildren(node.children, path)
      case None => None
      case Some(Drop(k)) => Some(node.(children := MapDelete(node.children, k)))
      case Some(Put(k, r)) => Some(node.(children := MapSet(node.children, k, r)))
  }

  function DeleteInChildren(kids: OrderedMap<Node>, path: ElementPath): Option<ChildEdit>
    decreases kids, 0
  {
    if |kids| == 0 then None
    else if kids[0].key == path then Some(Drop(kids[0].key))
    else match DeleteNodeByPath(kids[0].value, path)
      case Some(r) => Some(Put(kids[0].key, r))
      case None => DeleteInChildren(kids[1..], path)
  }

  // ---------------------------------------------------------------------
  // Facts about the pre-order views

  lemma ValidChild(n: Node, j: nat)
    requires ValidNode(n) && j < |n.children|
    ensures n.children[j].key == n.children[j].value.path && ValidNode(n.children[j].value)
  {
    assert ValidChildren(n.children);
  }

  lemma {:induction false} ChildEntriesAppend(a: OrderedMap<Node>, b: OrderedMap<Node>)
    ensures ChildEntries(a + b) == ChildEntries(a) + ChildEntries(b)
  {
    if |a| > 0 {
      assert (a + b)[0] == a[0];
      assert (a + b)[1..] == a[1..] + b;
      ChildEntriesAppend(a[1..], b);
    } else {
      assert a + b == b;
    }
  }

  /** The children's entries around child `j`. */
  lemma ChildEntriesSplit(kids: OrderedMap<Node>, j: nat)
    requires j < |kids|
    ensures ChildEntries(kids) == ChildEntries(kids[..j]) + Entries(kids[j].value) + ChildEntries(kids[j + 1..])
  {
    var rest := kids[j..];
    assert kids == kids[..j] + rest;
    ChildEntriesAppend(kids[..j], rest);
    assert rest[0] == kids[j] && rest[1..] == kids[j + 1..];
    assert ChildEntries(rest) == Entries(kids[j].value) + ChildEntries(kids[j + 1..]);
  }

  lemma {:induction false} OccursAppend(a: seq<Entry>, b: seq<Entry>, p: ElementPath)
    ensures Occurs(a + b, p) <==> Occurs(a, p) || Occurs(b, p)
    decreases |a|
  {
    if |a| == 0 {
      assert a + b == b;
    } else {
      assert (a + b)[0] == a[0] && (a + b)[1..] == a[1..] + b;
      OccursAppend(a[1..], b, p);
    }
  }

  /** An entry at `p` at any position makes `p` occur. */
  lemma {:induction false} OccursAt(es: seq<Entry>, i: nat, p: ElementPath)
    requires i < |es| && es[i].path == p
    ensures Occurs(es, p)
    decreases i
  {
    if i > 0 {
      OccursAt(es[1..], i - 1, p);
    }
  }

  lemma {:induction false} FirstIndexUnique(es: seq<Entry>, p: ElementPath, k: nat)
    requires k < |es| && es[k].path == p && !Occurs(es[..k], p)
    ensures Occurs(es, p) && FirstIndexOf(es, p) == k
    decreases k
  {
    if k > 0 {
      assert es[..k][0] == es[0] && es[..k][1..] == es[1..][..k - 1];
      FirstIndexUnique(es[1..], p, k - 1);
    }
  }

  /** The first entry at `p` in `pre + mid + post`, when `pre` has none and
      `mid` has one, is the first one of `mid`, shifted. */
  lemma FirstIndexShift(pre: seq<Entry>, mid: seq<Entry>, post: seq<Entry>, p: ElementPath)
    requires !Occurs(pre, p) && Occurs(mid, p)
    ensures Occurs(pre + mid + post, p)
    ensures FirstIndexOf(pre + mid + post, p) == |pre| + FirstIndexOf(mid, p)
  {
    var es := pre + mid + post;
    var k := FirstIndexOf(mid, p);
    FirstIndexFirst(mid, p);
    assert es[|pre| + k] == mid[k];
    assert es[..|pre| + k] == pre + mid[..k];
    OccursAppend(pre, mid[..k], p);
    FirstIndexUnique(es, p, |pre| + k);
  }

  /** The first child whose subtree holds an entry at `p`. */
  function FirstChildWith(kids: OrderedMap<Node>, p: ElementPath): (j: nat)
    requires Occurs(ChildEntries(kids), p)
    ensures j < |kids| && Occurs(Entries(kids[j].value), p)
    ensures !Occurs(ChildEntries(kids[..j]), p)
    ensures forall i :: 0 <= i < j ==> !Occurs(Entries(kids[i].value), p)
  {
    OccursAppend(Entries(kids[0].value), ChildEntries(kids[1..]), p);
    if Occurs(Entries(kids[0].value), p) then
      assert kids[..0] == [];
      0
    else
      var j := FirstChildWith(kids[1..], p);
      var pre := kids[..j + 1];
      assert pre[0] == kids[0] && pre[1..] == kids[1..][..j];
      OccursAppend(Entries(kids[0].value), ChildEntries(kids[1..][..j]), p);
      assert forall i :: 1 <= i < j + 1 ==> kids[i] == kids[1..][i - 1];
      j + 1
  }

  lemma FirstChildWithUnique(kids: OrderedMap<Node>, p: ElementPath, j: nat)
    requires j < |kids| && Occurs(Entries(kids[j].value), p)
    requires forall i :: 0 <= i < j ==> !Occurs(Entries(kids[i].value), p)
    ensures Occurs(ChildEntries(kids), p) && FirstChildWith(kids, p) == j
  {
    ChildEntriesSplit(kids, j);
    OccursAppend(ChildEntries(kids[..j]) + Entries(kids[j].value), ChildEntries(kids[j + 1..]), p);
    OccursAppend(ChildEntries(kids[..j]), Entries(kids[j].value), p);
  }

  /** Where child `j`'s first entry at `p` sits among its parent's entries,
      when no earlier child holds `p`. */
  lemma NodeIndexViaChild(n: Node, j: nat, p: ElementPath)
    requires n.path != p && j < |n.children| && Occurs(Entries(n.children[j].value), p)
    requires !Occurs(ChildEntries(n.children[..j]), p)
    ensures Occurs(Entries(n), p)
    ensures Entries(n) == [Entry(n.path, n.element)] + ChildEntries(n.children[..j])
                          + Entries(n.children[j].value) + ChildEntries(n.children[j + 1..])
    ensures FirstIndexOf(Entries(n), p)
            == 1 + |ChildEntries(n.children[..j])| + FirstIndexOf(Entries(n.children[j].value), p)
  {
    var kids := n.children;
    ChildEntriesSplit(kids, j);
    var pre := [Entry(n.path, n.element)] + ChildEntries(kids[..j]);
    OccursAppend([Entry(n.path, n.element)], ChildEntries(kids[..j]), p);
    assert Entries(n) == pre + Entries(kids[j].value) + ChildEntries(kids[j + 1..]);
    FirstIndexShift(pre, Entries(kids[j].value), ChildEntries(kids[j + 1..]), p);
  }

  // ---------------------------------------------------------------------
  // getNodeByPath finds the first entry at the path

  lemma {:induction false} SubAtShift(pre: seq<Entry>, mid: seq<Entry>, post: seq<Entry>, k: nat, sub: seq<Entry>)
    requires SubAt(mid, k, sub)
    ensures SubAt(pre + mid + post, |pre| + k, sub)
  {
    var es := pre + mid + post;
    assert es[|pre| + k..|pre| + k + |sub|] == mid[k..k + |sub|];
  }

  /** `getNodeByPath` succeeds exactly when some node has the path; it
      returns a node with that path whose subtree is the stretch of the
      pre-order starting at the first entry with the path. */
  lemma {:induction false} GetNodeByPathSpec(n: Node, p: ElementPath)
    ensures GetNodeByPath(n, p).Some? <==> Occurs(Entries(n), p)
    ensures GetNodeByPath(n, p).Some? ==>
      GetNodeByPath(n, p).value.path == p
      && SubAt(Entries(n), FirstIndexOf(Entries(n), p), Entries(GetNodeByPath(n, p).value))
    ensures GetNodeByPath(n, p).Some? && ValidNode(n) ==> ValidNode(GetNodeByPath(n, p).value)
    decreases n, 1
  {
    if n.path == p {
      assert Entries(n)[0].path == p;
      assert Entries(n)[0..|Entries(n)|] == Entries(n);
    } else {
      GetInChildrenSpec(n.children, p);
      OccursAppend([Entry(n.path, n.element)], ChildEntries(n.children), p);
      if Occurs(ChildEntries(n.children), p) {
        var j := FirstChildWith(n.children, p);
        GetNodeByPathSpec(n.children[j].value, p);
        if ValidNode(n) { ValidChild(n, j); }
        SubAtViaChild(n, j, p, Entries(GetNodeByPath(n.children[j].value, p).value));
      }
    }
  }

  /** In a child list, the search lands in the first child holding the path. */
  lemma {:induction false} GetInChildrenSpec(kids: OrderedMap<Node>, p: ElementPath)
    ensures GetInChildren(kids, p).Some? <==> Occurs(ChildEntries(kids), p)
    ensures Occurs(ChildEntries(kids), p) ==>
      GetInChildren(kids, p) == GetNodeByPath(kids[FirstChildWith(kids, p)].value, p)
    decreases kids, 0
  {
    if |kids| > 0 {
      GetNodeByPathSpec(kids[0].value, p);
      GetInChildrenSpec(kids[1..], p);
      OccursAppend(Entries(kids[0].value), ChildEntries(kids[1..]), p);
    }
  }

  // ---------------------------------------------------------------------
  // replaceNodeByPath swaps one subtree of the pre-order

  /** `es` with the `len` entries from position `k` replaced by `ins`,
      written as a walk to position `k` (see `SpliceIsSlices`). */
  function Splice(es: seq<Entry>, k: nat, len: nat, ins: seq<Entry>): (r: seq<Entry>)
    requires k + len <= |es|
    ensures |r| == |es| - len + |ins|
    decreases k
  {
    if k == 0 then ins + es[len..] else [es[0]] + Splice(es[1..], k - 1, len, ins)
  }

  lemma {:induction false} SpliceIsSlices(es: seq<Entry>, k: nat, len: nat, ins: seq<Entry>)
    requires k + len <= |es|
    ensures Splice(es, k, len, ins) == es[..k] + ins + es[k + len..]
    decreases k
  {
    if k == 0 {
      assert es[..0] == [];
    } else {
      SpliceIsSlices(es[1..], k - 1, len, ins);
      ConsAssoc(es[0], es[1..][..k - 1], ins, es[1..][k - 1 + len..]);
      ConsSlices(es, k, len);
    }
  }

  lemma ConsSlices(es: seq<Entry>, k: nat, len: nat)
    requires 0 < k && k + len <= |es|
    ensures es[..k] == [es[0]] + es[1..][..k - 1]
    ensures es[1..][k - 1 + len..] == es[k + len..]
  {
  }

  lemma SeqAssoc(a: seq<Entry>, b: seq<Entry>, c: seq<Entry>)
    ensures a + (b + c) == a + b + c
  {
  }

  lemma ConsAssoc(e: Entry, a: seq<Entry>, b: seq<Entry>, c: seq<Entry>)
    ensures [e] + (a + b + c) == [e] + a + b + c
  {
  }

  /** Restates a splice at an equal position. */
  lemma SpliceAtSame(x: seq<Entry>, es: seq<Entry>, a: nat, b: nat, len: nat, ins: seq<Entry>)
    requires a == b && a + len <= |es| && x == Splice(es, a, len, ins)
    ensures x == Splice(es, b, len, ins)
  {
  }

  lemma SpliceShift(pre: seq<Entry>, mid: seq<Entry>, post: seq<Entry>, k: nat, len: nat, ins: seq<Entry>)
    requires k + len <= |mid|
    ensures pre + Splice(mid, k, len, ins) + post == Splice(pre + mid + post, |pre| + k, len, ins)
  {
    var es := pre + mid + post;
    SpliceIsSlices(mid, k, len, ins);
    SpliceIsSlices(es, |pre| + k, len, ins);
    assert es[..|pre| + k] == pre + mid[..k];
    assert es[|pre| + k + len..] == mid[k + len..] + post;
  }

  /** Re-binding child `j` under its own key. */
  lemma SwapChild(n: Node, j: nat, c: Node)
    requires ValidNode(n) && j < |n.children|
    ensures MapSet(n.children, n.children[j].key, c) == n.children[j := KV(n.children[j].key, c)]
    ensures ChildEntries(n.children[j := KV(n.children[j].key, c)])
            == ChildEntries(n.children[..j]) + Entries(c) + ChildEntries(n.children[j + 1..])
    ensures ValidNode(c) && c.path == n.children[j].key ==>
            ValidNode(n.(children := n.children[j := KV(n.children[j].key, c)]))
  {
    MapSetAt(n.children, j, c);
    SwapChildEntries(n.children, j, c);
    if ValidNode(c) && c.path == n.children[j].key {
      SwapChildValid(n, j, c);
    }
  }

  lemma SwapChildEntries(kids: OrderedMap<Node>, j: nat, c: Node)
    requires j < |kids|
    ensures ChildEntries(kids[j := KV(kids[j].key, c)])
            == ChildEntries(kids[..j]) + Entries(c) + ChildEntries(kids[j + 1..])
  {
    var kids' := kids[j := KV(kids[j].key, c)];
    ChildEntriesSplit(kids', j);
    assert kids'[..j] == kids[..j] && kids'[j + 1..] == kids[j + 1..];
  }

  lemma SwapChildValid(n: Node, j: nat, c: Node)
    requires ValidNode(n) && j < |n.children|
    requires ValidNode(c) && c.path == n.children[j].key
    ensures ValidNode(n.(children := n.children[j := KV(n.children[j].key, c)]))
  {
    var kids := n.children;
    var kids' := kids[j := KV(kids[j].key, c)];
    assert ValidChildren(kids);
    forall i | 0 <= i < |kids'| ensures kids'[i].key == kids'[i].value.path && ValidNode(kids'[i].value) {
      if i != j { assert kids'[i] == kids[i]; }
    }
    assert ValidChildren(kids');
    forall a, b | 0 <= a < b < |kids'| ensures kids'[a].key != kids'[b].key {
      assert kids'[a].key == kids[a].key && kids'[b].key == kids[b].key;
    }
  }

  /** `replaceNodeByPath` succeeds exactly when `getNodeByPath` does, and
      then the new tree's pre-order is the old one with the found subtree's
      stretch replaced by the new node's pre-order. Replacing with a node of
      the same path keeps the tree well formed and keeps the root's path. */
  lemma {:induction false} ReplaceNodeByPathSpec(n: Node, p: ElementPath, m: Node)
    requires ValidNode(n)
    ensures ReplaceNodeByPath(n, p, m).Some? <==> Occurs(Entries(n), p)
    ensures GetNodeByPath(n, p).Some? <==> Occurs(Entries(n), p)
    ensures ReplaceNodeByPath(n, p, m).Some? ==>
      var k := FirstIndexOf(Entries(n), p);
      var o := GetNodeByPath(n, p).value;
      SubAt(Entries(n), k, Entries(o))
      && Entries(ReplaceNodeByPath(n, p, m).value) == Splice(Entries(n), k, |Entries(o)|, Entries(m))
    ensures ReplaceNodeByPath(n, p, m).Some? && m.path == p ==>
      ReplaceNodeByPath(n, p, m).value.path == n.path
      && (ValidNode(m) ==> ValidNode(ReplaceNodeByPath(n, p, m).value))
    decreases n, 1
  {
    GetNodeByPathSpec(n, p);
    if n.path == p {
      assert Entries(n)[..0] == [] && Entries(n)[|Entries(n)|..] == [];
    } else {
      var kids := n.children;
      ReplaceInChildrenSpec(kids, p, m);
      GetInChildrenSpec(kids, p);
      OccursAppend([Entry(n.path, n.element)], ChildEntries(kids), p);
      if Occurs(ChildEntries(kids), p) {
        var j := FirstChildWith(kids, p);
        ValidChild(n, j);
        ReplaceNodeByPathSpec(kids[j].value, p, m);
        GetNodeByPathSpec(kids[j].value, p);
        ReplaceStep(n, j, p, m, ReplaceNodeByPath(kids[j].value, p, m).value, GetNodeByPath(kids[j].value, p).value);
      }
    }
  }

  /** The step of the proof above for a root whose path is not `p`: the
      child `j` holding `p` becomes `rj`, and the node found is `o`. */
  lemma ReplaceStep(n: Node, j: nat, p: ElementPath, m: Node, rj: Node, o: Node)
    requires ValidNode(n) && n.path != p && j < |n.children|
    requires Occurs(Entries(n.children[j].value), p) && !Occurs(ChildEntries(n.children[..j]), p)
    requires ReplaceInChildren(n.children, p, m) == Some(KV(n.children[j].key, rj))
    requires GetNodeByPath(n, p) == Some(o)
    requires SubAt(Entries(n.children[j].value), FirstIndexOf(Entries(n.children[j].value), p), Entries(o))
    requires Entries(rj)
             == Splice(Entries(n.children[j].value), FirstIndexOf(Entries(n.children[j].value), p), |Entries(o)|, Entries(m))
    requires m.path == p ==> rj.path == n.children[j].value.path && (ValidNode(m) ==> ValidNode(rj))
    ensures Occurs(Entries(n), p) && ReplaceNodeByPath(n, p, m).Some?
    ensures SubAt(Entries(n), FirstIndexOf(Entries(n), p), Entries(o))
    ensures Entries(ReplaceNodeByPath(n, p, m).value) == Splice(Entries(n), FirstIndexOf(Entries(n), p), |Entries(o)|, Entries(m))
    ensures m.path == p ==>
      ReplaceNodeByPath(n, p, m).value.path == n.path && (ValidNode(m) ==> ValidNode(ReplaceNodeByPath(n, p, m).value))
  {
    var kids := n.children;
    ValidChild(n, j);
    ChildSpliceAtFirst(n, j, p, rj, |Entries(o)|, Entries(m));
    SubAtViaChild(n, j, p, Entries(o));
    assert ReplaceNodeByPath(n, p, m) == Some(n.(children := kids[j := KV(kids[j].key, rj)]));
  }

  lemma FirstIndexViaChild(n: Node, j: nat, p: ElementPath)
    requires n.path != p && j < |n.children| && Occurs(Entries(n.children[j].value), p)
    requires !Occurs(ChildEntries(n.children[..j]), p)
    ensures Occurs(Entries(n), p)
    ensures FirstIndexOf(Entries(n), p)
            == 1 + |ChildEntries(n.children[..j])| + FirstIndexOf(Entries(n.children[j].value), p)
  {
    NodeIndexViaChild(n, j, p);
  }

  /** `ChildSpliceStep` at the first entry at `p`. */
  lemma ChildSpliceAtFirst(n: Node, j: nat, p: ElementPath, rj: Node, len: nat, ins: seq<Entry>)
    requires ValidNode(n) && n.path != p && j < |n.children|
    requires Occurs(Entries(n.children[j].value), p) && !Occurs(ChildEntries(n.children[..j]), p)
    requires FirstIndexOf(Entries(n.children[j].value), p) + len <= |Entries(n.children[j].value)|
    requires Entries(rj) == Splice(Entries(n.children[j].value), FirstIndexOf(Entries(n.children[j].value), p), len, ins)
    ensures Occurs(Entries(n), p)
    ensures MapSet(n.children, n.children[j].key, rj) == n.children[j := KV(n.children[j].key, rj)]
    ensures FirstIndexOf(Entries(n), p) + len <= |Entries(n)|
    ensures Entries(n.(children := n.children[j := KV(n.children[j].key, rj)]))
            == Splice(Entries(n), FirstIndexOf(Entries(n), p), len, ins)
    ensures ValidNode(rj) && rj.path == n.children[j].key ==>
            ValidNode(n.(children := n.children[j := KV(n.children[j].key, rj)]))
  {
    var at := FirstIndexOf(Entries(n.children[j].value), p);
    FirstIndexViaChild(n, j, p);
    ChildSpliceStep(n, j, rj, at, FirstIndexOf(Entries(n), p), len, ins);
  }

  /** A stretch of child `j`'s pre-order at its first entry at `p` sits at
      the parent's first entry at `p`. */
  lemma SubAtViaChild(n: Node, j: nat, p: ElementPath, sub: seq<Entry>)
    requires n.path != p && j < |n.children|
    requires Occurs(Entries(n.children[j].value), p) && !Occurs(ChildEntries(n.children[..j]), p)
    requires SubAt(Entries(n.children[j].value), FirstIndexOf(Entries(n.children[j].value), p), sub)
    ensures Occurs(Entries(n), p) && SubAt(Entries(n), FirstIndexOf(Entries(n), p), sub)
  {
    NodeIndexViaChild(n, j, p);
    SubAtShiftTo([Entry(n.path, n.element)] + ChildEntries(n.children[..j]), Entries(n.children[j].value),
                 ChildEntries(n.children[j + 1..]), FirstIndexOf(Entries(n.children[j].value), p), sub,
                 Entries(n), FirstIndexOf(Entries(n), p));
  }

  /** `SubAtShift` for a list and a position given by name. */
  lemma SubAtShiftTo(pre: seq<Entry>, mid: seq<Entry>, post: seq<Entry>, k: nat, sub: seq<Entry>, es: seq<Entry>, at: nat)
    requires SubAt(mid, k, sub) && es == pre + mid + post && at == |pre| + k
    ensures SubAt(es, at, sub)
  {
    SubAtShift(pre, mid, post, k, sub);
  }

  /** Child `j` is re-bound as `rj`, whose pre-order is the child's with
      the `len` entries from position `at` on replaced by `ins`: the
      parent's pre-order changes the same way, shifted by what precedes the
      child. */
  lemma ChildSpliceStep(n: Node, j: nat, rj: Node, at: nat, pos: nat, len: nat, ins: seq<Entry>)
    requires ValidNode(n) && j < |n.children|
    requires at + len <= |Entries(n.children[j].value)|
    requires Entries(rj) == Splice(Entries(n.children[j].value), at, len, ins)
    requires pos == 1 + |ChildEntries(n.children[..j])| + at
    ensures MapSet(n.children, n.children[j].key, rj) == n.children[j := KV(n.children[j].key, rj)]
    ensures pos + len <= |Entries(n)|
    ensures Entries(n.(children := n.children[j := KV(n.children[j].key, rj)]))
            == Splice(Entries(n), pos, len, ins)
    ensures ValidNode(rj) && rj.path == n.children[j].key ==>
            ValidNode(n.(children := n.children[j := KV(n.children[j].key, rj)]))
  {
    SwapChild(n, j, rj);
    ChildSpliceEntries(n, j, rj, at, pos, len, ins);
  }

  /** The pre-order part of `ChildSpliceStep`. */
  lemma ChildSpliceEntries(n: Node, j: nat, rj: Node, at: nat, pos: nat, len: nat, ins: seq<Entry>)
    requires j < |n.children|
    requires at + len <= |Entries(n.children[j].value)|
    requires Entries(rj) == Splice(Entries(n.children[j].value), at, len, ins)
    requires pos == 1 + |ChildEntries(n.children[..j])| + at
    ensures pos + len <= |Entries(n)|
    ensures Entries(n.(children := n.children[j := KV(n.children[j].key, rj)]))
            == Splice(Entries(n), pos, len, ins)
  {
    var kids := n.children;
    var c := kids[j].value;
    var r := n.(children := kids[j := KV(kids[j].key, rj)]);
    assert Entries(r) == [Entry(n.path, n.element)] + ChildEntries(r.children);
    SwapChildEntries(kids, j, rj);
    ChildEntriesSplit(kids, j);
    var pre := [Entry(n.path, n.element)] + ChildEntries(kids[..j]);
    var post := ChildEntries(kids[j + 1..]);
    SpliceShift(pre, Entries(c), post, at, len, ins);
    ConsAssoc(Entry(n.path, n.element), ChildEntries(kids[..j]), Entries(rj), post);
    ConsAssoc(Entry(n.path, n.element), ChildEntries(kids[..j]), Entries(c), post);
    var en := Entries(n);
    assert en == pre + Entries(c) + post;
    calc {
      Entries(r);
      pre + Entries(rj) + post;
      pre + Splice(Entries(c), at, len, ins) + post;
      Splice(en, |pre| + at, len, ins);
    }
  }

  lemma {:induction false} ReplaceInChildrenSpec(kids: OrderedMap<Node>, p: ElementPath, m: Node)
    requires ValidChildren(kids)
    ensures ReplaceInChildren(kids, p, m).Some? <==> Occurs(ChildEntries(kids), p)
    ensures Occurs(ChildEntries(kids), p) ==>
      var j := FirstChildWith(kids, p);
      ReplaceNodeByPath(kids[j].value, p, m).Some?
      && ReplaceInChildren(kids, p, m) == Some(KV(kids[j].key, ReplaceNodeByPath(kids[j].value, p, m).value))
    decreases kids, 0
  {
    if |kids| > 0 {
      assert ValidNode(kids[0].value);
      ReplaceNodeByPathSpec(kids[0].value, p, m);
      assert ValidChildren(kids[1..]) by {
        forall i | 0 <= i < |kids[1..]| ensures kids[1..][i] == kids[i + 1] { }
      }
      ReplaceInChildrenSpec(kids[1..], p, m);
      OccursAppend(Entries(kids[0].value), ChildEntries(kids[1..]), p);
    }
  }

  /** Putting back the node `getNodeByPath` found gives the same tree. */
  lemma {:induction false} ReplaceWithFound(n: Node, p: ElementPath)
    requires ValidNode(n) && GetNodeByPath(n, p).Some?
    ensures ReplaceNodeByPath(n, p, GetNodeByPath(n, p).value) == Some(n)
    decreases n, 1
  {
    if n.path != p {
      var kids := n.children;
      var o := GetNodeByPath(n, p).value;
      GetNodeByPathSpec(n, p);
      OccursAppend([Entry(n.path, n.element)], ChildEntries(kids), p);
      GetInChildrenSpec(kids, p);
      ReplaceInChildrenSpec(kids, p, o);
      var j := FirstChildWith(kids, p);
      ValidChild(n, j);
      ReplaceWithFound(kids[j].value, p);
      SwapChild(n, j, kids[j].value);
      assert kids[j := KV(kids[j].key, kids[j].value)] == kids;
    }
  }

  /** After replacing the node at `p` by a node with path `p`, looking `p`
      up finds the new node. */
  lemma {:induction false} GetAfterReplace(n: Node, p: ElementPath, m: Node)
    requires ValidNode(n) && m.path == p && Occurs(Entries(n), p)
    ensures ReplaceNodeByPath(n, p, m).Some?
    ensures GetNodeByPath(ReplaceNodeByPath(n, p, m).value, p) == Some(m)
    decreases n, 1
  {
    ReplaceNodeByPathSpec(n, p, m);
    if n.path != p {
      var kids := n.children;
      OccursAppend([Entry(n.path, n.element)], ChildEntries(kids), p);
      ReplaceInChildrenSpec(kids, p, m);
      var j := FirstChildWith(kids, p);
      ValidChild(n, j);
      GetAfterReplace(kids[j].value, p, m);
      var rj := ReplaceNodeByPath(kids[j].value, p, m).value;
      GetNodeByPathSpec(rj, p);
      SwapChild(n, j, rj);
      var kids' := kids[j := KV(kids[j].key, rj)];
      forall i | 0 <= i < j ensures !Occurs(Entries(kids'[i].value), p) {
        assert kids'[i] == kids[i];
      }
      FirstChildWithUnique(kids', p, j);
      GetInChildrenSpec(kids', p);
    }
  }

  // ---------------------------------------------------------------------
  // deleteNodeByPath cuts one subtree out of the pre-order

  /** Dropping child `j`, whose own path is `p`, from a node whose earlier
      children do not hold `p`. */
  lemma DropChildStep(n: Node, j: nat, p: ElementPath)
    requires ValidNode(n) && n.path != p && j < |n.children| && n.children[j].value.path == p
    requires !Occurs(ChildEntries(n.children[..j]), p)
    ensures Occurs(Entries(n), p)
    ensures MapDelete(n.children, n.children[j].key) == n.children[..j] + n.children[j + 1..]
    ensures FirstIndexOf(Entries(n), p) + |Entries(n.children[j].value)| <= |Entries(n)|
    ensures Entries(n.(children := n.children[..j] + n.children[j + 1..]))
            == Splice(Entries(n), FirstIndexOf(Entries(n), p), |Entries(n.children[j].value)|, [])
  {
    var kids := n.children;
    var c := kids[j].value;
    assert Entries(c)[0].path == p && Entries(c)[..0] == [];
    FirstIndexUnique(Entries(c), p, 0);
    NodeIndexViaChild(n, j, p);
    MapDeleteAt(kids, j);
    ChildEntriesAppend(kids[..j], kids[j + 1..]);
    DropSplice(Entry(n.path, n.element), ChildEntries(kids[..j]), Entries(c), ChildEntries(kids[j + 1..]),
               Entries(n), FirstIndexOf(Entries(n), p), Entries(n.(children := kids[..j] + kids[j + 1..])));
  }

  /** Removing the stretch `mid` from `[head] + pre + mid + post`. */
  lemma DropSplice(head: Entry, pre: seq<Entry>, mid: seq<Entry>, post: seq<Entry>,
                   es: seq<Entry>, at: nat, out: seq<Entry>)
    requires es == [head] + pre + mid + post && at == 1 + |pre|
    requires out == [head] + (pre + post)
    ensures at + |mid| <= |es|
    ensures out == Splice(es, at, |mid|, [])
  {
    SpliceIsSlices(es, at, |mid|, []);
    assert es[..at] == [head] + pre;
    assert es[at + |mid|..] == post;
  }

  lemma DropChildValid(n: Node, j: nat)
    requires ValidNode(n) && j < |n.children|
    ensures ValidNode(n.(children := n.children[..j] + n.children[j + 1..]))
  {
    var kids := n.children;
    var kids' := kids[..j] + kids[j + 1..];
    MapDeleteAt(kids, j);
    assert ValidChildren(kids);
    forall i | 0 <= i < |kids'| ensures kids'[i].key == kids'[i].value.path && ValidNode(kids'[i].value) {
      var i' := if i < j then i else i + 1;
      assert kids'[i] == kids[i'];
    }
  }

  /** `deleteNodeByPath` refuses the root's own path; otherwise it succeeds
      exactly when some node below the root has the path, and then the new
      tree's pre-order is the old one without the found subtree. The tree
      stays well formed and keeps its root. */
  lemma {:induction false} DeleteNodeByPathSpec(n: Node, p: ElementPath)
    requires ValidNode(n)
    ensures n.path == p ==> DeleteNodeByPath(n, p) == None
    ensures GetNodeByPath(n, p).Some? <==> Occurs(Entries(n), p)
    ensures n.path != p ==> (DeleteNodeByPath(n, p).Some? <==> Occurs(Entries(n), p))
    ensures DeleteNodeByPath(n, p).Some? ==>
      var k := FirstIndexOf(Entries(n), p);
      var o := GetNodeByPath(n, p).value;
      SubAt(Entries(n), k, Entries(o))
      && Entries(DeleteNodeByPath(n, p).value) == Splice(Entries(n), k, |Entries(o)|, [])
      && DeleteNodeByPath(n, p).value.path == n.path
      && ValidNode(DeleteNodeByPath(n, p).value)
    decreases n, 1
  {
    GetNodeByPathSpec(n, p);
    if n.path != p {
      var kids := n.children;
      DeleteInChildrenSpec(kids, p);
      GetInChildrenSpec(kids, p);
      OccursAppend([Entry(n.path, n.element)], ChildEntries(kids), p);
      if Occurs(ChildEntries(kids), p) {
        var j := FirstChildWith(kids, p);
        ValidChild(n, j);
        var c := kids[j].value;
        if c.path == p {
          DropChildStep(n, j, p);
          DropChildValid(n, j);
          assert DeleteNodeByPath(n, p) == Some(n.(children := kids[..j] + kids[j + 1..]));
        } else {
          DeleteNodeByPathSpec(c, p);
          GetNodeByPathSpec(c, p);
          var o := GetNodeByPath(c, p).value;
          var rj := DeleteNodeByPath(c, p).value;
          ChildSpliceAtFirst(n, j, p, rj, |Entries(o)|, []);
          SubAtViaChild(n, j, p, Entries(o));
          assert DeleteNodeByPath(n, p) == Some(n.(children := kids[j := KV(kids[j].key, rj)]));
          assert GetNodeByPath(n, p) == Some(o);
          SubAtShift([Entry(n.path, n.element)] + ChildEntries(kids[..j]), Entries(c),
                     ChildEntries(kids[j + 1..]), FirstIndexOf(Entries(c), p), Entries(o));
        }
      }
    }
  }

  lemma {:induction false} DeleteInChildrenSpec(kids: OrderedMap<Node>, p: ElementPath)
    requires ValidChildren(kids)
    ensures DeleteInChildren(kids, p).Some? <==> Occurs(ChildEntries(kids), p)
    ensures Occurs(ChildEntries(kids), p) ==>
      var j := FirstChildWith(kids, p);
      if kids[j].value.path == p then DeleteInChildren(kids, p) == Some(Drop(kids[j].key))
      else DeleteNodeByPath(kids[j].value, p).Some?
           && DeleteInChildren(kids, p) == Some(Put(kids[j].key, DeleteNodeByPath(kids[j].value, p).value))
    decreases kids, 0
  {
    if |kids| > 0 {
      assert ValidNode(kids[0].value) && kids[0].key == kids[0].value.path;
      assert Entries(kids[0].value)[0].path == kids[0].key;
      DeleteNodeByPathSpec(kids[0].value, p);
      assert ValidChildren(kids[1..]) by {
        forall i | 0 <= i < |kids[1..]| ensures kids[1..][i] == kids[i + 1] { }
      }
      DeleteInChildrenSpec(kids[1..], p);
      OccursAppend(Entries(kids[0].value), ChildEntries(kids[1..]), p);
    }
  }

  // ---------------------------------------------------------------------
  // addNodeByPath inserts a subtree after its parent's

  /** Every child's own path occurs among the children's entries. */
  lemma ChildPathOccurs(kids: OrderedMap<Node>, i: nat)
    requires i < |kids|
    ensures Occurs(ChildEntries(kids), kids[i].value.path)
  {
    ChildEntriesSplit(kids, i);
    var q := kids[i].value.path;
    assert Entries(kids[i].value)[0].path == q;
    OccursAppend(ChildEntries(kids[..i]) + Entries(kids[i].value), ChildEntries(kids[i + 1..]), q);
    OccursAppend(ChildEntries(kids[..i]), Entries(kids[i].value), q);
  }

  lemma SpliceAtEnd(es: seq<Entry>, ins: seq<Entry>)
    ensures Splice(es, |es|, 0, ins) == es + ins
  {
    SpliceIsSlices(es, |es|, 0, ins);
    assert es[..|es|] == es && es[|es|..] == [];
  }

  /** Setting a path no child holds appends it as the last child. */
  lemma AppendChildStep(n: Node, p: ElementPath, m: Node)
    requires ValidNode(n) && !Occurs(ChildEntries(n.children), p)
    ensures MapSet(n.children, p, m) == n.children + [KV(p, m)]
    ensures Entries(n.(children := n.children + [KV(p, m)])) == Entries(n) + Entries(m)
    ensures ValidNode(m) && m.path == p ==> ValidNode(n.(children := n.children + [KV(p, m)]))
  {
    NoChildKeyed(n, p);
    MapSetNew(n.children, p, m);
    ChildEntriesAppend(n.children, [KV(p, m)]);
    assert [KV(p, m)][1..] == [];
    assert ChildEntries([KV(p, m)]) == Entries(m);
    SeqAssoc([Entry(n.path, n.element)], ChildEntries(n.children), Entries(m));
    if ValidNode(m) && m.path == p {
      AppendChildValid(n, m);
    }
  }

  lemma NoChildKeyed(n: Node, p: ElementPath)
    requires ValidNode(n) && !Occurs(ChildEntries(n.children), p)
    ensures forall i :: 0 <= i < |n.children| ==> n.children[i].key != p
  {
    forall i | 0 <= i < |n.children| ensures n.children[i].key != p {
      ValidChild(n, i);
      ChildPathOccurs(n.children, i);
    }
  }

  lemma AppendChildValid(n: Node, m: Node)
    requires ValidNode(n) && ValidNode(m)
    requires forall i :: 0 <= i < |n.children| ==> n.children[i].key != m.path
    ensures ValidNode(n.(children := n.children + [KV(m.path, m)]))
  {
    var kids' := n.children + [KV(m.path, m)];
    forall i | 0 <= i < |kids'| ensures kids'[i].key == kids'[i].value.path && ValidNode(kids'[i].value) {
      if i < |n.children| { ValidChild(n, i); }
    }
    assert ValidChildren(kids');
    forall a, b | 0 <= a < b < |kids'| ensures kids'[a].key != kids'[b].key {
      assert DistinctKeys(n.children);
    }
  }

  /** `set` of a well-formed node under its own path keeps a child map well
      formed, whether the key is new or present. */
  lemma MapSetValid(kids: OrderedMap<Node>, k: ElementPath, m: Node)
    requires DistinctKeys(kids) && ValidChildren(kids) && ValidNode(m) && m.path == k
    ensures DistinctKeys(MapSet(kids, k, m)) && ValidChildren(MapSet(kids, k, m))
  {
    MapSetKeys(kids, k, m);
    var kids' := MapSet(kids, k, m);
    forall i | 0 <= i < |kids'| ensures kids'[i].key == kids'[i].value.path && ValidNode(kids'[i].value) {
      if i < |kids| && kids'[i] == kids[i] {
        assert kids[i].key == kids[i].value.path && ValidNode(kids[i].value);
      }
    }
  }

  /** Whenever `addNodeByPath` returns a tree, in particular when the path
      is already present somewhere off the way to its parent, the root keeps
      its path and a well-formed node added under its own path keeps the
      tree well formed. */
  lemma {:induction false} AddNodeByPathValid(n: Node, p: ElementPath, m: Node)
    requires ValidNode(n) && ValidNode(m) && m.path == p
    ensures AddNodeByPath(n, p, m).Ok? && AddNodeByPath(n, p, m).value.Some? ==>
      AddNodeByPath(n, p, m).value.value.path == n.path && ValidNode(AddNodeByPath(n, p, m).value.value)
    decreases n, 1
  {
    if n.path == p {
    } else if ParentPath(p) == "" || n.path == ParentPath(p) {
      MapSetValid(n.children, p, m);
    } else {
      AddInChildrenValid(n.children, p, m);
      var r := AddInChildren(n.children, p, m);
      if r.Ok? && r.value.Some? {
        MapSetValid(n.children, r.value.value.key, r.value.value.value);
      }
    }
  }

  lemma {:induction false} AddInChildrenValid(kids: OrderedMap<Node>, p: ElementPath, m: Node)
    requires ValidChildren(kids) && ValidNode(m) && m.path == p
    ensures AddInChildren(kids, p, m).Ok? && AddInChildren(kids, p, m).value.Some? ==>
      var kv := AddInChildren(kids, p, m).value.value;
      kv.value.path == kv.key && ValidNode(kv.value)
    decreases kids, 0
  {
    if |kids| > 0 {
      AddNodeByPathValid(kids[0].value, p, m);
      assert ValidChildren(kids[1..]) by {
        forall i | 0 <= i < |kids[1..]| ensures kids[1..][i] == kids[i + 1] { }
      }
      AddInChildrenValid(kids[1..], p, m);
    }
  }

  /** The step for a root that is neither `p` nor its parent: child `j`
      holds the parent and becomes `rj`; the parent node found is `q`. */
  lemma AddStep(n: Node, j: nat, pp: ElementPath, m: Node, rj: Node, q: Node)
    requires n.path != pp && j < |n.children|
    requires Occurs(Entries(n.children[j].value), pp)
    requires !Occurs(ChildEntries(n.children[..j]), pp)
    requires FirstIndexOf(Entries(n.children[j].value), pp) + |Entries(q)| <= |Entries(n.children[j].value)|
    requires Entries(rj)
             == Splice(Entries(n.children[j].value), FirstIndexOf(Entries(n.children[j].value), pp) + |Entries(q)|, 0, Entries(m))
    ensures Occurs(Entries(n), pp)
    ensures FirstIndexOf(Entries(n), pp) + |Entries(q)| <= |Entries(n)|
    ensures Entries(n.(children := n.children[j := KV(n.children[j].key, rj)]))
            == Splice(Entries(n), FirstIndexOf(Entries(n), pp) + |Entries(q)|, 0, Entries(m))
  {
    var at := FirstIndexOf(Entries(n.children[j].value), pp) + |Entries(q)|;
    FirstIndexViaChild(n, j, pp);
    ChildSpliceEntries(n, j, rj, at, FirstIndexOf(Entries(n), pp) + |Entries(q)|, 0, Entries(m));
  }

  /** `addNodeByPath` of a path `p` no node has yet never fails. When the
      parent path `pp` is empty the new node becomes the root's last child;
      otherwise the insertion succeeds exactly when some node has the parent
      path. The root keeps its path, and the tree stays well formed when the
      new node is well formed and has the path `p`. */
  lemma {:induction false} AddNodeByPathSpec(n: Node, p: ElementPath, pp: ElementPath, m: Node)
    requires pp == ParentPath(p)
    requires ValidNode(n) && !Occurs(Entries(n), p)
    ensures AddNodeByPath(n, p, m).Ok?
    ensures pp == "" ==>
      AddNodeByPath(n, p, m) == Ok(Some(n.(children := n.children + [KV(p, m)])))
      && Entries(n.(children := n.children + [KV(p, m)])) == Entries(n) + Entries(m)
    ensures pp != "" ==> (AddNodeByPath(n, p, m).value.Some? <==> Occurs(Entries(n), pp))
    ensures AddNodeByPath(n, p, m).value.Some? ==>
      AddNodeByPath(n, p, m).value.value.path == n.path
      && (ValidNode(m) && m.path == p ==> ValidNode(AddNodeByPath(n, p, m).value.value))
    decreases n, 1
  {
    AddBasics(n, p, pp);
    if pp == "" || n.path == pp {
      AddHere(n, p, pp, m);
    } else {
      AddInChildrenSpec(n.children, p, pp, m);
      if Occurs(ChildEntries(n.children), pp) {
        var j := FirstChildWith(n.children, pp);
        ValidChild(n, j);
        ChildAbsent(n.children, j, p);
        AddNodeByPathSpec(n.children[j].value, p, pp, m);
        var rj := AddNodeByPath(n.children[j].value, p, m).value.value;
        SwapChild(n, j, rj);
        assert AddNodeByPath(n, p, m) == Ok(Some(n.(children := n.children[j := KV(n.children[j].key, rj)])));
      }
    }
  }

  /** Where the new subtree lands: when the first node with the parent path
      `pp` is `q`, the pre-order of the result is the old pre-order with the
      new subtree's entries inserted right after `q`'s subtree. */
  lemma {:induction false} AddNodeByPathLands(n: Node, p: ElementPath, pp: ElementPath, m: Node, q: Node)
    requires pp == ParentPath(p) && pp != ""
    requires ValidNode(n) && !Occurs(Entries(n), p)
    requires GetNodeByPath(n, pp) == Some(q)
    ensures Lands(n, p, pp, m, q)
    decreases n
  {
    AddBasics(n, p, pp);
    if n.path == pp {
      LandsHere(n, p, pp, m, q);
    } else {
      var j := FirstChildWith(n.children, pp);
      LandsChild(n, p, pp, q, j);
      AddNodeByPathLands(n.children[j].value, p, pp, m, q);
      LandsViaChild(n, p, pp, m, q, j);
    }
  }

  /** The new subtree `m`, added under the first node with path `pp`, which
      is `q`, lands right after `q`'s subtree in the pre-order. */
  predicate Lands(n: Node, p: ElementPath, pp: ElementPath, m: Node, q: Node)
  {
    Occurs(Entries(n), pp)
    && AddNodeByPath(n, p, m).Ok? && AddNodeByPath(n, p, m).value.Some?
    && SubAt(Entries(n), FirstIndexOf(Entries(n), pp), Entries(q))
    && Entries(AddNodeByPath(n, p, m).value.value)
       == Splice(Entries(n), FirstIndexOf(Entries(n), pp) + |Entries(q)|, 0, Entries(m))
  }

  /** The preconditions of `AddNodeByPathLands` hold for the child that
      holds `pp`. */
  lemma LandsChild(n: Node, p: ElementPath, pp: ElementPath, q: Node, j: nat)
    requires pp == ParentPath(p) && pp != ""
    requires ValidNode(n) && !Occurs(Entries(n), p) && n.path != pp
    requires GetNodeByPath(n, pp) == Some(q)
    requires Occurs(ChildEntries(n.children), pp) && j == FirstChildWith(n.children, pp)
    ensures ValidNode(n.children[j].value) && !Occurs(Entries(n.children[j].value), p)
    ensures GetNodeByPath(n.children[j].value, pp) == Some(q)
  {
    ValidChild(n, j);
    ChildAbsent(n.children, j, p);
    GetInChildrenSpec(n.children, pp);
  }

  /** The step of `AddNodeByPathLands` through the child holding `pp`. */
  lemma LandsViaChild(n: Node, p: ElementPath, pp: ElementPath, m: Node, q: Node, j: nat)
    requires pp == ParentPath(p) && pp != ""
    requires ValidNode(n) && !Occurs(Entries(n), p) && n.path != pp
    requires Occurs(ChildEntries(n.children), pp) && j == FirstChildWith(n.children, pp)
    requires Lands(n.children[j].value, p, pp, m, q)
    ensures Lands(n, p, pp, m, q)
  {
    var rj := AddNodeByPath(n.children[j].value, p, m).value.value;
    LandsResult(n, p, pp, m, j);
    LandsEntries(n, pp, m, q, j, rj);
  }

  /** The pre-order of the re-bound root, from the child's. */
  lemma LandsEntries(n: Node, pp: ElementPath, m: Node, q: Node, j: nat, rj: Node)
    requires n.path != pp && j < |n.children|
    requires Occurs(Entries(n.children[j].value), pp) && !Occurs(ChildEntries(n.children[..j]), pp)
    requires SubAt(Entries(n.children[j].value), FirstIndexOf(Entries(n.children[j].value), pp), Entries(q))
    requires Entries(rj)
             == Splice(Entries(n.children[j].value), FirstIndexOf(Entries(n.children[j].value), pp) + |Entries(q)|, 0, Entries(m))
    ensures Occurs(Entries(n), pp)
    ensures SubAt(Entries(n), FirstIndexOf(Entries(n), pp), Entries(q))
    ensures Entries(n.(children := n.children[j := KV(n.children[j].key, rj)]))
            == Splice(Entries(n), FirstIndexOf(Entries(n), pp) + |Entries(q)|, 0, Entries(m))
  {
    AddStep(n, j, pp, m, rj, q);
    SubAtViaChild(n, j, pp, Entries(q));
  }

  /** Adding below the child that holds the parent re-binds that child to
      its own result. */
  lemma LandsResult(n: Node, p: ElementPath, pp: ElementPath, m: Node, j: nat)
    requires pp == ParentPath(p) && pp != ""
    requires ValidNode(n) && !Occurs(Entries(n), p) && n.path != pp
    requires Occurs(ChildEntries(n.children), pp) && j == FirstChildWith(n.children, pp)
    ensures AddNodeByPath(n.children[j].value, p, m).Ok? && AddNodeByPath(n.children[j].value, p, m).value.Some?
    ensures AddNodeByPath(n, p, m)
            == Ok(Some(n.(children := n.children[j := KV(n.children[j].key, AddNodeByPath(n.children[j].value, p, m).value.value)])))
  {
    AddBasics(n, p, pp);
    AddInChildrenSpec(n.children, p, pp, m);
    AddUnfold(n, j, p, pp, m, AddNodeByPath(n.children[j].value, p, m).value.value);
  }

  /** The base case of `AddNodeByPathLands`: the root is the parent. */
  lemma LandsHere(n: Node, p: ElementPath, pp: ElementPath, m: Node, q: Node)
    requires pp == ParentPath(p) && n.path == pp
    requires ValidNode(n) && n.path != p && !Occurs(ChildEntries(n.children), p)
    requires GetNodeByPath(n, pp) == Some(q)
    ensures AddNodeByPath(n, p, m) == Ok(Some(n.(children := n.children + [KV(p, m)])))
    ensures Lands(n, p, pp, m, q)
  {
    AddHere(n, p, pp, m);
    SpliceAtEnd(Entries(n), Entries(m));
    assert Entries(n)[0].path == n.path;
    WholeSlice(Entries(n));
  }

  lemma WholeSlice(es: seq<Entry>)
    ensures es[0..|es|] == es
  {}

  /** Facts every case above starts from. */
  lemma AddBasics(n: Node, p: ElementPath, pp: ElementPath)
    requires ValidNode(n) && !Occurs(Entries(n), p)
    ensures n.path != p && !Occurs(ChildEntries(n.children), p)
    ensures GetNodeByPath(n, pp).Some? <==> Occurs(Entries(n), pp)
    ensures n.path != pp ==> (Occurs(Entries(n), pp) <==> Occurs(ChildEntries(n.children), pp))
  {
    GetNodeByPathSpec(n, pp);
    assert Entries(n)[0].path == n.path;
    OccursAppend([Entry(n.path, n.element)], ChildEntries(n.children), p);
    OccursAppend([Entry(n.path, n.element)], ChildEntries(n.children), pp);
  }

  lemma ChildAbsent(kids: OrderedMap<Node>, j: nat, p: ElementPath)
    requires j < |kids| && !Occurs(ChildEntries(kids), p)
    ensures !Occurs(Entries(kids[j].value), p)
  {
    ChildEntriesSplit(kids, j);
    OccursAppend(ChildEntries(kids[..j]) + Entries(kids[j].value), ChildEntries(kids[j + 1..]), p);
    OccursAppend(ChildEntries(kids[..j]), Entries(kids[j].value), p);
  }

  /** Inserting directly under this node appends a last child. */
  lemma AddHere(n: Node, p: ElementPath, pp: ElementPath, m: Node)
    requires pp == ParentPath(p)
    requires ValidNode(n) && n.path != p && !Occurs(ChildEntries(n.children), p)
    requires pp == "" || n.path == pp
    ensures AddNodeByPath(n, p, m) == Ok(Some(n.(children := n.children + [KV(p, m)])))
    ensures Entries(n.(children := n.children + [KV(p, m)])) == Entries(n) + Entries(m)
    ensures ValidNode(m) && m.path == p ==> ValidNode(n.(children := n.children + [KV(p, m)]))
  {
    AppendChildStep(n, p, m);
  }

  /** Adding below child `j`, which becomes `rj`, re-binds it in place. */
  lemma AddUnfold(n: Node, j: nat, p: ElementPath, pp: ElementPath, m: Node, rj: Node)
    requires pp == ParentPath(p)
    requires ValidNode(n) && n.path != p && n.path != pp && pp != "" && j < |n.children|
    requires AddInChildren(n.children, p, m) == Ok(Some(KV(n.children[j].key, rj)))
    ensures AddNodeByPath(n, p, m) == Ok(Some(n.(children := n.children[j := KV(n.children[j].key, rj)])))
  {
    MapSetAt(n.children, j, rj);
  }

  lemma {:induction false} AddInChildrenSpec(kids: OrderedMap<Node>, p: ElementPath, pp: ElementPath, m: Node)
    requires pp == ParentPath(p)
    requires ValidChildren(kids) && !Occurs(ChildEntries(kids), p) && pp != ""
    ensures AddInChildren(kids, p, m).Ok?
    ensures AddInChildren(kids, p, m).value.Some? <==> Occurs(ChildEntries(kids), pp)
    ensures Occurs(ChildEntries(kids), pp) ==>
      var j := FirstChildWith(kids, pp);
      AddNodeByPath(kids[j].value, p, m).Ok? && AddNodeByPath(kids[j].value, p, m).value.Some?
      && AddInChildren(kids, p, m) == Ok(Some(KV(kids[j].key, AddNodeByPath(kids[j].value, p, m).value.value)))
    decreases kids, 0
  {
    if |kids| > 0 {
      assert ValidNode(kids[0].value);
      OccursAppend(Entries(kids[0].value), ChildEntries(kids[1..]), p);
      OccursAppend(Entries(kids[0].value), ChildEntries(kids[1..]), pp);
      AddNodeByPathSpec(kids[0].value, p, pp, m);
      assert ValidChildren(kids[1..]) by {
        forall i | 0 <= i < |kids[1..]| ensures kids[1..][i] == kids[i + 1] { }
      }
      AddInChildrenSpec(kids[1..], p, pp, m);
    }
  }
}
