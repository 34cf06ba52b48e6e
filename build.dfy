/** src/merger.ts, part 2: building the element tree from a snapshot
    (`buildTree`), the prefix index over differential paths (`HasChildren`,
    `buildHasChildren`) and the path-to-element lookup (`buildElementMap`). */
module MergerBuild {
  import opened Wrappers
  import opened Text
  import opened OrderedMaps
  import opened Fhir
  import opened MergerTree

  // ---------------------------------------------------------------------
  // buildTree

  const EmptyInputMessage: string := "elementDefinitions is empty"

  /** What JavaScript throws when the node stack runs empty and the code reads
      `children` of `undefined`. */
  const NoParentMessage: string := "Cannot read properties of undefined (reading 'children')"

  /** Every later element lies strictly below the first one's path. */
  predicate UnderRoot(els: seq<Element>)
    requires |els| > 0
  {
    forall k :: 1 <= k < |els| ==> StartsWith(Path(els[k]), Path(els[0]) + ".")
  }

  predicate DistinctPaths(els: seq<Element>)
  {
    forall i, j :: 0 <= i < j < |els| ==> Path(els[i]) != Path(els[j])
  }

  /** Each child's path extends its parent's path by at least one segment. */
  predicate Nested(n: Node)
    decreases n, 1
  {
    NestedChildren(n.path, n.children)
  }

  predicate NestedChildren(parent: ElementPath, kids: OrderedMap<Node>)
    decreases kids, 0
  {
    forall i :: 0 <= i < |kids| ==> StartsWith(kids[i].value.path, parent + ".") && Nested(kids[i].value)
  }

  /** The node reached from `n` by following child keys. */
  function Descend(n: Node, route: seq<ElementPath>): Option<Node>
    decreases |route|
  {
    if |route| == 0 then Some(n)
    else match Get(n.children, route[0])
      case None => None
      case Some(c) => Descend(c, route[1..])
  }

  /** `parent.children.set(c.path, c)` done through a reference to the node
      at `route`: every ancestor re-binds the changed child under its key. */
  function AddAlong(n: Node, route: seq<ElementPath>, c: Node): (r: Node)
    ensures r.path == n.path && r.element == n.element
    decreases |route|
  {
    if |route| == 0 then n.(children := MapSet(n.children, c.path, c))
    else match Get(n.children, route[0])
      case None => n
      case Some(ch) => n.(children := MapSet(n.children, route[0], AddAlong(ch, route[1..], c)))
  }

  /** `route` keeps to the last child at every step (the rightmost spine). */
  predicate OnSpine(n: Node, route: seq<ElementPath>)
    decreases |route|
  {
    |route| == 0 ||
    (|n.children| > 0 && n.children[|n.children| - 1].key == route[0]
     && OnSpine(n.children[|n.children| - 1].value, route[1..]))
  }

  /** The pre-order list a tree holding exactly `els` would have. */
  function EntriesOf(els: seq<Element>): (r: seq<Entry>)
    ensures |r| == |els| && forall i :: 0 <= i < |els| ==> r[i] == Entry(Path(els[i]), els[i])
  {
    if |els| == 0 then [] else EntriesOf(els[..|els| - 1]) + [Entry(Path(els[|els| - 1]), els[|els| - 1])]
  }

  /** In a well-formed node the child found under a key has that key as path. */
  lemma GetChild(n: Node, k: ElementPath)
    requires ValidNode(n)
    ensures Get(n.children, k).Some? ==>
      exists i :: 0 <= i < |n.children| && n.children[i].key == k && Get(n.children, k) == Some(n.children[i].value)
    ensures forall c :: Get(n.children, k) == Some(c) ==> c.path == k && ValidNode(c) && (Nested(n) ==> Nested(c) && StartsWith(c.path, n.path + "."))
  {
    var i := IndexOfKey(n.children, k);
    if i >= 0 {
      ValidChild(n, i);
    }
  }

  /** A child set under its own path keeps a node well formed and nested. */
  lemma SetChildValid(n: Node, c: Node)
    requires ValidNode(n) && Nested(n) && ValidNode(c) && Nested(c)
    requires StartsWith(c.path, n.path + ".")
    ensures ValidNode(n.(children := MapSet(n.children, c.path, c)))
    ensures Nested(n.(children := MapSet(n.children, c.path, c)))
  {
    SetChildKeys(n, c);
    SetChildNested(n, c);
  }

  lemma SetChildKeys(n: Node, c: Node)
    requires ValidNode(n) && ValidNode(c)
    ensures ValidNode(n.(children := MapSet(n.children, c.path, c)))
  {
    var kids := MapSet(n.children, c.path, c);
    MapSetKeys(n.children, c.path, c);
    forall t | 0 <= t < |kids|
      ensures kids[t].key == kids[t].value.path && ValidNode(kids[t].value)
    {
      SetChildEntry(n, c, t);
    }
    assert ValidChildren(kids);
  }

  lemma SetChildEntry(n: Node, c: Node, t: nat)
    requires ValidNode(n) && ValidNode(c) && t < |MapSet(n.children, c.path, c)|
    ensures MapSet(n.children, c.path, c)[t].key == MapSet(n.children, c.path, c)[t].value.path
    ensures ValidNode(MapSet(n.children, c.path, c)[t].value)
  {
    SetChildSlots(n.children, c);
    if t < |n.children| && MapSet(n.children, c.path, c)[t] == n.children[t] {
      ValidChild(n, t);
    }
  }

  lemma SetChildNested(n: Node, c: Node)
    requires Nested(n) && Nested(c) && StartsWith(c.path, n.path + ".")
    ensures Nested(n.(children := MapSet(n.children, c.path, c)))
  {
    var kids := MapSet(n.children, c.path, c);
    SetChildSlots(n.children, c);
    forall t | 0 <= t < |kids|
      ensures StartsWith(kids[t].value.path, n.path + ".") && Nested(kids[t].value)
    {
      if t < |n.children| && kids[t] == n.children[t] {
        NestedChild(n, t);
      }
    }
    assert NestedChildren(n.path, kids);
  }

  /** After `set`, every entry is an old one in its old place or the new one. */
  lemma SetChildSlots(kids: OrderedMap<Node>, c: Node)
    ensures |kids| <= |MapSet(kids, c.path, c)| <= |kids| + 1
    ensures forall t :: 0 <= t < |MapSet(kids, c.path, c)| ==>
      MapSet(kids, c.path, c)[t] == KV(c.path, c) || (t < |kids| && MapSet(kids, c.path, c)[t] == kids[t])
  {
  }

  lemma NestedChild(n: Node, t: nat)
    requires Nested(n) && t < |n.children|
    ensures StartsWith(n.children[t].value.path, n.path + ".") && Nested(n.children[t].value)
  {
    assert NestedChildren(n.path, n.children);
  }

  lemma {:induction false} AddAlongValid(n: Node, route: seq<ElementPath>, c: Node, t: Node)
    requires ValidNode(n) && Nested(n) && ValidNode(c) && Nested(c)
    requires Descend(n, route) == Some(t) && StartsWith(c.path, t.path + ".")
    ensures ValidNode(AddAlong(n, route, c)) && Nested(AddAlong(n, route, c))
    ensures Descend(AddAlong(n, route, c), route + [c.path]) == Some(c)
    decreases |route|
  {
    if |route| == 0 {
      SetChildValid(n, c);
      MapSetGetSame(n.children, c.path, c);
    } else {
      GetChild(n, route[0]);
      var ch := Get(n.children, route[0]).value;
      AddAlongValid(ch, route[1..], c, t);
      var ch' := AddAlong(ch, route[1..], c);
      SetChildValid(n, ch');
      MapSetGetSame(n.children, route[0], ch');
      assert (route + [c.path])[1..] == route[1..] + [c.path];
    }
  }

  /** The node at a route has the route's last key as its path. */
  lemma {:induction false} DescendPath(n: Node, route: seq<ElementPath>, t: Node)
    requires ValidNode(n) && Descend(n, route) == Some(t)
    ensures t.path == if |route| == 0 then n.path else route[|route| - 1]
    decreases |route|
  {
    if |route| > 0 {
      GetChild(n, route[0]);
      var ch := Get(n.children, route[0]).value;
      DescendPath(ch, route[1..], t);
      if |route| > 1 {
        assert route[1..][|route[1..]| - 1] == route[|route| - 1];
      }
    }
  }

  lemma {:induction false} DescendPrefix(n: Node, route: seq<ElementPath>)
    requires Descend(n, route).Some? && |route| > 0
    ensures Descend(n, route[..|route| - 1]).Some?
    decreases |route|
  {
    if |route| > 1 {
      var ch := Get(n.children, route[0]).value;
      DescendPrefix(ch, route[1..]);
      assert route[..|route| - 1][1..] == route[1..][..|route[1..]| - 1];
    }
  }

  lemma {:induction false} OnSpinePrefix(n: Node, route: seq<ElementPath>)
    requires OnSpine(n, route) && |route| > 0
    ensures OnSpine(n, route[..|route| - 1])
    decreases |route|
  {
    if |route| > 1 {
      OnSpinePrefix(n.children[|n.children| - 1].value, route[1..]);
      assert route[..|route| - 1][1..] == route[1..][..|route[1..]| - 1];
    }
  }

  /** Adding a new path below a node of the rightmost spine appends the new
      subtree to the pre-order, and the spine now ends at the new node. */
  lemma {:induction false} AddAlongAppends(n: Node, route: seq<ElementPath>, c: Node)
    requires ValidNode(n) && OnSpine(n, route) && !Occurs(Entries(n), c.path)
    ensures Entries(AddAlong(n, route, c)) == Entries(n) + Entries(c)
    ensures OnSpine(AddAlong(n, route, c), route + [c.path])
    decreases |route|
  {
    assert !Occurs(ChildEntries(n.children), c.path) by {
      OccursAppend([Entry(n.path, n.element)], ChildEntries(n.children), c.path);
    }
    if |route| == 0 {
      AppendChildStep(n, c.path, c);
      assert OnSpine(c, []);
    } else {
      var last := |n.children| - 1;
      assert ValidNode(n.children[last].value) && !Occurs(Entries(n.children[last].value), c.path) by {
        ValidChild(n, last);
        ChildAbsent(n.children, last, c.path);
      }
      AddAlongAppends(n.children[last].value, route[1..], c);
      SpineStep(n, route, c);
    }
  }

  /** The step of `AddAlongAppends` through the last child. */
  lemma SpineStep(n: Node, route: seq<ElementPath>, c: Node)
    requires ValidNode(n) && OnSpine(n, route) && |route| > 0
    requires Entries(AddAlong(n.children[|n.children| - 1].value, route[1..], c))
             == Entries(n.children[|n.children| - 1].value) + Entries(c)
    requires OnSpine(AddAlong(n.children[|n.children| - 1].value, route[1..], c), route[1..] + [c.path])
    ensures Entries(AddAlong(n, route, c)) == Entries(n) + Entries(c)
    ensures OnSpine(AddAlong(n, route, c), route + [c.path])
  {
    var last := |n.children| - 1;
    var ch' := AddAlong(n.children[last].value, route[1..], c);
    assert AddAlong(n, route, c) == n.(children := n.children[last := KV(n.children[last].key, ch')]) by {
      GetAt(n.children, last);
      MapSetAt(n.children, last, ch');
    }
    LastChildGrows(n, ch', Entries(c));
    assert (route + [c.path])[1..] == route[1..] + [c.path];
  }

  /** Growing the last child's pre-order grows the node's pre-order. */
  lemma LastChildGrows(n: Node, ch': Node, extra: seq<Entry>)
    requires ValidNode(n) && |n.children| > 0
    requires Entries(ch') == Entries(n.children[|n.children| - 1].value) + extra
    ensures Entries(n.(children := n.children[|n.children| - 1 := KV(n.children[|n.children| - 1].key, ch')]))
            == Entries(n) + extra
  {
    var last := |n.children| - 1;
    SwapChild(n, last, ch');
    ChildEntriesSplit(n.children, last);
    assert n.children[last + 1..] == [];
  }

  /** No entry at `p` means `p` does not occur. */
  lemma {:induction false} AbsentNotOccurs(es: seq<Entry>, p: ElementPath)
    requires forall i :: 0 <= i < |es| ==> es[i].path != p
    ensures !Occurs(es, p)
    decreases |es|
  {
    if |es| > 0 {
      AbsentNotOccurs(es[1..], p);
    }
  }

  lemma FreshPath(els: seq<Element>, k: nat)
    requires DistinctPaths(els) && k < |els|
    ensures !Occurs(EntriesOf(els[..k]), Path(els[k]))
  {
    var es := EntriesOf(els[..k]);
    forall i | 0 <= i < |es| ensures es[i].path != Path(els[k]) {
      assert es[i].path == Path(els[i]);
    }
    AbsentNotOccurs(es, Path(els[k]));
  }

  /** The node stack of `buildTree`, as paths: the root, then the keys that
      lead from the root to each open node in turn. All open nodes lie
      below the root; with `spine`, the stack follows the last children. */
  predicate OpenNodes(tree: Node, stack: seq<ElementPath>, spine: bool)
  {
    |stack| >= 1 && stack[0] == tree.path
    && (forall i :: 1 <= i < |stack| ==> StartsWith(stack[i], tree.path + "."))
    && Descend(tree, stack[1..]).Some?
    && (spine ==> OnSpine(tree, stack[1..]))
  }

  lemma PopOpen(tree: Node, stack: seq<ElementPath>, spine: bool)
    requires OpenNodes(tree, stack, spine) && |stack| > 1
    ensures OpenNodes(tree, stack[..|stack| - 1], spine)
  {
    assert stack[..|stack| - 1][1..] == stack[1..][..|stack[1..]| - 1];
    DescendPrefix(tree, stack[1..]);
    if spine { OnSpinePrefix(tree, stack[1..]); }
  }

  /** When no open node is a dotted prefix of `p`, `p` is not below the root. */
  lemma NoOpenPrefix(tree: Node, stack: seq<ElementPath>, spine: bool, p: ElementPath)
    requires OpenNodes(tree, stack, spine)
    requires StartsWith(p, stack[|stack| - 1] + ".")
    ensures StartsWith(p, tree.path + ".")
  {
    if |stack| > 1 {
      StartsWithTrans(p, stack[|stack| - 1], tree.path);
    }
  }

  /** One iteration's attachment of `e` under the top open node, which then
      becomes the new top. */
  lemma PushOpen(tree: Node, stack: seq<ElementPath>, spine: bool, e: Element)
    requires ValidNode(tree) && Nested(tree) && OpenNodes(tree, stack, spine)
    requires StartsWith(Path(e), stack[|stack| - 1] + ".")
    requires spine ==> !Occurs(Entries(tree), Path(e))
    ensures StartsWith(Path(e), tree.path + ".")
    ensures AddAlong(tree, stack[1..], Leaf(e)).path == tree.path
    ensures ValidNode(AddAlong(tree, stack[1..], Leaf(e))) && Nested(AddAlong(tree, stack[1..], Leaf(e)))
    ensures OpenNodes(AddAlong(tree, stack[1..], Leaf(e)), stack + [Path(e)], spine)
    ensures spine ==> Entries(AddAlong(tree, stack[1..], Leaf(e))) == Entries(tree) + [Entry(Path(e), e)]
  {
    var t := Descend(tree, stack[1..]).value;
    DescendPath(tree, stack[1..], t);
    NoOpenPrefix(tree, stack, spine, Path(e));
    AddAlongValid(tree, stack[1..], Leaf(e), t);
    if spine {
      AddAlongAppends(tree, stack[1..], Leaf(e));
    }
    StackPush(stack, Path(e));
  }

  lemma StackPush(stack: seq<ElementPath>, x: ElementPath)
    requires |stack| >= 1
    ensures (stack + [x])[1..] == stack[1..] + [x]
    ensures (stack + [x])[..|stack|] == stack
  {
  }

  /** The first `k` elements lie below the root. */
  predicate PrefixUnder(els: seq<Element>, k: nat)
    requires 1 <= k <= |els|
  {
    forall i :: 1 <= i < k ==> StartsWith(Path(els[i]), Path(els[0]) + ".")
  }

  /** What the loop of `buildTree` keeps about the tree once the first `k`
      elements are in: the root is the first element, the tree is well
      formed and nested, and with `spine` (distinct paths) its pre-order is
      exactly those elements. */
  predicate TreeSoFar(els: seq<Element>, k: nat, tree: Node, spine: bool)
    requires 1 <= k <= |els|
  {
    tree.path == Path(els[0]) && tree.element == els[0] && ValidNode(tree) && Nested(tree)
    && PrefixUnder(els, k)
    && (spine ==> Entries(tree) == EntriesOf(els[..k]))
  }

  /** The state after the loop of `buildTree` has attached element `k`. */
  lemma BuildStep(els: seq<Element>, k: nat, tree: Node, stack: seq<ElementPath>, spine: bool)
    requires 1 <= k < |els| && (spine ==> DistinctPaths(els))
    requires TreeSoFar(els, k, tree, spine)
    requires OpenNodes(tree, stack, spine) && StartsWith(Path(els[k]), stack[|stack| - 1] + ".")
    ensures TreeSoFar(els, k + 1, AddAlong(tree, stack[1..], Leaf(els[k])), spine)
    ensures OpenNodes(AddAlong(tree, stack[1..], Leaf(els[k])), stack + [Path(els[k])], spine)
  {
    if spine {
      FreshPath(els, k);
    }
    PushOpen(tree, stack, spine, els[k]);
    EntriesOfSnoc(els, k);
  }

  lemma EntriesOfSnoc(els: seq<Element>, k: nat)
    requires k < |els|
    ensures EntriesOf(els[..k + 1]) == EntriesOf(els[..k]) + [Entry(Path(els[k]), els[k])]
  {
    assert els[..k + 1][..k] == els[..k];
  }

  /** What the finished loop gives. */
  lemma BuildDone(els: seq<Element>, tree: Node, spine: bool)
    requires |els| >= 1 && spine == DistinctPaths(els)
    requires TreeSoFar(els, |els|, tree, spine)
    ensures UnderRoot(els)
    ensures tree.path == Path(els[0]) && tree.element == els[0] && ValidNode(tree) && Nested(tree)
    ensures spine ==> ResolveElementDefinition(tree) == els
  {
    assert els[..|els|] == els;
    if spine {
      ResolveIsPreorder(tree);
      assert ElementsOf(EntriesOf(els)) == els;
    }
  }

  /** The stack after the first inner loop: at most `depth` open nodes. */
  function PopDeeperF(stack: seq<ElementPath>, depth: nat): seq<ElementPath>
  {
    if |stack| > depth then stack[..depth] else stack
  }

  /** The stack after the second inner loop: open nodes are dropped until
      the top one is a dotted prefix of `p`. */
  function PopToParentF(stack: seq<ElementPath>, p: ElementPath): seq<ElementPath>
    decreases |stack|
  {
    if |stack| == 0 || StartsWith(p, stack[|stack| - 1] + ".") then stack
    else PopToParentF(stack[..|stack| - 1], p)
  }

  /** The rest of `buildTree`'s loop from element `k` on, with the tree so
      far and the stack of open nodes (as the keys leading to them). */
  function BuildLoop(els: seq<Element>, k: nat, tree: Node, stack: seq<ElementPath>): Result<Node>
    requires 1 <= k <= |els|
    decreases |els| - k
  {
    if k == |els| then Ok(tree)
    else
      var path := Path(els[k]);
      var s := PopToParentF(PopDeeperF(stack, |Split(path)|), path);
      if |s| == 0 then Err(NoParentMessage)
      else BuildLoop(els, k + 1, AddAlong(tree, s[1..], Leaf(els[k])), s + [path])
  }

  /** `buildTree` as a function: the reference the method is proved against. */
  function BuildTreeF(els: seq<Element>): Result<Node>
  {
    if |els| == 0 then Err(EmptyInputMessage)
    else BuildLoop(els, 1, Leaf(els[0]), [Path(els[0])])
  }

  lemma PopDeeperOpen(tree: Node, stack: seq<ElementPath>, spine: bool, depth: nat)
    requires OpenNodes(tree, stack, spine) && depth >= 1
    ensures OpenNodes(tree, PopDeeperF(stack, depth), spine)
    decreases |stack|
  {
    if |stack| > depth {
      PopOpen(tree, stack, spine);
      var s := stack[..|stack| - 1];
      PopDeeperOpen(tree, s, spine, depth);
      assert PopDeeperF(s, depth) == PopDeeperF(stack, depth);
    }
  }

  lemma PopToParentOpen(tree: Node, stack: seq<ElementPath>, spine: bool, p: ElementPath)
    requires OpenNodes(tree, stack, spine)
    ensures |PopToParentF(stack, p)| >= 1 ==>
      OpenNodes(tree, PopToParentF(stack, p), spine)
      && StartsWith(p, PopToParentF(stack, p)[|PopToParentF(stack, p)| - 1] + ".")
    ensures |PopToParentF(stack, p)| >= 1 <==> StartsWith(p, tree.path + ".")
    decreases |stack|
  {
    if !StartsWith(p, stack[|stack| - 1] + ".") {
      if |stack| > 1 {
        PopOpen(tree, stack, spine);
        PopToParentOpen(tree, stack[..|stack| - 1], spine, p);
      } else {
        assert PopToParentF(stack[..0], p) == [];
      }
    } else {
      NoOpenPrefix(tree, stack, spine, p);
    }
  }

  lemma {:induction false} BuildLoopSpec(els: seq<Element>, k: nat, tree: Node, stack: seq<ElementPath>, spine: bool)
    requires 1 <= k <= |els| && (spine ==> DistinctPaths(els))
    requires TreeSoFar(els, k, tree, spine) && OpenNodes(tree, stack, spine)
    ensures LoopOutcome(els, BuildLoop(els, k, tree, stack), spine)
    decreases |els| - k
  {
    if k == |els| {
      LoopDone(els, tree, spine);
    } else {
      var t, s := StackStep(els, k, tree, stack, spine);
      if |s| >= 1 {
        BuildLoopSpec(els, k + 1, t, s, spine);
      }
    }
  }

  lemma LoopDone(els: seq<Element>, tree: Node, spine: bool)
    requires 1 <= |els| && TreeSoFar(els, |els|, tree, spine)
    ensures LoopOutcome(els, Ok(tree), spine)
  {
    assert PrefixUnder(els, |els|);
  }

  lemma NoParent(els: seq<Element>, k: nat, tree: Node)
    requires 1 <= k < |els| && tree.path == Path(els[0])
    requires !StartsWith(Path(els[k]), tree.path + ".")
    ensures !UnderRoot(els)
  {
  }

  /** Popping the stack for element `k` and attaching it keeps the loop's
      state; the stack empties exactly when the element is not below the
      root. */
  lemma StackStep(els: seq<Element>, k: nat, tree: Node, stack: seq<ElementPath>, spine: bool)
    returns (t: Node, s: seq<ElementPath>)
    requires 1 <= k < |els| && (spine ==> DistinctPaths(els))
    requires TreeSoFar(els, k, tree, spine) && OpenNodes(tree, stack, spine)
    ensures |s| == 0 ==> LoopOutcome(els, BuildLoop(els, k, tree, stack), spine)
    ensures |s| >= 1 ==> TreeSoFar(els, k + 1, t, spine) && OpenNodes(t, s, spine)
    ensures |s| >= 1 && LoopOutcome(els, BuildLoop(els, k + 1, t, s), spine) ==>
              LoopOutcome(els, BuildLoop(els, k, tree, stack), spine)
  {
    var path := Path(els[k]);
    var s1 := PopDeeperF(stack, |Split(path)|);
    PopDeeperOpen(tree, stack, spine, |Split(path)|);
    var s0 := PopToParentF(s1, path);
    PopToParentOpen(tree, s1, spine, path);
    if |s0| >= 1 {
      BuildStep(els, k, tree, s0, spine);
      t, s := AddAlong(tree, s0[1..], Leaf(els[k])), s0 + [path];
    } else {
      t, s := tree, [];
      NoParent(els, k, tree);
    }
  }

  /** What the loop of `buildTree` ends with: success exactly when every
      element lies below the root, the one failure otherwise, and on
      success the tree of all elements. */
  predicate LoopOutcome(els: seq<Element>, r: Result<Node>, spine: bool)
    requires |els| > 0
  {
    (r.Ok? <==> UnderRoot(els))
    && (r.Err? ==> r == Err(NoParentMessage))
    && (r.Ok? ==> TreeSoFar(els, |els|, r.value, spine))
  }

  /** What `buildTree` guarantees, stated of the function: empty input and
      an element outside the root are the two failures; otherwise the root
      holds the first element, the tree is well formed and nested, and for
      distinct paths its pre-order is `els` again. */
  lemma BuildTreeSpec(els: seq<Element>)
    ensures |els| == 0 ==> BuildTreeF(els) == Err(EmptyInputMessage)
    ensures BuildTreeF(els).Ok? <==> |els| > 0 && UnderRoot(els)
    ensures BuildTreeF(els).Err? && |els| > 0 ==> BuildTreeF(els) == Err(NoParentMessage)
    ensures BuildTreeF(els).Ok? ==>
      var t := BuildTreeF(els).value;
      t.path == Path(els[0]) && t.element == els[0] && ValidNode(t) && Nested(t)
      && (DistinctPaths(els) ==> ResolveElementDefinition(t) == els)
  {
    if |els| > 0 {
      var spine := DistinctPaths(els);
      assert EntriesOf(els[..1]) == Entries(Leaf(els[0]));
      BuildLoopSpec(els, 1, Leaf(els[0]), [Path(els[0])], spine);
      if BuildTreeF(els).Ok? {
        BuildDone(els, BuildTreeF(els).value, spine);
      }
    }
  }

  /** The first inner loop of `buildTree`: drop open nodes above depth
      `depth`. */
  method PopDeeper(tree: Node, stack: seq<ElementPath>, ghost spine: bool, depth: nat) returns (s: seq<ElementPath>)
    requires OpenNodes(tree, stack, spine) && depth >= 1
    ensures s == PopDeeperF(stack, depth)
    ensures OpenNodes(tree, s, spine)
  {
    s := stack;
    while |s| > depth
      invariant OpenNodes(tree, s, spine)
      invariant |s| <= |stack| && s == stack[..|s|]
      invariant |s| < |stack| ==> |s| >= depth
    {
      PopOpen(tree, s, spine);
      s := s[..|s| - 1];
    }
    assert |s| == |stack| ==> s == stack;
  }

  /** The second inner loop of `buildTree`: drop open nodes until the top
      one is a dotted prefix of `p`. Every dropped node is not, and the
      root stays unless `p` lies outside it. */
  method PopToParent(tree: Node, stack: seq<ElementPath>, ghost spine: bool, p: ElementPath) returns (s: seq<ElementPath>)
    requires OpenNodes(tree, stack, spine)
    ensures |s| <= |stack| && s == stack[..|s|]
    ensures forall i :: |s| <= i < |stack| ==> !StartsWith(p, stack[i] + ".")
    ensures |s| >= 1 ==> OpenNodes(tree, s, spine) && StartsWith(p, s[|s| - 1] + ".")
    ensures |s| >= 1 <==> StartsWith(p, tree.path + ".")
    ensures s == PopToParentF(stack, p)
  {
    s := stack;
    while |s| > 0 && !StartsWith(p, s[|s| - 1] + ".")
      invariant PopToParentF(s, p) == PopToParentF(stack, p)
      invariant |s| <= |stack| && s == stack[..|s|]
      invariant forall i :: |s| <= i < |stack| ==> !StartsWith(p, stack[i] + ".")
      invariant |s| >= 1 ==> OpenNodes(tree, s, spine)
    {
      if |s| > 1 {
        PopOpen(tree, s, spine);
      }
      s := s[..|s| - 1];
    }
    if |s| >= 1 {
      NoOpenPrefix(tree, s, spine, p);
    } else {
      assert stack[0] == tree.path;
    }
  }

  /** `buildTree`: the first element is the root; each later element is
      attached, by its path, under the deepest node on the stack of open
      nodes whose path is a dotted prefix of it. Fails on empty input and
      whenever an element lies outside the root; otherwise the tree is well
      formed and nested, and for distinct paths lists `els` back in order. */
  method BuildTree(els: seq<Element>) returns (r: Result<Node>)
    ensures |els| == 0 ==> r == Err(EmptyInputMessage)
    ensures r.Ok? <==> |els| > 0 && UnderRoot(els)
    ensures r.Err? && |els| > 0 ==> r == Err(NoParentMessage)
    ensures r.Ok? ==> r.value.path == Path(els[0]) && r.value.element == els[0]
    ensures r.Ok? ==> ValidNode(r.value) && Nested(r.value)
    ensures r.Ok? && DistinctPaths(els) ==> ResolveElementDefinition(r.value) == els
    ensures r == BuildTreeF(els)
  {
    if |els| == 0 {
      return Err(EmptyInputMessage);
    }
    ghost var spine := DistinctPaths(els);
    var tree := Leaf(els[0]);
    var stack: seq<ElementPath> := [Path(els[0])];
    assert EntriesOf(els[..1]) == Entries(tree);
    var k := 1;
    while k < |els|
      invariant 1 <= k <= |els|
      invariant TreeSoFar(els, k, tree, spine)
      invariant OpenNodes(tree, stack, spine)
      invariant BuildLoop(els, k, tree, stack) == BuildTreeF(els)
    {
      var path := Path(els[k]);
      var segments := Split(path);
      stack := PopDeeper(tree, stack, spine, |segments|);
      stack := PopToParent(tree, stack, spine, path);
      if |stack| == 0 {
        return Err(NoParentMessage);
      }
      BuildStep(els, k, tree, stack, spine);
      tree := AddAlong(tree, stack[1..], Leaf(els[k]));
      stack := stack + [path];
      k := k + 1;
    }
    BuildDone(els, tree, spine);
    return Ok(tree);
  }

  // ---------------------------------------------------------------------
  // HasChildren

  /** The source's `HasChildren`: for a path, the paths one level below it
      that the differential mentions. */
  class HasChildren {
    var index: map<ElementPath, seq<ElementPath>>

    constructor()
      ensures index == map[]
    {
      index := map[];
    }

    /** `add`: appends, without checking for duplicates. */
    method Add(elementPath: ElementPath, hasChildren: ElementPath)
      modifies this
      ensures index == old(index)[elementPath :=
        (if elementPath in old(index) then old(index)[elementPath] else []) + [hasChildren]]
    {
      if elementPath in index {
        index := index[elementPath := index[elementPath] + [hasChildren]];
      } else {
        assert [] + [hasChildren] == [hasChildren];
        index := index[elementPath := [hasChildren]];
      }
    }

    function Has(elementPath: ElementPath): (b: bool)
      reads this
      ensures b <==> elementPath in index
    {
      elementPath in index
    }

    function GetChildren(elementPath: ElementPath): (r: Option<seq<ElementPath>>)
      reads this
      ensures r.Some? <==> elementPath in index
      ensures r.Some? ==> r.value == index[elementPath]
    {
      if elementPath in index then Some(index[elementPath]) else None
    }
  }

  /** The (prefix, next-level prefix) pairs of one path's segments, for the
      first `i` proper prefixes. */
  function SegmentPairs(segs: seq<string>, i: nat): (ps: seq<(ElementPath, ElementPath)>)
    requires i < |segs|
    ensures |ps| == i
  {
    if i == 0 then [] else SegmentPairs(segs, i - 1) + [(Join(segs[..i]), Join(segs[..i + 1]))]
  }

  /** Pair `t` relates the prefix of `t + 1` segments to the one of `t + 2`. */
  lemma {:induction false} SegmentPairsAt(segs: seq<string>, i: nat, t: nat)
    requires t < i < |segs|
    ensures SegmentPairs(segs, i)[t] == (Join(segs[..t + 1]), Join(segs[..t + 2]))
  {
    if t < i - 1 {
      SegmentPairsAt(segs, i - 1, t);
    }
  }

  function PathPairs(p: ElementPath): seq<(ElementPath, ElementPath)>
  {
    SegmentPairs(Split(p), |Split(p)| - 1)
  }

  /** All pairs of a list of elements, in the order the loops visit them. */
  function PrefixPairs(els: seq<Element>): seq<(ElementPath, ElementPath)>
  {
    if |els| == 0 then [] else PrefixPairs(els[..|els| - 1]) + PathPairs(Path(els[|els| - 1]))
  }

  /** The index the pairs build when a pair already recorded is skipped. */
  function Grouped(ps: seq<(ElementPath, ElementPath)>): map<ElementPath, seq<ElementPath>>
  {
    if |ps| == 0 then map[]
    else
      var g := Grouped(ps[..|ps| - 1]);
      var (a, b) := ps[|ps| - 1];
      var cur := if a in g then g[a] else [];
      if b in cur then g else g[a := cur + [b]]
  }

  /** `buildHasChildren` */
  method BuildHasChildren(els: seq<Element>) returns (h: HasChildren)
    ensures fresh(h)
    ensures h.index == Grouped(PrefixPairs(els))
  {
    h := new HasChildren();
    var k := 0;
    while k < |els|
      invariant 0 <= k <= |els|
      invariant h.index == Grouped(PrefixPairs(els[..k]))
    {
      var segments := Split(Path(els[k]));
      ghost var done := PrefixPairs(els[..k]);
      if |segments| != 1 {
        AddSegmentPairs(h, segments, done);
      } else {
        SegmentPairsNone(done, segments, |segments| - 1);
      }
      PrefixPairsSnoc(els, k);
      k := k + 1;
    }
    assert els[..k] == els;
  }

  lemma SegmentPairsNone(done: seq<(ElementPath, ElementPath)>, segs: seq<string>, i: nat)
    requires i == 0 && |segs| >= 1
    ensures done + SegmentPairs(segs, i) == done
  {
  }

  lemma SegmentPairsStep(done: seq<(ElementPath, ElementPath)>, segs: seq<string>, i: nat)
    requires i + 1 < |segs|
    ensures done + SegmentPairs(segs, i + 1) == done + SegmentPairs(segs, i) + [(Join(segs[..i + 1]), Join(segs[..i + 2]))]
  {
  }

  /** One iteration of the inner loop of `buildHasChildren`, on the pairs:
      `g` is the index before it, `cur` what it holds for `p.0`, and `g'`
      the index after it. */
  lemma GroupedStep(ps: seq<(ElementPath, ElementPath)>, p: (ElementPath, ElementPath), cur: seq<ElementPath>,
                    g: map<ElementPath, seq<ElementPath>>, g': map<ElementPath, seq<ElementPath>>)
    requires g == Grouped(ps)
    requires cur == if p.0 in g then g[p.0] else []
    requires g' == if p.1 in cur then g else g[p.0 := cur + [p.1]]
    ensures Grouped(ps + [p]) == g'
  {
    assert (ps + [p])[..|ps|] == ps;
  }

  lemma PrefixPairsSnoc(els: seq<Element>, k: nat)
    requires k < |els|
    ensures PrefixPairs(els[..k + 1])
            == PrefixPairs(els[..k]) + SegmentPairs(Split(Path(els[k])), |Split(Path(els[k]))| - 1)
  {
    assert els[..k + 1][..k] == els[..k];
  }

  /** The inner loop of `buildHasChildren`: each proper prefix of one path
      records the prefix one segment longer, unless it already has it. */
  method AddSegmentPairs(h: HasChildren, segments: seq<string>, ghost done: seq<(ElementPath, ElementPath)>)
    requires |segments| >= 1 && h.index == Grouped(done)
    modifies h
    ensures h.index == Grouped(done + SegmentPairs(segments, |segments| - 1))
  {
    var i := 0;
    SegmentPairsNone(done, segments, i);
    while i < |segments| - 1
      invariant 0 <= i <= |segments| - 1
      invariant PairsSoFar(h.index, done, segments, i)
    {
      var currentPath := Join(segments[..i + 1]);
      var hasChildrenPath := Join(segments[..i + 2]);
      var currentChildren := match h.GetChildren(currentPath) case Some(cs) => cs case None => [];
      ghost var g := h.index;
      assert currentChildren == if currentPath in g then g[currentPath] else [];
      if hasChildrenPath !in currentChildren {
        h.Add(currentPath, hasChildrenPath);
      }
      PairsStep(done, segments, i, currentPath, hasChildrenPath, currentChildren, g, h.index);
      i := i + 1;
    }
  }

  /** The invariant of the inner loop of `buildHasChildren`: the index holds
      the pairs of the earlier paths and the first `i` pairs of this one. */
  ghost predicate PairsSoFar(g: map<ElementPath, seq<ElementPath>>, done: seq<(ElementPath, ElementPath)>,
                             segs: seq<string>, i: nat)
  {
    i < |segs| && g == Grouped(done + SegmentPairs(segs, i))
  }

  /** One iteration of that loop keeps its invariant. */
  lemma PairsStep(done: seq<(ElementPath, ElementPath)>, segs: seq<string>, i: nat,
                  cp: ElementPath, hp: ElementPath, cur: seq<ElementPath>,
                  g: map<ElementPath, seq<ElementPath>>, g': map<ElementPath, seq<ElementPath>>)
    requires i + 1 < |segs| && PairsSoFar(g, done, segs, i)
    requires cp == Join(segs[..i + 1]) && hp == Join(segs[..i + 2])
    requires cur == if cp in g then g[cp] else []
    requires g' == if hp in cur then g else g[cp := cur + [hp]]
    ensures PairsSoFar(g', done, segs, i + 1)
  {
    var ps := done + SegmentPairs(segs, i);
    GroupedStep(ps, (cp, hp), cur, g, g');
    SegmentPairsStep(done, segs, i);
    assert ps + [(cp, hp)] == done + SegmentPairs(segs, i + 1);
  }

  /** One more pair, as the inner loop of `buildHasChildren` records it. */
  lemma GroupedSnoc(done: seq<(ElementPath, ElementPath)>, ps: seq<(ElementPath, ElementPath)>, p: (ElementPath, ElementPath))
    ensures Grouped(done + ps + [p]) ==
      var g := Grouped(done + ps);
      var cur := if p.0 in g then g[p.0] else [];
      if p.1 in cur then g else g[p.0 := cur + [p.1]]
  {
    var all := done + ps + [p];
    assert all[..|all| - 1] == done + ps;
  }

  lemma {:induction false} GroupedDomain(ps: seq<(ElementPath, ElementPath)>, a: ElementPath)
    ensures a in Grouped(ps) <==> exists i :: 0 <= i < |ps| && ps[i].0 == a
  {
    if |ps| > 0 {
      var init := ps[..|ps| - 1];
      GroupedDomain(init, a);
      if exists i :: 0 <= i < |init| && init[i].0 == a {
        var i :| 0 <= i < |init| && init[i].0 == a;
        assert ps[i].0 == a;
      }
      if exists i :: 0 <= i < |ps| && ps[i].0 == a {
        var i :| 0 <= i < |ps| && ps[i].0 == a;
        if i < |init| { assert init[i].0 == a; }
      }
    }
  }

  /** A path is listed under `a` exactly when some pair records it, and no
      path is listed twice. */
  lemma {:induction false} GroupedValues(ps: seq<(ElementPath, ElementPath)>, a: ElementPath, b: ElementPath)
    requires a in Grouped(ps)
    ensures b in Grouped(ps)[a] <==> (a, b) in ps
    ensures forall s, t :: 0 <= s < t < |Grouped(ps)[a]| ==> Grouped(ps)[a][s] != Grouped(ps)[a][t]
  {
    var init := ps[..|ps| - 1];
    var last := ps[|ps| - 1];
    assert ps == init + [last];
    assert (a, b) in ps <==> (a, b) in init || (a, b) == last;
    var g := Grouped(init);
    var cur := if last.0 in g then g[last.0] else [];
    if a in g {
      GroupedValues(init, a, b);
      GroupedValues(init, a, last.1);
    } else {
      GroupedDomain(init, a);
      assert forall i :: 0 <= i < |init| ==> init[i].0 != a;
      assert (a, b) !in init;
    }
    if a == last.0 && last.1 !in cur {
      assert Grouped(ps)[a] == cur + [last.1];
    } else {
      assert Grouped(ps)[a] == g[a];
    }
  }

  /** The pairs of a path relate each proper prefix to the prefix one segment
      longer; a single-segment path has none. */
  lemma PathPairsShape(p: ElementPath, t: nat)
    requires t < |PathPairs(p)|
    ensures StartsWith(PathPairs(p)[t].1, PathPairs(p)[t].0 + ".")
    ensures '.' !in PathPairs(p)[t].1[|PathPairs(p)[t].0| + 1..]
    ensures StartsWith(p, PathPairs(p)[t].0 + ".")
  {
    var segs := Split(p);
    SegmentPairsAt(segs, |segs| - 1, t);
    SplitDotFree(p);
    JoinSplit(p);
    PrefixPairShape(segs, t);
  }

  lemma PrefixPairShape(segs: seq<string>, t: nat)
    requires t + 1 < |segs| && '.' !in segs[t + 1]
    ensures StartsWith(Join(segs[..t + 2]), Join(segs[..t + 1]) + ".")
    ensures '.' !in Join(segs[..t + 2])[|Join(segs[..t + 1])| + 1..]
    ensures StartsWith(Join(segs), Join(segs[..t + 1]) + ".")
  {
    JoinPrefixStep(segs, t + 1);
    var a := Join(segs[..t + 1]);
    assert Join(segs[..t + 2])[|a| + 1..] == segs[t + 1];
    JoinPrefixOf(segs, t + 1);
  }

  lemma {:induction false} JoinPrefixOf(segs: seq<string>, i: nat)
    requires 1 <= i < |segs|
    ensures StartsWith(Join(segs), Join(segs[..i]) + ".")
    decreases |segs| - i
  {
    JoinPrefixStep(segs, i);
    if i + 1 < |segs| {
      JoinPrefixOf(segs, i + 1);
      StartsWithTrans(Join(segs), Join(segs[..i + 1]), Join(segs[..i]));
    } else {
      assert segs[..i + 1] == segs;
    }
  }

  lemma SinglePathNoPairs(p: ElementPath)
    requires '.' !in p
    ensures PathPairs(p) == []
  {
    assert LastIndexOf(p, '.') == -1;
    assert Split(p) == [p];
  }

  // ---------------------------------------------------------------------
  // buildElementMap

  function PathElementPairs(els: seq<Element>): (ps: seq<(ElementPath, Element)>)
    ensures |ps| == |els| && forall i :: 0 <= i < |els| ==> ps[i] == (Path(els[i]), els[i])
  {
    if |els| == 0 then [] else PathElementPairs(els[..|els| - 1]) + [(Path(els[|els| - 1]), els[|els| - 1])]
  }

  /** `buildElementMap`: path to element, a later element winning. */
  method BuildElementMap(els: seq<Element>) returns (m: map<ElementPath, Element>)
    ensures m == LastWins(PathElementPairs(els))
  {
    m := map[];
    var k := 0;
    while k < |els|
      invariant 0 <= k <= |els|
      invariant m == LastWins(PathElementPairs(els[..k]))
    {
      ElementMapSnoc(els, k);
      m := m[Path(els[k]) := els[k]];
      k := k + 1;
    }
    assert els[..k] == els;
  }

  lemma ElementMapSnoc(els: seq<Element>, k: nat)
    requires k < |els|
    ensures LastWins(PathElementPairs(els[..k + 1])) == LastWins(PathElementPairs(els[..k]))[Path(els[k]) := els[k]]
  {
    var ps := PathElementPairs(els[..k + 1]);
    assert els[..k + 1][..k] == els[..k];
    assert ps[..k] == PathElementPairs(els[..k]);
  }

  /** A path is in the map exactly when some element has it, and it maps to
      the last such element. */
  lemma ElementMapLookup(els: seq<Element>, i: nat)
    requires i < |els|
    requires forall j :: i < j < |els| ==> Path(els[j]) != Path(els[i])
    ensures Path(els[i]) in LastWins(PathElementPairs(els))
    ensures LastWins(PathElementPairs(els))[Path(els[i])] == els[i]
  {
    LastWinsValue(PathElementPairs(els), i);
  }

  lemma ElementMapDomain(els: seq<Element>, p: ElementPath)
    ensures p in LastWins(PathElementPairs(els)) <==> exists i :: 0 <= i < |els| && Path(els[i]) == p
  {
    LastWinsDomain(PathElementPairs(els), p);
    if exists i :: 0 <= i < |els| && Path(els[i]) == p {
      var i :| 0 <= i < |els| && Path(els[i]) == p;
      assert PathElementPairs(els)[i].0 == p;
    }
  }
}
