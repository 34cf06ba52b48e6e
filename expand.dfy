/** src/merger.ts, part 3: `expandTree`, the work-list pass that grows the
    base tree wherever the differential reaches below a leaf. A leaf whose
    path the differential has children for gets the snapshot of its type
    spliced under it; a choice-of-type `[x]` leaf is either narrowed to the
    one type the differential picks or gets concrete siblings such as
    `valueQuantity`.

    The work list holds node values. In the source a popped node is an
    object that nothing else changes while it waits on the stack (every tree
    edit copies, and only the popped node is edited), so its value is what
    the source sees. The one shared object the source does change is the
    differential element of a narrowed `[x]` leaf, whose `type` it
    overwrites; the state therefore carries the differential map, and the
    narrowing updates its entry. */
module MergerExpand {
  import opened Wrappers
  import opened Text
  import opened OrderedMaps
  import opened Fhir
  import opened Utils
  import opened MergerTree
  import opened MergerBuild

  type DefinitionMap = map<string, StructureDefinition>

  /** The pass's state: the tree built so far, the work list (its last node
      is popped next) and the differential elements by path. */
  datatype ExpandState = ExpandState(tree: Node, stack: seq<Node>, diff: map<ElementPath, Element>)

  /** The run is given a number of steps; this is its error when they run
      out before the work list is empty. */
  const OutOfSteps: string := "expandTree: step bound reached"

  const LengthMessage: string := "currentElementTypes.length > 1"
  const ChildrenMessage: string := "currentElementChildren not found"
  const ReplacedMessage: string := "replaced not found"
  const ConstrainedMessage: string := "Failed to determine constrained type"
  const LeafTypeMessage: string := "currentLeafTypeIndex not found"
  const UpdatedMessage: string := "updated not found"
  const AddedMessage: string := "added not found"

  /** What JavaScript throws when the code indexes an absent `type` list. */
  const UndefinedIndexMessage: string := "Cannot read properties of undefined (reading '-1')"

  function DefinitionMessage(code: Option<string>): string
  {
    "currentElementDefinition not found: " + (if code.Some? then code.value else "undefined")
  }

  function NotInBaseMessage(code: string): string
  {
    "Constrained type " + code + " not found in base definition"
  }

  /** `{ ...e, type: ts }` */
  function Retyped(e: Element, ts: seq<TypeRef>): (r: Element)
    ensures Types(r) == Some(ts) && Path(r) == Path(e)
    ensures forall k :: k in e && k != "type" ==> k in r && r[k] == e[k]
    ensures r.Keys == e.Keys + {"type"}
  {
    e["type" := VTypes(ts)]
  }

  // ---------------------------------------------------------------------
  // Splicing a type's snapshot under a leaf

  /** `snapshot.slice(1)` */
  function Tail(els: seq<Element>): (r: seq<Element>)
    ensures |els| > 0 ==> r == els[1..]
    ensures |els| == 0 ==> r == []
  {
    if |els| == 0 then [] else els[1..]
  }

  /** The path a snapshot element gets under the leaf at `p`: the leaf's
      path followed by everything after the element's first segment. */
  function GraftPath(p: ElementPath, c: Element): ElementPath
  {
    p + "." + DropFirstSegment(Path(c))
  }

  /** The snapshot element re-addressed under `p`. */
  function Grafted(p: ElementPath, c: Element): (n: Node)
    ensures n.path == GraftPath(p, c) && n.children == []
  {
    Leaf(Relocated(c, GraftPath(p, c)))
  }

  /** The children the leaf at `p` gets, one `set` per snapshot element. */
  function GraftKids(p: ElementPath, cs: seq<Element>): OrderedMap<Node>
  {
    if |cs| == 0 then []
    else MapSet(GraftKids(p, cs[..|cs| - 1]), GraftPath(p, cs[|cs| - 1]), Grafted(p, cs[|cs| - 1]))
  }

  /** The nodes pushed on the work list, one per snapshot element. */
  function GraftLeaves(p: ElementPath, cs: seq<Element>): (ns: seq<Node>)
    ensures |ns| == |cs| && forall i :: 0 <= i < |cs| ==> ns[i] == Grafted(p, cs[i])
  {
    if |cs| == 0 then [] else GraftLeaves(p, cs[..|cs| - 1]) + [Grafted(p, cs[|cs| - 1])]
  }

  /** The pre-order entries of the grafted elements, in snapshot order. */
  function GraftEntries(p: ElementPath, cs: seq<Element>): (es: seq<Entry>)
    ensures |es| == |cs|
    ensures forall i :: 0 <= i < |cs| ==>
      es[i] == Entry(GraftPath(p, cs[i]), Relocated(cs[i], GraftPath(p, cs[i])))
  {
    if |cs| == 0 then []
    else GraftEntries(p, cs[..|cs| - 1]) + [Entry(GraftPath(p, cs[|cs| - 1]), Relocated(cs[|cs| - 1], GraftPath(p, cs[|cs| - 1])))]
  }

  predicate DistinctGraftPaths(p: ElementPath, cs: seq<Element>)
  {
    forall i, j :: 0 <= i < j < |cs| ==> GraftPath(p, cs[i]) != GraftPath(p, cs[j])
  }

  /** The grafted children always form a well-formed child map of leaves. */
  lemma {:induction false} GraftKidsValid(p: ElementPath, cs: seq<Element>)
    ensures DistinctKeys(GraftKids(p, cs)) && ValidChildren(GraftKids(p, cs))
    ensures forall i :: 0 <= i < |GraftKids(p, cs)| ==> GraftKids(p, cs)[i].value.children == []
  {
    if |cs| > 0 {
      var init := cs[..|cs| - 1];
      var c := cs[|cs| - 1];
      GraftKidsValid(p, init);
      assert ValidNode(Grafted(p, c));
      SetLeafValid(GraftKids(p, init), GraftPath(p, c), Grafted(p, c));
    }
  }

  /** Setting a leaf under its own path keeps a child map of leaves well formed. */
  lemma SetLeafValid(m: OrderedMap<Node>, k: ElementPath, leaf: Node)
    requires DistinctKeys(m) && ValidChildren(m) && forall i :: 0 <= i < |m| ==> m[i].value.children == []
    requires ValidNode(leaf) && leaf.path == k && leaf.children == []
    ensures DistinctKeys(MapSet(m, k, leaf)) && ValidChildren(MapSet(m, k, leaf))
    ensures forall i :: 0 <= i < |MapSet(m, k, leaf)| ==> MapSet(m, k, leaf)[i].value.children == []
  {
    var i := IndexOfKey(m, k);
    if i < 0 {
      assert MapSet(m, k, leaf) == m + [KV(k, leaf)];
    } else {
      assert MapSet(m, k, leaf) == m[i := KV(k, leaf)];
    }
  }

  /** When the re-addressed paths are distinct, the grafted children are the
      snapshot elements in snapshot order, each relocated and otherwise
      untouched. */
  lemma {:induction false} GraftKidsEntries(p: ElementPath, cs: seq<Element>)
    requires DistinctGraftPaths(p, cs)
    ensures GraftKids(p, cs) == GraftList(p, cs)
    ensures ChildEntries(GraftKids(p, cs)) == GraftEntries(p, cs)
  {
    if |cs| > 0 {
      var init := cs[..|cs| - 1];
      var c := cs[|cs| - 1];
      assert DistinctGraftPaths(p, init);
      GraftKidsEntries(p, init);
      var m := GraftKids(p, init);
      forall k | 0 <= k < |m| ensures m[k].key != GraftPath(p, c) {
        assert m[k].key == GraftPath(p, init[k]) && init[k] == cs[k];
      }
      MapSetNew(m, GraftPath(p, c), Grafted(p, c));
      ChildEntriesAppend(m, [KV(GraftPath(p, c), Grafted(p, c))]);
      assert ChildEntries([KV(GraftPath(p, c), Grafted(p, c))]) == Entries(Grafted(p, c));
    }
  }

  /** One more snapshot element sets one more child and pushes one more leaf. */
  lemma GraftSnoc(p: ElementPath, cs: seq<Element>, i: nat)
    requires i < |cs|
    ensures GraftKids(p, cs[..i + 1]) == MapSet(GraftKids(p, cs[..i]), GraftPath(p, cs[i]), Grafted(p, cs[i]))
    ensures GraftLeaves(p, cs[..i + 1]) == GraftLeaves(p, cs[..i]) + [Grafted(p, cs[i])]
  {
    assert cs[..i + 1][..i] == cs[..i];
  }

  lemma WholeElements(cs: seq<Element>)
    ensures cs[..|cs|] == cs
  {}

  /** The grafted children written out, one entry per snapshot element. */
  function GraftList(p: ElementPath, cs: seq<Element>): (m: OrderedMap<Node>)
    ensures |m| == |cs| && forall i :: 0 <= i < |cs| ==> m[i] == KV(GraftPath(p, cs[i]), Grafted(p, cs[i]))
  {
    if |cs| == 0 then [] else GraftList(p, cs[..|cs| - 1]) + [KV(GraftPath(p, cs[|cs| - 1]), Grafted(p, cs[|cs| - 1]))]
  }

  // ---------------------------------------------------------------------
  // Choice-of-type helpers

  /** `paths.filter(path => path.startsWith(prefix))` */
  function StartingWith(paths: seq<ElementPath>, prefix: string): (r: seq<ElementPath>)
    ensures forall x :: x in r <==> x in paths && StartsWith(x, prefix)
    ensures |r| <= |paths|
  {
    if |paths| == 0 then []
    else
      var init := StartingWith(paths[..|paths| - 1], prefix);
      var last := paths[|paths| - 1];
      assert paths == paths[..|paths| - 1] + [last];
      if StartsWith(last, prefix) then init + [last] else init
  }

  /** `currentNode.element.type?.[0]?.code`, when it is a non-empty string. */
  function ConstrainedType(d: Element): (r: Option<string>)
    ensures r.Some? <==> Types(d).Some? && |Types(d).value| > 0
                         && Types(d).value[0].code.Some? && Types(d).value[0].code.value != ""
    ensures r.Some? ==> r == Types(d).value[0].code
  {
    match Types(d)
    case None => None
    case Some(ts) => if |ts| > 0 && ts[0].code.Some? && ts[0].code.value != "" then ts[0].code else None
  }

  /** `types.findIndex(type => type.code === code)` */
  function CodeIndex(ts: seq<TypeRef>, code: string): (i: int)
    ensures -1 <= i < |ts|
    ensures i >= 0 ==> ts[i].code == Some(code) && forall j :: 0 <= j < i ==> ts[j].code != Some(code)
    ensures i == -1 ==> forall j :: 0 <= j < |ts| ==> ts[j].code != Some(code)
  {
    if |ts| == 0 then -1
    else if ts[0].code == Some(code) then 0
    else
      var r := CodeIndex(ts[1..], code);
      if r < 0 then -1 else r + 1
  }

  /** `types.find(type => type.code === code)` */
  function FirstWithCode(ts: seq<TypeRef>, code: string): (r: Option<TypeRef>)
    ensures r.None? <==> forall i :: 0 <= i < |ts| ==> ts[i].code != Some(code)
    ensures r.Some? ==> r.value.code == Some(code) && r.value == ts[CodeIndex(ts, code)]
  {
    var i := CodeIndex(ts, code);
    if i < 0 then None else Some(ts[i])
  }

  /** `parsed.findIndex(type => type === camel || type === pascal)` */
  function MatchIndex(parsed: seq<Option<string>>, camel: string, pascal: string): (i: int)
    ensures -1 <= i < |parsed|
    ensures i >= 0 ==> (parsed[i] == Some(camel) || parsed[i] == Some(pascal))
                       && forall j :: 0 <= j < i ==> parsed[j] != Some(camel) && parsed[j] != Some(pascal)
    ensures i == -1 ==> forall j :: 0 <= j < |parsed| ==> parsed[j] != Some(camel) && parsed[j] != Some(pascal)
  {
    if |parsed| == 0 then -1
    else if parsed[0] == Some(camel) || parsed[0] == Some(pascal) then 0
    else
      var r := MatchIndex(parsed[1..], camel, pascal);
      if r < 0 then -1 else r + 1
  }

  /** The type name a concrete choice path carries: what follows the choice's
      base name in the last segment (`valueQuantity` after `value`). */
  function ChoiceSuffix(childPath: ElementPath, base: string): string
  {
    SliceFrom(LastSegment(childPath), |LastSegment(base)|)
  }

  /** The last segment of a path is a suffix of it. */
  lemma LastSegmentSuffix(s: string)
    ensures EndsWith(s, LastSegment(s))
  {
    if '.' in s {
      ParentPathShape(s);
      var j := LastIndexOf(s, '.');
      assert s[|s| - |LastSegment(s)|..] == s[j + 1..];
    } else {
      ParentPathOfSegment(s);
    }
  }

  /** Only a path ending in `[x]` has the suffix "[x]", lower-cased or not. */
  lemma ChoiceSuffixOfChoice(childPath: ElementPath, base: string)
    requires LowerFirst(ChoiceSuffix(childPath, base)) == "[x]"
    ensures EndsWith(childPath, "[x]")
  {
    var leaf := LastSegment(childPath);
    var n := |LastSegment(base)|;
    var pascal := ChoiceSuffix(childPath, base);
    assert |pascal| == 3;
    assert pascal[0] == '[' by {
      assert LowerChar(pascal[0]) == '[';
    }
    assert pascal == "[x]" by {
      assert pascal[1..] == "[x]"[1..];
    }
    assert n <= |leaf|;
    assert leaf[|leaf| - 3..] == pascal;
    LastSegmentSuffix(childPath);
    assert childPath[|childPath| - 3..] == leaf[|leaf| - 3..];
  }

  // ---------------------------------------------------------------------
  // One step of the work list

  /** The definition a type code names, and its snapshot elements. */
  function SnapshotOf(sdMap: DefinitionMap, code: Option<string>): (r: Result<seq<Element>>)
    ensures r.Ok? <==> code.Some? && code.value in sdMap && sdMap[code.value].snapshot.Some?
    ensures r.Ok? ==> r.value == sdMap[code.value].snapshot.value
    ensures (code.None? || code.value !in sdMap) ==> r == Err(DefinitionMessage(code))
  {
    if code.None? || code.value !in sdMap then Err(DefinitionMessage(code))
    else if sdMap[code.value].snapshot.None? then Err(ChildrenMessage)
    else Ok(sdMap[code.value].snapshot.value)
  }

  /** Splices the snapshot of type `code` under the popped leaf `cur` and
      puts the grown node back into the tree. */
  function Graft(st: ExpandState, rest: seq<Node>, cur: Node, code: Option<string>, sdMap: DefinitionMap): Result<ExpandState>
  {
    var snapshot :- SnapshotOf(sdMap, code);
    var node := cur.(children := GraftKids(cur.path, Tail(snapshot)));
    match ReplaceNodeByPath(st.tree, cur.path, node)
    case None => Err(ReplacedMessage)
    case Some(t) => Ok(ExpandState(t, rest + GraftLeaves(cur.path, Tail(snapshot)), st.diff))
  }

  /** The expansion of a leaf with exactly one type. */
  function GraftSingle(st: ExpandState, rest: seq<Node>, cur: Node, parsed: seq<Option<string>>, sdMap: DefinitionMap): Result<ExpandState>
  {
    if |parsed| != 1 then Err(LengthMessage) else Graft(st, rest, cur, parsed[0], sdMap)
  }

  /** A choice leaf the differential constrains: the differential element
      (`d`, already the node's element) gets the one base type whose code the
      differential names, and that type is spliced. */
  function Narrow(st: ExpandState, rest: seq<Node>, cur: Node, raw: Option<seq<TypeRef>>, sdMap: DefinitionMap): Result<ExpandState>
  {
    var d := cur.element;
    match ConstrainedType(d)
    case None => Err(ConstrainedMessage)
    case Some(code) =>
      var matching := if raw.Some? then FirstWithCode(raw.value, code) else None;
      match matching
      case None => Err(NotInBaseMessage(code))
      case Some(t) =>
        var d' := Retyped(d, [t]);
        Graft(st.(diff := st.diff[cur.path := d']), rest, cur.(element := d'), t.code, sdMap)
  }

  /** The differential children of the choice leaf at `p` that share its
      base name, or [] when its parent has none. */
  function ChoiceChildren(p: ElementPath, idx: map<ElementPath, seq<ElementPath>>): seq<ElementPath>
    requires EndsWith(p, "[x]")
  {
    if ParentPath(p) in idx then StartingWith(idx[ParentPath(p)], p[..|p| - 3]) else []
  }

  /** A leaf the differential has children for. */
  function ExpandLeaf(st: ExpandState, rest: seq<Node>, cur: Node, idx: map<ElementPath, seq<ElementPath>>, sdMap: DefinitionMap): Result<ExpandState>
  {
    var raw := Types(cur.element);
    var parsed := ParsedTypes(raw);
    if EndsWith(cur.path, "[x]") then
      if cur.path !in st.diff then Ok(ExpandState(st.tree, rest, st.diff))
      else if |ChoiceChildren(cur.path, idx)| > 0 then Narrow(st, rest, cur.(element := st.diff[cur.path]), raw, sdMap)
      else GraftSingle(st, rest, cur.(element := st.diff[cur.path]), parsed, sdMap)
    else GraftSingle(st, rest, cur, parsed, sdMap)
  }

  /** One sibling path of a choice leaf: made concrete with the choice type
      its name selects, or, for the choice path itself, the leaf put back. */
  function ChoiceStep(tree: Node, cur: Node, base: string, choices: Option<seq<TypeRef>>, childPath: ElementPath): Result<(Node, seq<Node>)>
  {
    var pascal := ChoiceSuffix(childPath, base);
    var camel := LowerFirst(pascal);
    var i := MatchIndex(ParsedTypes(choices), camel, pascal);
    if i == -1 && camel != "[x]" then Err(LeafTypeMessage)
    else if choices.None? then Err(UndefinedIndexMessage)
    else if EndsWith(childPath, "[x]") then
      match ReplaceNodeByPath(tree, cur.path, cur)
      case None => Err(UpdatedMessage)
      case Some(t) => Ok((t, []))
    else
      assert i >= 0 by {
        if i == -1 { ChoiceSuffixOfChoice(childPath, base); }
      }
      var leaf := Leaf(Retyped(Relocated(cur.element, childPath), [choices.value[i]]));
      match AddNodeByPath(tree, childPath, leaf)
      case Err(m) => Err(m)
      case Ok(None) => Err(AddedMessage)
      case Ok(Some(t)) => Ok((t, [leaf]))
  }

  /** The loop over the sibling paths, threading the tree and collecting the
      nodes to push. */
  function ChoiceLoop(tree: Node, pushed: seq<Node>, cur: Node, base: string, choices: Option<seq<TypeRef>>, paths: seq<ElementPath>): Result<(Node, seq<Node>)>
    decreases |paths|
  {
    if |paths| == 0 then Ok((tree, pushed))
    else
      var r :- ChoiceStep(tree, cur, base, choices, paths[0]);
      ChoiceLoop(r.0, pushed + r.1, cur, base, choices, paths[1..])
  }

  /** A choice leaf with no differential children of its own. */
  function Concretise(st: ExpandState, rest: seq<Node>, cur: Node, idx: map<ElementPath, seq<ElementPath>>): Result<ExpandState>
    requires EndsWith(cur.path, "[x]")
  {
    var paths := ChoiceChildren(cur.path, idx);
    if |paths| == 0 then Ok(ExpandState(st.tree, rest, st.diff))
    else
      var r :- ChoiceLoop(st.tree, [], cur, cur.path[..|cur.path| - 3], Types(cur.element), paths);
      Ok(ExpandState(r.0, rest + r.1, st.diff))
  }

  /** One iteration of the `while (stack.length > 0)` loop. */
  function ExpandStep(st: ExpandState, idx: map<ElementPath, seq<ElementPath>>, sdMap: DefinitionMap): Result<ExpandState>
    requires |st.stack| > 0
  {
    var cur := st.stack[|st.stack| - 1];
    var rest := st.stack[..|st.stack| - 1];
    if |cur.children| == 0 && cur.path in idx then ExpandLeaf(st, rest, cur, idx, sdMap)
    else if |cur.children| == 0 && EndsWith(cur.path, "[x]") then Concretise(st, rest, cur, idx)
    else Ok(ExpandState(st.tree, rest + Values(cur.children), st.diff))
  }

  /** The loop run for at most `fuel` iterations. */
  function ExpandRun(st: ExpandState, idx: map<ElementPath, seq<ElementPath>>, sdMap: DefinitionMap, fuel: nat): Result<ExpandState>
    decreases fuel
  {
    if |st.stack| == 0 then Ok(st)
    else if fuel == 0 then Err(OutOfSteps)
    else
      var next :- ExpandStep(st, idx, sdMap);
      ExpandRun(next, idx, sdMap, fuel - 1)
  }

  /** `expandTree(baseTree, hasChildren, structureDefinitionMap, diffElementMap)`:
      the expanded tree and the differential elements as the pass leaves
      them. */
  function ExpandTreeF(baseTree: Node, idx: map<ElementPath, seq<ElementPath>>, sdMap: DefinitionMap,
                       diff: map<ElementPath, Element>, fuel: nat): Result<ExpandState>
  {
    ExpandRun(ExpandState(baseTree, [baseTree], diff), idx, sdMap, fuel)
  }

  // ---------------------------------------------------------------------
  // What one step does

  /** A node with children, or a leaf the differential says nothing about,
      leaves the tree and the differential alone: it is popped and its
      children, if any, are pushed in key order. */
  lemma StepPassesThrough(st: ExpandState, idx: map<ElementPath, seq<ElementPath>>, sdMap: DefinitionMap)
    requires |st.stack| > 0
    requires var cur := st.stack[|st.stack| - 1];
             |cur.children| > 0 || (cur.path !in idx && !EndsWith(cur.path, "[x]"))
    ensures ExpandStep(st, idx, sdMap).Ok?
    ensures var next := ExpandStep(st, idx, sdMap).value;
            next.tree == st.tree && next.diff == st.diff
            && next.stack == st.stack[..|st.stack| - 1] + Values(st.stack[|st.stack| - 1].children)
  {
  }

  /** `after` is `before` with `node` put at the first node with path `p`:
      in pre-order, that node's subtree is cut out and `node`'s put in its
      place, and every other entry stays as and where it was. */
  predicate SplicedAt(before: Node, after: Node, p: ElementPath, node: Node)
  {
    Occurs(Entries(before), p) && GetNodeByPath(before, p).Some?
    && ReplaceNodeByPath(before, p, node) == Some(after)
    && var k := FirstIndexOf(Entries(before), p);
       var o := GetNodeByPath(before, p).value;
       SubAt(Entries(before), k, Entries(o))
       && Entries(after) == Splice(Entries(before), k, |Entries(o)|, Entries(node))
  }

  lemma ReplacedAt(t: Node, p: ElementPath, node: Node)
    requires ValidNode(t) && Occurs(Entries(t), p) && ValidNode(node) && node.path == p
    ensures ReplaceNodeByPath(t, p, node).Some?
    ensures SplicedAt(t, ReplaceNodeByPath(t, p, node).value, p, node)
    ensures GetNodeByPath(ReplaceNodeByPath(t, p, node).value, p) == Some(node)
    ensures ValidNode(ReplaceNodeByPath(t, p, node).value) && ReplaceNodeByPath(t, p, node).value.path == t.path
  {
    ReplaceNodeByPathSpec(t, p, node);
    GetAfterReplace(t, p, node);
  }

  /** A leaf with differential children and one type gets that type's
      snapshot, minus its root, spliced under it: each snapshot element is
      re-addressed below the leaf and keeps every other field, the leaf keeps
      its own element, and the grown node replaces the first node with the
      leaf's path, the rest of the tree staying as it was. The new nodes are
      pushed in snapshot order. */
  lemma StepGrafts(st: ExpandState, idx: map<ElementPath, seq<ElementPath>>, sdMap: DefinitionMap, code: string)
    requires |st.stack| > 0 && ValidNode(st.tree)
    requires var cur := st.stack[|st.stack| - 1];
             cur.children == [] && cur.path in idx && !EndsWith(cur.path, "[x]")
             && ParsedTypes(Types(cur.element)) == [Some(code)]
             && code in sdMap && sdMap[code].snapshot.Some?
             && Occurs(Entries(st.tree), cur.path)
    ensures ExpandStep(st, idx, sdMap).Ok?
    ensures var cur := st.stack[|st.stack| - 1];
            var cs := Tail(sdMap[code].snapshot.value);
            var next := ExpandStep(st, idx, sdMap).value;
            var node := cur.(children := GraftKids(cur.path, cs));
            ValidNode(node) && ValidNode(next.tree)
            && SplicedAt(st.tree, next.tree, cur.path, node)
            && GetNodeByPath(next.tree, cur.path) == Some(node)
            && (DistinctGraftPaths(cur.path, cs) ==>
                  Entries(node) == [Entry(cur.path, cur.element)] + GraftEntries(cur.path, cs))
            && next.diff == st.diff
            && next.stack == st.stack[..|st.stack| - 1] + GraftLeaves(cur.path, cs)
  {
    var cur := st.stack[|st.stack| - 1];
    var cs := Tail(sdMap[code].snapshot.value);
    var node := cur.(children := GraftKids(cur.path, cs));
    GraftKidsValid(cur.path, cs);
    assert ValidNode(node);
    ReplacedAt(st.tree, cur.path, node);
    if DistinctGraftPaths(cur.path, cs) {
      GraftKidsEntries(cur.path, cs);
    }
  }

  /** The errors of a plain expansion: a type count other than one, and a
      type no definition is known for. */
  lemma StepGraftErrors(st: ExpandState, idx: map<ElementPath, seq<ElementPath>>, sdMap: DefinitionMap)
    requires |st.stack| > 0
    requires var cur := st.stack[|st.stack| - 1];
             cur.children == [] && cur.path in idx && !EndsWith(cur.path, "[x]")
    ensures var parsed := ParsedTypes(Types(st.stack[|st.stack| - 1].element));
            (|parsed| != 1 ==> ExpandStep(st, idx, sdMap) == Err(LengthMessage))
            && (|parsed| == 1 && (parsed[0].None? || parsed[0].value !in sdMap) ==>
                  ExpandStep(st, idx, sdMap) == Err(DefinitionMessage(parsed[0])))
  {
  }

  /** A choice leaf with differential children but no differential element
      at its own path is popped and nothing else happens. */
  lemma StepSkipsUnconstrainedChoice(st: ExpandState, idx: map<ElementPath, seq<ElementPath>>, sdMap: DefinitionMap)
    requires |st.stack| > 0
    requires var cur := st.stack[|st.stack| - 1];
             cur.children == [] && cur.path in idx && EndsWith(cur.path, "[x]") && cur.path !in st.diff
    ensures ExpandStep(st, idx, sdMap) == Ok(st.(stack := st.stack[..|st.stack| - 1]))
  {
  }

  /** A choice leaf the differential constrains fails when the differential
      names no usable type code, or when the base has no type with that
      code. */
  lemma StepNarrowErrors(st: ExpandState, idx: map<ElementPath, seq<ElementPath>>, sdMap: DefinitionMap)
    requires |st.stack| > 0
    requires var cur := st.stack[|st.stack| - 1];
             cur.children == [] && cur.path in idx && EndsWith(cur.path, "[x]") && cur.path in st.diff
             && |ChoiceChildren(cur.path, idx)| > 0
    ensures var cur := st.stack[|st.stack| - 1];
            var d := st.diff[cur.path];
            var raw := Types(cur.element);
            (ConstrainedType(d).None? ==> ExpandStep(st, idx, sdMap) == Err(ConstrainedMessage))
            && (ConstrainedType(d).Some? && (raw.None? || FirstWithCode(raw.value, ConstrainedType(d).value).None?) ==>
                  ExpandStep(st, idx, sdMap) == Err(NotInBaseMessage(ConstrainedType(d).value)))
  {
  }

  /** Otherwise the leaf is narrowed: its element becomes the differential
      element with `type` set to the first base type whose code is the one
      the differential names, the differential entry is changed the same
      way, that type's snapshot is spliced under the leaf, and the grown node
      replaces the first node with the leaf's path, the rest of the tree
      staying as it was. The new nodes are pushed in snapshot order. */
  lemma StepNarrows(st: ExpandState, idx: map<ElementPath, seq<ElementPath>>, sdMap: DefinitionMap)
    requires |st.stack| > 0 && ValidNode(st.tree)
    requires var cur := st.stack[|st.stack| - 1];
             cur.children == [] && cur.path in idx && EndsWith(cur.path, "[x]") && cur.path in st.diff
             && |ChoiceChildren(cur.path, idx)| > 0 && Occurs(Entries(st.tree), cur.path)
    requires ExpandStep(st, idx, sdMap).Ok?
    ensures var cur := st.stack[|st.stack| - 1];
            var d := st.diff[cur.path];
            var raw := Types(cur.element);
            ConstrainedType(d).Some? && raw.Some?
            && var code := ConstrainedType(d).value;
               var i := CodeIndex(raw.value, code);
               0 <= i && raw.value[i].code == Some(code)
               && (forall j :: 0 <= j < i ==> raw.value[j].code != Some(code))
               && code in sdMap && sdMap[code].snapshot.Some?
               && var narrowed := Retyped(d, [raw.value[i]]);
                  var cs := Tail(sdMap[code].snapshot.value);
                  var node := Node(cur.path, narrowed, GraftKids(cur.path, cs));
                  var next := ExpandStep(st, idx, sdMap).value;
                  next.diff == st.diff[cur.path := narrowed]
                  && ValidNode(node) && ValidNode(next.tree)
                  && SplicedAt(st.tree, next.tree, cur.path, node)
                  && GetNodeByPath(next.tree, cur.path) == Some(node)
                  && next.stack == st.stack[..|st.stack| - 1] + GraftLeaves(cur.path, cs)
  {
    var cur := st.stack[|st.stack| - 1];
    var d := st.diff[cur.path];
    var raw := Types(cur.element);
    var code := ConstrainedType(d).value;
    var i := CodeIndex(raw.value, code);
    var narrowed := Retyped(d, [raw.value[i]]);
    var cs := Tail(sdMap[code].snapshot.value);
    var node := Node(cur.path, narrowed, GraftKids(cur.path, cs));
    assert ValidNode(node) by {
      GraftKidsValid(cur.path, cs);
    }
    assert ExpandStep(st, idx, sdMap).value.tree == ReplaceNodeByPath(st.tree, cur.path, node).value;
    ReplacedAt(st.tree, cur.path, node);
  }

  /** A concrete sibling `childPath` of a choice leaf (it does not end in
      `[x]`) gets a new leaf: the choice's element re-addressed to
      `childPath` with `type` set to the single choice entry whose type name
      is the path's suffix, with or without its first letter lower-cased
      (the first such entry). A suffix no entry names is an error. */
  lemma ChoiceStepConcretises(tree: Node, cur: Node, base: string, choices: Option<seq<TypeRef>>, childPath: ElementPath)
    requires !EndsWith(childPath, "[x]")
    ensures var pascal := ChoiceSuffix(childPath, base);
            var camel := LowerFirst(pascal);
            var i := MatchIndex(ParsedTypes(choices), camel, pascal);
            (i == -1 ==> ChoiceStep(tree, cur, base, choices, childPath) == Err(LeafTypeMessage))
            && (i >= 0 ==>
                  choices.Some?
                  && (ParsedType(choices.value[i]) == Some(camel) || ParsedType(choices.value[i]) == Some(pascal))
                  && var leaf := Leaf(Retyped(Relocated(cur.element, childPath), [choices.value[i]]));
                     leaf.path == childPath && Types(leaf.element) == Some([choices.value[i]])
                     && (forall k :: k in cur.element && k !in {"path", "id", "type"} ==> leaf.element[k] == cur.element[k])
                     && ChoiceStep(tree, cur, base, choices, childPath) ==
                          match AddNodeByPath(tree, childPath, leaf)
                          case Err(m) => Err(m)
                          case Ok(None) => Err(AddedMessage)
                          case Ok(Some(t)) => Ok((t, [leaf])))
  {
    var pascal := ChoiceSuffix(childPath, base);
    var camel := LowerFirst(pascal);
    if camel == "[x]" {
      ChoiceSuffixOfChoice(childPath, base);
    }
  }

  /** When the concrete path is new to the tree and its parent is in it,
      the new leaf is attached: the step succeeds and pushes it. */
  lemma ChoiceStepAttaches(tree: Node, cur: Node, base: string, choices: Option<seq<TypeRef>>, childPath: ElementPath)
    requires !EndsWith(childPath, "[x]") && ValidNode(tree) && !Occurs(Entries(tree), childPath)
    requires ParentPath(childPath) == "" || Occurs(Entries(tree), ParentPath(childPath))
    requires MatchIndex(ParsedTypes(choices), LowerFirst(ChoiceSuffix(childPath, base)), ChoiceSuffix(childPath, base)) >= 0
    ensures ChoiceStep(tree, cur, base, choices, childPath).Ok?
    ensures |ChoiceStep(tree, cur, base, choices, childPath).value.1| == 1
    ensures var leaf := ChoiceStep(tree, cur, base, choices, childPath).value.1[0];
            leaf.path == childPath && leaf.children == []
            && ChoiceStep(tree, cur, base, choices, childPath).value.0 == AddNodeByPath(tree, childPath, leaf).value.value
  {
    var pascal := ChoiceSuffix(childPath, base);
    var camel := LowerFirst(pascal);
    var i := MatchIndex(ParsedTypes(choices), camel, pascal);
    var leaf := Leaf(Retyped(Relocated(cur.element, childPath), [choices.value[i]]));
    AddNodeByPathSpec(tree, childPath, ParentPath(childPath), leaf);
  }

  // ---------------------------------------------------------------------
  // Whole runs

  /** The number of nodes in the subtrees on the work list. */
  function StackSize(stack: seq<Node>): nat
  {
    if |stack| == 0 then 0 else StackSize(stack[..|stack| - 1]) + |Entries(stack[|stack| - 1])|
  }

  lemma {:induction false} StackSizeAppend(a: seq<Node>, b: seq<Node>)
    ensures StackSize(a + b) == StackSize(a) + StackSize(b)
    decreases |b|
  {
    if |b| > 0 {
      assert (a + b)[..|a + b| - 1] == a + b[..|b| - 1];
      StackSizeAppend(a, b[..|b| - 1]);
    } else {
      assert a + b == a;
    }
  }

  lemma {:induction false} StackSizeOfChildren(kids: OrderedMap<Node>)
    ensures StackSize(Values(kids)) == |ChildEntries(kids)|
  {
    if |kids| > 0 {
      assert Values(kids) == [kids[0].value] + Values(kids[1..]);
      StackSizeAppend([kids[0].value], Values(kids[1..]));
      StackSizeOfChildren(kids[1..]);
      assert StackSize([kids[0].value]) == |Entries(kids[0].value)| by {
        assert [kids[0].value][..0] == [];
      }
    }
  }

  /** With no differential children, every step only pops a node and
      pushes its children. */
  lemma StepWithoutChildren(st: ExpandState, sdMap: DefinitionMap)
    requires |st.stack| > 0
    ensures ExpandStep(st, map[], sdMap) ==
      Ok(ExpandState(st.tree, st.stack[..|st.stack| - 1] + Values(st.stack[|st.stack| - 1].children), st.diff))
  {
    var cur := st.stack[|st.stack| - 1];
    if |cur.children| == 0 {
      assert st.stack[..|st.stack| - 1] + Values(cur.children) == st.stack[..|st.stack| - 1];
    }
  }

  /** With no differential children anywhere, the pass changes nothing: it
      visits every node once and returns the tree and the differential as
      given. */
  lemma {:induction false} ExpandWithoutChildren(st: ExpandState, sdMap: DefinitionMap, fuel: nat)
    requires fuel >= StackSize(st.stack)
    ensures ExpandRun(st, map[], sdMap, fuel) == Ok(st.(stack := []))
    decreases StackSize(st.stack)
  {
    if |st.stack| > 0 {
      var cur := st.stack[|st.stack| - 1];
      var rest := st.stack[..|st.stack| - 1];
      var next := ExpandState(st.tree, rest + Values(cur.children), st.diff);
      assert StackSize(next.stack) < StackSize(st.stack) by {
        StackSizeAppend(rest, Values(cur.children));
        StackSizeOfChildren(cur.children);
      }
      StepWithoutChildren(st, sdMap);
      ExpandWithoutChildren(next, sdMap, fuel - 1);
      assert next.(stack := []) == st.(stack := []);
    }
  }

  /** `expandTree` of a tree, given at least one step per node, returns it
      unchanged when the differential has no children below any path. */
  lemma ExpandTreeWithoutChildren(baseTree: Node, sdMap: DefinitionMap, diff: map<ElementPath, Element>, fuel: nat)
    requires fuel >= |Entries(baseTree)|
    ensures ExpandTreeF(baseTree, map[], sdMap, diff, fuel) == Ok(ExpandState(baseTree, [], diff))
  {
    assert StackSize([baseTree]) == |Entries(baseTree)| by {
      assert [baseTree][..0] == [];
    }
    ExpandWithoutChildren(ExpandState(baseTree, [baseTree], diff), sdMap, fuel);
  }

  /** `cur` is `orig` with at most the `type` of some choice entries
      replaced by a single type: the only change the pass makes to the
      differential elements. */
  predicate NarrowedFrom(orig: map<ElementPath, Element>, cur: map<ElementPath, Element>)
  {
    cur.Keys == orig.Keys
    && forall p :: p in orig ==>
         cur[p] == orig[p]
         || (EndsWith(p, "[x]") && Types(cur[p]).Some? && |Types(cur[p]).value| == 1
             && cur[p] == Retyped(orig[p], Types(cur[p]).value))
  }

  lemma RetypedTwice(e: Element, a: seq<TypeRef>, b: seq<TypeRef>)
    ensures Retyped(Retyped(e, a), b) == Retyped(e, b)
  {
    assert Retyped(Retyped(e, a), b) == e["type" := VTypes(a)]["type" := VTypes(b)];
  }

  /** Narrowing one more choice entry keeps the differential narrowed from
      the original. */
  lemma NarrowAgain(orig: map<ElementPath, Element>, cur: map<ElementPath, Element>, p: ElementPath, t: TypeRef)
    requires NarrowedFrom(orig, cur) && p in cur && EndsWith(p, "[x]")
    ensures NarrowedFrom(orig, cur[p := Retyped(cur[p], [t])])
  {
    var next := cur[p := Retyped(cur[p], [t])];
    if cur[p] != orig[p] {
      RetypedTwice(orig[p], Types(cur[p]).value, [t]);
    }
    assert next[p] == Retyped(orig[p], [t]);
  }

  /** The splice keeps the tree well formed, keeps its root, and leaves the
      differential alone. */
  lemma GraftKeeps(st: ExpandState, rest: seq<Node>, cur: Node, code: Option<string>, sdMap: DefinitionMap)
    requires ValidNode(st.tree)
    ensures Graft(st, rest, cur, code, sdMap).Ok? ==>
      var next := Graft(st, rest, cur, code, sdMap).value;
      ValidNode(next.tree) && next.tree.path == st.tree.path && next.diff == st.diff
  {
    var snapshot := SnapshotOf(sdMap, code);
    if snapshot.Ok? {
      var node := cur.(children := GraftKids(cur.path, Tail(snapshot.value)));
      GraftKidsValid(cur.path, Tail(snapshot.value));
      ReplaceNodeByPathSpec(st.tree, cur.path, node);
    }
  }

  /** One sibling of a choice leaf keeps the tree well formed and its root. */
  lemma ChoiceStepKeeps(tree: Node, cur: Node, base: string, choices: Option<seq<TypeRef>>, childPath: ElementPath)
    requires ValidNode(tree) && cur.children == []
    ensures ChoiceStep(tree, cur, base, choices, childPath).Ok? ==>
      ValidNode(ChoiceStep(tree, cur, base, choices, childPath).value.0)
      && ChoiceStep(tree, cur, base, choices, childPath).value.0.path == tree.path
  {
    var pascal := ChoiceSuffix(childPath, base);
    var camel := LowerFirst(pascal);
    var i := MatchIndex(ParsedTypes(choices), camel, pascal);
    if ChoiceStep(tree, cur, base, choices, childPath).Ok? {
      if EndsWith(childPath, "[x]") {
        assert ValidNode(cur);
        ReplaceNodeByPathSpec(tree, cur.path, cur);
      } else {
        if i == -1 {
          ChoiceSuffixOfChoice(childPath, base);
        }
        var leaf := Leaf(Retyped(Relocated(cur.element, childPath), [choices.value[i]]));
        AddNodeByPathValid(tree, childPath, leaf);
      }
    }
  }

  lemma {:induction false} ChoiceLoopKeeps(tree: Node, pushed: seq<Node>, cur: Node, base: string,
                                           choices: Option<seq<TypeRef>>, paths: seq<ElementPath>)
    requires ValidNode(tree) && cur.children == []
    ensures ChoiceLoop(tree, pushed, cur, base, choices, paths).Ok? ==>
      ValidNode(ChoiceLoop(tree, pushed, cur, base, choices, paths).value.0)
      && ChoiceLoop(tree, pushed, cur, base, choices, paths).value.0.path == tree.path
    decreases |paths|
  {
    if |paths| > 0 {
      ChoiceStepKeeps(tree, cur, base, choices, paths[0]);
      var r := ChoiceStep(tree, cur, base, choices, paths[0]);
      if r.Ok? {
        ChoiceLoopKeeps(r.value.0, pushed + r.value.1, cur, base, choices, paths[1..]);
      }
    }
  }

  /** Every step keeps the tree well formed and its root path, and changes
      the differential only by narrowing a choice entry. */
  lemma StepKeeps(st: ExpandState, idx: map<ElementPath, seq<ElementPath>>, sdMap: DefinitionMap,
                  orig: map<ElementPath, Element>)
    requires |st.stack| > 0 && ValidNode(st.tree) && NarrowedFrom(orig, st.diff)
    ensures ExpandStep(st, idx, sdMap).Ok? ==>
      var next := ExpandStep(st, idx, sdMap).value;
      ValidNode(next.tree) && next.tree.path == st.tree.path && NarrowedFrom(orig, next.diff)
  {
    var cur := st.stack[|st.stack| - 1];
    var rest := st.stack[..|st.stack| - 1];
    if |cur.children| == 0 && cur.path in idx {
      var raw := Types(cur.element);
      if EndsWith(cur.path, "[x]") && cur.path in st.diff {
        var c := cur.(element := st.diff[cur.path]);
        if |ChoiceChildren(cur.path, idx)| > 0 {
          var d := c.element;
          var code := ConstrainedType(d);
          if code.Some? && raw.Some? && FirstWithCode(raw.value, code.value).Some? {
            var t := FirstWithCode(raw.value, code.value).value;
            var d' := Retyped(d, [t]);
            GraftKeeps(st.(diff := st.diff[cur.path := d']), rest, c.(element := d'), t.code, sdMap);
            NarrowAgain(orig, st.diff, cur.path, t);
          }
        } else if |ParsedTypes(raw)| == 1 {
          GraftKeeps(st, rest, c, ParsedTypes(raw)[0], sdMap);
        }
      } else if !EndsWith(cur.path, "[x]") && |ParsedTypes(raw)| == 1 {
        GraftKeeps(st, rest, cur, ParsedTypes(raw)[0], sdMap);
      }
    } else if |cur.children| == 0 && EndsWith(cur.path, "[x]") {
      var paths := ChoiceChildren(cur.path, idx);
      ChoiceLoopKeeps(st.tree, [], cur, cur.path[..|cur.path| - 3], Types(cur.element), paths);
    }
  }

  /** A whole run keeps the tree well formed and its root path, and leaves
      the differential narrowed from the one it started with. */
  lemma {:induction false} ExpandRunKeeps(st: ExpandState, idx: map<ElementPath, seq<ElementPath>>, sdMap: DefinitionMap,
                                          fuel: nat, orig: map<ElementPath, Element>)
    requires ValidNode(st.tree) && NarrowedFrom(orig, st.diff)
    ensures ExpandRun(st, idx, sdMap, fuel).Ok? ==>
      var fin := ExpandRun(st, idx, sdMap, fuel).value;
      fin.stack == [] && ValidNode(fin.tree) && fin.tree.path == st.tree.path && NarrowedFrom(orig, fin.diff)
    decreases fuel
  {
    if |st.stack| > 0 && fuel > 0 {
      StepKeeps(st, idx, sdMap, orig);
      var next := ExpandStep(st, idx, sdMap);
      if next.Ok? {
        ExpandRunKeeps(next.value, idx, sdMap, fuel - 1, orig);
      }
    }
  }

  /** `expandTree` of a well-formed tree returns a well-formed tree with the
      same root, and changes the differential elements at most by giving a
      choice entry a single type. */
  lemma ExpandTreeKeeps(baseTree: Node, idx: map<ElementPath, seq<ElementPath>>, sdMap: DefinitionMap,
                        diff: map<ElementPath, Element>, fuel: nat)
    requires ValidNode(baseTree)
    ensures ExpandTreeF(baseTree, idx, sdMap, diff, fuel).Ok? ==>
      var r := ExpandTreeF(baseTree, idx, sdMap, diff, fuel).value;
      ValidNode(r.tree) && r.tree.path == baseTree.path && NarrowedFrom(diff, r.diff)
  {
    ExpandRunKeeps(ExpandState(baseTree, [baseTree], diff), idx, sdMap, fuel, diff);
  }

  // ---------------------------------------------------------------------
  // The pass as the source writes it

  /** The splice shared by both expansion paths: look the type up, set one
      re-addressed leaf per snapshot element on the node and push it, then
      put the node back into the tree. */
  method GraftNode(st: ExpandState, stack: seq<Node>, currentNode: Node, code: Option<string>,
                   structureDefinitionMap: DefinitionMap) returns (r: Result<ExpandState>)
    requires currentNode.children == []
    ensures r == Graft(st, stack, currentNode, code, structureDefinitionMap)
  {
    if code.None? || code.value !in structureDefinitionMap {
      return Err(DefinitionMessage(code));
    }
    var currentElementDefinition := structureDefinitionMap[code.value];
    if currentElementDefinition.snapshot.None? {
      return Err(ChildrenMessage);
    }
    var currentElementChildren := Tail(currentElementDefinition.snapshot.value);
    var children, pushed := GraftChildren(currentNode.path, currentElementChildren, stack);
    var replaced := ReplaceNodeByPath(st.tree, currentNode.path, currentNode.(children := children));
    if replaced.None? {
      return Err(ReplacedMessage);
    }
    return Ok(ExpandState(replaced.value, pushed, st.diff));
  }

  /** The loop of the splice: each snapshot child, re-addressed below
      `path`, becomes a leaf set on the node and pushed on the stack. */
  method GraftChildren(path: ElementPath, currentElementChildren: seq<Element>, stack: seq<Node>)
    returns (children: OrderedMap<Node>, pushed: seq<Node>)
    ensures children == GraftKids(path, currentElementChildren)
    ensures pushed == stack + GraftLeaves(path, currentElementChildren)
  {
    children := [];
    pushed := stack;
    for i := 0 to |currentElementChildren|
      invariant children == GraftKids(path, currentElementChildren[..i])
      invariant pushed == stack + GraftLeaves(path, currentElementChildren[..i])
    {
      GraftSnoc(path, currentElementChildren, i);
      var child := Relocated(currentElementChildren[i], GraftPath(path, currentElementChildren[i]));
      var childNode := Node(Path(child), child, []);
      children := MapSet(children, Path(child), childNode);
      pushed := pushed + [childNode];
    }
    WholeElements(currentElementChildren);
  }

  /** The loop over the differential siblings of a choice leaf. */
  method ConcretiseChoices(newTree: Node, currentNode: Node, currentElementPathBase: string,
                           currentChoiceOfTypes: Option<seq<TypeRef>>, paths: seq<ElementPath>)
    returns (r: Result<(Node, seq<Node>)>)
    ensures r == ChoiceLoop(newTree, [], currentNode, currentElementPathBase, currentChoiceOfTypes, paths)
  {
    var tree := newTree;
    var pushed: seq<Node> := [];
    for k := 0 to |paths|
      invariant ChoiceLoop(tree, pushed, currentNode, currentElementPathBase, currentChoiceOfTypes, paths[k..])
             == ChoiceLoop(newTree, [], currentNode, currentElementPathBase, currentChoiceOfTypes, paths)
    {
      assert paths[k..][0] == paths[k] && paths[k..][1..] == paths[k + 1..];
      var step := ConcretiseChoice(tree, currentNode, currentElementPathBase, currentChoiceOfTypes, paths[k]);
      if step.Err? {
        return Err(step.error);
      }
      tree := step.value.0;
      pushed := pushed + step.value.1;
    }
    return Ok((tree, pushed));
  }

  /** One sibling path: find the choice entry its name selects, then add the
      concrete leaf, or put the choice leaf back for the `[x]` path itself. */
  method ConcretiseChoice(newTree: Node, currentNode: Node, currentElementPathBase: string,
                          currentChoiceOfTypes: Option<seq<TypeRef>>, childPath: ElementPath)
    returns (r: Result<(Node, seq<Node>)>)
    ensures r == ChoiceStep(newTree, currentNode, currentElementPathBase, currentChoiceOfTypes, childPath)
  {
    var parsed := ParsedTypes(currentChoiceOfTypes);
    var pascal := SliceFrom(LastSegment(childPath), |LastSegment(currentElementPathBase)|);
    var camel := LowerFirst(pascal);
    var i := MatchIndex(parsed, camel, pascal);
    if i == -1 && camel != "[x]" {
      return Err(LeafTypeMessage);
    }
    if currentChoiceOfTypes.None? {
      return Err(UndefinedIndexMessage);
    }
    if EndsWith(childPath, "[x]") {
      var updated := ReplaceNodeByPath(newTree, currentNode.path, currentNode);
      if updated.None? {
        return Err(UpdatedMessage);
      }
      return Ok((updated.value, []));
    }
    if i == -1 {
      ChoiceSuffixOfChoice(childPath, currentElementPathBase);
    }
    var newElement := Retyped(Relocated(currentNode.element, childPath), [currentChoiceOfTypes.value[i]]);
    var childNode := Node(childPath, newElement, []);
    var added := AddNodeByPath(newTree, childPath, childNode);
    if added.Err? {
      return Err(added.error);
    }
    if added.value.None? {
      return Err(AddedMessage);
    }
    return Ok((added.value.value, [childNode]));
  }

  /** The body of the `while` loop: pop a node and handle it. */
  method ExpandOne(st: ExpandState, hasChildren: HasChildren, structureDefinitionMap: DefinitionMap)
    returns (r: Result<ExpandState>)
    requires |st.stack| > 0
    ensures r == ExpandStep(st, hasChildren.index, structureDefinitionMap)
  {
    var currentNode := st.stack[|st.stack| - 1];
    var stack := st.stack[..|st.stack| - 1];
    if |currentNode.children| == 0 && hasChildren.Has(currentNode.path) {
      var currentElementTypesRaw := Types(currentNode.element);
      var currentElementTypes := ParsedTypes(currentElementTypesRaw);
      if EndsWith(currentNode.path, "[x]") {
        if currentNode.path !in st.diff {
          return Ok(ExpandState(st.tree, stack, st.diff));
        }
        var diffElement := st.diff[currentNode.path];
        currentNode := currentNode.(element := diffElement);
        var currentElementChildrenDiffPaths := hasChildren.GetChildren(ParentPath(currentNode.path));
        if currentElementChildrenDiffPaths.Some? {
          var filtered := StartingWith(currentElementChildrenDiffPaths.value, currentNode.path[..|currentNode.path| - 3]);
          if |filtered| > 0 {
            var constrainedType := ConstrainedType(diffElement);
            if constrainedType.None? {
              return Err(ConstrainedMessage);
            }
            var matchingType := if currentElementTypesRaw.Some? then FirstWithCode(currentElementTypesRaw.value, constrainedType.value) else None;
            if matchingType.None? {
              return Err(NotInBaseMessage(constrainedType.value));
            }
            var narrowed := Retyped(diffElement, [matchingType.value]);
            currentNode := currentNode.(element := narrowed);
            r := GraftNode(st.(diff := st.diff[currentNode.path := narrowed]), stack, currentNode,
                           matchingType.value.code, structureDefinitionMap);
            return;
          }
        }
      }
      if |currentElementTypes| != 1 {
        return Err(LengthMessage);
      }
      r := GraftNode(st, stack, currentNode, currentElementTypes[0], structureDefinitionMap);
      return;
    }
    if |currentNode.children| == 0 && EndsWith(currentNode.path, "[x]") {
      var currentElementChildrenDiffPaths := hasChildren.GetChildren(ParentPath(currentNode.path));
      if currentElementChildrenDiffPaths.None? {
        return Ok(ExpandState(st.tree, stack, st.diff));
      }
      var currentElementPathBase := currentNode.path[..|currentNode.path| - 3];
      var filtered := StartingWith(currentElementChildrenDiffPaths.value, currentElementPathBase);
      if |filtered| == 0 {
        return Ok(ExpandState(st.tree, stack, st.diff));
      }
      var result := ConcretiseChoices(st.tree, currentNode, currentElementPathBase, Types(currentNode.element), filtered);
      if result.Err? {
        return Err(result.error);
      }
      return Ok(ExpandState(result.value.0, stack + result.value.1, st.diff));
    }
    return Ok(ExpandState(st.tree, stack + Values(currentNode.children), st.diff));
  }

  /** `expandTree`, run for at most `fuel` iterations: the expanded tree and
      the differential elements as the pass leaves them. */
  method ExpandTree(baseTree: Node, hasChildren: HasChildren, structureDefinitionMap: DefinitionMap,
                    diffElementMap: map<ElementPath, Element>, fuel: nat) returns (r: Result<ExpandState>)
    ensures r == ExpandTreeF(baseTree, hasChildren.index, structureDefinitionMap, diffElementMap, fuel)
  {
    var st := ExpandState(baseTree, [baseTree], diffElementMap);
    var steps := fuel;
    while |st.stack| > 0
      invariant ExpandRun(st, hasChildren.index, structureDefinitionMap, steps)
             == ExpandTreeF(baseTree, hasChildren.index, structureDefinitionMap, diffElementMap, fuel)
      decreases steps
    {
      if steps == 0 {
        return Err(OutOfSteps);
      }
      var next := ExpandOne(st, hasChildren, structureDefinitionMap);
      if next.Err? {
        return Err(next.error);
      }
      st := next.value;
      steps := steps - 1;
    }
    return Ok(st);
  }
}
