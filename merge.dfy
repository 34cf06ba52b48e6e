/** src/merger.ts, part 4: overlaying a differential on the expanded tree
    (`mergeElementByPath`), the whole merge (`mergeDefinitions`) and its fold
    along a `baseDefinition` chain (`resolveConstraintChain`). */
module MergerMerge {
  import opened Wrappers
  import opened Text
  import opened OrderedMaps
  import opened Fhir
  import opened Utils
  import opened MergerTree
  import opened MergerBuild
  import opened MergerExpand

  // ---------------------------------------------------------------------
  // mergeElementByPath

  function NotFoundMessage(p: ElementPath): string
  {
    "Element not found: " + p
  }

  function ReplaceFailedMessage(p: ElementPath): string
  {
    "Failed to replace node at path: " + p
  }

  /** One differential element: the node at its path gets
      `{ ...base, ...diff }` as its element and keeps its children. */
  function MergeOne(tree: Node, d: Element): Result<Node>
  {
    match GetNodeByPath(tree, Path(d))
    case None => Err(NotFoundMessage(Path(d)))
    case Some(b) =>
      match ReplaceNodeByPath(tree, Path(d), Node(Path(d), Overlay(b.element, d), b.children))
      case None => Err(ReplaceFailedMessage(Path(d)))
      case Some(t) => Ok(t)
  }

  /** The differential elements applied in order. */
  function MergeElements(tree: Node, diffs: seq<Element>): Result<Node>
    decreases |diffs|
  {
    if |diffs| == 0 then Ok(tree)
    else
      var t :- MergeOne(tree, diffs[0]);
      MergeElements(t, diffs[1..])
  }

  /** The reference the merge is stated against, on the pre-order list: each
      differential element overlays the first entry with its path. */
  function OverlayEntries(es: seq<Entry>, diffs: seq<Element>): Result<seq<Entry>>
    decreases |diffs|
  {
    if |diffs| == 0 then Ok(es)
    else if !Occurs(es, Path(diffs[0])) then Err(NotFoundMessage(Path(diffs[0])))
    else
      var k := FirstIndexOf(es, Path(diffs[0]));
      OverlayEntries(es[k := Entry(Path(diffs[0]), Overlay(es[k].element, diffs[0]))], diffs[1..])
  }

  predicate SamePaths(a: seq<Entry>, b: seq<Entry>)
  {
    |a| == |b| && forall i :: 0 <= i < |a| ==> a[i].path == b[i].path
  }

  /** Lists with the same paths agree on where a path first occurs. */
  lemma {:induction false} OccursSamePaths(a: seq<Entry>, b: seq<Entry>, p: ElementPath)
    requires SamePaths(a, b)
    ensures Occurs(a, p) <==> Occurs(b, p)
    ensures Occurs(a, p) ==> FirstIndexOf(a, p) == FirstIndexOf(b, p)
    decreases |a|
  {
    if |a| > 0 {
      assert SamePaths(a[1..], b[1..]);
      OccursSamePaths(a[1..], b[1..], p);
    }
  }

  /** Replacing a subtree by one with the same root path and the same
      descendants changes only the entry at its root. */
  lemma SpliceHead(es: seq<Entry>, k: nat, sub: seq<Entry>, e: Entry)
    requires SubAt(es, k, sub) && |sub| >= 1
    ensures k < |es| && es[k] == sub[0]
    ensures Splice(es, k, |sub|, [e] + sub[1..]) == es[k := e]
  {
    assert es[k] == es[k..k + |sub|][0] == sub[0];
    SpliceIsSlices(es, k, |sub|, [e] + sub[1..]);
    var spliced := es[..k] + ([e] + sub[1..]) + es[k + |sub|..];
    assert |spliced| == |es|;
    forall i | 0 <= i < |es|
      ensures spliced[i] == es[k := e][i]
    {
      if k < i < k + |sub| {
        assert spliced[i] == sub[i - k] == es[k..k + |sub|][i - k];
      }
    }
  }

  /** `mergeElementByPath` for one element: it succeeds exactly when the
      path is in the tree, and then the pre-order changes in one place, the
      first entry with that path, whose element becomes the overlay. */
  lemma MergeOneSpec(tree: Node, d: Element)
    requires ValidNode(tree)
    ensures MergeOne(tree, d).Ok? <==> Occurs(Entries(tree), Path(d))
    ensures MergeOne(tree, d).Err? ==> MergeOne(tree, d) == Err(NotFoundMessage(Path(d)))
    ensures MergeOne(tree, d).Ok? ==>
      var k := FirstIndexOf(Entries(tree), Path(d));
      ValidNode(MergeOne(tree, d).value)
      && Entries(MergeOne(tree, d).value)
         == Entries(tree)[k := Entry(Path(d), Overlay(Entries(tree)[k].element, d))]
  {
    var p := Path(d);
    GetNodeByPathSpec(tree, p);
    if Occurs(Entries(tree), p) {
      var b := GetNodeByPath(tree, p).value;
      var n := Node(p, Overlay(b.element, d), b.children);
      assert ValidNode(n);
      ReplaceNodeByPathSpec(tree, p, n);
      var k := FirstIndexOf(Entries(tree), p);
      SpliceHead(Entries(tree), k, Entries(b), Entry(p, Overlay(b.element, d)));
      assert Entries(n) == [Entry(p, Overlay(b.element, d))] + Entries(b)[1..];
    } else {
      ReplaceNodeByPathSpec(tree, p, Leaf(d));
    }
  }

  /** `mergeElementByPath` computes the pre-order overlay: it fails exactly
      when the reference does, with the same message, and otherwise the
      merged tree's pre-order is the reference's. */
  lemma {:induction false} MergeElementsSpec(tree: Node, diffs: seq<Element>)
    requires ValidNode(tree)
    ensures MergeElements(tree, diffs).Ok? <==> OverlayEntries(Entries(tree), diffs).Ok?
    ensures MergeElements(tree, diffs).Err? ==>
      MergeElements(tree, diffs).error == OverlayEntries(Entries(tree), diffs).error
    ensures MergeElements(tree, diffs).Ok? ==>
      ValidNode(MergeElements(tree, diffs).value)
      && Entries(MergeElements(tree, diffs).value) == OverlayEntries(Entries(tree), diffs).value
    decreases |diffs|
  {
    if |diffs| > 0 {
      MergeOneSpec(tree, diffs[0]);
      if MergeOne(tree, diffs[0]).Ok? {
        MergeElementsSpec(MergeOne(tree, diffs[0]).value, diffs[1..]);
      }
    }
  }

  /** The overlay keeps every path where it is, and leaves alone every
      entry whose path no differential element has. */
  lemma {:induction false} OverlayEntriesKeeps(es: seq<Entry>, diffs: seq<Element>)
    requires OverlayEntries(es, diffs).Ok?
    ensures SamePaths(OverlayEntries(es, diffs).value, es)
    ensures forall i :: 0 <= i < |es| && (forall j :: 0 <= j < |diffs| ==> Path(diffs[j]) != es[i].path) ==>
      OverlayEntries(es, diffs).value[i] == es[i]
    decreases |diffs|
  {
    if |diffs| > 0 {
      var k := FirstIndexOf(es, Path(diffs[0]));
      var es' := es[k := Entry(Path(diffs[0]), Overlay(es[k].element, diffs[0]))];
      OverlayEntriesKeeps(es', diffs[1..]);
      forall i | 0 <= i < |es| && (forall j :: 0 <= j < |diffs| ==> Path(diffs[j]) != es[i].path)
        ensures OverlayEntries(es, diffs).value[i] == es[i]
      {
        assert Path(diffs[0]) != es[i].path;
        assert forall j :: 0 <= j < |diffs[1..]| ==> Path(diffs[1..][j]) != es'[i].path by {
          forall j | 0 <= j < |diffs[1..]| ensures Path(diffs[1..][j]) != es'[i].path {
            assert diffs[1..][j] == diffs[j + 1];
          }
        }
      }
    }
  }

  /** The overlay succeeds exactly when every differential path is in the
      list; otherwise it reports the first missing one. */
  lemma {:induction false} OverlayEntriesOk(es: seq<Entry>, diffs: seq<Element>)
    ensures OverlayEntries(es, diffs).Ok? <==> forall j :: 0 <= j < |diffs| ==> Occurs(es, Path(diffs[j]))
    ensures OverlayEntries(es, diffs).Err? ==>
      exists j :: 0 <= j < |diffs| && !Occurs(es, Path(diffs[j]))
                  && (forall i :: 0 <= i < j ==> Occurs(es, Path(diffs[i])))
                  && OverlayEntries(es, diffs) == Err(NotFoundMessage(Path(diffs[j])))
    decreases |diffs|
  {
    if |diffs| > 0 && Occurs(es, Path(diffs[0])) {
      var k := FirstIndexOf(es, Path(diffs[0]));
      var es' := es[k := Entry(Path(diffs[0]), Overlay(es[k].element, diffs[0]))];
      assert SamePaths(es', es);
      forall q ensures Occurs(es', q) <==> Occurs(es, q) {
        OccursSamePaths(es', es, q);
      }
      OverlayEntriesOk(es', diffs[1..]);
      OverlayOkCons(es, es', diffs, OverlayEntries(es', diffs[1..]));
    }
  }

  /** The step of `OverlayEntriesOk` past a first path that is found, for
      the result `r` of the rest over a list `es'` with the same paths. */
  lemma OverlayOkCons(es: seq<Entry>, es': seq<Entry>, diffs: seq<Element>, r: Result<seq<Entry>>)
    requires |diffs| > 0 && Occurs(es, Path(diffs[0]))
    requires forall q :: Occurs(es', q) <==> Occurs(es, q)
    requires r.Ok? <==> forall j :: 0 <= j < |diffs[1..]| ==> Occurs(es', Path(diffs[1..][j]))
    requires r.Err? ==>
      exists j :: 0 <= j < |diffs[1..]| && !Occurs(es', Path(diffs[1..][j]))
                  && (forall i :: 0 <= i < j ==> Occurs(es', Path(diffs[1..][i])))
                  && r == Err(NotFoundMessage(Path(diffs[1..][j])))
    ensures r.Ok? <==> forall j :: 0 <= j < |diffs| ==> Occurs(es, Path(diffs[j]))
    ensures r.Err? ==>
      exists j :: 0 <= j < |diffs| && !Occurs(es, Path(diffs[j]))
                  && (forall i :: 0 <= i < j ==> Occurs(es, Path(diffs[i])))
                  && r == Err(NotFoundMessage(Path(diffs[j])))
  {
    forall j | 1 <= j < |diffs| ensures diffs[1..][j - 1] == diffs[j] { }
    if r.Err? {
      var j :| 0 <= j < |diffs[1..]| && !Occurs(es', Path(diffs[1..][j]))
               && (forall i :: 0 <= i < j ==> Occurs(es', Path(diffs[1..][i])))
               && r == Err(NotFoundMessage(Path(diffs[1..][j])));
      assert forall i :: 0 <= i < j + 1 ==> Occurs(es, Path(diffs[i])) by {
        forall i | 0 <= i < j + 1 ensures Occurs(es, Path(diffs[i])) {
          if i > 0 { assert diffs[i] == diffs[1..][i - 1]; }
        }
      }
      assert diffs[j + 1] == diffs[1..][j];
    }
  }

  /** `mergeElementByPath` */
  method MergeElementByPath(node: Node, diffElements: seq<Element>) returns (r: Result<Node>)
    ensures |diffElements| == 0 ==> r == Ok(node)
    ensures r == MergeElements(node, diffElements)
  {
    var newNode := node;
    if |diffElements| == 0 {
      return Ok(newNode);
    }
    for k := 0 to |diffElements|
      invariant MergeElements(newNode, diffElements[k..]) == MergeElements(node, diffElements)
    {
      assert diffElements[k..][0] == diffElements[k] && diffElements[k..][1..] == diffElements[k + 1..];
      var diffElement := diffElements[k];
      var baseElementNode := GetNodeByPath(newNode, Path(diffElement));
      if baseElementNode.None? {
        return Err(NotFoundMessage(Path(diffElement)));
      }
      var newElement := Overlay(baseElementNode.value.element, diffElement);
      var newElementNode := Node(Path(diffElement), newElement, baseElementNode.value.children);
      var replaced := ReplaceNodeByPath(newNode, Path(diffElement), newElementNode);
      if replaced.None? {
        return Err(ReplaceFailedMessage(Path(diffElement)));
      }
      newNode := replaced.value;
    }
    return Ok(newNode);
  }

  // ---------------------------------------------------------------------
  // mergeDefinitions

  /** The differential as `mergeElementByPath` sees it after `expandTree`:
      the element the map holds for a path is the very object the pass may
      have narrowed, so it reads back from the pass's map. */
  function WithNarrowing(diff: seq<Element>, m: map<ElementPath, Element>): (r: seq<Element>)
    ensures |r| == |diff|
    ensures forall i :: 0 <= i < |diff| ==>
      r[i] == if LastWithPath(diff, i) && Path(diff[i]) in m then m[Path(diff[i])] else diff[i]
  {
    seq(|diff|, i requires 0 <= i < |diff| =>
      if LastWithPath(diff, i) && Path(diff[i]) in m then m[Path(diff[i])] else diff[i])
  }

  /** Reading back the map as `buildElementMap` built it gives the
      differential unchanged. */
  lemma WithNarrowingUnchanged(diff: seq<Element>)
    ensures WithNarrowing(diff, LastWins(PathElementPairs(diff))) == diff
  {
    var r := WithNarrowing(diff, LastWins(PathElementPairs(diff)));
    forall i | 0 <= i < |diff| ensures r[i] == diff[i] {
      if LastWithPath(diff, i) {
        ElementMapLookup(diff, i);
      }
    }
  }

  /** Read back after the expansion, the differential is the one given
      except that the element a path-keyed map holds for a choice path may
      have its `type` replaced by a single type; every other field, every
      other element and the order are as given. */
  lemma WithNarrowingRetypes(diff: seq<Element>, m: map<ElementPath, Element>)
    requires NarrowedFrom(LastWins(PathElementPairs(diff)), m)
    ensures |WithNarrowing(diff, m)| == |diff|
    ensures forall i :: 0 <= i < |diff| ==>
      WithNarrowing(diff, m)[i] == diff[i]
      || (LastWithPath(diff, i) && EndsWith(Path(diff[i]), "[x]")
          && Types(WithNarrowing(diff, m)[i]).Some? && |Types(WithNarrowing(diff, m)[i]).value| == 1
          && WithNarrowing(diff, m)[i] == Retyped(diff[i], Types(WithNarrowing(diff, m)[i]).value))
  {
    var r := WithNarrowing(diff, m);
    forall i | 0 <= i < |diff|
      ensures r[i] == diff[i]
              || (LastWithPath(diff, i) && EndsWith(Path(diff[i]), "[x]")
                  && Types(r[i]).Some? && |Types(r[i]).value| == 1 && r[i] == Retyped(diff[i], Types(r[i]).value))
    {
      if LastWithPath(diff, i) {
        ElementMapLookup(diff, i);
      }
    }
  }

  /** `mergeDefinitions(baseDefinitions, diffDefinitions, structureDefinitionMap)`,
      with `fuel` iterations allowed to `expandTree`. */
  function MergeDefinitionsF(base: seq<Element>, diff: seq<Element>, sdMap: DefinitionMap, fuel: nat): Result<seq<Element>>
  {
    var baseTree :- BuildTreeF(base);
    var expanded :- ExpandTreeF(baseTree, Grouped(PrefixPairs(diff)), sdMap, LastWins(PathElementPairs(diff)), fuel);
    var merged :- MergeElements(expanded.tree, WithNarrowing(diff, expanded.diff));
    Ok(ResolveElementDefinition(merged))
  }

  /** Merging an empty differential into a well-formed snapshot gives the
      snapshot back, element for element; an empty snapshot is the source's
      error. */
  lemma MergeDefinitionsWithoutDiff(base: seq<Element>, sdMap: DefinitionMap, fuel: nat)
    requires |base| > 0 ==> UnderRoot(base) && DistinctPaths(base) && fuel >= |base|
    ensures |base| == 0 ==> MergeDefinitionsF(base, [], sdMap, fuel) == Err(EmptyInputMessage)
    ensures |base| > 0 ==> MergeDefinitionsF(base, [], sdMap, fuel) == Ok(base)
  {
    BuildTreeSpec(base);
    if |base| > 0 {
      var t := BuildTreeF(base).value;
      ResolveIsPreorder(t);
      assert |Entries(t)| == |base|;
      assert Grouped(PrefixPairs([])) == map[];
      assert LastWins(PathElementPairs([])) == map[];
      ExpandTreeWithoutChildren(t, sdMap, map[], fuel);
      assert WithNarrowing([], map[]) == [];
    }
  }

  /** Once the base tree is built and expanded, the merge lists the merged
      tree in pre-order: the expanded base, which is well formed and keeps
      the snapshot's root, with each differential element, as the expansion
      may have narrowed it, overlaid on the first node at its path; it fails
      when some differential path is in neither the base nor the
      expansion. */
  lemma MergeDefinitionsOverlay(base: seq<Element>, diff: seq<Element>, sdMap: DefinitionMap, fuel: nat)
    requires BuildTreeF(base).Ok?
    requires ExpandTreeF(BuildTreeF(base).value, Grouped(PrefixPairs(diff)), sdMap, LastWins(PathElementPairs(diff)), fuel).Ok?
    ensures var expanded := ExpandTreeF(BuildTreeF(base).value, Grouped(PrefixPairs(diff)), sdMap, LastWins(PathElementPairs(diff)), fuel).value;
            var overlay := OverlayEntries(Entries(expanded.tree), WithNarrowing(diff, expanded.diff));
            (MergeDefinitionsF(base, diff, sdMap, fuel).Ok? <==> overlay.Ok?)
            && (overlay.Ok? ==> MergeDefinitionsF(base, diff, sdMap, fuel).value == ElementsOf(overlay.value))
            && |base| > 0 && ValidNode(expanded.tree) && expanded.tree.path == Path(base[0])
            && NarrowedFrom(LastWins(PathElementPairs(diff)), expanded.diff)
  {
    BuildTreeSpec(base);
    ExpandTreeKeeps(BuildTreeF(base).value, Grouped(PrefixPairs(diff)), sdMap, LastWins(PathElementPairs(diff)), fuel);
    var expanded := ExpandTreeF(BuildTreeF(base).value, Grouped(PrefixPairs(diff)), sdMap, LastWins(PathElementPairs(diff)), fuel).value;
    MergeElementsSpec(expanded.tree, WithNarrowing(diff, expanded.diff));
    var merged := MergeElements(expanded.tree, WithNarrowing(diff, expanded.diff));
    if merged.Ok? {
      ResolveIsPreorder(merged.value);
    }
  }

  /** `mergeDefinitions` */
  method MergeDefinitions(baseDefinitions: seq<Element>, diffDefinitions: seq<Element>,
                          structureDefinitionMap: DefinitionMap, fuel: nat) returns (r: Result<seq<Element>>)
    ensures r == MergeDefinitionsF(baseDefinitions, diffDefinitions, structureDefinitionMap, fuel)
  {
    var baseTree := BuildTree(baseDefinitions);
    if baseTree.Err? {
      return Err(baseTree.error);
    }
    var hasChildren := BuildHasChildren(diffDefinitions);
    var diffElementMap := BuildElementMap(diffDefinitions);
    var expandedTree := ExpandTree(baseTree.value, hasChildren, structureDefinitionMap, diffElementMap, fuel);
    if expandedTree.Err? {
      return Err(expandedTree.error);
    }
    var mergedTree := MergeElementByPath(expandedTree.value.tree, WithNarrowing(diffDefinitions, expandedTree.value.diff));
    if mergedTree.Err? {
      return Err(mergedTree.error);
    }
    return Ok(ResolveElementDefinition(mergedTree.value));
  }

  // ---------------------------------------------------------------------
  // resolveConstraintChain

  const ElementsNotFoundMessage: string := "elementDefinitions not found"
  const BaseElementsNotFoundMessage: string := "baseElementDefinitions not found"

  /** A chain that comes back to a definition it has already passed, where
      the source's loop never ends. */
  const CycleMessage: string := "resolveConstraintChain: baseDefinition chain revisits a definition"

  function UnconvertibleMessage(url: string, id: string): string
  {
    "Base definition URL " + url + " could not be converted to a type name for " + id
  }

  function BaseNotFoundMessage(baseId: string, id: string): string
  {
    "Base definition " + baseId + " not found for " + id
  }

  /** The loop's condition: a constraint with a (non-empty) base url. */
  predicate HasBase(sd: StructureDefinition)
  {
    IsConstraint(sd) && BaseUrl(sd).Some?
  }

  /** Walks the `baseDefinition` links from `cur`: the differentials met, in
      order, and the definition the walk stops at. `visited` holds the ids
      the walk has moved to. */
  function Chain(cur: StructureDefinition, sdMap: DefinitionMap, urlToId: map<string, string>, visited: set<string>)
    : Result<(seq<seq<Element>>, StructureDefinition)>
    decreases sdMap.Keys - visited
  {
    if !HasBase(cur) then Ok(([], cur))
    else if cur.differential.None? then Err(ElementsNotFoundMessage)
    else
      var url := BaseUrl(cur).value;
      if url !in urlToId || urlToId[url] == "" then Err(UnconvertibleMessage(url, cur.id))
      else if urlToId[url] !in sdMap then Err(BaseNotFoundMessage(urlToId[url], cur.id))
      else if urlToId[url] in visited then Err(CycleMessage)
      else
        var rest :- Chain(sdMap[urlToId[url]], sdMap, urlToId, visited + {urlToId[url]});
        Ok(([cur.differential.value] + rest.0, rest.1))
  }

  function Reverse<T>(s: seq<T>): (r: seq<T>)
    ensures |r| == |s| && forall i :: 0 <= i < |s| ==> r[i] == s[|s| - 1 - i]
  {
    if |s| == 0 then [] else Reverse(s[1..]) + [s[0]]
  }

  /** `chain.reduce(...)` from the base snapshot: each differential merged in
      turn. */
  function MergeFold(acc: seq<Element>, diffs: seq<seq<Element>>, sdMap: DefinitionMap, fuel: nat): Result<seq<Element>>
    decreases |diffs|
  {
    if |diffs| == 0 then Ok(acc)
    else
      var merged :- MergeDefinitionsF(acc, diffs[0], sdMap, fuel);
      MergeFold(merged, diffs[1..], sdMap, fuel)
  }

  /** `resolveConstraintChain(target, structureDefinitionMap, typeNameUrlConverter)`,
      the converter given by its url-to-id map. */
  function ResolveConstraintChainF(target: StructureDefinition, sdMap: DefinitionMap, urlToId: map<string, string>, fuel: nat)
    : Result<StructureDefinition>
  {
    var walk :- Chain(target, sdMap, urlToId, {});
    if walk.1.snapshot.None? then Err(BaseElementsNotFoundMessage)
    else if |walk.0| == 0 then Ok(target)
    else
      var merged :- MergeFold(walk.1.snapshot.value, Reverse(walk.0), sdMap, fuel);
      Ok(target.(snapshot := Some(merged)))
  }

  /** The target is never altered apart from its snapshot. */
  lemma ResolveKeepsTarget(target: StructureDefinition, sdMap: DefinitionMap, urlToId: map<string, string>, fuel: nat)
    ensures ResolveConstraintChainF(target, sdMap, urlToId, fuel).Ok? ==>
      ResolveConstraintChainF(target, sdMap, urlToId, fuel).value.(snapshot := target.snapshot) == target
  {
  }

  /** A target that is not a constraint with a base is returned as it is,
      provided it has a snapshot. */
  lemma ResolveWithoutBase(target: StructureDefinition, sdMap: DefinitionMap, urlToId: map<string, string>, fuel: nat)
    requires !HasBase(target)
    ensures ResolveConstraintChainF(target, sdMap, urlToId, fuel)
            == if target.snapshot.None? then Err(BaseElementsNotFoundMessage) else Ok(target)
  {
  }

  /** The lookups on the way name what they could not find. */
  lemma ResolveLookupErrors(target: StructureDefinition, sdMap: DefinitionMap, urlToId: map<string, string>, fuel: nat)
    requires HasBase(target)
    ensures var url := BaseUrl(target).value;
            var r := ResolveConstraintChainF(target, sdMap, urlToId, fuel);
            (target.differential.None? ==> r == Err(ElementsNotFoundMessage))
            && (target.differential.Some? && (url !in urlToId || urlToId[url] == "") ==>
                  r == Err(UnconvertibleMessage(url, target.id)))
            && (target.differential.Some? && url in urlToId && urlToId[url] != "" && urlToId[url] !in sdMap ==>
                  r == Err(BaseNotFoundMessage(urlToId[url], target.id)))
  {
  }

  /** A constraint on a specialization gets the base snapshot merged with its
      own differential as its snapshot. */
  lemma ResolveOneLevel(target: StructureDefinition, sdMap: DefinitionMap, urlToId: map<string, string>, fuel: nat, baseId: string)
    requires HasBase(target) && target.differential.Some?
    requires BaseUrl(target).value in urlToId && urlToId[BaseUrl(target).value] == baseId && baseId != ""
    requires baseId in sdMap && !HasBase(sdMap[baseId]) && sdMap[baseId].snapshot.Some?
    ensures ResolveConstraintChainF(target, sdMap, urlToId, fuel) ==
      match MergeDefinitionsF(sdMap[baseId].snapshot.value, target.differential.value, sdMap, fuel)
      case Err(m) => Err(m)
      case Ok(merged) => Ok(target.(snapshot := Some(merged)))
  {
    assert {} + {baseId} == {baseId};
    assert Chain(sdMap[baseId], sdMap, urlToId, {baseId}) == Ok(([], sdMap[baseId]));
    assert [target.differential.value] + [] == [target.differential.value];
    assert Chain(target, sdMap, urlToId, {}) == Ok(([target.differential.value], sdMap[baseId]));
    assert Reverse([target.differential.value]) == [target.differential.value];
    var m := MergeDefinitionsF(sdMap[baseId].snapshot.value, target.differential.value, sdMap, fuel);
    if m.Ok? {
      assert MergeFold(m.value, [target.differential.value][1..], sdMap, fuel) == Ok(m.value);
    }
  }

  /** Two levels are merged base first: the middle constraint's differential
      is applied to the root snapshot, then the target's. */
  lemma ResolveTwoLevels(target: StructureDefinition, sdMap: DefinitionMap, urlToId: map<string, string>, fuel: nat,
                         midId: string, rootId: string)
    requires HasBase(target) && target.differential.Some?
    requires BaseUrl(target).value in urlToId && urlToId[BaseUrl(target).value] == midId && midId != ""
    requires midId in sdMap && HasBase(sdMap[midId]) && sdMap[midId].differential.Some?
    requires BaseUrl(sdMap[midId]).value in urlToId && urlToId[BaseUrl(sdMap[midId]).value] == rootId
    requires rootId != "" && rootId != midId
    requires rootId in sdMap && !HasBase(sdMap[rootId]) && sdMap[rootId].snapshot.Some?
    ensures ResolveConstraintChainF(target, sdMap, urlToId, fuel) ==
      match MergeDefinitionsF(sdMap[rootId].snapshot.value, sdMap[midId].differential.value, sdMap, fuel)
      case Err(m) => Err(m)
      case Ok(mid) =>
        match MergeDefinitionsF(mid, target.differential.value, sdMap, fuel)
        case Err(m) => Err(m)
        case Ok(merged) => Ok(target.(snapshot := Some(merged)))
  {
    ChainTwoLevels(target, sdMap, urlToId, midId, rootId);
    var ds := [sdMap[midId].differential.value, target.differential.value];
    assert Reverse([target.differential.value, sdMap[midId].differential.value]) == ds;
    MergeFoldTwo(sdMap[rootId].snapshot.value, ds[0], ds[1], sdMap, fuel);
  }

  lemma ChainTwoLevels(target: StructureDefinition, sdMap: DefinitionMap, urlToId: map<string, string>,
                       midId: string, rootId: string)
    requires HasBase(target) && target.differential.Some?
    requires BaseUrl(target).value in urlToId && urlToId[BaseUrl(target).value] == midId && midId != ""
    requires midId in sdMap && HasBase(sdMap[midId]) && sdMap[midId].differential.Some?
    requires BaseUrl(sdMap[midId]).value in urlToId && urlToId[BaseUrl(sdMap[midId]).value] == rootId
    requires rootId != "" && rootId != midId
    requires rootId in sdMap && !HasBase(sdMap[rootId])
    ensures Chain(target, sdMap, urlToId, {})
            == Ok(([target.differential.value, sdMap[midId].differential.value], sdMap[rootId]))
  {
    var mid := sdMap[midId];
    assert Chain(sdMap[rootId], sdMap, urlToId, {midId, rootId}) == Ok(([], sdMap[rootId]));
    assert {midId} + {rootId} == {midId, rootId};
    assert [mid.differential.value] + [] == [mid.differential.value];
    assert Chain(mid, sdMap, urlToId, {midId}) == Ok(([mid.differential.value], sdMap[rootId]));
    assert {} + {midId} == {midId};
    assert [target.differential.value] + [mid.differential.value] == [target.differential.value, mid.differential.value];
  }

  lemma MergeFoldTwo(acc: seq<Element>, d1: seq<Element>, d2: seq<Element>, sdMap: DefinitionMap, fuel: nat)
    ensures MergeFold(acc, [d1, d2], sdMap, fuel) ==
      match MergeDefinitionsF(acc, d1, sdMap, fuel)
      case Err(m) => Err(m)
      case Ok(mid) =>
        match MergeDefinitionsF(mid, d2, sdMap, fuel)
        case Err(m) => Err(m)
        case Ok(merged) => Ok(merged)
  {
    var m1 := MergeDefinitionsF(acc, d1, sdMap, fuel);
    if m1.Ok? {
      assert [d1, d2][1..] == [d2];
      var m2 := MergeDefinitionsF(m1.value, d2, sdMap, fuel);
      if m2.Ok? {
        assert MergeFold(m2.value, [d2][1..], sdMap, fuel) == Ok(m2.value);
      }
    }
  }

  /** A constraint whose base url leads back to itself is a cycle. */
  lemma ResolveSelfCycle(target: StructureDefinition, sdMap: DefinitionMap, urlToId: map<string, string>, fuel: nat)
    requires HasBase(target) && target.differential.Some?
    requires BaseUrl(target).value in urlToId && urlToId[BaseUrl(target).value] != ""
    requires urlToId[BaseUrl(target).value] in sdMap && sdMap[urlToId[BaseUrl(target).value]] == target
    ensures ResolveConstraintChainF(target, sdMap, urlToId, fuel) == Err(CycleMessage)
  {
    var b := urlToId[BaseUrl(target).value];
    assert {} + {b} == {b};
    assert Chain(target, sdMap, urlToId, {b}) == Err(CycleMessage);
    assert Chain(sdMap[b], sdMap, urlToId, {} + {b}) == Err(CycleMessage);
  }

  /** `Chain` with the differentials gathered so far in front. */
  function Prefixed(chain: seq<seq<Element>>, r: Result<(seq<seq<Element>>, StructureDefinition)>)
    : Result<(seq<seq<Element>>, StructureDefinition)>
  {
    match r
    case Err(m) => Err(m)
    case Ok(w) => Ok((chain + w.0, w.1))
  }

  lemma PrefixedEmpty(r: Result<(seq<seq<Element>>, StructureDefinition)>)
    ensures Prefixed([], r) == r
  {
    if r.Ok? {
      assert [] + r.value.0 == r.value.0;
    }
  }

  lemma ReverseSnoc<T>(s: seq<T>, x: T)
    ensures Reverse(s + [x]) == [x] + Reverse(s)
  {
  }

  /** `resolveConstraintChain` */
  method ResolveConstraintChain(targetDefinition: StructureDefinition, structureDefinitionMap: DefinitionMap,
                                typeNameUrlConverter: TypeNameUrlConverter, fuel: nat)
    returns (r: Result<StructureDefinition>)
    ensures r == ResolveConstraintChainF(targetDefinition, structureDefinitionMap, typeNameUrlConverter.urlToTypeNameMap, fuel)
  {
    var walk := WalkChain(targetDefinition, structureDefinitionMap, typeNameUrlConverter);
    if walk.Err? {
      return Err(walk.error);
    }
    var (chain, currentDef) := walk.value;
    if currentDef.snapshot.None? {
      return Err(BaseElementsNotFoundMessage);
    }
    var ordered := Reverse(chain + [currentDef.snapshot.value]);
    ReverseSnoc(chain, currentDef.snapshot.value);
    if |ordered| == 1 {
      return Ok(targetDefinition);
    }
    assert ordered[0] == currentDef.snapshot.value && ordered[1..] == Reverse(chain);
    var merged := MergeAll(ordered[0], ordered[1..], structureDefinitionMap, fuel);
    if merged.Err? {
      return Err(merged.error);
    }
    return Ok(targetDefinition.(snapshot := Some(merged.value)));
  }

  /** The `while` loop of `resolveConstraintChain`: the differentials met
      walking up the base urls, most specific first, and the definition the
      walk stops at. */
  method WalkChain(targetDefinition: StructureDefinition, structureDefinitionMap: DefinitionMap,
                   typeNameUrlConverter: TypeNameUrlConverter)
    returns (r: Result<(seq<seq<Element>>, StructureDefinition)>)
    ensures r == Chain(targetDefinition, structureDefinitionMap, typeNameUrlConverter.urlToTypeNameMap, {})
  {
    var urlToId := typeNameUrlConverter.urlToTypeNameMap;
    var chain: seq<seq<Element>> := [];
    var currentDef := targetDefinition;
    var visited: set<string> := {};
    PrefixedEmpty(Chain(targetDefinition, structureDefinitionMap, urlToId, {}));
    while HasBase(currentDef)
      invariant visited <= structureDefinitionMap.Keys
      invariant Prefixed(chain, Chain(currentDef, structureDefinitionMap, urlToId, visited))
             == Chain(targetDefinition, structureDefinitionMap, urlToId, {})
      decreases structureDefinitionMap.Keys - visited
    {
      if currentDef.differential.None? {
        return Err(ElementsNotFoundMessage);
      }
      var elementDefinitions := currentDef.differential.value;
      var baseUri := BaseUrl(currentDef).value;
      var baseId := typeNameUrlConverter.UrlToTypeName(baseUri);
      if baseId.None? || baseId.value == "" {
        return Err(UnconvertibleMessage(baseUri, currentDef.id));
      }
      if baseId.value !in structureDefinitionMap {
        return Err(BaseNotFoundMessage(baseId.value, currentDef.id));
      }
      if baseId.value in visited {
        return Err(CycleMessage);
      }
      ghost var next := Chain(structureDefinitionMap[baseId.value], structureDefinitionMap, urlToId, visited + {baseId.value});
      PrefixedSnoc(chain, elementDefinitions, next);
      chain := chain + [elementDefinitions];
      visited := visited + {baseId.value};
      currentDef := structureDefinitionMap[baseId.value];
    }
    assert chain + [] == chain;
    return Ok((chain, currentDef));
  }

  lemma PrefixedSnoc(chain: seq<seq<Element>>, e: seq<Element>, next: Result<(seq<seq<Element>>, StructureDefinition)>)
    ensures Prefixed(chain + [e], next) == Prefixed(chain, match next
                                                           case Err(m) => Err(m)
                                                           case Ok(w) => Ok(([e] + w.0, w.1)))
  {
    if next.Ok? {
      assert chain + [e] + next.value.0 == chain + ([e] + next.value.0);
    }
  }

  /** The `reduce` of `resolveConstraintChain`: each differential merged in
      turn onto the base snapshot. */
  method MergeAll(base: seq<Element>, diffs: seq<seq<Element>>, structureDefinitionMap: DefinitionMap, fuel: nat)
    returns (r: Result<seq<Element>>)
    ensures r == MergeFold(base, diffs, structureDefinitionMap, fuel)
  {
    var acc := base;
    for index := 0 to |diffs|
      invariant MergeFold(acc, diffs[index..], structureDefinitionMap, fuel)
             == MergeFold(base, diffs, structureDefinitionMap, fuel)
    {
      assert diffs[index..][0] == diffs[index] && diffs[index..][1..] == diffs[index + 1..];
      var merged := MergeDefinitions(acc, diffs[index], structureDefinitionMap, fuel);
      if merged.Err? {
        return Err(merged.error);
      }
      acc := merged.value;
    }
    return Ok(acc);
  }
}
