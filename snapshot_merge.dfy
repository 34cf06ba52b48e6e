/** src/constructZodSchemaCode.ts, part 1: the in-memory definition loader
    and the snapshot-over-snapshot `mergeDefinitions` the emitter applies to
    a constraint (a different merge from the one of src/merger.ts). */
module SnapshotMerge {
  import opened Wrappers
  import opened Fhir

  // ---------------------------------------------------------------------
  // LocalResourceLoader

  /** The two `set` calls the constructor makes for one definition: under
      its url, then under its id, each only when non-empty. */
  function Register(m: map<string, StructureDefinition>, d: StructureDefinition): (r: map<string, StructureDefinition>)
  {
    var withUrl := if d.url != "" then m[d.url := d] else m;
    if d.id != "" then withUrl[d.id := d] else withUrl
  }

  /** The loader's map once `defs` are registered in order. */
  function LoaderMap(defs: seq<StructureDefinition>): map<string, StructureDefinition>
  {
    if |defs| == 0 then map[] else Register(LoaderMap(defs[..|defs| - 1]), defs[|defs| - 1])
  }

  /** A definition is registered under `k` when `k` is its url or its id. */
  predicate RegisteredUnder(d: StructureDefinition, k: string)
  {
    k != "" && (d.url == k || d.id == k)
  }

  /** Every key of the loader's map leads to a definition with that url or
      id. */
  predicate KeysMatch(m: map<string, StructureDefinition>)
  {
    forall k :: k in m ==> RegisteredUnder(m[k], k)
  }

  /** Registering keeps every key leading to a matching definition. */
  lemma {:induction false} LoaderKeysMatch(defs: seq<StructureDefinition>)
    ensures KeysMatch(LoaderMap(defs))
  {
    if |defs| > 0 {
      LoaderKeysMatch(defs[..|defs| - 1]);
    }
  }

  /** The loader finds exactly the non-empty urls and ids of the
      definitions. */
  lemma {:induction false} LoaderDomain(defs: seq<StructureDefinition>, k: string)
    ensures k in LoaderMap(defs) <==> exists i :: 0 <= i < |defs| && RegisteredUnder(defs[i], k)
  {
    if |defs| > 0 {
      var init := defs[..|defs| - 1];
      LoaderDomain(init, k);
      if k in LoaderMap(init) {
        var i :| 0 <= i < |init| && RegisteredUnder(init[i], k);
        assert defs[i] == init[i];
      }
      if exists i :: 0 <= i < |defs| && RegisteredUnder(defs[i], k) {
        var i :| 0 <= i < |defs| && RegisteredUnder(defs[i], k);
        if i < |init| {
          assert init[i] == defs[i];
        }
      }
    }
  }

  /** A key leads to the last definition registered under it. */
  lemma {:induction false} LoaderLast(defs: seq<StructureDefinition>, k: string, i: nat)
    requires i < |defs| && RegisteredUnder(defs[i], k)
    requires forall j :: i < j < |defs| ==> !RegisteredUnder(defs[j], k)
    ensures k in LoaderMap(defs) && LoaderMap(defs)[k] == defs[i]
  {
    var init := defs[..|defs| - 1];
    if i < |defs| - 1 {
      assert init[i] == defs[i];
      forall j | i < j < |init| ensures !RegisteredUnder(init[j], k) {
        assert init[j] == defs[j];
      }
      LoaderLast(init, k, i);
    }
  }

  /** `LocalResourceLoader`: definitions indexed by url and by id. */
  class LocalResourceLoader {
    const definitionMap: map<string, StructureDefinition>

    ghost predicate Valid()
    {
      KeysMatch(definitionMap)
    }

    constructor (structureDefinitions: seq<StructureDefinition>)
      ensures Valid()
      ensures definitionMap == LoaderMap(structureDefinitions)
    {
      var m: map<string, StructureDefinition> := map[];
      for i := 0 to |structureDefinitions|
        invariant m == LoaderMap(structureDefinitions[..i])
      {
        var def := structureDefinitions[i];
        assert structureDefinitions[..i + 1][..i] == structureDefinitions[..i];
        if def.url != "" {
          m := m[def.url := def];
        }
        if def.id != "" {
          m := m[def.id := def];
        }
      }
      assert structureDefinitions[..|structureDefinitions|] == structureDefinitions;
      definitionMap := m;
      LoaderKeysMatch(structureDefinitions);
    }

    /** `loadStructureDefinition(urlOrId)`: `null` becomes `None`. */
    function LoadStructureDefinition(urlOrId: string): (r: Option<StructureDefinition>)
      requires Valid()
      ensures r.Some? <==> urlOrId in definitionMap
      ensures r.Some? ==> RegisteredUnder(r.value, urlOrId)
    {
      if urlOrId in definitionMap then Some(definitionMap[urlOrId]) else None
    }
  }

  // ---------------------------------------------------------------------
  // mergeDefinitions (snapshot over snapshot)

  /** `baseElementsByPath`: for each non-empty path, where in the list the
      element it holds sits (the last with that path, as `Map.set` keeps
      the last). The source holds references into the copied list; an
      index into the list is the same thing for a list that only grows. */
  function PathIndex(els: seq<Element>): (m: map<string, nat>)
    ensures forall p :: p in m ==> m[p] < |els|
  {
    if |els| == 0 then map[]
    else
      var m := PathIndex(els[..|els| - 1]);
      if Path(els[|els| - 1]) != "" then m[Path(els[|els| - 1]) := |els| - 1] else m
  }

  lemma {:induction false} PathIndexSpec(els: seq<Element>, p: string)
    ensures p in PathIndex(els) <==> p != "" && exists i :: 0 <= i < |els| && Path(els[i]) == p
    ensures p in PathIndex(els) ==> Path(els[PathIndex(els)[p]]) == p && LastWithPath(els, PathIndex(els)[p])
  {
    if |els| > 0 {
      var init := els[..|els| - 1];
      PathIndexSpec(init, p);
      if p in PathIndex(init) {
        var i :| 0 <= i < |init| && Path(init[i]) == p;
        assert Path(els[i]) == p;
      }
      forall i | 0 <= i < |init| ensures els[i] == init[i] { }
    }
  }

  /** One element of the constraint's snapshot: an element with a known
      path is laid over the base element (every field it defines wins);
      one with a new path is appended; one with an empty path is skipped. */
  function ApplyConstraintElement(els: seq<Element>, index: map<string, nat>, c: Element): (r: seq<Element>)
    requires forall p :: p in index ==> index[p] < |els|
    ensures |r| >= |els|
  {
    if Path(c) == "" then els
    else if Path(c) in index then els[index[Path(c)] := Overlay(els[index[Path(c)]], c)]
    else els + [c]
  }

  /** The constraint's elements applied in order. */
  function ApplyAll(base: seq<Element>, index: map<string, nat>, cs: seq<Element>): (r: seq<Element>)
    requires forall p :: p in index ==> index[p] < |base|
    ensures |r| >= |base|
  {
    if |cs| == 0 then base
    else ApplyConstraintElement(ApplyAll(base, index, cs[..|cs| - 1]), index, cs[|cs| - 1])
  }

  /** `mergeDefinitions(base, constraint)` */
  function MergeSnapshots(base: StructureDefinition, constraint: StructureDefinition): (r: StructureDefinition)
  {
    var merged := base.(id := constraint.id, name := constraint.name, url := constraint.url, version := constraint.version);
    if constraint.snapshot.Some? && merged.snapshot.Some? then
      merged.(snapshot := Some(ApplyAll(base.snapshot.value, PathIndex(base.snapshot.value), constraint.snapshot.value)))
    else merged
  }

  // The reference reading of the overlay, element by element.

  /** `e` with each element of `cs` whose path is `p` laid over it in turn. */
  function OverlayMatching(e: Element, p: string, cs: seq<Element>): (r: Element)
    ensures Path(e) == p ==> Path(r) == p
    ensures (forall j :: 0 <= j < |cs| ==> Path(cs[j]) != p) ==> r == e
  {
    if |cs| == 0 then e
    else
      var prev := OverlayMatching(e, p, cs[..|cs| - 1]);
      if Path(cs[|cs| - 1]) == p then Overlay(prev, cs[|cs| - 1]) else prev
  }

  /** The elements of `cs` with a non-empty path that no element of `base`
      has, in order. */
  function Unmatched(base: seq<Element>, cs: seq<Element>): (r: seq<Element>)
    ensures |r| <= |cs|
  {
    if |cs| == 0 then []
    else
      var c := cs[|cs| - 1];
      Unmatched(base, cs[..|cs| - 1])
      + if Path(c) != "" && forall i :: 0 <= i < |base| ==> Path(base[i]) != Path(c) then [c] else []
  }

  /** The merged list read element by element: each base element that is
      the last with its path receives every constraint element with that
      path, in order; the other base elements stay as they are; the
      constraint elements with new paths follow, in order. */
  function SnapshotOverlay(base: seq<Element>, cs: seq<Element>): (r: seq<Element>)
    ensures |r| == |base| + |Unmatched(base, cs)|
    ensures forall i :: 0 <= i < |base| ==> Path(r[i]) == Path(base[i])
    ensures forall i :: 0 <= i < |base| && (forall j :: 0 <= j < |cs| ==> Path(cs[j]) != Path(base[i])) ==> r[i] == base[i]
    ensures r[|base|..] == Unmatched(base, cs)
  {
    seq(|base|, i requires 0 <= i < |base| =>
      if Path(base[i]) != "" && LastWithPath(base, i) then OverlayMatching(base[i], Path(base[i]), cs) else base[i])
    + Unmatched(base, cs)
  }

  /** The source's loop computes the reference overlay. */
  lemma {:induction false} ApplyAllIsOverlay(base: seq<Element>, cs: seq<Element>)
    ensures ApplyAll(base, PathIndex(base), cs) == SnapshotOverlay(base, cs)
  {
    if |cs| > 0 {
      ApplyAllIsOverlay(base, cs[..|cs| - 1]);
      OverlaySnoc(base, cs);
    }
  }

  /** The step of `ApplyAllIsOverlay` for the last constraint element. */
  lemma OverlaySnoc(base: seq<Element>, cs: seq<Element>)
    requires |cs| > 0
    ensures ApplyConstraintElement(SnapshotOverlay(base, cs[..|cs| - 1]), PathIndex(base), cs[|cs| - 1])
            == SnapshotOverlay(base, cs)
  {
    var init := cs[..|cs| - 1];
    var c := cs[|cs| - 1];
    var prev := SnapshotOverlay(base, init);
    var next := SnapshotOverlay(base, cs);
    PathIndexSpec(base, Path(c));
    assert |next| == |base| + |Unmatched(base, cs)|;
    forall i | 0 <= i < |base|
      ensures next[i] == ApplyConstraintElement(prev, PathIndex(base), c)[i]
    {
      OverlaySnocAt(base, cs, i);
    }
    if Path(c) != "" && Path(c) !in PathIndex(base) {
      assert Unmatched(base, cs) == Unmatched(base, init) + [c];
    } else {
      assert Unmatched(base, cs) == Unmatched(base, init);
    }
  }

  /** `OverlaySnoc` at a position of the base. */
  lemma OverlaySnocAt(base: seq<Element>, cs: seq<Element>, i: nat)
    requires |cs| > 0 && i < |base|
    ensures SnapshotOverlay(base, cs)[i]
            == ApplyConstraintElement(SnapshotOverlay(base, cs[..|cs| - 1]), PathIndex(base), cs[|cs| - 1])[i]
  {
    var init := cs[..|cs| - 1];
    var c := cs[|cs| - 1];
    var index := PathIndex(base);
    var p := Path(base[i]);
    PathIndexSpec(base, Path(c));
    if p != "" && LastWithPath(base, i) {
      assert SnapshotOverlay(base, cs)[i] == OverlayMatching(base[i], p, cs);
      assert SnapshotOverlay(base, init)[i] == OverlayMatching(base[i], p, init);
      if Path(c) == p {
        PathIndexSpec(base, p);
        assert index[p] == i;
      }
    }
    if Path(c) != "" && Path(c) in index {
      var k := index[Path(c)];
      if k == i {
        assert p == Path(c);
      }
    }
  }

  /** What `mergeDefinitions` promises: identity fields from the
      constraint, everything else from the base, and the snapshot overlay
      when both have a snapshot. */
  lemma MergeSnapshotsSpec(base: StructureDefinition, constraint: StructureDefinition)
    ensures var r := MergeSnapshots(base, constraint);
            r.id == constraint.id && r.name == constraint.name && r.url == constraint.url
            && r.version == constraint.version
            && r.kind == base.kind && r.derivation == base.derivation && r.baseDefinition == base.baseDefinition
            && r.differential == base.differential
            && r.snapshot == if base.snapshot.Some? && constraint.snapshot.Some?
                             then Some(SnapshotOverlay(base.snapshot.value, constraint.snapshot.value))
                             else base.snapshot
  {
    if base.snapshot.Some? && constraint.snapshot.Some? {
      ApplyAllIsOverlay(base.snapshot.value, constraint.snapshot.value);
    }
  }

  /** `mergeDefinitions`: a copy of the base with the constraint's identity,
      then the base-element lookup, then the loop over the constraint's
      snapshot. */
  method MergeDefinitions(base: StructureDefinition, constraint: StructureDefinition) returns (merged: StructureDefinition)
    ensures merged == MergeSnapshots(base, constraint)
  {
    merged := base.(id := constraint.id, name := constraint.name, url := constraint.url, version := constraint.version);
    var baseElementsByPath: map<string, nat> := map[];
    if merged.snapshot.Some? {
      var els := merged.snapshot.value;
      for i := 0 to |els|
        invariant baseElementsByPath == PathIndex(els[..i])
      {
        assert els[..i + 1][..i] == els[..i];
        if Path(els[i]) != "" {
          baseElementsByPath := baseElementsByPath[Path(els[i]) := i];
        }
      }
      assert els[..|els|] == els;
    }
    if constraint.snapshot.Some? && merged.snapshot.Some? {
      var els: seq<Element> := merged.snapshot.value;
      var cs := constraint.snapshot.value;
      for i := 0 to |cs|
        invariant els == ApplyAll(base.snapshot.value, baseElementsByPath, cs[..i])
      {
        assert cs[..i + 1][..i] == cs[..i];
        var constraintElement := cs[i];
        if Path(constraintElement) != "" {
          if Path(constraintElement) in baseElementsByPath {
            var k := baseElementsByPath[Path(constraintElement)];
            els := els[k := Overlay(els[k], constraintElement)];
          } else {
            els := els + [constraintElement];
          }
        }
      }
      assert cs[..|cs|] == cs;
      merged := merged.(snapshot := Some(els));
    }
  }
}
