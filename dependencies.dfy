/** src/buildDependencyTree.ts: for every definition, the list of type codes
    (and, for a constraint, the base type) it refers to. A `DependencyMap`
    is a JavaScript object keyed by definition id; its keys keep insertion
    order and re-assigning a key keeps its place, which is what an ordered
    map's `set` does. */
module DependencyTree {
  import opened Wrappers
  import opened OrderedMaps
  import opened Fhir
  import opened Utils

  type DependencyMap = OrderedMap<seq<string>>

  // ---------------------------------------------------------------------
  // Lists without duplicates

  predicate NoDuplicates(s: seq<string>)
  {
    forall i, j :: 0 <= i < j < |s| ==> s[i] != s[j]
  }

  /** `if (!list.includes(x)) list.push(x)` */
  function AddUnique(list: seq<string>, x: string): seq<string>
  {
    if x in list then list else list + [x]
  }

  /** Pushing each of `xs` in turn with the `includes` guard. */
  function AddAll(list: seq<string>, xs: seq<string>): seq<string>
    decreases |xs|
  {
    if |xs| == 0 then list else AddAll(AddUnique(list, xs[0]), xs[1..])
  }

  /** The reference reading of "deduplicated, first occurrence kept": each
      item of `s` that did not occur earlier in `s`, in order. */
  function FirstOccurrences(s: seq<string>): seq<string>
  {
    if |s| == 0 then []
    else FirstOccurrences(s[..|s| - 1]) + (if s[|s| - 1] in s[..|s| - 1] then [] else [s[|s| - 1]])
  }

  lemma {:induction false} FirstOccurrencesSpec(s: seq<string>)
    ensures NoDuplicates(FirstOccurrences(s))
    ensures forall x :: x in FirstOccurrences(s) <==> x in s
  {
    if |s| > 0 {
      var init := s[..|s| - 1];
      FirstOccurrencesSpec(init);
      assert s == init + [s[|s| - 1]];
    }
  }

  /** The guarded pushes keep exactly the first occurrences: starting from a
      list without duplicates, the result is the first occurrences of the
      list followed by the new items. */
  lemma {:induction false} AddAllIsFirstOccurrences(list: seq<string>, xs: seq<string>)
    requires NoDuplicates(list)
    ensures AddAll(list, xs) == FirstOccurrences(list + xs)
    decreases |xs|
  {
    if |xs| == 0 {
      assert list + xs == list;
      FirstOccurrencesOfDistinct(list);
    } else {
      var l1 := AddUnique(list, xs[0]);
      AddUniqueKeepsDistinct(list, xs[0]);
      calc {
        AddAll(list, xs);
        AddAll(l1, xs[1..]);
        { AddAllIsFirstOccurrences(l1, xs[1..]); }
        FirstOccurrences(l1 + xs[1..]);
        { FirstOccurrencesSkip(list, xs[0], xs[1..]); }
        FirstOccurrences(list + [xs[0]] + xs[1..]);
        { assert list + [xs[0]] + xs[1..] == list + xs; }
        FirstOccurrences(list + xs);
      }
    }
  }

  lemma AddUniqueKeepsDistinct(list: seq<string>, x: string)
    requires NoDuplicates(list)
    ensures NoDuplicates(AddUnique(list, x))
  {
  }

  lemma {:induction false} FirstOccurrencesOfDistinct(s: seq<string>)
    requires NoDuplicates(s)
    ensures FirstOccurrences(s) == s
  {
    if |s| > 0 {
      var init := s[..|s| - 1];
      FirstOccurrencesOfDistinct(init);
      assert s == init + [s[|s| - 1]];
    }
  }

  /** Appending an item already present adds nothing to the first
      occurrences of what follows. */
  lemma {:induction false} FirstOccurrencesSkip(list: seq<string>, x: string, rest: seq<string>)
    ensures FirstOccurrences(AddUnique(list, x) + rest) == FirstOccurrences(list + [x] + rest)
    decreases |rest|
  {
    if |rest| == 0 {
      assert AddUnique(list, x) + rest == AddUnique(list, x);
      assert list + [x] + rest == list + [x];
      if x in list {
        var s := list + [x];
        assert s[..|s| - 1] == list;
      }
    } else {
      var a := AddUnique(list, x) + rest;
      var b := list + [x] + rest;
      FirstOccurrencesSkip(list, x, rest[..|rest| - 1]);
      assert a[..|a| - 1] == AddUnique(list, x) + rest[..|rest| - 1];
      assert b[..|b| - 1] == list + [x] + rest[..|rest| - 1];
      var y := rest[|rest| - 1];
      assert y in a[..|a| - 1] <==> y in b[..|b| - 1];
    }
  }

  // ---------------------------------------------------------------------
  // The codes an element list refers to

  /** The `valueUrl`s of every fhir-type extension of a type entry, skipping
      those without one. */
  function ExtensionCodes(exts: seq<Extension>): seq<string>
  {
    if |exts| == 0 then []
    else
      var e := exts[0];
      (if e.url == FhirTypeExtensionUrl && e.valueUrl.Some? && e.valueUrl.value != ""
       then [e.valueUrl.value] else [])
      + ExtensionCodes(exts[1..])
  }

  /** The extension codes of a type entry, then its `code` when that is a
      non-empty string. */
  function TypeRefCodes(t: TypeRef): seq<string>
  {
    ExtensionCodes(t.extension) + (if t.code.Some? && t.code.value != "" then [t.code.value] else [])
  }

  function TypeRefsCodes(ts: seq<TypeRef>): seq<string>
  {
    if |ts| == 0 then [] else TypeRefCodes(ts[0]) + TypeRefsCodes(ts[1..])
  }

  function ElementCodes(e: Element): seq<string>
  {
    match Types(e)
    case None => []
    case Some(ts) => TypeRefsCodes(ts)
  }

  /** Every code the elements refer to, in the order the loops meet them. */
  function ElementsCodes(els: seq<Element>): seq<string>
  {
    if |els| == 0 then [] else ElementCodes(els[0]) + ElementsCodes(els[1..])
  }

  lemma {:induction false} AddAllAppend(list: seq<string>, a: seq<string>, b: seq<string>)
    ensures AddAll(list, a + b) == AddAll(AddAll(list, a), b)
    decreases |a|
  {
    if |a| > 0 {
      assert (a + b)[0] == a[0] && (a + b)[1..] == a[1..] + b;
      AddAllAppend(AddUnique(list, a[0]), a[1..], b);
    } else {
      assert a + b == b;
    }
  }

  lemma ExtensionCodesSnoc(exts: seq<Extension>, k: nat)
    requires k < |exts|
    ensures ExtensionCodes(exts[..k + 1]) == ExtensionCodes(exts[..k]) + ExtensionCodes([exts[k]])
    decreases k
  {
    if k > 0 {
      ExtensionCodesSnoc(exts[1..], k - 1);
      assert exts[..k + 1][1..] == exts[1..][..k];
      assert exts[..k][1..] == exts[1..][..k - 1];
    }
  }

  lemma TypeRefsCodesSnoc(ts: seq<TypeRef>, k: nat)
    requires k < |ts|
    ensures TypeRefsCodes(ts[..k + 1]) == TypeRefsCodes(ts[..k]) + TypeRefCodes(ts[k])
    decreases k
  {
    if k > 0 {
      TypeRefsCodesSnoc(ts[1..], k - 1);
      assert ts[..k + 1][1..] == ts[1..][..k];
      assert ts[..k][1..] == ts[1..][..k - 1];
    }
  }

  lemma ElementsCodesSnoc(els: seq<Element>, k: nat)
    requires k < |els|
    ensures ElementsCodes(els[..k + 1]) == ElementsCodes(els[..k]) + ElementCodes(els[k])
    decreases k
  {
    if k > 0 {
      ElementsCodesSnoc(els[1..], k - 1);
      assert els[..k + 1][1..] == els[1..][..k];
      assert els[..k][1..] == els[1..][..k - 1];
    }
  }

  /** `updateDependencyMap`: the list of `id` gets every code of `elements`
      it does not hold yet, in order; no other entry changes. */
  method UpdateDependencyMap(id: string, dependencyMap: DependencyMap, elements: seq<Element>)
    returns (r: DependencyMap)
    requires Get(dependencyMap, id).Some?
    ensures r == MapSet(dependencyMap, id, AddAll(Get(dependencyMap, id).value, ElementsCodes(elements)))
  {
    var list := Get(dependencyMap, id).value;
    ghost var list0 := list;
    for i := 0 to |elements|
      invariant list == AddAll(list0, ElementsCodes(elements[..i]))
    {
      var element := elements[i];
      ElementsCodesSnoc(elements, i);
      AddAllAppend(list0, ElementsCodes(elements[..i]), ElementCodes(element));
      if Types(element).Some? {
        var types := Types(element).value;
        ghost var atElement := list;
        for j := 0 to |types|
          invariant list == AddAll(atElement, TypeRefsCodes(types[..j]))
        {
          var typeInfo := types[j];
          TypeRefsCodesSnoc(types, j);
          AddAllAppend(atElement, TypeRefsCodes(types[..j]), TypeRefCodes(typeInfo));
          ghost var atType := list;
          for k := 0 to |typeInfo.extension|
            invariant list == AddAll(atType, ExtensionCodes(typeInfo.extension[..k]))
          {
            var typeExtension := typeInfo.extension[k];
            ExtensionCodesSnoc(typeInfo.extension, k);
            AddAllAppend(atType, ExtensionCodes(typeInfo.extension[..k]), ExtensionCodes([typeExtension]));
            if typeExtension.url == FhirTypeExtensionUrl {
              var value := typeExtension.valueUrl;
              if value.None? || value.value == "" {
                continue;
              }
              list := AddUnique(list, value.value);
            }
          }
          assert typeInfo.extension[..|typeInfo.extension|] == typeInfo.extension;
          AddAllAppend(atType, ExtensionCodes(typeInfo.extension),
                       if typeInfo.code.Some? && typeInfo.code.value != "" then [typeInfo.code.value] else []);
          if typeInfo.code.Some? && typeInfo.code.value != "" {
            list := AddUnique(list, typeInfo.code.value);
          }
        }
        assert types[..|types|] == types;
      }
    }
    assert elements[..|elements|] == elements;
    r := MapSet(dependencyMap, id, list);
  }

  // ---------------------------------------------------------------------
  // buildDependencyMap

  /** `typeNameUrlConverter.urlToTypeName(baseUrl) || baseUrl` */
  function BaseId(urlToId: map<string, string>, baseUrl: string): string
  {
    if baseUrl in urlToId && urlToId[baseUrl] != "" then urlToId[baseUrl] else baseUrl
  }

  predicate HasElements(sd: StructureDefinition)
  {
    sd.snapshot.Some? || sd.differential.Some?
  }

  function ElementsOr(els: Option<seq<Element>>): seq<Element>
  {
    if els.Some? then els.value else []
  }

  /** The list a definition with a snapshot or a differential gets:
      nothing for a primitive type; otherwise its base id (for a
      constraint), then the codes of its snapshot, then those of its
      differential, each kept once. */
  function DependencyEntry(sd: StructureDefinition, urlToId: map<string, string>): Result<seq<string>>
  {
    if sd.kind == PrimitiveType then Ok([])
    else if IsConstraint(sd) && BaseUrl(sd).None? then
      Err("StructureDefinition " + sd.id + " has no baseDefinition.")
    else
      var start := if IsConstraint(sd) then [BaseId(urlToId, BaseUrl(sd).value)] else [];
      Ok(AddAll(AddAll(start, ElementsCodes(ElementsOr(sd.snapshot))), ElementsCodes(ElementsOr(sd.differential))))
  }

  /** The map after the loop has seen `defs`, or the first error. */
  function DependencyMapOf(defs: seq<StructureDefinition>, urlToId: map<string, string>): Result<DependencyMap>
  {
    if |defs| == 0 then Ok([])
    else
      var dm :- DependencyMapOf(defs[..|defs| - 1], urlToId);
      var sd := defs[|defs| - 1];
      if !HasElements(sd) then Ok(dm)
      else
        var entry :- DependencyEntry(sd, urlToId);
        Ok(MapSet(dm, sd.id, entry))
  }

  /** One pass of the loop of `buildDependencyMap` over a definition that
      has a snapshot or a differential: its entry is reset, then filled. */
  method AddDefinition(typeNameUrlConverter: TypeNameUrlConverter, dm: DependencyMap,
                       structureDefinition: StructureDefinition)
    returns (r: Result<DependencyMap>)
    requires HasElements(structureDefinition)
    ensures r == (var entry := DependencyEntry(structureDefinition, typeNameUrlConverter.urlToTypeNameMap);
                  if entry.Err? then Err(entry.error) else Ok(MapSet(dm, structureDefinition.id, entry.value)))
  {
    var id := structureDefinition.id;
    var dependencyMap := MapSet(dm, id, []);
    MapSetGetSame(dm, id, []);
    if structureDefinition.kind == PrimitiveType {
      return Ok(dependencyMap);
    }
    ghost var start: seq<string> := [];
    if IsConstraint(structureDefinition) && BaseUrl(structureDefinition).Some? {
      var baseUrl := BaseUrl(structureDefinition).value;
      var converted := typeNameUrlConverter.UrlToTypeName(baseUrl);
      var baseId := if converted.Some? && converted.value != "" then converted.value else baseUrl;
      assert baseId == BaseId(typeNameUrlConverter.urlToTypeNameMap, baseUrl);
      var list := Get(dependencyMap, id).value;
      assert list == [];
      if baseId !in list {
        assert list + [baseId] == [baseId];
        MapSetTwice(dm, id, [], [baseId]);
        dependencyMap := MapSet(dependencyMap, id, list + [baseId]);
      }
      start := [baseId];
      assert dependencyMap == MapSet(dm, id, start);
    }
    if IsConstraint(structureDefinition) && BaseUrl(structureDefinition).None? {
      return Err("StructureDefinition " + id + " has no baseDefinition.");
    }
    assert dependencyMap == MapSet(dm, id, start);
    MapSetGetSame(dm, id, start);
    var snapshotElements := ElementsOr(structureDefinition.snapshot);
    var differentialElements := ElementsOr(structureDefinition.differential);
    ghost var afterSnapshot := AddAll(start, ElementsCodes(snapshotElements));
    if |snapshotElements| > 0 {
      dependencyMap := UpdateDependencyMap(id, dependencyMap, snapshotElements);
      MapSetTwice(dm, id, start, afterSnapshot);
    } else {
      assert ElementsCodes(snapshotElements) == [];
    }
    assert dependencyMap == MapSet(dm, id, afterSnapshot);
    MapSetGetSame(dm, id, afterSnapshot);
    ghost var afterDifferential := AddAll(afterSnapshot, ElementsCodes(differentialElements));
    if |differentialElements| > 0 {
      dependencyMap := UpdateDependencyMap(id, dependencyMap, differentialElements);
      MapSetTwice(dm, id, afterSnapshot, afterDifferential);
    } else {
      assert ElementsCodes(differentialElements) == [];
    }
    return Ok(dependencyMap);
  }

  /** Once the loop has thrown, the rest of the definitions do not matter. */
  lemma {:induction false} DependencyMapOfErr(defs: seq<StructureDefinition>, n: nat, urlToId: map<string, string>)
    requires n <= |defs| && DependencyMapOf(defs[..n], urlToId).Err?
    ensures DependencyMapOf(defs, urlToId) == DependencyMapOf(defs[..n], urlToId)
    decreases |defs| - n
  {
    if n < |defs| {
      var longer := defs[..n + 1];
      assert longer[..|longer| - 1] == defs[..n];
      DependencyMapOfErr(defs, n + 1, urlToId);
    } else {
      assert defs[..n] == defs;
    }
  }

  /** `buildDependencyMap` */
  method BuildDependencyMap(structureDefinitions: seq<StructureDefinition>) returns (r: Result<DependencyMap>)
    ensures r == DependencyMapOf(structureDefinitions, LastWins(UrlIdPairs(structureDefinitions)))
  {
    var typeNameUrlConverter := new TypeNameUrlConverter(structureDefinitions);
    ghost var urlToId := LastWins(UrlIdPairs(structureDefinitions));
    var dependencyMap: DependencyMap := [];
    for i := 0 to |structureDefinitions|
      invariant typeNameUrlConverter.urlToTypeNameMap == urlToId
      invariant DependencyMapOf(structureDefinitions[..i], urlToId) == Ok(dependencyMap)
    {
      var structureDefinition := structureDefinitions[i];
      DependencyMapOfSnoc(structureDefinitions, i, urlToId);
      if !HasElements(structureDefinition) {
        continue;
      }
      var next := AddDefinition(typeNameUrlConverter, dependencyMap, structureDefinition);
      if next.Err? {
        DependencyMapOfErr(structureDefinitions, i + 1, urlToId);
        return Err(next.error);
      }
      dependencyMap := next.value;
    }
    WholeDefinitions(structureDefinitions);
    return Ok(dependencyMap);
  }

  /** One more pass of the loop, seen from the fold. */
  lemma DependencyMapOfSnoc(defs: seq<StructureDefinition>, i: nat, urlToId: map<string, string>)
    requires i < |defs|
    ensures DependencyMapOf(defs[..i + 1], urlToId)
            == match DependencyMapOf(defs[..i], urlToId)
               case Err(m) => Err(m)
               case Ok(dm) =>
                 if !HasElements(defs[i]) then Ok(dm)
                 else match DependencyEntry(defs[i], urlToId)
                      case Err(m) => Err(m)
                      case Ok(entry) => Ok(MapSet(dm, defs[i].id, entry))
  {
    var seen := defs[..i + 1];
    assert seen[..|seen| - 1] == defs[..i];
  }

  lemma WholeDefinitions(defs: seq<StructureDefinition>)
    ensures defs[..|defs|] == defs
  {}

  // ---------------------------------------------------------------------
  // What the map holds

  /** `AddAll` only ever appends. */
  lemma {:induction false} AddAllExtends(list: seq<string>, xs: seq<string>)
    ensures |AddAll(list, xs)| >= |list| && AddAll(list, xs)[..|list|] == list
    decreases |xs|
  {
    if |xs| > 0 {
      AddAllExtends(AddUnique(list, xs[0]), xs[1..]);
      assert AddUnique(list, xs[0])[..|list|] == list;
    }
  }

  /** A definition's entry: an error exactly for a non-primitive constraint
      without a base; otherwise a list without duplicates that starts with
      the base id of a constraint and holds exactly that id and the codes of
      the snapshot and the differential. A primitive type depends on
      nothing. */
  lemma DependencyEntrySpec(sd: StructureDefinition, urlToId: map<string, string>)
    ensures DependencyEntry(sd, urlToId).Err? <==>
            sd.kind != PrimitiveType && IsConstraint(sd) && BaseUrl(sd).None?
    ensures sd.kind == PrimitiveType ==> DependencyEntry(sd, urlToId) == Ok([])
    ensures DependencyEntry(sd, urlToId).Ok? ==> NoDuplicates(DependencyEntry(sd, urlToId).value)
    ensures DependencyEntry(sd, urlToId).Ok? && sd.kind != PrimitiveType && IsConstraint(sd) ==>
            |DependencyEntry(sd, urlToId).value| > 0 &&
            DependencyEntry(sd, urlToId).value[0] == BaseId(urlToId, BaseUrl(sd).value)
    ensures DependencyEntry(sd, urlToId).Ok? && sd.kind != PrimitiveType ==>
            forall x :: x in DependencyEntry(sd, urlToId).value <==>
              (IsConstraint(sd) && x == BaseId(urlToId, BaseUrl(sd).value)) ||
              x in ElementsCodes(ElementsOr(sd.snapshot)) || x in ElementsCodes(ElementsOr(sd.differential))
  {
    var r := DependencyEntry(sd, urlToId);
    if r.Ok? && sd.kind != PrimitiveType {
      var start := if IsConstraint(sd) then [BaseId(urlToId, BaseUrl(sd).value)] else [];
      var c1 := ElementsCodes(ElementsOr(sd.snapshot));
      var c2 := ElementsCodes(ElementsOr(sd.differential));
      var mid := AddAll(start, c1);
      AddAllIsFirstOccurrences(start, c1);
      FirstOccurrencesSpec(start + c1);
      AddAllIsFirstOccurrences(mid, c2);
      FirstOccurrencesSpec(mid + c2);
      AddAllExtends(start, c1);
      AddAllExtends(mid, c2);
      assert r.value == AddAll(mid, c2);
      if IsConstraint(sd) {
        assert mid[0] == start[0];
        assert r.value[0] == mid[0];
      }
    }
  }

  /** The last definition with id `k` that has a snapshot or a differential. */
  function LastWithElements(defs: seq<StructureDefinition>, k: string): Option<StructureDefinition>
  {
    if |defs| == 0 then None
    else if defs[|defs| - 1].id == k && HasElements(defs[|defs| - 1]) then Some(defs[|defs| - 1])
    else LastWithElements(defs[..|defs| - 1], k)
  }

  /** The ids of the definitions that have a snapshot or a differential. */
  predicate IsListedId(defs: seq<StructureDefinition>, k: string)
  {
    exists i :: 0 <= i < |defs| && defs[i].id == k && HasElements(defs[i])
  }

  /** The keys of the map are distinct and are exactly the ids of the
      definitions with a snapshot or a differential. */
  lemma {:induction false} DependencyMapKeys(defs: seq<StructureDefinition>, urlToId: map<string, string>)
    requires DependencyMapOf(defs, urlToId).Ok?
    ensures DistinctKeys(DependencyMapOf(defs, urlToId).value)
    ensures forall k :: k in Keys(DependencyMapOf(defs, urlToId).value) <==> IsListedId(defs, k)
  {
    if |defs| > 0 {
      var init := defs[..|defs| - 1];
      var sd := defs[|defs| - 1];
      DependencyMapKeys(init, urlToId);
      var dm := DependencyMapOf(init, urlToId).value;
      forall k ensures IsListedId(defs, k) <==> IsListedId(init, k) || (k == sd.id && HasElements(sd)) {
        if IsListedId(defs, k) {
          var i :| 0 <= i < |defs| && defs[i].id == k && HasElements(defs[i]);
          if i < |init| {
            assert init[i] == defs[i];
          }
        }
        if IsListedId(init, k) {
          var i :| 0 <= i < |init| && init[i].id == k && HasElements(init[i]);
          assert defs[i] == init[i];
        }
      }
      if HasElements(sd) {
        MapSetKeys(dm, sd.id, DependencyEntry(sd, urlToId).value);
      }
    }
  }

  /** Each key holds the entry of the last definition with that id and a
      snapshot or a differential: a later definition resets the list of an
      earlier one. */
  lemma {:induction false} DependencyMapValues(defs: seq<StructureDefinition>, urlToId: map<string, string>, k: string)
    requires DependencyMapOf(defs, urlToId).Ok?
    ensures LastWithElements(defs, k).None? ==> Get(DependencyMapOf(defs, urlToId).value, k) == None
    ensures LastWithElements(defs, k).Some? ==>
              Get(DependencyMapOf(defs, urlToId).value, k).Some? &&
              DependencyEntry(LastWithElements(defs, k).value, urlToId) == Ok(Get(DependencyMapOf(defs, urlToId).value, k).value)
  {
    if |defs| > 0 {
      var init := defs[..|defs| - 1];
      var sd := defs[|defs| - 1];
      DependencyMapValues(init, urlToId, k);
      var dm := DependencyMapOf(init, urlToId).value;
      if HasElements(sd) {
        var entry := DependencyEntry(sd, urlToId).value;
        if k == sd.id {
          MapSetGetSame(dm, sd.id, entry);
        } else {
          MapSetGetOther(dm, sd.id, entry, k);
        }
      }
    }
  }

  /** The loop throws exactly when some definition with a snapshot or a
      differential is a non-primitive constraint without a base, and the
      message names the first such definition. */
  lemma {:induction false} DependencyMapOfErrSpec(defs: seq<StructureDefinition>, urlToId: map<string, string>)
    ensures DependencyMapOf(defs, urlToId).Err? <==>
            exists i :: 0 <= i < |defs| && Throws(defs[i])
    ensures DependencyMapOf(defs, urlToId).Err? ==>
            exists i :: 0 <= i < |defs| && Throws(defs[i]) &&
              (forall j :: 0 <= j < i ==> !Throws(defs[j])) &&
              DependencyMapOf(defs, urlToId).error == "StructureDefinition " + defs[i].id + " has no baseDefinition."
  {
    if |defs| > 0 {
      var init := defs[..|defs| - 1];
      var sd := defs[|defs| - 1];
      DependencyMapOfErrSpec(init, urlToId);
      if DependencyMapOf(init, urlToId).Err? {
        var i :| 0 <= i < |init| && Throws(init[i]) &&
              (forall j :: 0 <= j < i ==> !Throws(init[j])) &&
              DependencyMapOf(init, urlToId).error == "StructureDefinition " + init[i].id + " has no baseDefinition.";
        assert defs[i] == init[i];
        assert forall j :: 0 <= j < i ==> defs[j] == init[j];
      } else {
        assert forall j :: 0 <= j < |init| ==> !Throws(defs[j]) by {
          forall j | 0 <= j < |init| ensures !Throws(defs[j]) {
            assert defs[j] == init[j];
          }
        }
        DependencyEntrySpec(sd, urlToId);
      }
    }
  }

  /** A definition the loop throws on. */
  predicate Throws(sd: StructureDefinition)
  {
    HasElements(sd) && sd.kind != PrimitiveType && IsConstraint(sd) && BaseUrl(sd).None?
  }

  /** An element with a single type entry `code`, as the unit tests write it. */
  function TypedElement(path: string, code: string): Element
  {
    map["path" := VStr(path), "type" := VTypes([TypeRef(Some(code), [])])]
  }

  /** A resource whose snapshot names `HumanName` and whose differential
      names `HumanName` again and `Identifier` depends on the two types, each
      listed once, in the order met; no input gives no map entries. */
  lemma PatientScenario()
    ensures DependencyMapOf([], map[]) == Ok([])
    ensures DependencyMapOf(
              [StructureDefinition("Patient", "http://hl7.org/fhir/StructureDefinition/Patient", "Patient",
                                   None, Resource, Some(Specialization), None,
                                   Some([TypedElement("Patient.name", "HumanName")]),
                                   Some([TypedElement("Patient.name", "HumanName"),
                                         TypedElement("Patient.identifier", "Identifier")]))],
              map[]) == Ok([KV("Patient", ["HumanName", "Identifier"])])
  {
    var name := TypedElement("Patient.name", "HumanName");
    var identifier := TypedElement("Patient.identifier", "Identifier");
    var patient := StructureDefinition("Patient", "http://hl7.org/fhir/StructureDefinition/Patient", "Patient",
                                       None, Resource, Some(Specialization), None,
                                       Some([name]), Some([name, identifier]));
    PatientEntry(patient, name, identifier);
    assert [patient][..0] == [];
    assert DependencyMapOf([patient], map[]) == Ok(MapSet([], "Patient", ["HumanName", "Identifier"]));
    assert MapSet([], "Patient", ["HumanName", "Identifier"]) == [KV("Patient", ["HumanName", "Identifier"])];
  }

  lemma PatientCodes(name: Element, identifier: Element)
    requires name == TypedElement("Patient.name", "HumanName")
    requires identifier == TypedElement("Patient.identifier", "Identifier")
    ensures ElementsCodes([name]) == ["HumanName"]
    ensures ElementsCodes([name, identifier]) == ["HumanName", "Identifier"]
  {
    assert ElementCodes(name) == ["HumanName"] by {
      assert Types(name) == Some([TypeRef(Some("HumanName"), [])]);
    }
    assert ElementCodes(identifier) == ["Identifier"] by {
      assert Types(identifier) == Some([TypeRef(Some("Identifier"), [])]);
    }
    assert ElementsCodes([name]) == ["HumanName"] by {
      assert [name][1..] == [];
    }
    assert [name, identifier][1..] == [identifier];
    assert [identifier][1..] == [];
  }

  lemma PatientAddAll()
    ensures AddAll([], ["HumanName"]) == ["HumanName"]
    ensures AddAll(["HumanName"], ["HumanName", "Identifier"]) == ["HumanName", "Identifier"]
  {
    assert ["HumanName", "Identifier"][1..] == ["Identifier"];
    assert AddAll(["HumanName"], ["Identifier"]) == ["HumanName", "Identifier"];
  }

  lemma PatientEntry(patient: StructureDefinition, name: Element, identifier: Element)
    requires name == TypedElement("Patient.name", "HumanName")
    requires identifier == TypedElement("Patient.identifier", "Identifier")
    requires patient == StructureDefinition("Patient", "http://hl7.org/fhir/StructureDefinition/Patient", "Patient",
                                            None, Resource, Some(Specialization), None,
                                            Some([name]), Some([name, identifier]))
    ensures HasElements(patient) && DependencyEntry(patient, map[]) == Ok(["HumanName", "Identifier"])
  {
    PatientCodes(name, identifier);
    PatientAddAll();
  }
}
