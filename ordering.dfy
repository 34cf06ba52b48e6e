/** src/processStructureDefinitionsInOrder.ts: the order definitions are
    emitted in (a depth-first post-order over the dependency map), the
    schema name a definition is exported under, and the index file that
    re-exports every generated schema. */
module Ordering {
  import opened Wrappers
  import opened OrderedMaps
  import opened Text
  import opened Fhir
  import opened Utils
  import opened DependencyTree

  /** `dependencyMap[id] || []` */
  function Dependencies(dm: DependencyMap, id: string): seq<string>
  {
    match Get(dm, id)
    case Some(ds) => ds
    case None => []
  }

  /** `dependencyMap[id]` is truthy exactly for the keys of the map. */
  lemma GetSomeIffKey(dm: DependencyMap, id: string)
    ensures Get(dm, id).Some? <==> id in Keys(dm)
  {
    var i := IndexOfKey(dm, id);
    if id in Keys(dm) {
      var j :| 0 <= j < |Keys(dm)| && Keys(dm)[j] == id;
      assert dm[j].key == id;
    }
  }

  function KeySet(dm: DependencyMap): set<string>
  {
    set k | k in Keys(dm)
  }

  /** `xs[0]` depends on `xs[1]`, which depends on `xs[2]`, and so on. */
  ghost predicate Chain(dm: DependencyMap, xs: seq<string>)
  {
    |xs| > 0 && forall k :: 0 <= k < |xs| - 1 ==> xs[k + 1] in Dependencies(dm, xs[k])
  }

  /** `a` depends on `b`, directly or through other ids (or `a == b`). */
  ghost predicate Reaches(dm: DependencyMap, a: string, b: string)
  {
    exists xs :: Chain(dm, xs) && xs[0] == a && xs[|xs| - 1] == b
  }

  /** No id depends on itself, directly or through other ids. */
  ghost predicate Acyclic(dm: DependencyMap)
  {
    forall xs :: Chain(dm, xs) ==> xs[0] !in Dependencies(dm, xs[|xs| - 1])
  }

  /** Every dependency of an emitted id that is itself a key was emitted
      before it, unless the dependency lies on a cycle through that id. */
  ghost predicate DependenciesFirst(dm: DependencyMap, order: seq<string>)
  {
    forall i, d :: 0 <= i < |order| && d in Dependencies(dm, order[i]) && d in Keys(dm) ==>
      d in order[..i] || Reaches(dm, d, order[i])
  }

  lemma DependenciesFirstSnoc(dm: DependencyMap, order: seq<string>, x: string)
    requires DependenciesFirst(dm, order)
    requires forall d :: d in Dependencies(dm, x) && d in Keys(dm) ==> d in order || Reaches(dm, d, x)
    ensures DependenciesFirst(dm, order + [x])
  {
    var o := order + [x];
    forall i, d | 0 <= i < |o| && d in Dependencies(dm, o[i]) && d in Keys(dm)
      ensures d in o[..i] || Reaches(dm, d, o[i])
    {
      if i < |order| {
        assert o[..i] == order[..i] && o[i] == order[i];
      } else {
        assert o[..i] == order;
      }
    }
  }

  /** When a visit ends, each dependency that is a key is done or is on the
      stack of visits in progress, which leads down to the id. */
  lemma PushedDependencies(dm: DependencyMap, stack: seq<string>, id: string, dependencies: seq<string>,
                           visited: set<string>, result: seq<string>)
    requires |stack| > 0 && stack[|stack| - 1] == id && dependencies == Dependencies(dm, id)
    requires forall k :: 0 <= k < |stack| - 1 ==> stack[k + 1] in Dependencies(dm, stack[k])
    requires forall x :: x in visited <==> x in result
    requires forall k :: 0 <= k < |dependencies| && dependencies[k] in Keys(dm) ==>
               dependencies[k] in visited || dependencies[k] in stack
    ensures forall d :: d in Dependencies(dm, id) && d in Keys(dm) ==> d in result || Reaches(dm, d, id)
  {
    forall d | d in Dependencies(dm, id) && d in Keys(dm)
      ensures d in result || Reaches(dm, d, id)
    {
      var k :| 0 <= k < |dependencies| && dependencies[k] == d;
      if d !in visited {
        var t :| 0 <= t < |stack| && stack[t] == d;
        StackSuffixReaches(dm, stack, t);
      }
    }
  }

  /** Each id on a stack of dependencies reaches the top of the stack. */
  lemma {:induction false} StackSuffixReaches(dm: DependencyMap, stack: seq<string>, t: nat)
    requires t < |stack|
    requires forall k :: 0 <= k < |stack| - 1 ==> stack[k + 1] in Dependencies(dm, stack[k])
    ensures Reaches(dm, stack[t], stack[|stack| - 1])
  {
    var xs := stack[t..];
    SuffixChain(dm, stack, t);
    ChainReaches(dm, xs);
    assert xs[0] == stack[t] && xs[|xs| - 1] == stack[|stack| - 1];
  }

  lemma ChainReaches(dm: DependencyMap, xs: seq<string>)
    requires Chain(dm, xs)
    ensures Reaches(dm, xs[0], xs[|xs| - 1])
  {
  }

  lemma SuffixChain(dm: DependencyMap, stack: seq<string>, t: nat)
    requires t < |stack|
    requires forall k :: 0 <= k < |stack| - 1 ==> stack[k + 1] in Dependencies(dm, stack[k])
    ensures Chain(dm, stack[t..])
  {
    var xs := stack[t..];
    forall k | 0 <= k < |xs| - 1
      ensures xs[k + 1] in Dependencies(dm, xs[k])
    {
      assert xs[k] == stack[t + k] && xs[k + 1] == stack[t + k + 1];
    }
  }

  /** The output holds each finished id once, and so does the stack of
      visits in progress; the two are disjoint, hold only keys, and the
      stack is a chain of dependencies. */
  ghost predicate SorterState(dm: DependencyMap, result: seq<string>, visited: set<string>,
                              temp: set<string>, stack: seq<string>)
  {
    && NoDuplicates(result)
    && (forall x :: x in visited <==> x in result)
    && NoDuplicates(stack)
    && (forall x :: x in temp <==> x in stack)
    && visited !! temp
    && (forall x :: x in result ==> x in Keys(dm))
    && (forall x :: x in stack ==> x in Keys(dm))
    && (forall k :: 0 <= k < |stack| - 1 ==> stack[k + 1] in Dependencies(dm, stack[k]))
    && DependenciesFirst(dm, result)
  }

  /** Starting a visit of a new key that depends from the top of the
      stack keeps the state valid. */
  lemma SorterStart(dm: DependencyMap, result: seq<string>, visited: set<string>,
                    temp: set<string>, stack: seq<string>, id: string)
    requires SorterState(dm, result, visited, temp, stack)
    requires id in Keys(dm) && id !in visited && id !in temp
    requires |stack| > 0 ==> id in Dependencies(dm, stack[|stack| - 1])
    ensures SorterState(dm, result, visited, temp + {id}, stack + [id])
  {
    ChainSnoc(dm, stack, id);
  }

  /** A stack of dependencies stays one when a dependency of its top is
      pushed. */
  lemma ChainSnoc(dm: DependencyMap, stack: seq<string>, id: string)
    requires forall k :: 0 <= k < |stack| - 1 ==> stack[k + 1] in Dependencies(dm, stack[k])
    requires |stack| > 0 ==> id in Dependencies(dm, stack[|stack| - 1])
    ensures forall k :: 0 <= k < |stack + [id]| - 1 ==> (stack + [id])[k + 1] in Dependencies(dm, (stack + [id])[k])
  {
    var s := stack + [id];
    forall k | 0 <= k < |s| - 1 ensures s[k + 1] in Dependencies(dm, s[k]) {
      if k < |stack| - 1 {
        assert s[k] == stack[k] && s[k + 1] == stack[k + 1];
      } else {
        assert s[k] == stack[|stack| - 1] && s[k + 1] == id;
      }
    }
  }

  /** Ending the visit of the top of the stack, once every dependency
      that is a key is done or on the stack, keeps the state valid. */
  lemma SorterFinish(dm: DependencyMap, result: seq<string>, visited: set<string>,
                     temp: set<string>, stack: seq<string>, id: string)
    requires SorterState(dm, result, visited, temp + {id}, stack + [id])
    requires id !in temp
    requires forall k :: 0 <= k < |Dependencies(dm, id)| ==> Settled(dm, visited, stack + [id], Dependencies(dm, id)[k])
    ensures SorterState(dm, result + [id], visited + {id}, temp, stack)
  {
    var s := stack + [id];
    assert s[|s| - 1] == id;
    PushedDependencies(dm, s, id, Dependencies(dm, id), visited, result);
    DependenciesFirstSnoc(dm, result, id);
    assert forall k :: 0 <= k < |stack| ==> s[k] == stack[k];
    assert id in s;
  }

  /** A key `x` is done or its visit is in progress. */
  predicate Settled(dm: DependencyMap, visited: set<string>, stack: seq<string>, x: string)
  {
    x in Keys(dm) ==> x in visited || x in stack
  }

  /** One more dependency of the loop of `visit(id)` is settled; the ones
      before it stay settled as `visited` grows. */
  lemma SettledStep(dm: DependencyMap, v0: set<string>, visited: set<string>, temp: set<string>,
                    stack: seq<string>, deps: seq<string>, j: nat)
    requires j < |deps| && v0 <= visited
    requires forall x :: x in temp <==> x in stack
    requires forall k :: 0 <= k < j ==> Settled(dm, v0, stack, deps[k])
    requires deps[j] in Keys(dm) ==> deps[j] in visited || deps[j] in temp
    ensures forall k :: 0 <= k < j + 1 ==> Settled(dm, visited, stack, deps[k])
  {
  }

  // ---------------------------------------------------------------------
  // The order `topologicalSort` returns

  /** What the visits have done so far: the `visited` set and the output. */
  datatype SortState = SortState(visited: set<string>, result: seq<string>)

  /** `visit(id)`, given the ids whose visits are in progress (`temp`):
      nothing for an id done or in progress; otherwise the dependencies of
      `id` that are keys are visited in list order and `id` is appended. */
  function VisitF(dm: DependencyMap, id: string, s: SortState, temp: set<string>): (r: SortState)
    requires id in Keys(dm) && s.visited !! temp
    ensures s.visited <= r.visited && r.visited !! temp
    ensures s.result <= r.result
    decreases KeySet(dm) - s.visited - temp, 1
  {
    if id in s.visited || id in temp then s
    else
      var t := VisitDepsF(dm, id, Dependencies(dm, id), 0, s, temp + {id});
      SortState(t.visited + {id}, t.result + [id])
  }

  /** The loop of `visit(id)` over `deps` from position `j` on. */
  function VisitDepsF(dm: DependencyMap, id: string, deps: seq<string>, j: nat, s: SortState, temp: set<string>): (r: SortState)
    requires id in Keys(dm) && id in temp && id !in s.visited && s.visited !! temp && j <= |deps|
    ensures s.visited <= r.visited && r.visited !! temp
    ensures s.result <= r.result
    decreases KeySet(dm) - s.visited - (temp - {id}), 0, |deps| - j
  {
    if j == |deps| then s
    else
      var s' := if deps[j] in Keys(dm) then VisitF(dm, deps[j], s, temp) else s;
      VisitDepsF(dm, id, deps, j + 1, s', temp)
  }

  /** The loop of `topologicalSort` over `Object.keys(dependencyMap)` from
      position `j` on. */
  function VisitKeys(dm: DependencyMap, j: nat, s: SortState): SortState
    requires j <= |Keys(dm)|
    decreases |Keys(dm)| - j
  {
    if j == |Keys(dm)| then s else VisitKeys(dm, j + 1, VisitF(dm, Keys(dm)[j], s, {}))
  }

  /** The depth-first post-order `topologicalSort` returns: the keys are
      started in key order, and each id follows the ids its visit finished. */
  function PostOrder(dm: DependencyMap): seq<string>
  {
    VisitKeys(dm, 0, SortState({}, [])).result
  }

  /** The loop over dependencies none of which is a key changes nothing. */
  lemma {:induction false} VisitDepsWithoutKeys(dm: DependencyMap, id: string, deps: seq<string>, j: nat,
                                                s: SortState, temp: set<string>)
    requires id in Keys(dm) && id in temp && id !in s.visited && s.visited !! temp && j <= |deps|
    requires forall k :: 0 <= k < |deps| ==> deps[k] !in Keys(dm)
    ensures VisitDepsF(dm, id, deps, j, s, temp) == s
    decreases |deps| - j
  {
    if j < |deps| {
      VisitDepsWithoutKeys(dm, id, deps, j + 1, s, temp);
    }
  }

  /** The keys from position `j` on, visited after the ones before it. */
  lemma {:induction false} VisitKeysWithoutDependencies(dm: DependencyMap, j: nat, s: SortState)
    requires DistinctKeys(dm) && j <= |Keys(dm)|
    requires forall id, d :: id in Keys(dm) && d in Dependencies(dm, id) ==> d !in Keys(dm)
    requires s.result == Keys(dm)[..j] && forall x :: x in s.visited <==> x in Keys(dm)[..j]
    ensures VisitKeys(dm, j, s).result == Keys(dm)
    decreases |Keys(dm)| - j
  {
    var ks := Keys(dm);
    if j == |ks| {
      assert ks[..j] == ks;
    } else {
      var id := ks[j];
      assert id !in s.visited;
      var none: set<string> := {};
      VisitDepsWithoutKeys(dm, id, Dependencies(dm, id), 0, s, none + {id});
      assert VisitF(dm, id, s, none) == SortState(s.visited + {id}, s.result + [id]);
      assert ks[..j + 1] == ks[..j] + [id];
      VisitKeysWithoutDependencies(dm, j + 1, SortState(s.visited + {id}, s.result + [id]));
    }
  }

  /** When no dependency is a key, the order is exactly the key order. */
  lemma PostOrderWithoutDependencies(dm: DependencyMap)
    requires DistinctKeys(dm)
    requires forall id, d :: id in Keys(dm) && d in Dependencies(dm, id) ==> d !in Keys(dm)
    ensures PostOrder(dm) == Keys(dm)
  {
    assert Keys(dm)[..0] == [];
    VisitKeysWithoutDependencies(dm, 0, SortState({}, []));
  }

  /** A dependency that is a key comes before the id that needs it, even
      when it comes later in key order. */
  lemma PostOrderDependencyFirst()
    ensures PostOrder([KV("a", ["b"]), KV("b", [])]) == ["b", "a"]
  {
    var dm: DependencyMap := [KV("a", ["b"]), KV("b", [])];
    assert Keys(dm) == ["a", "b"];
    assert Dependencies(dm, "a") == ["b"];
    assert Dependencies(dm, "b") == [];
    var none := SortState({}, []);
    assert VisitDepsF(dm, "b", [], 0, none, {"a", "b"}) == none;
    var b := VisitF(dm, "b", none, {"a"});
    assert b == SortState({"b"}, ["b"]);
    assert VisitDepsF(dm, "a", ["b"], 1, b, {"a"}) == b;
    assert VisitDepsF(dm, "a", ["b"], 0, none, {"a"}) == b;
    var empty: set<string> := {};
    assert empty + {"a"} == {"a"};
    var a := VisitF(dm, "a", none, empty);
    assert a == SortState({"b", "a"}, ["b", "a"]);
    assert VisitF(dm, "b", a, empty) == a;
  }

  /** The state the `visit` closure of `topologicalSort` captures: the
      output array and the `visited` and `temp` sets. `stack` lists the ids
      in `temp` in the order their visits started. */
  class TopologicalSorter {
    const dependencyMap: DependencyMap
    var result: seq<string>
    var visited: set<string>
    var temp: set<string>
    ghost var stack: seq<string>

    ghost predicate Valid()
      reads this
    {
      SorterState(dependencyMap, result, visited, temp, stack)
    }

    constructor (dm: DependencyMap)
      ensures Valid()
      ensures dependencyMap == dm && result == [] && visited == {} && temp == {} && stack == []
    {
      dependencyMap := dm;
      result := [];
      visited := {};
      temp := {};
      stack := [];
    }

    /** `visit(id)`: nothing for an id already done or in progress;
        otherwise the dependencies that are keys are visited first and `id`
        is appended to the output. */
    method Visit(id: string)
      requires Valid() && id in Keys(dependencyMap)
      requires |stack| > 0 ==> id in Dependencies(dependencyMap, stack[|stack| - 1])
      modifies this
      ensures Valid()
      ensures stack == old(stack) && temp == old(temp)
      ensures old(visited) <= visited
      ensures old(result) <= result
      ensures id in visited || id in temp
      ensures SortState(visited, result) == VisitF(dependencyMap, id, SortState(old(visited), old(result)), temp)
      decreases KeySet(dependencyMap) - visited - temp, 1
    {
      if id in visited {
        return;
      }
      if id in temp {
        return;
      }
      SorterStart(dependencyMap, result, visited, temp, stack, id);
      temp := temp + {id};
      stack := stack + [id];
      VisitDependencies(id);
      SorterFinish(dependencyMap, result, visited, old(temp), old(stack), id);
      temp := temp - {id};
      stack := old(stack);
      visited := visited + {id};
      result := result + [id];
    }

    /** `id` is the visit in progress on top of the stack. */
    ghost predicate Visiting(id: string)
      reads this
    {
      Valid() && |stack| > 0 && stack[|stack| - 1] == id && id in temp && id !in visited
    }

    /** The loop of `visit(id)` over the dependencies of `id`, while `id`
        is the visit in progress on top of the stack. */
    method VisitDependencies(id: string)
      requires Visiting(id)
      modifies this
      ensures Visiting(id)
      ensures stack == old(stack) && temp == old(temp)
      ensures old(visited) <= visited
      ensures old(result) <= result
      ensures forall k :: 0 <= k < |Dependencies(dependencyMap, id)| ==>
                Settled(dependencyMap, visited, stack, Dependencies(dependencyMap, id)[k])
      ensures SortState(visited, result) ==
              VisitDepsF(dependencyMap, id, Dependencies(dependencyMap, id), 0, SortState(old(visited), old(result)), temp)
      decreases KeySet(dependencyMap) - visited - (temp - {id}), 0
    {
      var dependencies := Dependencies(dependencyMap, id);
      for j := 0 to |dependencies|
        invariant Visiting(id)
        invariant stack == old(stack) && temp == old(temp)
        invariant old(visited) <= visited
        invariant old(result) <= result
        invariant forall k :: 0 <= k < j ==> Settled(dependencyMap, visited, stack, dependencies[k])
        invariant VisitDepsF(dependencyMap, id, dependencies, j, SortState(visited, result), temp) ==
                  VisitDepsF(dependencyMap, id, dependencies, 0, SortState(old(visited), old(result)), temp)
      {
        var depId := dependencies[j];
        GetSomeIffKey(dependencyMap, depId);
        ghost var v0 := visited;
        if Get(dependencyMap, depId).Some? {
          Visit(depId);
        }
        SettledStep(dependencyMap, v0, visited, temp, stack, dependencies, j);
      }
    }
  }

  /** `topologicalSort`: every key of the map exactly once, a dependency
      before the ids that depend on it unless both lie on a cycle; a
      dependency that is not a key is never emitted. */
  method TopologicalSort(dependencyMap: DependencyMap) returns (order: seq<string>)
    ensures order == PostOrder(dependencyMap)
    ensures NoDuplicates(order)
    ensures forall x :: x in order <==> x in Keys(dependencyMap)
    ensures DependenciesFirst(dependencyMap, order)
    ensures Acyclic(dependencyMap) ==>
              forall i, d :: 0 <= i < |order| && d in Dependencies(dependencyMap, order[i]) && d in Keys(dependencyMap) ==>
                d in order[..i]
  {
    var sorter := new TopologicalSorter(dependencyMap);
    var ids := Keys(dependencyMap);
    for j := 0 to |ids|
      invariant sorter.Valid() && sorter.dependencyMap == dependencyMap
      invariant sorter.stack == [] && sorter.temp == {}
      invariant forall k :: 0 <= k < j ==> ids[k] in sorter.visited
      invariant VisitKeys(dependencyMap, j, SortState(sorter.visited, sorter.result)) == VisitKeys(dependencyMap, 0, SortState({}, []))
    {
      ghost var before := SortState(sorter.visited, sorter.result);
      sorter.Visit(ids[j]);
      assert SortState(sorter.visited, sorter.result) == VisitF(dependencyMap, ids[j], before, {});
      VisitedPrefix(ids, j, before.visited, sorter.visited);
    }
    assert VisitKeys(dependencyMap, |ids|, SortState(sorter.visited, sorter.result)) == SortState(sorter.visited, sorter.result);
    order := sorter.result;
    if Acyclic(dependencyMap) {
      AcyclicFirst(dependencyMap, order);
    }
  }

  /** The keys started so far stay visited as the set grows. */
  lemma VisitedPrefix(ids: seq<string>, j: nat, v0: set<string>, v1: set<string>)
    requires j < |ids| && v0 <= v1 && ids[j] in v1
    requires forall k :: 0 <= k < j ==> ids[k] in v0
    ensures forall k :: 0 <= k < j + 1 ==> ids[k] in v1
  {
  }

  /** Without cycles, the exception in `DependenciesFirst` never applies:
      every dependency that is a key comes strictly earlier. */
  lemma AcyclicFirst(dm: DependencyMap, order: seq<string>)
    requires DependenciesFirst(dm, order) && Acyclic(dm)
    ensures forall i, d :: 0 <= i < |order| && d in Dependencies(dm, order[i]) && d in Keys(dm) ==> d in order[..i]
  {
    forall i, d | 0 <= i < |order| && d in Dependencies(dm, order[i]) && d in Keys(dm)
      ensures d in order[..i]
    {
      assert !Reaches(dm, d, order[i]);
    }
  }

  // ---------------------------------------------------------------------
  // Schema names and the index file

  /** `elements?.[0]?.path.split('.')[0]` */
  function FirstPathSegment(elements: Option<seq<Element>>): Option<string>
  {
    if elements.Some? && |elements.value| > 0 then Some(FirstSegment(Path(elements.value[0]))) else None
  }

  /** The `baseDefinitionId` of a constraint: the first segment of its first
      snapshot path when that is non-empty, else that of its first
      differential path; "undefined", as a template string prints it, when
      the differential has no first element either. */
  function BaseDefinitionId(sd: StructureDefinition): string
  {
    var s := FirstPathSegment(sd.snapshot);
    var d := FirstPathSegment(sd.differential);
    if s.Some? && s.value != "" then s.value
    else if d.Some? then d.value
    else "undefined"
  }

  /** The name a definition's schema is exported under in the index file:
      a constraint is named after its base type and its own id, any other
      definition after its id. A constraint with neither a snapshot nor a
      differential first element is an error. */
  function IndexSchemaName(sd: StructureDefinition): Result<string>
  {
    if IsConstraint(sd) then
      if FirstPathSegment(sd.snapshot).None? && FirstPathSegment(sd.differential).None? then
        Err("Snapshot first element or differential first element not found for " + sd.id)
      else Ok(ZodSchemaName(BaseDefinitionId(sd) + "-" + sd.id))
    else Ok(ZodSchemaName(sd.id))
  }

  /** The schema name of a constraint is the base type's name run into
      the id's name: the hyphen only capitalises what follows it. */
  lemma ConstraintSchemaName(sd: StructureDefinition)
    requires IsConstraint(sd) && IndexSchemaName(sd).Ok?
    ensures IndexSchemaName(sd).value ==
            UpperFirst(Transduce(BaseDefinitionId(sd), true) + Transduce(sd.id, true)) + "Schema"
  {
    TransduceHyphen(BaseDefinitionId(sd), sd.id, true);
  }

  const IndexHeader: string := "// Generated index file for FHIR Zod schemas\n\n"

  /** `'.js'` when the import-extension option is set, else nothing. */
  function ImportExtension(importExtension: bool): string
  {
    if importExtension then ".js" else ""
  }

  function IndexLine(schemaName: string, id: string, extension: string): string
  {
    "export { " + schemaName + " } from './schema/" + id + extension + "';\n"
  }

  /** The ids of `order` that have a generated schema, in order. */
  function WithResults(order: seq<string>, hasResult: set<string>): seq<string>
  {
    if |order| == 0 then []
    else WithResults(order[..|order| - 1], hasResult)
         + (if order[|order| - 1] in hasResult then [order[|order| - 1]] else [])
  }

  /** Exactly the ids of the order that have a result get an index line,
      each once when the order has no duplicates, in the order's order. */
  lemma {:induction false} WithResultsSpec(order: seq<string>, hasResult: set<string>)
    ensures forall x :: x in WithResults(order, hasResult) <==> x in order && x in hasResult
    ensures NoDuplicates(order) ==> NoDuplicates(WithResults(order, hasResult))
    ensures |WithResults(order, hasResult)| <= |order|
  {
    if |order| > 0 {
      var init := order[..|order| - 1];
      WithResultsSpec(init, hasResult);
      assert order == init + [order[|order| - 1]];
    }
  }

  /** The index line of one id, or why it cannot be written: the id has no
      definition, or the definition has no schema name. */
  function IndexLineFor(id: string, definitions: map<string, StructureDefinition>, extension: string): Result<string>
  {
    if id !in definitions then Err("StructureDefinition " + id + " not found")
    else
      var name :- IndexSchemaName(definitions[id]);
      Ok(IndexLine(name, id, extension))
  }

  function IndexLineOf(definitions: map<string, StructureDefinition>, extension: string): string -> Result<string>
  {
    id => IndexLineFor(id, definitions, extension)
  }

  /** The lines `lineOf` gives the ids, or its error for the first id it
      fails on. */
  function IndexLines(ids: seq<string>, lineOf: string -> Result<string>): Result<seq<string>>
  {
    if |ids| == 0 then Ok([])
    else
      var lines :- IndexLines(ids[..|ids| - 1], lineOf);
      var line :- lineOf(ids[|ids| - 1]);
      Ok(lines + [line])
  }

  function Concat(lines: seq<string>): string
  {
    if |lines| == 0 then "" else Concat(lines[..|lines| - 1]) + lines[|lines| - 1]
  }

  /** The lines are written exactly when every id has one ... */
  lemma {:induction false} IndexLinesOk(ids: seq<string>, lineOf: string -> Result<string>)
    ensures IndexLines(ids, lineOf).Ok? <==> forall i :: 0 <= i < |ids| ==> lineOf(ids[i]).Ok?
  {
    if |ids| > 0 {
      var init := ids[..|ids| - 1];
      IndexLinesOk(init, lineOf);
      if IndexLines(init, lineOf).Err? {
        var i :| 0 <= i < |init| && lineOf(init[i]).Err?;
        assert init[i] == ids[i];
      } else {
        assert forall i :: 0 <= i < |init| ==> init[i] == ids[i];
      }
    }
  }

  /** ... and then each line is that of the id at the same position ... */
  lemma {:induction false} IndexLinesValues(ids: seq<string>, lineOf: string -> Result<string>)
    requires IndexLines(ids, lineOf).Ok?
    ensures |IndexLines(ids, lineOf).value| == |ids|
    ensures forall i :: 0 <= i < |ids| ==> lineOf(ids[i]).Ok? && IndexLines(ids, lineOf).value[i] == lineOf(ids[i]).value
  {
    if |ids| > 0 {
      var init := ids[..|ids| - 1];
      IndexLinesValues(init, lineOf);
      assert forall i :: 0 <= i < |init| ==> init[i] == ids[i];
    }
  }

  /** ... while on failure the error is that of the first id without a
      line. */
  lemma {:induction false} IndexLinesErr(ids: seq<string>, lineOf: string -> Result<string>)
    requires IndexLines(ids, lineOf).Err?
    ensures exists i :: 0 <= i < |ids| && lineOf(ids[i]).Err? &&
              (forall j :: 0 <= j < i ==> lineOf(ids[j]).Ok?) &&
              IndexLines(ids, lineOf).error == lineOf(ids[i]).error
  {
    var init := ids[..|ids| - 1];
    assert forall i :: 0 <= i < |init| ==> init[i] == ids[i];
    if IndexLines(init, lineOf).Err? {
      IndexLinesErr(init, lineOf);
      var i :| 0 <= i < |init| && lineOf(init[i]).Err? &&
               (forall j :: 0 <= j < i ==> lineOf(init[j]).Ok?) &&
               IndexLines(init, lineOf).error == lineOf(init[i]).error;
    } else {
      IndexLinesOk(init, lineOf);
      assert lineOf(ids[|ids| - 1]).Err?;
    }
  }

  /** The index file after the loop has seen `order`. */
  function IndexContent(order: seq<string>, hasResult: set<string>, lineOf: string -> Result<string>): Result<string>
  {
    if |order| == 0 then Ok(IndexHeader)
    else
      var content :- IndexContent(order[..|order| - 1], hasResult, lineOf);
      if order[|order| - 1] !in hasResult then Ok(content)
      else
        var line :- lineOf(order[|order| - 1]);
        Ok(content + line)
  }

  /** The index file is written exactly when every id of the order that
      has a generated schema has an index line; otherwise the error is that
      of the first id without one ... */
  lemma {:induction false} IndexContentOk(order: seq<string>, hasResult: set<string>, lineOf: string -> Result<string>)
    ensures IndexContent(order, hasResult, lineOf).Ok? <==> IndexLines(WithResults(order, hasResult), lineOf).Ok?
    ensures IndexContent(order, hasResult, lineOf).Err? ==>
            IndexContent(order, hasResult, lineOf).error == IndexLines(WithResults(order, hasResult), lineOf).error
  {
    if |order| > 0 {
      var init := order[..|order| - 1];
      var id := order[|order| - 1];
      IndexContentOk(init, hasResult, lineOf);
      var ids := WithResults(order, hasResult);
      if id in hasResult {
        assert ids[..|ids| - 1] == WithResults(init, hasResult);
        assert ids[|ids| - 1] == id;
      } else {
        assert ids == WithResults(init, hasResult);
      }
    }
  }

  /** ... and it is its header followed by the index lines of the ids that
      have a generated schema, in the sort order. */
  lemma {:induction false} IndexContentValue(order: seq<string>, hasResult: set<string>, lineOf: string -> Result<string>)
    requires IndexContent(order, hasResult, lineOf).Ok?
    ensures IndexLines(WithResults(order, hasResult), lineOf).Ok?
    ensures IndexContent(order, hasResult, lineOf).value ==
            IndexHeader + Concat(IndexLines(WithResults(order, hasResult), lineOf).value)
  {
    if |order| > 0 {
      var init := order[..|order| - 1];
      var id := order[|order| - 1];
      IndexContentValue(init, hasResult, lineOf);
      var ids := WithResults(order, hasResult);
      var prev := IndexLines(WithResults(init, hasResult), lineOf).value;
      if id in hasResult {
        assert ids[..|ids| - 1] == WithResults(init, hasResult);
        assert ids[|ids| - 1] == id;
        var line := lineOf(id).value;
        var l := prev + [line];
        assert IndexLines(ids, lineOf) == Ok(l);
        assert l[..|l| - 1] == prev;
        assert Concat(l) == Concat(prev) + line;
      } else {
        assert ids == WithResults(init, hasResult);
      }
    }
  }

  /** The loop that writes the index file. */
  method IndexFileContent(processingOrder: seq<string>, hasResult: set<string>,
                          structureDefinitionMap: map<string, StructureDefinition>, importExtension: bool)
    returns (r: Result<string>)
    ensures r == IndexContent(processingOrder, hasResult,
                              IndexLineOf(structureDefinitionMap, ImportExtension(importExtension)))
  {
    var indexFileContent := IndexHeader;
    var extension := ImportExtension(importExtension);
    ghost var lineOf := IndexLineOf(structureDefinitionMap, extension);
    for j := 0 to |processingOrder|
      invariant IndexContent(processingOrder[..j], hasResult, lineOf) == Ok(indexFileContent)
    {
      var id := processingOrder[j];
      ghost var seen := processingOrder[..j + 1];
      assert seen[..|seen| - 1] == processingOrder[..j];
      assert seen[|seen| - 1] == id;
      if id in hasResult {
        assert lineOf(id) == IndexLineFor(id, structureDefinitionMap, extension);
        if id !in structureDefinitionMap {
          IndexContentErr(processingOrder, hasResult, j + 1, lineOf);
          return Err("StructureDefinition " + id + " not found");
        }
        var structureDefinition := structureDefinitionMap[id];
        var schemaName := IndexSchemaName(structureDefinition);
        if schemaName.Err? {
          IndexContentErr(processingOrder, hasResult, j + 1, lineOf);
          return Err(schemaName.error);
        }
        indexFileContent := indexFileContent + IndexLine(schemaName.value, id, extension);
      }
    }
    assert processingOrder[..|processingOrder|] == processingOrder;
    return Ok(indexFileContent);
  }

  /** Once the loop has thrown, the ids after it do not matter. */
  lemma {:induction false} IndexContentErr(order: seq<string>, hasResult: set<string>, n: nat,
                                           lineOf: string -> Result<string>)
    requires n <= |order| && IndexContent(order[..n], hasResult, lineOf).Err?
    ensures IndexContent(order, hasResult, lineOf) == IndexContent(order[..n], hasResult, lineOf)
    decreases |order| - n
  {
    if n < |order| {
      var seen := order[..n + 1];
      assert seen[..|seen| - 1] == order[..n];
      IndexContentErr(order, hasResult, n + 1, lineOf);
    } else {
      assert order[..n] == order;
    }
  }
}
