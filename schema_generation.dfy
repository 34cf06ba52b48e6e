/** src/constructZodSchemaCode.ts, part 4: `generateZodSchemasWithDependencies`,
    which generates the schema of every definition, each after the
    definitions it depends on (its base and the types of its elements),
    skipping what is done or in progress and what the loader cannot find. */
module SchemaGeneration {
  import opened Wrappers
  import opened OrderedMaps
  import opened Fhir
  import opened DependencyTree
  import opened SnapshotMerge
  import opened SchemaCode
  import opened GenerationGraph

  // ---------------------------------------------------------------------
  // generateZodSchemasWithDependencies

  /** The state the `processDependencies` closure captures: the loader,
      the code table, the `results` map and the `processed` and
      `processing` sets. `generate` is `constructZodSchemaCode` with the
      code table and the loader bound (`SchemaCodeOf`). */
  class SchemaGenerator {
    const resourceLoader: LocalResourceLoader
    const primitiveTypeCodeMap: map<string, string>
    const generate: StructureDefinition -> Result<string>
    ghost const deps: map<string, seq<string>>
    var results: OrderedMap<string>
    var processed: set<string>
    var processing: set<string>
    ghost var log: seq<string>
    ghost var stack: seq<string>

    ghost predicate Valid()
      reads this
    {
      && resourceLoader.Valid()
      && (forall x :: GraphAt(deps, resourceLoader.definitionMap, primitiveTypeCodeMap, x))
      && GeneratorState(deps, log, processed, stack, processing)
      && (forall x :: x in log ==> x in resourceLoader.definitionMap)
      && Generated(resourceLoader.definitionMap, generate, log) == Ok(results)
    }

    /** The state while the definition of `id` is visited: `id` is on top
        of the stack and in progress. */
    ghost predicate Visiting(id: string)
      reads this
    {
      && Valid() && |stack| > 0 && stack[|stack| - 1] == id && id in processing && id !in processed
      && id in deps && id in resourceLoader.definitionMap
    }

    /** The keys generated so far, and their order. */
    ghost function Now(): Progress
      reads this
    {
      Progress(processed, log)
    }

    /** The closure's initial state around the loader built from the
        definitions: nothing generated, nothing in progress. */
    constructor (loader: LocalResourceLoader, primitiveTypeCodeMap: map<string, string>)
      requires loader.Valid()
      ensures Valid()
      ensures resourceLoader == loader && this.primitiveTypeCodeMap == primitiveTypeCodeMap
      ensures generate == SchemaCodeOf(primitiveTypeCodeMap, loader.definitionMap)
      ensures deps == DependencyGraph(loader.definitionMap, primitiveTypeCodeMap)
      ensures results == [] && processed == {} && processing == {} && log == [] && stack == []
    {
      resourceLoader := loader;
      this.primitiveTypeCodeMap := primitiveTypeCodeMap;
      generate := SchemaCodeOf(primitiveTypeCodeMap, loader.definitionMap);
      deps := DependencyGraph(loader.definitionMap, primitiveTypeCodeMap);
      results := [];
      processed := {};
      processing := {};
      log := [];
      stack := [];
      GraphAtAll(loader.definitionMap, primitiveTypeCodeMap);
    }

    /** `processDependencies(id)`: nothing for a key processed, in progress
        or unknown to the loader; otherwise the dependencies first, then the
        definition's code under its id in `results`. An error is what
        `constructZodSchemaCode` throws for the definition `failed` leads
        to, and ends the whole run. */
    method ProcessDependencies(id: string) returns (err: Option<string>, ghost failed: string)
      requires Valid()
      requires |stack| > 0 ==> Edge(deps, stack[|stack| - 1], id)
      modifies this
      ensures err.None? ==> Valid()
      ensures err.None? ==> stack == old(stack) && processing == old(processing)
      ensures err.None? ==> old(processed) <= processed && old(log) <= log
      ensures err.None? ==> Covered(deps, processed, processing, id)
      ensures err.Some? ==> failed in resourceLoader.definitionMap
      ensures err.Some? ==> generate(resourceLoader.definitionMap[failed]) == Err(err.value)
      ensures Outcome(err, Now()) == ProcessDependenciesF(resourceLoader.definitionMap, generate, primitiveTypeCodeMap,
                                                          id, old(Now()), old(processing))
      decreases resourceLoader.definitionMap.Keys - processed - processing, 7
    {
      failed := id;
      assert GraphAt(deps, resourceLoader.definitionMap, primitiveTypeCodeMap, id);
      if id in processed {
        return None, failed;
      }
      if id in processing {
        return None, failed;
      }
      processing := processing + {id};
      var definition := resourceLoader.LoadStructureDefinition(id);
      if definition.None? {
        processing := processing - {id};
        assert processing == old(processing);
        return None, failed;
      }
      GeneratorStart(deps, log, processed, stack, old(processing), id);
      stack := stack + [id];
      assert processing - {id} == old(processing);
      err, failed := GenerateSchema(id, definition.value);
      if err.None? {
        assert stack == old(stack);
      }
    }

    /** The rest of `processDependencies(id)` once the definition is
        loaded: its dependencies, then its code. */
    method GenerateSchema(id: string, definition: StructureDefinition) returns (err: Option<string>, ghost failed: string)
      requires Visiting(id) && definition == resourceLoader.definitionMap[id]
      modifies this
      ensures err.None? ==> Valid()
      ensures err.None? ==> old(processed) <= processed && id in processed && processing == old(processing) - {id}
      ensures err.None? ==> old(log) <= log && stack == old(stack)[..|old(stack)| - 1]
      ensures err.Some? ==> failed in resourceLoader.definitionMap
      ensures err.Some? ==> generate(resourceLoader.definitionMap[failed]) == Err(err.value)
      ensures Outcome(err, Now()) == ProcessDependenciesF(resourceLoader.definitionMap, generate, primitiveTypeCodeMap,
                                                          id, old(Now()), old(processing) - {id})
      decreases resourceLoader.definitionMap.Keys - processed - (processing - {id}), 6
    {
      assert GraphAt(deps, resourceLoader.definitionMap, primitiveTypeCodeMap, id);
      assert (processing - {id}) + {id} == processing;
      err, failed := VisitDependencies(id, definition);
      if err.Some? {
        return;
      }
      var schemaCode := generate(definition);
      if schemaCode.Err? {
        return Some(schemaCode.error), id;
      }
      StoreSchema(id, definition, schemaCode.value);
    }

    /** The end of `processDependencies(id)` once the dependencies are
        covered: the code goes into `results` under the definition's id,
        and `id` moves from `processing` to `processed`. */
    method StoreSchema(id: string, definition: StructureDefinition, schemaCode: string)
      requires Visiting(id)
      requires id in resourceLoader.definitionMap && definition == resourceLoader.definitionMap[id]
      requires generate(definition) == Ok(schemaCode)
      requires forall y :: y in deps[id] ==> Covered(deps, processed, processing, y)
      modifies this
      ensures Valid()
      ensures results == MapSet(old(results), definition.id, schemaCode)
      ensures processed == old(processed) + {id} && processing == old(processing) - {id}
      ensures log == old(log) + [id] && stack == old(stack)[..|old(stack)| - 1]
    {
      GeneratedSnoc(resourceLoader.definitionMap, generate, log, id, results, schemaCode);
      results := MapSet(results, definition.id, schemaCode);
      processed := processed + {id};
      processing := processing - {id};
      log := log + [id];
      stack := stack[..|stack| - 1];
      FinishStep(deps, old(log), old(processed), old(stack), old(processing), id);
    }

    /** The two steps of `processDependencies(id)` before the code is
        generated, while `id` is in progress on top of the stack: the base
        id of a constraint, then the type codes of the snapshot elements. */
    method VisitDependencies(id: string, definition: StructureDefinition) returns (err: Option<string>, ghost failed: string)
      requires Visiting(id) && deps[id] == Dependencies(definition, primitiveTypeCodeMap)
      modifies this
      ensures err.None? ==> Visiting(id)
      ensures err.None? ==> stack == old(stack) && processing == old(processing)
      ensures err.None? ==> old(processed) <= processed && old(log) <= log
      ensures err.None? ==> forall y :: y in deps[id] ==> Covered(deps, processed, processing, y)
      ensures err.Some? ==> failed in resourceLoader.definitionMap
      ensures err.Some? ==> generate(resourceLoader.definitionMap[failed]) == Err(err.value)
      ensures Outcome(err, Now()) == ProcessEachF(resourceLoader.definitionMap, generate, primitiveTypeCodeMap,
                                                  id, deps[id], old(Now()), old(processing))
      decreases resourceLoader.definitionMap.Keys - processed - (processing - {id}), 5
    {
      ghost var base := BaseDependency(definition);
      ghost var codes: seq<string> := if definition.snapshot.Some?
        then ElementsTypeCodes(definition.snapshot.value, definition.id, primitiveTypeCodeMap) else [];
      assert deps[id] == base + codes;
      ProcessEachAppend(resourceLoader.definitionMap, generate, primitiveTypeCodeMap, id, base, codes, old(Now()), processing);
      err, failed := VisitBase(id, definition);
      if err.Some? {
        return;
      }
      if definition.snapshot.Some? {
        err, failed := VisitElements(id, definition, definition.snapshot.value);
      }
    }

    /** The base of a constraint, processed first. */
    method VisitBase(id: string, definition: StructureDefinition) returns (err: Option<string>, ghost failed: string)
      requires Visiting(id) && deps[id] == Dependencies(definition, primitiveTypeCodeMap)
      modifies this
      ensures err.None? ==> Visiting(id)
      ensures err.None? ==> stack == old(stack) && processing == old(processing)
      ensures err.None? ==> old(processed) <= processed && old(log) <= log
      ensures err.None? && IsConstraint(definition) && BaseUrl(definition).Some? ==>
                Covered(deps, processed, processing, LastUrlSegment(definition.baseDefinition.value))
      ensures err.Some? ==> failed in resourceLoader.definitionMap
      ensures err.Some? ==> generate(resourceLoader.definitionMap[failed]) == Err(err.value)
      ensures Outcome(err, Now()) == ProcessEachF(resourceLoader.definitionMap, generate, primitiveTypeCodeMap,
                                                  id, BaseDependency(definition), old(Now()), old(processing))
      decreases resourceLoader.definitionMap.Keys - processed - (processing - {id}), 4
    {
      err, failed := None, id;
      if IsConstraint(definition) && BaseUrl(definition).Some? {
        var baseUrl := definition.baseDefinition.value;
        var baseId := LastUrlSegment(baseUrl);
        err, failed := ProcessDependencies(baseId);
        assert BaseDependency(definition)[1..] == [];
      }
    }

    /** The loop over the snapshot elements. */
    method VisitElements(id: string, definition: StructureDefinition, elements: seq<Element>)
      returns (err: Option<string>, ghost failed: string)
      requires Visiting(id)
      requires forall y :: y in ElementsTypeCodes(elements, definition.id, primitiveTypeCodeMap) ==> y in deps[id]
      modifies this
      ensures err.None? ==> Visiting(id)
      ensures err.None? ==> stack == old(stack) && processing == old(processing)
      ensures err.None? ==> old(processed) <= processed && old(log) <= log
      ensures err.None? ==> forall y :: y in ElementsTypeCodes(elements, definition.id, primitiveTypeCodeMap) ==>
                              Covered(deps, processed, processing, y)
      ensures err.Some? ==> failed in resourceLoader.definitionMap
      ensures err.Some? ==> generate(resourceLoader.definitionMap[failed]) == Err(err.value)
      ensures Outcome(err, Now()) == ProcessEachF(resourceLoader.definitionMap, generate, primitiveTypeCodeMap, id,
                                                  ElementsTypeCodes(elements, definition.id, primitiveTypeCodeMap),
                                                  old(Now()), old(processing))
      decreases resourceLoader.definitionMap.Keys - processed - (processing - {id}), 3
    {
      err, failed := None, id;
      assert elements[..0] == [];
      for i := 0 to |elements|
        invariant err.None? && Visiting(id)
        invariant stack == old(stack) && processing == old(processing)
        invariant old(processed) <= processed && old(log) <= log
        invariant forall y :: y in ElementsTypeCodes(elements[..i], definition.id, primitiveTypeCodeMap) ==>
                    Covered(deps, processed, processing, y)
        invariant ProcessEachF(resourceLoader.definitionMap, generate, primitiveTypeCodeMap, id,
                               ElementsTypeCodes(elements[..i], definition.id, primitiveTypeCodeMap),
                               old(Now()), old(processing)) == Ok(Now())
      {
        ElementsTypeCodesSnoc(elements, definition.id, primitiveTypeCodeMap, i);
        ProcessEachAppend(resourceLoader.definitionMap, generate, primitiveTypeCodeMap, id,
                          ElementsTypeCodes(elements[..i], definition.id, primitiveTypeCodeMap),
                          ElementDescents(elements[i], definition.id, primitiveTypeCodeMap), old(Now()), old(processing));
        err, failed := VisitElement(id, definition, elements, i);
        if err.Some? {
          ElementsPrefixErr(resourceLoader.definitionMap, generate, primitiveTypeCodeMap, id, elements, i + 1,
                            definition.id, old(Now()), old(processing));
          return;
        }
      }
      assert elements[..|elements|] == elements;
    }

    /** One snapshot element: its `type` list, when it has one. */
    method VisitElement(id: string, definition: StructureDefinition, elements: seq<Element>, i: nat)
      returns (err: Option<string>, ghost failed: string)
      requires Visiting(id) && i < |elements|
      requires forall y :: y in ElementsTypeCodes(elements, definition.id, primitiveTypeCodeMap) ==> y in deps[id]
      modifies this
      ensures err.None? ==> Visiting(id)
      ensures err.None? ==> stack == old(stack) && processing == old(processing)
      ensures err.None? ==> old(processed) <= processed && old(log) <= log
      ensures err.None? && Types(elements[i]).Some? ==>
                forall y :: y in TypeCodes(Types(elements[i]).value, definition.id, primitiveTypeCodeMap) ==>
                  Covered(deps, processed, processing, y)
      ensures err.Some? ==> failed in resourceLoader.definitionMap
      ensures err.Some? ==> generate(resourceLoader.definitionMap[failed]) == Err(err.value)
      ensures Outcome(err, Now()) == ProcessEachF(resourceLoader.definitionMap, generate, primitiveTypeCodeMap, id,
                                                  ElementDescents(elements[i], definition.id, primitiveTypeCodeMap),
                                                  old(Now()), old(processing))
      decreases resourceLoader.definitionMap.Keys - processed - (processing - {id}), 2
    {
      err, failed := None, id;
      var typeRefs := Types(elements[i]);
      if typeRefs.Some? {
        ElementTypeCodesIn(elements, definition.id, primitiveTypeCodeMap, i);
        err, failed := VisitTypeRefs(id, definition, typeRefs.value);
      }
    }

    /** The loop over the `type` list of one element. */
    method VisitTypeRefs(id: string, definition: StructureDefinition, typeRefs: seq<TypeRef>)
      returns (err: Option<string>, ghost failed: string)
      requires Visiting(id)
      requires forall y :: y in TypeCodes(typeRefs, definition.id, primitiveTypeCodeMap) ==> y in deps[id]
      modifies this
      ensures err.None? ==> Visiting(id)
      ensures err.None? ==> stack == old(stack) && processing == old(processing)
      ensures err.None? ==> old(processed) <= processed && old(log) <= log
      ensures err.None? ==> forall y :: y in TypeCodes(typeRefs, definition.id, primitiveTypeCodeMap) ==>
                              Covered(deps, processed, processing, y)
      ensures err.Some? ==> failed in resourceLoader.definitionMap
      ensures err.Some? ==> generate(resourceLoader.definitionMap[failed]) == Err(err.value)
      ensures Outcome(err, Now()) == ProcessEachF(resourceLoader.definitionMap, generate, primitiveTypeCodeMap, id,
                                                  TypeCodes(typeRefs, definition.id, primitiveTypeCodeMap),
                                                  old(Now()), old(processing))
      decreases resourceLoader.definitionMap.Keys - processed - (processing - {id}), 1
    {
      err, failed := None, id;
      assert typeRefs[..0] == [];
      for j := 0 to |typeRefs|
        invariant err.None? && Visiting(id)
        invariant stack == old(stack) && processing == old(processing)
        invariant old(processed) <= processed && old(log) <= log
        invariant forall y :: y in TypeCodes(typeRefs[..j], definition.id, primitiveTypeCodeMap) ==>
                    Covered(deps, processed, processing, y)
        invariant ProcessEachF(resourceLoader.definitionMap, generate, primitiveTypeCodeMap, id,
                               TypeCodes(typeRefs[..j], definition.id, primitiveTypeCodeMap),
                               old(Now()), old(processing)) == Ok(Now())
      {
        TypeCodesSnoc(typeRefs, definition.id, primitiveTypeCodeMap, j);
        ProcessEachAppend(resourceLoader.definitionMap, generate, primitiveTypeCodeMap, id,
                          TypeCodes(typeRefs[..j], definition.id, primitiveTypeCodeMap),
                          TypeRefDescent(typeRefs[j], definition.id, primitiveTypeCodeMap), old(Now()), old(processing));
        err, failed := VisitTypeRef(id, definition, typeRefs, j);
        if err.Some? {
          TypeRefsPrefixErr(resourceLoader.definitionMap, generate, primitiveTypeCodeMap, id, typeRefs, j + 1,
                            definition.id, old(Now()), old(processing));
          return;
        }
      }
      assert typeRefs[..|typeRefs|] == typeRefs;
    }

    /** One entry of a `type` list: its code is processed when it is
        present, non-empty, not the definition's own id and not a
        primitive. */
    method VisitTypeRef(id: string, definition: StructureDefinition, typeRefs: seq<TypeRef>, j: nat)
      returns (err: Option<string>, ghost failed: string)
      requires Visiting(id) && j < |typeRefs|
      requires forall y :: y in TypeCodes(typeRefs, definition.id, primitiveTypeCodeMap) ==> y in deps[id]
      modifies this
      ensures err.None? ==> Visiting(id)
      ensures err.None? ==> stack == old(stack) && processing == old(processing)
      ensures err.None? ==> old(processed) <= processed && old(log) <= log
      ensures err.None? && Descends(typeRefs[j].code, definition.id, primitiveTypeCodeMap) ==>
                Covered(deps, processed, processing, typeRefs[j].code.value)
      ensures err.Some? ==> failed in resourceLoader.definitionMap
      ensures err.Some? ==> generate(resourceLoader.definitionMap[failed]) == Err(err.value)
      ensures Outcome(err, Now()) == ProcessEachF(resourceLoader.definitionMap, generate, primitiveTypeCodeMap, id,
                                                  TypeRefDescent(typeRefs[j], definition.id, primitiveTypeCodeMap),
                                                  old(Now()), old(processing))
      decreases resourceLoader.definitionMap.Keys - processed - (processing - {id}), 0
    {
      err, failed := None, id;
      var typeCode := typeRefs[j].code;
      if typeCode.Some? && typeCode.value != "" && typeCode.value != definition.id
         && typeCode.value !in primitiveTypeCodeMap {
        TypeCodeAt(typeRefs, definition.id, primitiveTypeCodeMap, j);
        err, failed := ProcessDependencies(typeCode.value);
        assert TypeRefDescent(typeRefs[j], definition.id, primitiveTypeCodeMap)[1..] == [];
      }
    }

    /** The loop of `generateZodSchemasWithDependencies` over the
        definitions. */
    method ProcessAll(structureDefinitions: seq<StructureDefinition>) returns (err: Option<string>, ghost failed: string)
      requires Valid() && stack == [] && processing == {}
      modifies this
      ensures err.None? ==> Valid() && stack == [] && processing == {}
      ensures err.None? ==> forall i :: 0 <= i < |structureDefinitions| && structureDefinitions[i].id in resourceLoader.definitionMap ==>
                              structureDefinitions[i].id in processed
      ensures err.Some? ==> failed in resourceLoader.definitionMap
      ensures err.Some? ==> generate(resourceLoader.definitionMap[failed]) == Err(err.value)
      ensures Outcome(err, Now()) == ProcessAllF(resourceLoader.definitionMap, generate, primitiveTypeCodeMap,
                                                 structureDefinitions, old(Now()))
    {
      err, failed := None, "";
      for i := 0 to |structureDefinitions|
        invariant err.None? && Valid() && stack == [] && processing == {}
        invariant forall k :: 0 <= k < i && structureDefinitions[k].id in resourceLoader.definitionMap ==>
                    structureDefinitions[k].id in processed
        invariant ProcessAllF(resourceLoader.definitionMap, generate, primitiveTypeCodeMap, structureDefinitions[i..], Now())
                  == ProcessAllF(resourceLoader.definitionMap, generate, primitiveTypeCodeMap, structureDefinitions, old(Now()))
      {
        assert GraphAt(deps, resourceLoader.definitionMap, primitiveTypeCodeMap, structureDefinitions[i].id);
        assert structureDefinitions[i..][0] == structureDefinitions[i];
        assert structureDefinitions[i..][1..] == structureDefinitions[i + 1..];
        err, failed := ProcessDependencies(structureDefinitions[i].id);
        if err.Some? {
          return;
        }
      }
    }
  }

  /** `generateZodSchemasWithDependencies`: every definition's key is
      processed in list order. The results are those of the keys generated,
      in the order generated, each once; a dependency the loader finds is
      generated before the definition that needs it unless it depends back
      on that definition, and every dependency of a generated definition
      that the loader finds is generated too. Which keys are generated, in
      which order, and which error ends the run are those of the
      depth-first recursion `ProcessAllF`: the error is the first one
      `constructZodSchemaCode` throws in that order. */
  method GenerateZodSchemasWithDependencies(structureDefinitions: seq<StructureDefinition>,
                                            primitiveTypeCodeMap: map<string, string>)
    returns (r: Result<OrderedMap<string>>, ghost order: seq<string>)
    ensures var defs := LoaderMap(structureDefinitions);
            r.Ok? ==>
              && (forall x :: x in order ==> x in defs)
              && Generated(defs, SchemaCodeOf(primitiveTypeCodeMap, defs), order) == r
              && NoDuplicates(order)
              && (forall i :: 0 <= i < |structureDefinitions| && structureDefinitions[i].id in defs ==>
                    structureDefinitions[i].id in order)
              && DependenciesFirst(DependencyGraph(defs, primitiveTypeCodeMap), order)
              && (forall x, y :: x in order && Edge(DependencyGraph(defs, primitiveTypeCodeMap), x, y) && y in defs ==> y in order)
    ensures var defs := LoaderMap(structureDefinitions);
            r.Err? ==> exists p :: p in defs && ConstructZodSchemaCodeF(defs[p], primitiveTypeCodeMap, Some(defs)) == Err(r.error)
    ensures var defs := LoaderMap(structureDefinitions);
            var run := ProcessAllF(defs, SchemaCodeOf(primitiveTypeCodeMap, defs), primitiveTypeCodeMap,
                                   structureDefinitions, Progress({}, []));
            (r.Ok? <==> run.Ok?) && (r.Ok? ==> order == run.value.log) && (r.Err? ==> r.error == run.error)
  {
    var resourceLoader := new LocalResourceLoader(structureDefinitions);
    var generator := new SchemaGenerator(resourceLoader, primitiveTypeCodeMap);
    var err;
    ghost var failed;
    err, failed := generator.ProcessAll(structureDefinitions);
    if err.Some? {
      assert SchemaCodeOf(primitiveTypeCodeMap, LoaderMap(structureDefinitions))(LoaderMap(structureDefinitions)[failed])
             == Err(err.value);
      return Err(err.value), [];
    }
    return Ok(generator.results), generator.log;
  }
}
