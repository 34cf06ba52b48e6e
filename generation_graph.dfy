/** src/constructZodSchemaCode.ts, part 3: what `generateZodSchemasWithDependencies`
    visits for a definition, the results it builds, and the state its
    recursion keeps. */
module GenerationGraph {
  import opened Wrappers
  import opened Text
  import opened OrderedMaps
  import opened Fhir
  import opened DependencyTree
  import opened SnapshotMerge
  import opened SchemaCode

  // ---------------------------------------------------------------------
  // What a definition depends on

  /** `baseUrl.split('/').pop() || baseUrl`: the text after the last slash,
      or the whole url when there is no slash or nothing follows the last
      one (so "a/b/" gives "a/b/", not "b"). */
  function LastUrlSegment(baseUrl: string): (r: string)
    ensures '/' !in baseUrl ==> r == baseUrl
    ensures r == baseUrl || ('/' !in r && r != "" && EndsWith(baseUrl, "/" + r))
    ensures forall seg {:trigger EndsWith(baseUrl, "/" + seg)} :: seg != "" && '/' !in seg && EndsWith(baseUrl, "/" + seg) ==> r == seg
  {
    var i := LastIndexOf(baseUrl, '/');
    LastSlashBefore(baseUrl, i);
    if i < 0 then baseUrl
    else
      var seg := baseUrl[i + 1..];
      if seg == "" then baseUrl
      else
        SuffixFrom(baseUrl, i);
        seg
  }

  /** A url that ends in a slash and a non-empty slash-free text has its
      last slash right before that text. */
  lemma LastSlashBefore(url: string, i: int)
    requires i == LastIndexOf(url, '/')
    ensures forall seg :: '/' !in seg && EndsWith(url, "/" + seg) ==> i >= 0 && seg == url[i + 1..]
  {
    forall seg | '/' !in seg && EndsWith(url, "/" + seg)
      ensures i >= 0 && seg == url[i + 1..]
    {
      var j := |url| - |seg| - 1;
      assert url[j] == ("/" + seg)[0] == '/';
      assert url[j + 1..] == seg;
      assert forall k :: j < k < |url| ==> url[k] == seg[k - j - 1];
      assert i >= 0 && url[i] == '/';
      assert forall k :: i < k < |url| ==> url[k] == url[i + 1..][k - i - 1];
      assert i == j;
    }
  }

  /** The base id of a canonical definition url is the definition's id. */
  lemma CanonicalLastUrlSegment(id: string)
    requires id != "" && '/' !in id
    ensures LastUrlSegment("http://hl7.org/fhir/StructureDefinition/" + id) == id
  {
    var url := "http://hl7.org/fhir/StructureDefinition/" + id;
    var i := LastIndexOf(url, '/');
    assert url[39] == '/';
    assert forall k :: 40 <= k < |url| ==> url[k] == id[k - 40];
    assert i == 39;
    assert url[40..] == id;
  }

  /** A type code the loop descends into: present, non-empty, not the
      definition's own id and not a primitive of the code table. */
  predicate Descends(code: Option<string>, self: string, primitiveTypeCodeMap: map<string, string>)
  {
    code.Some? && code.value != "" && code.value != self && code.value !in primitiveTypeCodeMap
  }

  /** The code of `type[j]` of snapshot element `i`, when the loop descends
      into it. */
  function TypeDependency(d: StructureDefinition, primitiveTypeCodeMap: map<string, string>, i: int, j: int): Option<string>
  {
    if d.snapshot.Some? && 0 <= i < |d.snapshot.value| && Types(d.snapshot.value[i]).Some?
       && 0 <= j < |Types(d.snapshot.value[i]).value|
       && Descends(Types(d.snapshot.value[i]).value[j].code, d.id, primitiveTypeCodeMap)
    then Types(d.snapshot.value[i]).value[j].code
    else None
  }

  /** The codes of `typeRefs` the loop descends into, in order. */
  function TypeCodes(typeRefs: seq<TypeRef>, self: string, primitiveTypeCodeMap: map<string, string>): seq<string>
  {
    if |typeRefs| == 0 then []
    else TypeCodes(typeRefs[..|typeRefs| - 1], self, primitiveTypeCodeMap)
         + (var code := typeRefs[|typeRefs| - 1].code;
            if Descends(code, self, primitiveTypeCodeMap) then [code.value] else [])
  }

  /** The codes the loop descends into for one element's `type` list. */
  function ElementDescents(e: Element, self: string, primitiveTypeCodeMap: map<string, string>): seq<string>
  {
    if Types(e).Some? then TypeCodes(Types(e).value, self, primitiveTypeCodeMap) else []
  }

  /** The code of one type entry, when the loop descends into it. */
  function TypeRefDescent(t: TypeRef, self: string, primitiveTypeCodeMap: map<string, string>): seq<string>
  {
    if Descends(t.code, self, primitiveTypeCodeMap) then [t.code.value] else []
  }

  /** The codes the loop descends into for the elements, in order. */
  function ElementsTypeCodes(els: seq<Element>, self: string, primitiveTypeCodeMap: map<string, string>): seq<string>
  {
    if |els| == 0 then []
    else ElementsTypeCodes(els[..|els| - 1], self, primitiveTypeCodeMap)
         + (var ts := Types(els[|els| - 1]);
            if ts.Some? then TypeCodes(ts.value, self, primitiveTypeCodeMap) else [])
  }

  /** The keys `processDependencies` visits before generating `d`, in
      order: the base id of a constraint with a base, then the type codes
      of its snapshot elements. */
  function Dependencies(d: StructureDefinition, primitiveTypeCodeMap: map<string, string>): seq<string>
  {
    BaseDependency(d)
    + (if d.snapshot.Some? then ElementsTypeCodes(d.snapshot.value, d.id, primitiveTypeCodeMap) else [])
  }

  /** The base id of a constraint with a base, visited first. */
  function BaseDependency(d: StructureDefinition): seq<string>
  {
    if IsConstraint(d) && BaseUrl(d).Some? then [LastUrlSegment(BaseUrl(d).value)] else []
  }

  lemma {:induction false} TypeCodesSpec(typeRefs: seq<TypeRef>, self: string, primitiveTypeCodeMap: map<string, string>, y: string)
    ensures y in TypeCodes(typeRefs, self, primitiveTypeCodeMap) <==>
            exists j :: 0 <= j < |typeRefs| && Descends(typeRefs[j].code, self, primitiveTypeCodeMap) && typeRefs[j].code.value == y
  {
    if |typeRefs| > 0 {
      var init := typeRefs[..|typeRefs| - 1];
      TypeCodesSpec(init, self, primitiveTypeCodeMap, y);
      assert forall j :: 0 <= j < |init| ==> init[j] == typeRefs[j];
    }
  }

  lemma {:induction false} ElementsTypeCodesSpec(d: StructureDefinition, primitiveTypeCodeMap: map<string, string>, n: nat, y: string)
    requires d.snapshot.Some? && n <= |d.snapshot.value|
    ensures y in ElementsTypeCodes(d.snapshot.value[..n], d.id, primitiveTypeCodeMap) <==>
            exists i, j :: 0 <= i < n && TypeDependency(d, primitiveTypeCodeMap, i, j) == Some(y)
  {
    var els := d.snapshot.value;
    if n > 0 {
      ElementsTypeCodesSpec(d, primitiveTypeCodeMap, n - 1, y);
      assert els[..n][..n - 1] == els[..n - 1];
      var ts := Types(els[n - 1]);
      if ts.Some? {
        TypeCodesSpec(ts.value, d.id, primitiveTypeCodeMap, y);
        if exists j :: 0 <= j < |ts.value| && Descends(ts.value[j].code, d.id, primitiveTypeCodeMap) && ts.value[j].code.value == y {
          var j :| 0 <= j < |ts.value| && Descends(ts.value[j].code, d.id, primitiveTypeCodeMap) && ts.value[j].code.value == y;
          assert TypeDependency(d, primitiveTypeCodeMap, n - 1, j) == Some(y);
        }
        if exists i, j :: 0 <= i < n && TypeDependency(d, primitiveTypeCodeMap, i, j) == Some(y) {
          var i, j :| 0 <= i < n && TypeDependency(d, primitiveTypeCodeMap, i, j) == Some(y);
          if i == n - 1 {
            assert Descends(ts.value[j].code, d.id, primitiveTypeCodeMap) && ts.value[j].code.value == y;
          }
        }
      } else {
        assert forall i, j :: i == n - 1 ==> TypeDependency(d, primitiveTypeCodeMap, i, j).None?;
      }
    }
  }

  /** The keys visited for `d` are exactly its base id, when it is a
      constraint with a base, and the type codes the loop descends into. */
  lemma DependenciesSpec(d: StructureDefinition, primitiveTypeCodeMap: map<string, string>, y: string)
    ensures y in Dependencies(d, primitiveTypeCodeMap) <==>
            (IsConstraint(d) && BaseUrl(d).Some? && y == LastUrlSegment(BaseUrl(d).value))
            || exists i, j :: TypeDependency(d, primitiveTypeCodeMap, i, j) == Some(y)
  {
    if d.snapshot.Some? {
      ElementsTypeCodesSpec(d, primitiveTypeCodeMap, |d.snapshot.value|, y);
      assert d.snapshot.value[..|d.snapshot.value|] == d.snapshot.value;
      if exists i, j :: TypeDependency(d, primitiveTypeCodeMap, i, j) == Some(y) {
        var i, j :| TypeDependency(d, primitiveTypeCodeMap, i, j) == Some(y);
        assert 0 <= i < |d.snapshot.value|;
      }
    } else {
      assert forall i, j :: TypeDependency(d, primitiveTypeCodeMap, i, j).None?;
    }
  }

  lemma {:induction false} TypeCodesPrefix(typeRefs: seq<TypeRef>, self: string, primitiveTypeCodeMap: map<string, string>, n: nat)
    requires n <= |typeRefs|
    ensures forall y :: y in TypeCodes(typeRefs[..n], self, primitiveTypeCodeMap) ==> y in TypeCodes(typeRefs, self, primitiveTypeCodeMap)
    decreases |typeRefs|
  {
    if n < |typeRefs| {
      var init := typeRefs[..|typeRefs| - 1];
      TypeCodesPrefix(init, self, primitiveTypeCodeMap, n);
      assert init[..n] == typeRefs[..n];
    } else {
      assert typeRefs[..n] == typeRefs;
    }
  }

  lemma {:induction false} ElementsTypeCodesPrefix(els: seq<Element>, self: string, primitiveTypeCodeMap: map<string, string>, n: nat)
    requires n <= |els|
    ensures forall y :: y in ElementsTypeCodes(els[..n], self, primitiveTypeCodeMap) ==> y in ElementsTypeCodes(els, self, primitiveTypeCodeMap)
    decreases |els|
  {
    if n < |els| {
      var init := els[..|els| - 1];
      ElementsTypeCodesPrefix(init, self, primitiveTypeCodeMap, n);
      assert init[..n] == els[..n];
    } else {
      assert els[..n] == els;
    }
  }

  /** One more type entry adds its code at the end when the loop
      descends into it. */
  lemma TypeCodesSnoc(typeRefs: seq<TypeRef>, self: string, primitiveTypeCodeMap: map<string, string>, j: nat)
    requires j < |typeRefs|
    ensures TypeCodes(typeRefs[..j + 1], self, primitiveTypeCodeMap)
            == TypeCodes(typeRefs[..j], self, primitiveTypeCodeMap)
               + (if Descends(typeRefs[j].code, self, primitiveTypeCodeMap) then [typeRefs[j].code.value] else [])
  {
    assert typeRefs[..j + 1][..j] == typeRefs[..j];
  }

  /** A code the loop descends into is among the codes of the list. */
  lemma TypeCodeAt(typeRefs: seq<TypeRef>, self: string, primitiveTypeCodeMap: map<string, string>, j: nat)
    requires j < |typeRefs| && Descends(typeRefs[j].code, self, primitiveTypeCodeMap)
    ensures typeRefs[j].code.value in TypeCodes(typeRefs, self, primitiveTypeCodeMap)
  {
    TypeCodesSnoc(typeRefs, self, primitiveTypeCodeMap, j);
    TypeCodesPrefix(typeRefs, self, primitiveTypeCodeMap, j + 1);
  }

  /** One more element adds its own type codes at the end. */
  lemma ElementsTypeCodesSnoc(els: seq<Element>, self: string, primitiveTypeCodeMap: map<string, string>, i: nat)
    requires i < |els|
    ensures ElementsTypeCodes(els[..i + 1], self, primitiveTypeCodeMap)
            == ElementsTypeCodes(els[..i], self, primitiveTypeCodeMap)
               + (if Types(els[i]).Some? then TypeCodes(Types(els[i]).value, self, primitiveTypeCodeMap) else [])
  {
    assert els[..i + 1][..i] == els[..i];
  }

  /** The codes of two lists of type entries are those of each, in turn. */
  lemma {:induction false} TypeCodesAppend(a: seq<TypeRef>, b: seq<TypeRef>, self: string, primitiveTypeCodeMap: map<string, string>)
    ensures TypeCodes(a + b, self, primitiveTypeCodeMap)
            == TypeCodes(a, self, primitiveTypeCodeMap) + TypeCodes(b, self, primitiveTypeCodeMap)
    decreases |b|
  {
    if |b| == 0 {
      assert a + b == a;
    } else {
      var init := b[..|b| - 1];
      TypeCodesAppend(a, init, self, primitiveTypeCodeMap);
      assert (a + b)[..|a + b| - 1] == a + init;
      assert (a + b)[|a + b| - 1] == b[|b| - 1];
    }
  }

  /** The codes of two lists of elements are those of each, in turn. */
  lemma {:induction false} ElementsTypeCodesAppend(a: seq<Element>, b: seq<Element>, self: string, primitiveTypeCodeMap: map<string, string>)
    ensures ElementsTypeCodes(a + b, self, primitiveTypeCodeMap)
            == ElementsTypeCodes(a, self, primitiveTypeCodeMap) + ElementsTypeCodes(b, self, primitiveTypeCodeMap)
    decreases |b|
  {
    if |b| == 0 {
      assert a + b == a;
    } else {
      var init := b[..|b| - 1];
      ElementsTypeCodesAppend(a, init, self, primitiveTypeCodeMap);
      assert (a + b)[..|a + b| - 1] == a + init;
      assert (a + b)[|a + b| - 1] == b[|b| - 1];
    }
  }

  /** The type codes of one element are among those of the list. */
  lemma ElementTypeCodesIn(els: seq<Element>, self: string, primitiveTypeCodeMap: map<string, string>, i: nat)
    requires i < |els| && Types(els[i]).Some?
    ensures forall y :: y in TypeCodes(Types(els[i]).value, self, primitiveTypeCodeMap) ==>
                        y in ElementsTypeCodes(els, self, primitiveTypeCodeMap)
  {
    ElementsTypeCodesSnoc(els, self, primitiveTypeCodeMap, i);
    ElementsTypeCodesPrefix(els, self, primitiveTypeCodeMap, i + 1);
  }

  /** The dependency lists of every key the loader finds. */
  function DependencyGraph(defs: map<string, StructureDefinition>, primitiveTypeCodeMap: map<string, string>)
    : (deps: map<string, seq<string>>)
    ensures deps.Keys == defs.Keys
  {
    map x | x in defs :: Dependencies(defs[x], primitiveTypeCodeMap)
  }

  /** The dependency list of `x`, when the loader finds it, is that of its
      definition. */
  ghost predicate GraphAt(deps: map<string, seq<string>>, defs: map<string, StructureDefinition>,
                          primitiveTypeCodeMap: map<string, string>, x: string)
  {
    (x in deps <==> x in defs) && (x in defs ==> deps[x] == Dependencies(defs[x], primitiveTypeCodeMap))
  }

  /** The graph of a loader's map agrees with it at every key. */
  lemma GraphAtAll(defs: map<string, StructureDefinition>, primitiveTypeCodeMap: map<string, string>)
    ensures forall x :: GraphAt(DependencyGraph(defs, primitiveTypeCodeMap), defs, primitiveTypeCodeMap, x)
  {
  }

  /** The key `x` leads to a definition that depends on the key `y`. */
  ghost predicate Edge(deps: map<string, seq<string>>, x: string, y: string)
  {
    x in deps && y in deps[x]
  }

  /** `xs[0]` depends on `xs[1]`, which depends on `xs[2]`, and so on. */
  ghost predicate Chain(deps: map<string, seq<string>>, xs: seq<string>)
  {
    |xs| > 0 && forall k :: 0 <= k < |xs| - 1 ==> Edge(deps, xs[k], xs[k + 1])
  }

  ghost predicate Reaches(deps: map<string, seq<string>>, a: string, b: string)
  {
    exists xs :: Chain(deps, xs) && xs[0] == a && xs[|xs| - 1] == b
  }

  /** Every dependency of a generated key that the loader finds was
      generated before it, unless it depends back on that key. */
  ghost predicate DependenciesFirst(deps: map<string, seq<string>>, log: seq<string>)
  {
    forall i, y {:trigger Edge(deps, log[i], y)} :: 0 <= i < |log| && Edge(deps, log[i], y) && y in deps ==>
      y in log[..i] || Reaches(deps, y, log[i])
  }

  // ---------------------------------------------------------------------
  // The results

  /** The `results` map after generating the definitions the keys of `log`
      lead to, in order, or the first error `constructZodSchemaCode`
      throws. */
  function Generated(defs: map<string, StructureDefinition>, codeOf: StructureDefinition -> Result<string>,
                     log: seq<string>): Result<OrderedMap<string>>
    requires forall x :: x in log ==> x in defs
  {
    if |log| == 0 then Ok([])
    else
      var results :- Generated(defs, codeOf, log[..|log| - 1]);
      var d := defs[log[|log| - 1]];
      var schemaCode :- codeOf(d);
      Ok(MapSet(results, d.id, schemaCode))
  }

  /** `constructZodSchemaCode(definition, primitiveTypeCodeMap, resourceLoader)`
      for the loader of `defs`. */
  function SchemaCodeOf(primitiveTypeCodeMap: map<string, string>, defs: map<string, StructureDefinition>)
    : StructureDefinition -> Result<string>
  {
    d => ConstructZodSchemaCodeF(d, primitiveTypeCodeMap, Some(defs))
  }

  /** The ids of the definitions the keys lead to. */
  function Ids(defs: map<string, StructureDefinition>, log: seq<string>): (ids: seq<string>)
    requires forall x :: x in log ==> x in defs
    ensures |ids| == |log| && forall j :: 0 <= j < |log| ==> ids[j] == defs[log[j]].id
  {
    seq(|log|, j requires 0 <= j < |log| => defs[log[j]].id)
  }

  /** The code generated for the last key of `log` whose definition has id
      `k`. */
  function LastSchema(defs: map<string, StructureDefinition>, codeOf: StructureDefinition -> Result<string>,
                      log: seq<string>, k: string): Option<Result<string>>
    requires forall x :: x in log ==> x in defs
  {
    if |log| == 0 then None
    else if defs[log[|log| - 1]].id == k then Some(codeOf(defs[log[|log| - 1]]))
    else LastSchema(defs, codeOf, log[..|log| - 1], k)
  }

  /** The results exist exactly when no definition's code fails ... */
  lemma {:induction false} GeneratedOk(defs: map<string, StructureDefinition>, codeOf: StructureDefinition -> Result<string>,
                                       log: seq<string>)
    requires forall x :: x in log ==> x in defs
    ensures Generated(defs, codeOf, log).Ok? <==> forall j :: 0 <= j < |log| ==> codeOf(defs[log[j]]).Ok?
  {
    if |log| > 0 {
      var init := log[..|log| - 1];
      GeneratedOk(defs, codeOf, init);
      assert forall j :: 0 <= j < |init| ==> init[j] == log[j];
    }
  }

  /** ... then they hold one entry per definition id, in the order the
      ids were first generated ... */
  lemma {:induction false} GeneratedKeys(defs: map<string, StructureDefinition>, codeOf: StructureDefinition -> Result<string>,
                                         log: seq<string>)
    requires forall x :: x in log ==> x in defs
    requires Generated(defs, codeOf, log).Ok?
    ensures DistinctKeys(Generated(defs, codeOf, log).value)
    ensures Keys(Generated(defs, codeOf, log).value) == FirstOccurrences(Ids(defs, log))
  {
    if |log| > 0 {
      var init := log[..|log| - 1];
      var d := defs[log[|log| - 1]];
      GeneratedKeys(defs, codeOf, init);
      var g := Generated(defs, codeOf, init).value;
      MapSetKeys(g, d.id, codeOf(d).value);
      FirstOccurrencesSpec(Ids(defs, init));
      IdsSnoc(defs, log);
      assert d.id in Keys(g) <==> d.id in Ids(defs, init);
    }
  }

  /** The ids of `log` are those of all but its last key, then that key's. */
  lemma IdsSnoc(defs: map<string, StructureDefinition>, log: seq<string>)
    requires |log| > 0 && forall x :: x in log ==> x in defs
    ensures Ids(defs, log)[..|log| - 1] == Ids(defs, log[..|log| - 1])
    ensures Ids(defs, log)[|log| - 1] == defs[log[|log| - 1]].id
  {
  }

  /** ... each holding the code of the last definition generated under
      its id. */
  lemma {:induction false} GeneratedValues(defs: map<string, StructureDefinition>, codeOf: StructureDefinition -> Result<string>,
                                           log: seq<string>, k: string)
    requires forall x :: x in log ==> x in defs
    requires Generated(defs, codeOf, log).Ok?
    ensures Get(Generated(defs, codeOf, log).value, k).Some? <==> LastSchema(defs, codeOf, log, k).Some?
    ensures Get(Generated(defs, codeOf, log).value, k).Some? ==>
              LastSchema(defs, codeOf, log, k) == Some(Ok(Get(Generated(defs, codeOf, log).value, k).value))
  {
    if |log| > 0 {
      var init := log[..|log| - 1];
      var d := defs[log[|log| - 1]];
      GeneratedValues(defs, codeOf, init, k);
      var g := Generated(defs, codeOf, init).value;
      if k == d.id {
        MapSetGetSame(g, d.id, codeOf(d).value);
      } else {
        MapSetGetOther(g, d.id, codeOf(d).value, k);
      }
    }
  }

  /** Generating one more definition sets its code under its id. */
  lemma GeneratedSnoc(defs: map<string, StructureDefinition>, codeOf: StructureDefinition -> Result<string>,
                      log: seq<string>, id: string, results: OrderedMap<string>, schemaCode: string)
    requires forall x :: x in log ==> x in defs
    requires id in defs && Generated(defs, codeOf, log) == Ok(results) && codeOf(defs[id]) == Ok(schemaCode)
    ensures Generated(defs, codeOf, log + [id]) == Ok(MapSet(results, defs[id].id, schemaCode))
  {
    assert (log + [id])[..|log|] == log;
  }

  // ---------------------------------------------------------------------
  // The state of the recursion

  /** `processed` holds the keys generated so far, in order, each once
      (`log`); `processing` the keys whose visit is in progress, in the
      order they started (`stack`, each depending on the one before); the
      two are disjoint; every dependency of a generated key is generated
      or in progress. */
  ghost predicate GeneratorState(deps: map<string, seq<string>>,
                                 log: seq<string>, processed: set<string>, stack: seq<string>, processing: set<string>)
  {
    && NoDuplicates(log)
    && (forall x :: x in processed <==> x in log)
    && NoDuplicates(stack)
    && (forall x :: x in processing <==> x in stack)
    && processed !! processing
    && (forall x :: x in log ==> x in deps)
    && (forall x :: x in stack ==> x in deps)
    && (forall k :: 0 <= k < |stack| - 1 ==> Edge(deps, stack[k], stack[k + 1]))
    && DependenciesFirst(deps, log)
    && (forall x, y {:trigger Edge(deps, x, y)} :: x in log && Edge(deps, x, y) && y in deps ==> y in log || y in stack)
  }

  /** A dependency is out of the way once it is processed, in progress, or
      unknown to the loader. */
  predicate Covered(deps: map<string, seq<string>>, processed: set<string>, processing: set<string>, y: string)
  {
    y !in deps || y in processed || y in processing
  }

  /** Starting the visit of a key the loader finds, which the top of the
      stack depends on, keeps the state valid. */
  lemma GeneratorStart(deps: map<string, seq<string>>,
                       log: seq<string>, processed: set<string>, stack: seq<string>, processing: set<string>, id: string)
    requires GeneratorState(deps, log, processed, stack, processing)
    requires id in deps && id !in processed && id !in processing
    requires |stack| > 0 ==> Edge(deps, stack[|stack| - 1], id)
    ensures GeneratorState(deps, log, processed, stack + [id], processing + {id})
  {
    ChainSnoc(deps, stack, id);
  }

  /** A stack of dependencies stays one when a dependency of its top is
      pushed. */
  lemma ChainSnoc(deps: map<string, seq<string>>, stack: seq<string>, id: string)
    requires forall k :: 0 <= k < |stack| - 1 ==> Edge(deps, stack[k], stack[k + 1])
    requires |stack| > 0 ==> Edge(deps, stack[|stack| - 1], id)
    ensures forall k :: 0 <= k < |stack + [id]| - 1 ==> Edge(deps, (stack + [id])[k], (stack + [id])[k + 1])
  {
    var s := stack + [id];
    forall k | 0 <= k < |s| - 1 ensures Edge(deps, s[k], s[k + 1]) {
      if k < |stack| - 1 {
        assert s[k] == stack[k] && s[k + 1] == stack[k + 1];
      } else {
        assert s[k] == stack[|stack| - 1] && s[k + 1] == id;
      }
    }
  }

  /** When a visit ends with every dependency of its key covered, each of
      them is generated or reaches the key through the stack. */
  lemma PendingReaches(deps: map<string, seq<string>>, log: seq<string>, stack: seq<string>, id: string)
    requires |stack| > 0 && stack[|stack| - 1] == id
    requires forall k :: 0 <= k < |stack| - 1 ==> Edge(deps, stack[k], stack[k + 1])
    requires forall y :: Edge(deps, id, y) && y in deps ==> y in log || y in stack
    ensures forall y :: Edge(deps, id, y) && y in deps ==> y in log || Reaches(deps, y, id)
  {
    forall y | Edge(deps, id, y) && y in deps && y !in log
      ensures Reaches(deps, y, id)
    {
      var t :| 0 <= t < |stack| && stack[t] == y;
      StackSuffixReaches(deps, stack, t);
    }
  }

  /** Each key on a stack of dependencies reaches the top of the stack. */
  lemma {:induction false} StackSuffixReaches(deps: map<string, seq<string>>, stack: seq<string>, t: nat)
    requires t < |stack|
    requires forall k :: 0 <= k < |stack| - 1 ==> Edge(deps, stack[k], stack[k + 1])
    ensures Reaches(deps, stack[t], stack[|stack| - 1])
  {
    var xs := stack[t..];
    forall k | 0 <= k < |xs| - 1
      ensures Edge(deps, xs[k], xs[k + 1])
    {
      assert xs[k] == stack[t + k] && xs[k + 1] == stack[t + k + 1];
    }
    assert xs[0] == stack[t] && xs[|xs| - 1] == stack[|stack| - 1];
    assert Chain(deps, xs);
  }

  /** `GeneratorFinish` for the stack and the keys in progress before the
      visit of `id` ends. */
  lemma FinishStep(deps: map<string, seq<string>>,
                   log: seq<string>, processed: set<string>, stack: seq<string>, processing: set<string>, id: string)
    requires GeneratorState(deps, log, processed, stack, processing)
    requires |stack| > 0 && stack[|stack| - 1] == id && id in processing
    requires forall y :: Edge(deps, id, y) ==> Covered(deps, processed, processing, y)
    ensures GeneratorState(deps, log + [id], processed + {id}, stack[..|stack| - 1], processing - {id})
  {
    var below := stack[..|stack| - 1];
    assert stack == below + [id];
    var others := processing - {id};
    assert processing == others + {id};
    GeneratorFinish(deps, log, processed, below, others, id);
  }

  /** Ending the visit on top of the stack, once every dependency of its
      key is covered, keeps the state valid with the key generated. */
  lemma GeneratorFinish(deps: map<string, seq<string>>,
                        log: seq<string>, processed: set<string>, stack: seq<string>, processing: set<string>, id: string)
    requires GeneratorState(deps, log, processed, stack + [id], processing + {id})
    requires id !in processing
    requires forall y :: Edge(deps, id, y) ==> Covered(deps, processed, processing + {id}, y)
    ensures GeneratorState(deps, log + [id], processed + {id}, stack, processing)
  {
    var s := stack + [id];
    assert s[|s| - 1] == id;
    PendingReaches(deps, log, s, id);
    var l := log + [id];
    forall i, y | 0 <= i < |l| && Edge(deps, l[i], y) && y in deps
      ensures y in l[..i] || Reaches(deps, y, l[i])
    {
      if i < |log| {
        assert l[..i] == log[..i] && l[i] == log[i];
      } else {
        assert l[..i] == log;
      }
    }
    assert forall k :: 0 <= k < |stack| ==> s[k] == stack[k];
    assert id in s;
  }

  // ---------------------------------------------------------------------
  // The recursion as functions

  /** What `processDependencies` changes besides `results`: the keys
      generated (`processed`) and the order they were generated in (`log`).
      The `results` map is `Generated` of the log. */
  datatype Progress = Progress(processed: set<string>, log: seq<string>)

  /** A method's error, or its progress when there is none. */
  function Outcome(err: Option<string>, s: Progress): Result<Progress>
  {
    if err.Some? then Err(err.value) else Ok(s)
  }

  /** `processDependencies(id)` from `s`, with the keys of `processing` in
      progress: a key that is generated, in progress or unknown to the
      loader changes nothing. Otherwise the key's dependencies are
      processed in order with the key in progress, then its code is
      generated and the key is appended to the log. The first code that
      fails ends the whole run with its error. */
  function ProcessDependenciesF(defs: map<string, StructureDefinition>, codeOf: StructureDefinition -> Result<string>,
                                primitiveTypeCodeMap: map<string, string>,
                                id: string, s: Progress, processing: set<string>): (r: Result<Progress>)
    requires s.processed !! processing
    ensures r.Ok? ==> s.processed <= r.value.processed && r.value.processed !! processing
    decreases defs.Keys - s.processed - processing, 1
  {
    if id in s.processed || id in processing || id !in defs then Ok(s)
    else
      var t :- ProcessEachF(defs, codeOf, primitiveTypeCodeMap, id, Dependencies(defs[id], primitiveTypeCodeMap),
                            s, processing + {id});
      if codeOf(defs[id]).Err? then Err(codeOf(defs[id]).error)
      else Ok(Progress(t.processed + {id}, t.log + [id]))
  }

  /** The keys `ys` processed in turn while `id` is in progress. */
  function ProcessEachF(defs: map<string, StructureDefinition>, codeOf: StructureDefinition -> Result<string>,
                        primitiveTypeCodeMap: map<string, string>,
                        id: string, ys: seq<string>, s: Progress, processing: set<string>): (r: Result<Progress>)
    requires id in defs && id in processing && id !in s.processed && s.processed !! processing
    ensures r.Ok? ==> s.processed <= r.value.processed && r.value.processed !! processing
    decreases defs.Keys - s.processed - (processing - {id}), 0, |ys|
  {
    if |ys| == 0 then Ok(s)
    else
      var t :- ProcessDependenciesF(defs, codeOf, primitiveTypeCodeMap, ys[0], s, processing);
      ProcessEachF(defs, codeOf, primitiveTypeCodeMap, id, ys[1..], t, processing)
  }

  /** The loop of `generateZodSchemasWithDependencies`: the id of each
      definition processed in list order, nothing in progress. */
  function ProcessAllF(defs: map<string, StructureDefinition>, codeOf: StructureDefinition -> Result<string>,
                       primitiveTypeCodeMap: map<string, string>,
                       sds: seq<StructureDefinition>, s: Progress): (r: Result<Progress>)
    ensures r.Ok? ==> s.processed <= r.value.processed
    decreases |sds|
  {
    if |sds| == 0 then Ok(s)
    else
      var t :- ProcessDependenciesF(defs, codeOf, primitiveTypeCodeMap, sds[0].id, s, {});
      ProcessAllF(defs, codeOf, primitiveTypeCodeMap, sds[1..], t)
  }

  /** Processing two lists of keys in turn is processing their
      concatenation; an error in the first ends it. */
  lemma {:induction false} ProcessEachAppend(defs: map<string, StructureDefinition>, codeOf: StructureDefinition -> Result<string>,
                                             primitiveTypeCodeMap: map<string, string>, id: string,
                                             ys: seq<string>, zs: seq<string>, s: Progress, processing: set<string>)
    requires id in defs && id in processing && id !in s.processed && s.processed !! processing
    ensures var first := ProcessEachF(defs, codeOf, primitiveTypeCodeMap, id, ys, s, processing);
            ProcessEachF(defs, codeOf, primitiveTypeCodeMap, id, ys + zs, s, processing)
            == if first.Err? then first else ProcessEachF(defs, codeOf, primitiveTypeCodeMap, id, zs, first.value, processing)
    decreases |ys|
  {
    if |ys| == 0 {
      assert ys + zs == zs;
    } else {
      assert (ys + zs)[0] == ys[0] && (ys + zs)[1..] == ys[1..] + zs;
      var t := ProcessDependenciesF(defs, codeOf, primitiveTypeCodeMap, ys[0], s, processing);
      if t.Ok? {
        ProcessEachAppend(defs, codeOf, primitiveTypeCodeMap, id, ys[1..], zs, t.value, processing);
      }
    }
  }

  /** An error while processing the codes of the first `n` elements is
      the error of processing the codes of all of them. */
  lemma ElementsPrefixErr(defs: map<string, StructureDefinition>, codeOf: StructureDefinition -> Result<string>,
                          primitiveTypeCodeMap: map<string, string>, id: string, els: seq<Element>, n: nat,
                          self: string, s: Progress, processing: set<string>)
    requires id in defs && id in processing && id !in s.processed && s.processed !! processing && n <= |els|
    requires ProcessEachF(defs, codeOf, primitiveTypeCodeMap, id, ElementsTypeCodes(els[..n], self, primitiveTypeCodeMap),
                          s, processing).Err?
    ensures ProcessEachF(defs, codeOf, primitiveTypeCodeMap, id, ElementsTypeCodes(els, self, primitiveTypeCodeMap), s, processing)
            == ProcessEachF(defs, codeOf, primitiveTypeCodeMap, id, ElementsTypeCodes(els[..n], self, primitiveTypeCodeMap),
                            s, processing)
  {
    ElementsTypeCodesAppend(els[..n], els[n..], self, primitiveTypeCodeMap);
    assert els[..n] + els[n..] == els;
    ProcessEachAppend(defs, codeOf, primitiveTypeCodeMap, id, ElementsTypeCodes(els[..n], self, primitiveTypeCodeMap),
                      ElementsTypeCodes(els[n..], self, primitiveTypeCodeMap), s, processing);
  }

  /** An error while processing the codes of the first `n` type entries
      is the error of processing the codes of all of them. */
  lemma TypeRefsPrefixErr(defs: map<string, StructureDefinition>, codeOf: StructureDefinition -> Result<string>,
                          primitiveTypeCodeMap: map<string, string>, id: string, typeRefs: seq<TypeRef>, n: nat,
                          self: string, s: Progress, processing: set<string>)
    requires id in defs && id in processing && id !in s.processed && s.processed !! processing && n <= |typeRefs|
    requires ProcessEachF(defs, codeOf, primitiveTypeCodeMap, id, TypeCodes(typeRefs[..n], self, primitiveTypeCodeMap),
                          s, processing).Err?
    ensures ProcessEachF(defs, codeOf, primitiveTypeCodeMap, id, TypeCodes(typeRefs, self, primitiveTypeCodeMap), s, processing)
            == ProcessEachF(defs, codeOf, primitiveTypeCodeMap, id, TypeCodes(typeRefs[..n], self, primitiveTypeCodeMap),
                            s, processing)
  {
    TypeCodesAppend(typeRefs[..n], typeRefs[n..], self, primitiveTypeCodeMap);
    assert typeRefs[..n] + typeRefs[n..] == typeRefs;
    ProcessEachAppend(defs, codeOf, primitiveTypeCodeMap, id, TypeCodes(typeRefs[..n], self, primitiveTypeCodeMap),
                      TypeCodes(typeRefs[n..], self, primitiveTypeCodeMap), s, processing);
  }

  /** Two definitions without dependencies are generated in list order,
      whatever their ids. */
  lemma ProcessAllInListOrder(defs: map<string, StructureDefinition>, codeOf: StructureDefinition -> Result<string>,
                              primitiveTypeCodeMap: map<string, string>, a: StructureDefinition, b: StructureDefinition)
    requires a.id in defs && b.id in defs && a.id != b.id
    requires Dependencies(defs[a.id], primitiveTypeCodeMap) == [] && Dependencies(defs[b.id], primitiveTypeCodeMap) == []
    requires codeOf(defs[a.id]).Ok? && codeOf(defs[b.id]).Ok?
    ensures ProcessAllF(defs, codeOf, primitiveTypeCodeMap, [a, b], Progress({}, []))
            == Ok(Progress({a.id, b.id}, [a.id, b.id]))
  {
    var none: set<string> := {};
    var s1 := Progress(none + {a.id}, [] + [a.id]);
    assert ProcessDependenciesF(defs, codeOf, primitiveTypeCodeMap, a.id, Progress({}, []), {}) == Ok(s1);
    assert ProcessDependenciesF(defs, codeOf, primitiveTypeCodeMap, b.id, s1, {})
           == Ok(Progress(s1.processed + {b.id}, s1.log + [b.id]));
    var s2 := Progress(s1.processed + {b.id}, s1.log + [b.id]);
    assert ProcessAllF(defs, codeOf, primitiveTypeCodeMap, [], s2) == Ok(s2);
    assert [b][1..] == [];
    assert ProcessAllF(defs, codeOf, primitiveTypeCodeMap, [b], s1) == Ok(s2);
    assert [a, b][1..] == [b];
    assert s2 == Progress({a.id, b.id}, [a.id, b.id]);
  }
}
