/** src/constructZodSchemaCode.ts, part 2: `constructZodSchemaCode`, which
    turns the flat snapshot of one definition into the source text of a Zod
    object schema, one field per element. */
module SchemaCode {
  import opened Wrappers
  import opened Text
  import opened OrderedMaps
  import opened Fhir
  import opened Utils
  import opened DependencyTree
  import opened PrimitiveTypes
  import opened SnapshotMerge

  /** What the JavaScript engine throws when a choice element has no `type`
      list (`for (const type of types)` over `undefined`). */
  const NotIterableMessage: string := "types is not iterable"

  /** What it throws when an entry of a choice element's type list names no
      type (`type.charAt(0)` on `undefined`). */
  const UndefinedTypeMessage: string := "Cannot read properties of undefined (reading 'charAt')"

  /** What every field of one definition depends on: its id, whether it is
      of primitive kind, and the primitive code table. */
  datatype SchemaContext = SchemaContext(id: string, isPrimitive: bool, primitiveTypeCodeMap: map<string, string>)

  // ---------------------------------------------------------------------
  // One field

  /** The schema of a type before wrapping: for a primitive-kind definition
      the table entry (`z.unknown()` when it is missing or empty), otherwise
      the type's schema name. */
  function BaseSchema(ctx: SchemaContext, t: string): string
  {
    if ctx.isPrimitive then
      (if t in ctx.primitiveTypeCodeMap && ctx.primitiveTypeCodeMap[t] != "" then ctx.primitiveTypeCodeMap[t] else "z.unknown()")
    else ZodSchemaName(t)
  }

  /** `z.array(...)`, then `.optional()`, then `z.lazy(() => ...)`. */
  function Wrap(schema: string, isArray: bool, isOptional: bool, isLazy: bool): string
  {
    LazyWrap(OptionalWrap(ArrayWrap(schema, isArray), isOptional), isLazy)
  }

  function ArrayWrap(schema: string, isArray: bool): string
  {
    if isArray then "z.array(" + schema + ")" else schema
  }

  function OptionalWrap(schema: string, isOptional: bool): string
  {
    if isOptional then schema + ".optional()" else schema
  }

  function LazyWrap(schema: string, isLazy: bool): string
  {
    if isLazy then "z.lazy(() => " + schema + ")" else schema
  }

  /** The code of the field an element gets for type `t`: an array when
      `max` is `"*"`, optional when `min` is 0, lazy when the type is the
      definition itself (not for a primitive-kind definition). */
  function FieldCode(ctx: SchemaContext, e: Element, t: string): string
  {
    Wrap(BaseSchema(ctx, t), Max(e) == Some("*"), Min(e) == Some(0), t == ctx.id && !ctx.isPrimitive)
  }

  /** A type gets an import line unless the definition is of primitive
      kind or the type is the definition itself. */
  predicate Imports(ctx: SchemaContext, t: string)
  {
    !ctx.isPrimitive && t != ctx.id
  }

  /** One field: its name, its code, and the type it was made for. */
  datatype FieldSpec = FieldSpec(name: string, code: string, typeName: string)

  function FieldOf(ctx: SchemaContext, e: Element, name: string, t: string): FieldSpec
  {
    FieldSpec(name, FieldCode(ctx, e, t), t)
  }

  /** The field name of choice `base[x]` for type `t`. */
  function ChoiceName(base: string, t: string): string
  {
    base + UpperFirst(t)
  }

  /** The fields of a `name[x]` element, one per type in order, or the
      error the first entry naming no type throws. */
  function ChoiceFields(ctx: SchemaContext, e: Element, base: string, types: seq<Option<string>>): Result<seq<FieldSpec>>
    decreases |types|
  {
    if |types| == 0 then Ok([])
    else if types[0].None? then Err(UndefinedTypeMessage)
    else
      var rest :- ChoiceFields(ctx, e, base, types[1..]);
      Ok([FieldOf(ctx, e, ChoiceName(base, types[0].value), types[0].value)] + rest)
  }

  /** `types?.[0]` when truthy. */
  function FirstType(elementTypes: Option<seq<TypeRef>>): Option<string>
  {
    var ps := ParsedTypes(elementTypes);
    if |ps| > 0 && ps[0].Some? && ps[0].value != "" then ps[0] else None
  }

  /** Whether an element is named `name[x]`. */
  predicate IsChoice(e: Element)
  {
    EndsWith(LastSegment(Path(e)), "[x]")
  }

  /** Elements without a field: an empty path, the root element (its path
      is the definition's id), and an element that is not a choice and has
      no first type. */
  predicate Skipped(ctx: SchemaContext, e: Element)
  {
    Path(e) == "" || Path(e) == ctx.id || (!IsChoice(e) && FirstType(Types(e)).None?)
  }

  /** The body of the loop over the snapshot's elements: the fields one
      element sets, or what the engine throws. A plain element sets one
      field, named by the last segment of its path, for its first type. */
  function ElementFields(ctx: SchemaContext, e: Element): Result<seq<FieldSpec>>
  {
    if Skipped(ctx, e) then Ok([])
    else
      var raw := LastSegment(Path(e));
      if IsChoice(e) then
        if Types(e).None? then Err(NotIterableMessage)
        else ChoiceFields(ctx, e, raw[..|raw| - 3], ParsedTypes(Types(e)))
      else Ok([FieldOf(ctx, e, raw, FirstType(Types(e)).value)])
  }

  /** The fields of all the elements, in order, or the first error. */
  function AllFields(ctx: SchemaContext, els: seq<Element>): Result<seq<FieldSpec>>
    decreases |els|
  {
    if |els| == 0 then Ok([])
    else
      var first :- ElementFields(ctx, els[0]);
      var rest :- AllFields(ctx, els[1..]);
      Ok(first + rest)
  }

  /** `zodSchemaCodeFields` and the types imported so far, in the order
      their import lines were written (`importedTypes` is their set,
      `importStatements` their lines). */
  datatype Emitted = Emitted(fields: OrderedMap<string>, imports: seq<string>)

  /** One `zodSchemaCodeFields.set(name, code)` with the import it needs. */
  function AddField(ctx: SchemaContext, st: Emitted, f: FieldSpec): Emitted
  {
    Emitted(MapSet(st.fields, f.name, f.code),
            if Imports(ctx, f.typeName) then AddUnique(st.imports, f.typeName) else st.imports)
  }

  function AddFields(ctx: SchemaContext, st: Emitted, fs: seq<FieldSpec>): Emitted
  {
    if |fs| == 0 then st else AddField(ctx, AddFields(ctx, st, fs[..|fs| - 1]), fs[|fs| - 1])
  }

  // ---------------------------------------------------------------------
  // The module text

  function ImportLine(t: string): string
  {
    "import { " + ZodSchemaName(t) + " } from \"./" + t + "\"\n"
  }

  function ImportBlock(ts: seq<string>): string
  {
    if |ts| == 0 then "" else ImportBlock(ts[..|ts| - 1]) + ImportLine(ts[|ts| - 1])
  }

  function FieldLine(kv: KV<string>): string
  {
    "    " + kv.key + ": " + kv.value + ",\n"
  }

  function FieldLines(fields: OrderedMap<string>): string
  {
    if |fields| == 0 then "" else FieldLines(fields[..|fields| - 1]) + FieldLine(fields[|fields| - 1])
  }

  function SchemaHeader(id: string, imports: seq<string>): string
  {
    "import { z } from \"zod\";\n" + ImportBlock(imports) + "\nexport const " + ZodSchemaName(id) + " = z.object({\n"
  }

  const SchemaFooter: string := "});\n\n"

  /** The definition the fields are read from: a constraint whose base the
      loader knows is merged over that base first; otherwise (no loader, no
      base, or a base the loader cannot find) the definition as it is. */
  function EffectiveDefinition(sd: StructureDefinition, loader: Option<map<string, StructureDefinition>>): StructureDefinition
  {
    if loader.Some? && IsConstraint(sd) && BaseUrl(sd).Some? && BaseUrl(sd).value in loader.value then
      MergeSnapshots(loader.value[BaseUrl(sd).value], sd)
    else sd
  }

  function ContextOf(d: StructureDefinition, primitiveTypeCodeMap: map<string, string>): SchemaContext
  {
    SchemaContext(d.id, d.kind == PrimitiveType, primitiveTypeCodeMap)
  }

  /** `constructZodSchemaCode(structureDefinition, primitiveTypeCodeMap,
      resourceLoader)`, the loader given by its map. */
  function ConstructZodSchemaCodeF(sd: StructureDefinition, primitiveTypeCodeMap: map<string, string>,
                                   loader: Option<map<string, StructureDefinition>>): Result<string>
  {
    var d := EffectiveDefinition(sd, loader);
    var ctx := ContextOf(d, primitiveTypeCodeMap);
    var fs :- AllFields(ctx, ElementsOr(d.snapshot));
    var st := AddFields(ctx, Emitted([], []), fs);
    Ok(SchemaHeader(d.id, st.imports) + FieldLines(st.fields) + SchemaFooter)
  }

  // ---------------------------------------------------------------------
  // Which fields an element gets

  /** The type names of a list whose entries all name one. */
  function Defined(types: seq<Option<string>>): (ts: seq<string>)
    requires forall j :: 0 <= j < |types| ==> types[j].Some?
    ensures |ts| == |types| && forall j :: 0 <= j < |types| ==> ts[j] == types[j].value
  {
    seq(|types|, j requires 0 <= j < |types| => types[j].value)
  }

  /** A choice fails exactly when an entry of its type list names no type;
      otherwise it gets one field per type, in type order, named `base`
      followed by the type with a capital first letter. */
  lemma {:induction false} ChoiceFieldsSpec(ctx: SchemaContext, e: Element, base: string, types: seq<Option<string>>)
    ensures ChoiceFields(ctx, e, base, types).Ok? <==> forall j :: 0 <= j < |types| ==> types[j].Some?
    ensures ChoiceFields(ctx, e, base, types).Err? ==> ChoiceFields(ctx, e, base, types) == Err(UndefinedTypeMessage)
    ensures ChoiceFields(ctx, e, base, types).Ok? ==>
      var fs := ChoiceFields(ctx, e, base, types).value;
      |fs| == |types|
      && forall j :: 0 <= j < |types| ==> fs[j] == FieldOf(ctx, e, ChoiceName(base, types[j].value), types[j].value)
    decreases |types|
  {
    if |types| > 0 {
      var rest := types[1..];
      ChoiceFieldsSpec(ctx, e, base, rest);
      if types[0].Some? {
        ChoiceFieldsCons(ctx, e, base, types);
      }
    }
  }

  /** The step of `ChoiceFieldsSpec` past a first entry that names a type. */
  lemma ChoiceFieldsCons(ctx: SchemaContext, e: Element, base: string, types: seq<Option<string>>)
    requires |types| > 0 && types[0].Some?
    requires ChoiceFields(ctx, e, base, types[1..]).Ok? <==> forall j :: 0 <= j < |types[1..]| ==> types[1..][j].Some?
    requires ChoiceFields(ctx, e, base, types[1..]).Ok? ==>
      var fs := ChoiceFields(ctx, e, base, types[1..]).value;
      |fs| == |types[1..]|
      && forall j :: 0 <= j < |types[1..]| ==> fs[j] == FieldOf(ctx, e, ChoiceName(base, types[1..][j].value), types[1..][j].value)
    ensures ChoiceFields(ctx, e, base, types).Ok? <==> forall j :: 0 <= j < |types| ==> types[j].Some?
    ensures ChoiceFields(ctx, e, base, types).Ok? ==>
      var fs := ChoiceFields(ctx, e, base, types).value;
      |fs| == |types|
      && forall j :: 0 <= j < |types| ==> fs[j] == FieldOf(ctx, e, ChoiceName(base, types[j].value), types[j].value)
  {
    var rest := types[1..];
    assert forall j :: 0 < j < |types| ==> types[j] == rest[j - 1];
    if exists j :: 0 <= j < |types| && types[j].None? {
      var j :| 0 <= j < |types| && types[j].None?;
      assert rest[j - 1].None?;
    }
  }

  /** The types an element gets fields for. */
  function TypesUsed(ctx: SchemaContext, e: Element): seq<string>
  {
    if Skipped(ctx, e) then []
    else if IsChoice(e) then
      var ps := ParsedTypes(Types(e));
      if forall j :: 0 <= j < |ps| ==> ps[j].Some? then Defined(ps) else []
    else [FirstType(Types(e)).value]
  }

  function TypeNames(fs: seq<FieldSpec>): (ts: seq<string>)
    ensures |ts| == |fs| && forall j :: 0 <= j < |fs| ==> ts[j] == fs[j].typeName
  {
    seq(|fs|, j requires 0 <= j < |fs| => fs[j].typeName)
  }

  /** The fields of an element are made for the types it uses, in order:
      none for a skipped element, its first type for a plain one, each of
      its types for a choice. */
  lemma ElementTypes(ctx: SchemaContext, e: Element)
    requires ElementFields(ctx, e).Ok?
    ensures TypeNames(ElementFields(ctx, e).value) == TypesUsed(ctx, e)
  {
    if !Skipped(ctx, e) && IsChoice(e) {
      var raw := LastSegment(Path(e));
      ChoiceFieldsSpec(ctx, e, raw[..|raw| - 3], ParsedTypes(Types(e)));
    }
  }

  // ---------------------------------------------------------------------
  // What the fields add up to

  /** The names the fields are set under, kept at their first occurrence:
      the order of the object's keys. */
  function Names(fs: seq<FieldSpec>): (ns: seq<string>)
    ensures |ns| == |fs| && forall j :: 0 <= j < |fs| ==> ns[j] == fs[j].name
  {
    seq(|fs|, j requires 0 <= j < |fs| => fs[j].name)
  }

  /** The code of the last field named `k`, if any. */
  function LastCode(fs: seq<FieldSpec>, k: string): Option<string>
  {
    if |fs| == 0 then None
    else if fs[|fs| - 1].name == k then Some(fs[|fs| - 1].code)
    else LastCode(fs[..|fs| - 1], k)
  }

  /** Setting fields in order: the keys appear in first-insertion order, a
      key set again keeps its place, and each key holds the code of the
      last field set under it. */
  lemma {:induction false} AddFieldsFields(ctx: SchemaContext, fs: seq<FieldSpec>)
    ensures var m := AddFields(ctx, Emitted([], []), fs).fields;
            DistinctKeys(m)
            && Keys(m) == FirstOccurrences(Names(fs))
            && forall k :: Get(m, k) == LastCode(fs, k)
  {
    if |fs| > 0 {
      var init := fs[..|fs| - 1];
      AddFieldsFields(ctx, init);
      FieldsSnoc(AddFields(ctx, Emitted([], []), init).fields, fs);
    }
  }

  /** The step of `AddFieldsFields` for the last field. */
  lemma FieldsSnoc(m0: OrderedMap<string>, fs: seq<FieldSpec>)
    requires |fs| > 0
    requires DistinctKeys(m0) && Keys(m0) == FirstOccurrences(Names(fs[..|fs| - 1]))
    requires forall k :: Get(m0, k) == LastCode(fs[..|fs| - 1], k)
    ensures var m := MapSet(m0, fs[|fs| - 1].name, fs[|fs| - 1].code);
            DistinctKeys(m)
            && Keys(m) == FirstOccurrences(Names(fs))
            && forall k :: Get(m, k) == LastCode(fs, k)
  {
    var init := fs[..|fs| - 1];
    var f := fs[|fs| - 1];
    MapSetKeys(m0, f.name, f.code);
    assert Names(fs)[..|fs| - 1] == Names(init);
    FirstOccurrencesSpec(Names(init));
    forall k ensures Get(MapSet(m0, f.name, f.code), k) == LastCode(fs, k) {
      if k == f.name {
        MapSetGetSame(m0, f.name, f.code);
      } else {
        MapSetGetOther(m0, f.name, f.code, k);
      }
    }
  }

  /** The types among `ts` that get an import line, in order. */
  function Wanted(ctx: SchemaContext, ts: seq<string>): (r: seq<string>)
    ensures forall t :: t in r <==> t in ts && Imports(ctx, t)
    ensures (forall t :: t in ts ==> !Imports(ctx, t)) ==> r == []
  {
    if |ts| == 0 then [] else Wanted(ctx, ts[..|ts| - 1]) + if Imports(ctx, ts[|ts| - 1]) then [ts[|ts| - 1]] else []
  }

  /** Each type that gets an import line is imported once, at its first
      use; never the definition itself; nothing for a definition of
      primitive kind. */
  lemma {:induction false} AddFieldsImports(ctx: SchemaContext, fs: seq<FieldSpec>)
    ensures var imports := AddFields(ctx, Emitted([], []), fs).imports;
            imports == FirstOccurrences(Wanted(ctx, TypeNames(fs)))
            && NoDuplicates(imports)
            && ctx.id !in imports
            && (ctx.isPrimitive ==> imports == [])
  {
    var imports := AddFields(ctx, Emitted([], []), fs).imports;
    AddFieldsImportsAll(ctx, fs);
    AddAllIsFirstOccurrences([], Wanted(ctx, TypeNames(fs)));
    assert [] + Wanted(ctx, TypeNames(fs)) == Wanted(ctx, TypeNames(fs));
    FirstOccurrencesSpec(Wanted(ctx, TypeNames(fs)));
    if ctx.isPrimitive {
      assert Wanted(ctx, TypeNames(fs)) == [];
      assert imports == AddAll([], []);
    }
  }

  lemma {:induction false} AddFieldsImportsAll(ctx: SchemaContext, fs: seq<FieldSpec>)
    ensures AddFields(ctx, Emitted([], []), fs).imports == AddAll([], Wanted(ctx, TypeNames(fs)))
  {
    if |fs| > 0 {
      var init := fs[..|fs| - 1];
      AddFieldsImportsAll(ctx, init);
      ImportsSnoc(ctx, fs, AddFields(ctx, Emitted([], []), init).imports);
    }
  }

  /** The step of `AddFieldsImportsAll` for the last field. */
  lemma ImportsSnoc(ctx: SchemaContext, fs: seq<FieldSpec>, prev: seq<string>)
    requires |fs| > 0 && prev == AddAll([], Wanted(ctx, TypeNames(fs[..|fs| - 1])))
    ensures (if Imports(ctx, fs[|fs| - 1].typeName) then AddUnique(prev, fs[|fs| - 1].typeName) else prev)
            == AddAll([], Wanted(ctx, TypeNames(fs)))
  {
    var init := fs[..|fs| - 1];
    var f := fs[|fs| - 1];
    var w0 := Wanted(ctx, TypeNames(init));
    var w1 := if Imports(ctx, f.typeName) then [f.typeName] else [];
    WantedSnoc(ctx, fs);
    AddAllAppend([], w0, w1);
    if Imports(ctx, f.typeName) {
      assert AddAll(AddAll([], w0), w1) == AddUnique(AddAll([], w0), f.typeName) by {
        assert w1[1..] == [];
      }
    } else {
      assert w0 + w1 == w0;
    }
  }

  lemma WantedSnoc(ctx: SchemaContext, fs: seq<FieldSpec>)
    requires |fs| > 0
    ensures Wanted(ctx, TypeNames(fs))
            == Wanted(ctx, TypeNames(fs[..|fs| - 1]))
               + if Imports(ctx, fs[|fs| - 1].typeName) then [fs[|fs| - 1].typeName] else []
  {
    assert TypeNames(fs)[..|fs| - 1] == TypeNames(fs[..|fs| - 1]);
  }

  /** One step of the loop over the elements: an element that fails ends
      the run with its error, one that succeeds adds its fields. */
  lemma AllFieldsFrom(ctx: SchemaContext, els: seq<Element>, i: nat, d: seq<FieldSpec>)
    requires i < |els|
    ensures ElementFields(ctx, els[i]).Err? ==> Prefixed(d, AllFields(ctx, els[i..])) == ElementFields(ctx, els[i])
    ensures ElementFields(ctx, els[i]).Ok? ==>
      Prefixed(d, AllFields(ctx, els[i..])) == Prefixed(d + ElementFields(ctx, els[i]).value, AllFields(ctx, els[i + 1..]))
  {
    assert els[i..][0] == els[i] && els[i..][1..] == els[i + 1..];
    if ElementFields(ctx, els[i]).Ok? {
      PrefixedTwice(d, ElementFields(ctx, els[i]).value, AllFields(ctx, els[i + 1..]));
    }
  }

  function Prefixed(done: seq<FieldSpec>, r: Result<seq<FieldSpec>>): Result<seq<FieldSpec>>
  {
    match r
    case Err(m) => Err(m)
    case Ok(fs) => Ok(done + fs)
  }

  lemma PrefixedTwice(a: seq<FieldSpec>, b: seq<FieldSpec>, r: Result<seq<FieldSpec>>)
    ensures Prefixed(a, Prefixed(b, r)) == Prefixed(a + b, r)
  {
    if r.Ok? {
      assert a + (b + r.value) == (a + b) + r.value;
    }
  }

  lemma PrefixedEmpty(r: Result<seq<FieldSpec>>)
    ensures Prefixed([], r) == r
  {
    if r.Ok? {
      assert [] + r.value == r.value;
    }
  }

  /** The module `constructZodSchemaCode` emits, for a definition whose
      elements all have their fields: its import lines name each wanted
      type once, at its first use, never the definition itself, nothing for
      a definition of primitive kind; its object lists each field name once,
      in first-insertion order, with the code of the last field set under
      it. */
  lemma ConstructedModule(sd: StructureDefinition, primitiveTypeCodeMap: map<string, string>,
                          loader: Option<map<string, StructureDefinition>>)
    ensures var d := EffectiveDefinition(sd, loader);
            var ctx := ContextOf(d, primitiveTypeCodeMap);
            var r := AllFields(ctx, ElementsOr(d.snapshot));
            (ConstructZodSchemaCodeF(sd, primitiveTypeCodeMap, loader).Ok? <==> r.Ok?)
            && (r.Err? ==> ConstructZodSchemaCodeF(sd, primitiveTypeCodeMap, loader) == Err(r.error))
            && (r.Ok? ==>
                  exists st: Emitted ::
                    && ConstructZodSchemaCodeF(sd, primitiveTypeCodeMap, loader)
                       == Ok(SchemaHeader(d.id, st.imports) + FieldLines(st.fields) + SchemaFooter)
                    && st.imports == FirstOccurrences(Wanted(ctx, TypeNames(r.value)))
                    && NoDuplicates(st.imports) && d.id !in st.imports
                    && (d.kind == PrimitiveType ==> st.imports == [])
                    && DistinctKeys(st.fields)
                    && Keys(st.fields) == FirstOccurrences(Names(r.value))
                    && forall k :: Get(st.fields, k) == LastCode(r.value, k))
  {
    var d := EffectiveDefinition(sd, loader);
    var ctx := ContextOf(d, primitiveTypeCodeMap);
    var r := AllFields(ctx, ElementsOr(d.snapshot));
    if r.Ok? {
      var st := AddFields(ctx, Emitted([], []), r.value);
      AddFieldsImports(ctx, r.value);
      AddFieldsFields(ctx, r.value);
      assert ConstructZodSchemaCodeF(sd, primitiveTypeCodeMap, loader)
             == Ok(SchemaHeader(d.id, st.imports) + FieldLines(st.fields) + SchemaFooter);
    }
  }

  // The field code determines the type's schema and the three wrappers.

  /** Reads the wrappers back off a field code: lazy, then optional, then
      array, and the schema inside. */
  function Unwrap(code: string): (string, bool, bool, bool)
  {
    var (c1, isLazy) := UnwrapLazy(code);
    var (c2, isOptional) := UnwrapOptional(c1);
    var (c3, isArray) := UnwrapArray(c2);
    (c3, isArray, isOptional, isLazy)
  }

  function UnwrapLazy(code: string): (string, bool)
  {
    if StartsWith(code, "z.lazy(() => ") && EndsWith(code, ")") && |code| > 13 then (code[13..|code| - 1], true)
    else (code, false)
  }

  function UnwrapOptional(code: string): (string, bool)
  {
    if EndsWith(code, ".optional()") then (code[..|code| - 11], true) else (code, false)
  }

  function UnwrapArray(code: string): (string, bool)
  {
    if StartsWith(code, "z.array(") && EndsWith(code, ")") && |code| > 8 then (code[8..|code| - 1], true)
    else (code, false)
  }

  /** Schemas that cannot be mistaken for a wrapper: at least three
      characters, not opening like `z.lazy(` or `z.array(`, not closing
      with `(` or with `.optional()`. */
  predicate Unwrapped(schema: string)
  {
    && |schema| >= 3
    && (schema[0] != 'z' || (schema[2] != 'l' && schema[2] != 'a'))
    && schema[|schema| - 1] != '('
    && !EndsWith(schema, ".optional()")
  }

  /** Codes that do not open like `z.lazy(`. */
  predicate NotLazy(code: string)
  {
    |code| >= 3 && (code[0] != 'z' || code[2] != 'l')
  }

  lemma ArrayRoundTrip(schema: string, isArray: bool)
    requires Unwrapped(schema)
    ensures UnwrapArray(ArrayWrap(schema, isArray)) == (schema, isArray)
    ensures NotLazy(ArrayWrap(schema, isArray)) && !EndsWith(ArrayWrap(schema, isArray), ".optional()")
  {
    var c := ArrayWrap(schema, isArray);
    if isArray {
      assert c[..8] == "z.array(" && c[|c| - 1..] == ")" && c[8..|c| - 1] == schema;
      assert c[2] == 'a';
      assert c[|c| - 2] == schema[|schema| - 1];
    } else {
      assert c[..3] == schema[..3];
    }
  }

  lemma OptionalRoundTrip(code: string, isOptional: bool)
    requires NotLazy(code) && !EndsWith(code, ".optional()")
    ensures UnwrapOptional(OptionalWrap(code, isOptional)) == (code, isOptional)
    ensures NotLazy(OptionalWrap(code, isOptional))
  {
    var c := OptionalWrap(code, isOptional);
    if isOptional {
      assert c[|c| - 11..] == ".optional()" && c[..|c| - 11] == code;
      assert c[..3] == code[..3];
    }
  }

  lemma LazyRoundTrip(code: string, isLazy: bool)
    requires NotLazy(code)
    ensures UnwrapLazy(LazyWrap(code, isLazy)) == (code, isLazy)
  {
    var c := LazyWrap(code, isLazy);
    if isLazy {
      assert c[..13] == "z.lazy(() => " && c[|c| - 1..] == ")" && c[13..|c| - 1] == code;
    }
  }

  lemma WrapUnwrap(schema: string, isArray: bool, isOptional: bool, isLazy: bool)
    requires Unwrapped(schema)
    ensures Unwrap(Wrap(schema, isArray, isOptional, isLazy)) == (schema, isArray, isOptional, isLazy)
  {
    ArrayRoundTrip(schema, isArray);
    OptionalRoundTrip(ArrayWrap(schema, isArray), isOptional);
    LazyRoundTrip(OptionalWrap(ArrayWrap(schema, isArray), isOptional), isLazy);
  }

  /** Every code of the primitive table is wrapper-free. */
  lemma TableUnwrapped(t: string)
    requires t in InitializePrimitiveTypeSchemasCodes()
    ensures Unwrapped(InitializePrimitiveTypeSchemasCodes()[t])
  {
    var v := InitializePrimitiveTypeSchemasCodes()[t];
    assert v in {"z.string()", "z.string().url()", "z.string().uuid()", "z.number()", "z.number().int()",
                 "z.number().int().nonnegative()", "z.number().int().positive()", "z.boolean()"};
    CodesUnwrapped(v);
  }

  lemma CodesUnwrapped(v: string)
    requires v in {"z.string()", "z.string().url()", "z.string().uuid()", "z.number()", "z.number().int()",
                   "z.number().int().nonnegative()", "z.number().int().positive()", "z.boolean()"}
    ensures Unwrapped(v)
  {
  }

  /** The schema names and the codes of the primitive table are never
      wrapper-shaped. */
  lemma BaseSchemaUnwrapped(ctx: SchemaContext, t: string)
    requires ctx.primitiveTypeCodeMap == InitializePrimitiveTypeSchemasCodes()
    ensures Unwrapped(BaseSchema(ctx, t))
  {
    if !ctx.isPrimitive {
      var core := UpperFirst(Transduce(t, true));
      var name := core + "Schema";
      assert ZodSchemaName(t) == name;
      assert name[|name| - 1] == 'a';
      if |core| > 0 {
        assert name[0] == UpperChar(Transduce(t, true)[0]);
      } else {
        assert name[0] == 'S';
      }
    } else if t in ctx.primitiveTypeCodeMap && ctx.primitiveTypeCodeMap[t] != "" {
      TableUnwrapped(t);
    }
  }

  /** The emitted code of a field determines the type's schema and the
      three wrappers: `z.array` exactly when `max` is `"*"`, `.optional()`
      exactly when `min` is 0, `z.lazy` exactly for a self-reference in a
      definition that is not of primitive kind. */
  lemma FieldCodeDecodes(ctx: SchemaContext, e: Element, t: string)
    requires ctx.primitiveTypeCodeMap == InitializePrimitiveTypeSchemasCodes()
    ensures Unwrap(FieldCode(ctx, e, t))
            == (BaseSchema(ctx, t), Max(e) == Some("*"), Min(e) == Some(0), t == ctx.id && !ctx.isPrimitive)
  {
    BaseSchemaUnwrapped(ctx, t);
    WrapUnwrap(BaseSchema(ctx, t), Max(e) == Some("*"), Min(e) == Some(0), t == ctx.id && !ctx.isPrimitive);
  }

  // ---------------------------------------------------------------------
  lemma {:induction false} AddFieldsSnoc(ctx: SchemaContext, st: Emitted, fs: seq<FieldSpec>, f: FieldSpec)
    ensures AddFields(ctx, st, fs + [f]) == AddField(ctx, AddFields(ctx, st, fs), f)
  {
    assert (fs + [f])[..|fs|] == fs;
  }

  /** Setting the fields of `a` and then those of `b` is setting those of
      `a + b`. */
  lemma {:induction false} AddFieldsAppend(ctx: SchemaContext, st: Emitted, a: seq<FieldSpec>, b: seq<FieldSpec>)
    ensures AddFields(ctx, AddFields(ctx, st, a), b) == AddFields(ctx, st, a + b)
    decreases |b|
  {
    if |b| == 0 {
      assert a + b == a;
    } else {
      var b0 := b[..|b| - 1];
      AddFieldsAppend(ctx, st, a, b0);
      AppendSnoc(a, b);
      AddFieldsSnoc(ctx, st, a + b0, b[|b| - 1]);
    }
  }

  lemma AppendSnoc<T>(a: seq<T>, b: seq<T>)
    requires |b| > 0
    ensures a + b == (a + b[..|b| - 1]) + [b[|b| - 1]]
  {
  }

  /** One step of the loop over a choice's types. */
  lemma ChoiceFieldsFrom(ctx: SchemaContext, e: Element, base: string, types: seq<Option<string>>, j: nat, d: seq<FieldSpec>)
    requires j < |types|
    ensures types[j].None? ==> Prefixed(d, ChoiceFields(ctx, e, base, types[j..])) == Err(UndefinedTypeMessage)
    ensures types[j].Some? ==>
      Prefixed(d, ChoiceFields(ctx, e, base, types[j..]))
      == Prefixed(d + [FieldOf(ctx, e, ChoiceName(base, types[j].value), types[j].value)], ChoiceFields(ctx, e, base, types[j + 1..]))
  {
    assert types[j..][0] == types[j] && types[j..][1..] == types[j + 1..];
    if types[j].Some? {
      PrefixedTwice(d, [FieldOf(ctx, e, ChoiceName(base, types[j].value), types[j].value)], ChoiceFields(ctx, e, base, types[j + 1..]));
    }
  }

  // ---------------------------------------------------------------------
  // The source's loops

  /** The import half of the loop body: an import line the first time a
      type other than the definition's own is met. */
  method ImportOnce(ctx: SchemaContext, importStatements: string, importedTypes: set<string>, ghost imports: seq<string>,
                    typeName: string, typeSchemaName: string)
    returns (importStatements': string, importedTypes': set<string>, ghost imports': seq<string>)
    requires !ctx.isPrimitive && typeSchemaName == ZodSchemaName(typeName)
    requires importStatements == ImportBlock(imports) && forall t :: t in importedTypes <==> t in imports
    ensures imports' == if Imports(ctx, typeName) then AddUnique(imports, typeName) else imports
    ensures importStatements' == ImportBlock(imports') && forall t :: t in importedTypes' <==> t in imports'
  {
    importStatements', importedTypes', imports' := importStatements, importedTypes, imports;
    if typeName !in importedTypes && typeName != ctx.id {
      var line := "import { " + typeSchemaName + " } from \"./" + typeName + "\"\n";
      assert line == ImportLine(typeName);
      importStatements' := importStatements + line;
      importedTypes' := importedTypes + {typeName};
      imports' := imports + [typeName];
      assert imports'[..|imports'| - 1] == imports;
    }
  }

  /** The loop body for one field: its schema, its import, its wrappers,
      then `zodSchemaCodeFields.set`. */
  method SetField(ctx: SchemaContext, fields: OrderedMap<string>, importStatements: string, importedTypes: set<string>,
                  ghost imports: seq<string>, elementName: string, element: Element, typeName: string)
    returns (fields': OrderedMap<string>, importStatements': string, importedTypes': set<string>, ghost imports': seq<string>)
    requires importStatements == ImportBlock(imports) && forall t :: t in importedTypes <==> t in imports
    ensures Emitted(fields', imports') == AddField(ctx, Emitted(fields, imports), FieldOf(ctx, element, elementName, typeName))
    ensures importStatements' == ImportBlock(imports') && forall t :: t in importedTypes' <==> t in imports'
  {
    importStatements', importedTypes', imports' := importStatements, importedTypes, imports;
    var elementSchema := "";
    if ctx.isPrimitive {
      if typeName in ctx.primitiveTypeCodeMap && ctx.primitiveTypeCodeMap[typeName] != "" {
        elementSchema := ctx.primitiveTypeCodeMap[typeName];
      } else {
        elementSchema := "z.unknown()";
      }
    } else {
      var typeSchemaName := TypeNameToZodSchemaName(typeName);
      importStatements', importedTypes', imports' :=
        ImportOnce(ctx, importStatements, importedTypes, imports, typeName, typeSchemaName);
      elementSchema := typeSchemaName;
    }
    ghost var base := elementSchema;
    assert base == BaseSchema(ctx, typeName);
    if Max(element) == Some("*") {
      elementSchema := "z.array(" + elementSchema + ")";
    }
    assert elementSchema == ArrayWrap(base, Max(element) == Some("*"));
    if Min(element) == Some(0) {
      elementSchema := elementSchema + ".optional()";
    }
    if typeName == ctx.id && !ctx.isPrimitive {
      elementSchema := "z.lazy(() => " + elementSchema + ")";
    }
    assert elementSchema == FieldCode(ctx, element, typeName);
    fields' := MapSet(fields, elementName, elementSchema);
  }

  /** The inner loop over the types of a `name[x]` element. */
  method SetChoiceFields(ctx: SchemaContext, fields: OrderedMap<string>, importStatements: string, importedTypes: set<string>,
                         ghost imports: seq<string>, elementNameBase: string, element: Element, types: seq<Option<string>>)
    returns (r: Result<(OrderedMap<string>, string, set<string>)>, ghost imports': seq<string>)
    requires importStatements == ImportBlock(imports) && forall t :: t in importedTypes <==> t in imports
    ensures r.Err? <==> ChoiceFields(ctx, element, elementNameBase, types).Err?
    ensures r.Err? ==> r.error == ChoiceFields(ctx, element, elementNameBase, types).error
    ensures r.Ok? ==> Emitted(r.value.0, imports')
                      == AddFields(ctx, Emitted(fields, imports), ChoiceFields(ctx, element, elementNameBase, types).value)
    ensures r.Ok? ==> r.value.1 == ImportBlock(imports') && forall t :: t in r.value.2 <==> t in imports'
  {
    var fs, stmts, imported := fields, importStatements, importedTypes;
    imports' := imports;
    ghost var added: seq<FieldSpec> := [];
    PrefixedEmpty(ChoiceFields(ctx, element, elementNameBase, types));
    assert types[0..] == types;
    for j := 0 to |types|
      invariant stmts == ImportBlock(imports') && forall t :: t in imported <==> t in imports'
      invariant Emitted(fs, imports') == AddFields(ctx, Emitted(fields, imports), added)
      invariant Prefixed(added, ChoiceFields(ctx, element, elementNameBase, types[j..]))
             == ChoiceFields(ctx, element, elementNameBase, types)
    {
      ChoiceFieldsFrom(ctx, element, elementNameBase, types, j, added);
      if types[j].None? {
        return Err(UndefinedTypeMessage), imports';
      }
      var typeName := types[j].value;
      var capitalizedType := UpperFirst(typeName);
      var elementName := elementNameBase + capitalizedType;
      ghost var f := FieldOf(ctx, element, elementName, typeName);
      fs, stmts, imported, imports' := SetField(ctx, fs, stmts, imported, imports', elementName, element, typeName);
      AddFieldsSnoc(ctx, Emitted(fields, imports), added, f);
      added := added + [f];
    }
    assert types[|types|..] == [];
    assert added + [] == added;
    return Ok((fs, stmts, imported)), imports';
  }

  /** The loop over the snapshot's elements. */
  method EmitFields(ctx: SchemaContext, els: seq<Element>)
    returns (r: Result<OrderedMap<string>>, importStatements: string, ghost imports: seq<string>)
    ensures r.Err? <==> AllFields(ctx, els).Err?
    ensures r.Err? ==> r.error == AllFields(ctx, els).error
    ensures r.Ok? ==> Emitted(r.value, imports) == AddFields(ctx, Emitted([], []), AllFields(ctx, els).value)
    ensures importStatements == ImportBlock(imports)
  {
    var zodSchemaCodeFields: OrderedMap<string> := [];
    importStatements := "";
    var importedTypes: set<string> := {};
    imports := [];
    ghost var done: seq<FieldSpec> := [];
    PrefixedEmpty(AllFields(ctx, els));
    assert els[0..] == els;
    for i := 0 to |els|
      invariant importStatements == ImportBlock(imports) && forall t :: t in importedTypes <==> t in imports
      invariant Emitted(zodSchemaCodeFields, imports) == AddFields(ctx, Emitted([], []), done)
      invariant Prefixed(done, AllFields(ctx, els[i..])) == AllFields(ctx, els)
    {
      var element := els[i];
      ghost var first := ElementFields(ctx, element);
      AllFieldsFrom(ctx, els, i, done);
      if Path(element) != "" {
        var rawElementName := LastSegment(Path(element));
        var types := ParsedTypes(Types(element));
        if Path(element) == ctx.id {
          assert first == Ok([]);
          assert done + [] == done;
        } else if EndsWith(rawElementName, "[x]") {
          var elementNameBase := rawElementName[..|rawElementName| - 3];
          if Types(element).None? {
            assert first == Err(NotIterableMessage);
            r := Err(NotIterableMessage);
            return;
          }
          assert first == ChoiceFields(ctx, element, elementNameBase, types);
          var res;
          ghost var imports';
          res, imports' := SetChoiceFields(ctx, zodSchemaCodeFields, importStatements, importedTypes, imports,
                                           elementNameBase, element, types);
          if res.Err? {
            r := Err(res.error);
            return;
          }
          AddFieldsAppend(ctx, Emitted([], []), done, first.value);
          zodSchemaCodeFields, importStatements, importedTypes, imports := res.value.0, res.value.1, res.value.2, imports';
          done := done + first.value;
        } else {
          var elementName := rawElementName;
          var typ := if |types| > 0 then types[0] else None;
          if typ.None? || typ.value == "" {
            assert first == Ok([]);
            assert done + [] == done;
          } else {
            ghost var f := FieldOf(ctx, element, elementName, typ.value);
            assert first == Ok([f]);
            zodSchemaCodeFields, importStatements, importedTypes, imports :=
              SetField(ctx, zodSchemaCodeFields, importStatements, importedTypes, imports, elementName, element, typ.value);
            AddFieldsSnoc(ctx, Emitted([], []), done, f);
            done := done + [f];
          }
        }
      } else {
        assert first == Ok([]);
        assert done + [] == done;
      }
    }
    assert els[|els|..] == [];
    assert done + [] == done;
    r := Ok(zodSchemaCodeFields);
  }

  lemma AppendAssoc(a: string, b: string, c: string)
    ensures (a + b) + c == a + (b + c)
  {
  }

  /** The text after the loop: the zod import, the import lines, the
      object with one line per field in insertion order, and the closing. */
  method ModuleText(id: string, zodSchemaCodeFields: OrderedMap<string>, importStatements: string, ghost imports: seq<string>)
    returns (zodSchemaCode: string)
    requires importStatements == ImportBlock(imports)
    ensures zodSchemaCode == SchemaHeader(id, imports) + FieldLines(zodSchemaCodeFields) + SchemaFooter
  {
    var schemaName := TypeNameToZodSchemaName(id);
    zodSchemaCode := "import { z } from \"zod\";\n";
    zodSchemaCode := zodSchemaCode + importStatements;
    zodSchemaCode := zodSchemaCode + "\nexport const " + schemaName + " = z.object({\n";
    ghost var header := zodSchemaCode;
    assert header == SchemaHeader(id, imports);
    assert zodSchemaCodeFields[..0] == [];
    for k := 0 to |zodSchemaCodeFields|
      invariant zodSchemaCode == header + FieldLines(zodSchemaCodeFields[..k])
    {
      var key, value := zodSchemaCodeFields[k].key, zodSchemaCodeFields[k].value;
      var line := "    " + key + ": " + value + ",\n";
      assert line == FieldLine(zodSchemaCodeFields[k]);
      assert zodSchemaCodeFields[..k + 1][..k] == zodSchemaCodeFields[..k];
      AppendAssoc(header, FieldLines(zodSchemaCodeFields[..k]), line);
      zodSchemaCode := zodSchemaCode + line;
    }
    assert zodSchemaCodeFields[..|zodSchemaCodeFields|] == zodSchemaCodeFields;
    zodSchemaCode := zodSchemaCode + SchemaFooter;
  }

  /** `constructZodSchemaCode` */
  method ConstructZodSchemaCode(structureDefinition: StructureDefinition, primitiveTypeCodeMap: map<string, string>,
                                resourceLoader: LocalResourceLoader?)
    returns (r: Result<string>)
    requires resourceLoader != null ==> resourceLoader.Valid()
    ensures r == ConstructZodSchemaCodeF(structureDefinition, primitiveTypeCodeMap,
                                         if resourceLoader == null then None else Some(resourceLoader.definitionMap))
  {
    var sd := structureDefinition;
    if resourceLoader != null && IsConstraint(sd) && BaseUrl(sd).Some? {
      var baseDefinition := resourceLoader.LoadStructureDefinition(BaseUrl(sd).value);
      if baseDefinition.Some? {
        sd := MergeDefinitions(baseDefinition.value, sd);
      }
    }
    ghost var loader := if resourceLoader == null then None else Some(resourceLoader.definitionMap);
    assert sd == EffectiveDefinition(structureDefinition, loader);
    var ctx := SchemaContext(sd.id, sd.kind == PrimitiveType, primitiveTypeCodeMap);
    var zodSchemaCodeFields, importStatements, imports := EmitFields(ctx, ElementsOr(sd.snapshot));
    if zodSchemaCodeFields.Err? {
      return Err(zodSchemaCodeFields.error);
    }
    var zodSchemaCode := ModuleText(sd.id, zodSchemaCodeFields.value, importStatements, imports);
    r := Ok(zodSchemaCode);
  }
}
