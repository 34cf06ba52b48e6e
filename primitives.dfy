/** src/types/primitiveTypeSchemaCodes.ts: the schema code each FHIR R4
    primitive type (the "Primitive Types" table of the FHIR R4 datatypes
    page) is emitted as. The source fills a fresh `Map` with nineteen `set`
    calls on every call; as a value, every call gives the same map. */
module PrimitiveTypes {
  import opened Text

  function InitializePrimitiveTypeSchemasCodes(): (m: map<string, string>)
  {
    map[
      // string types
      "string" := "z.string()",
      "code" := "z.string()",
      "id" := "z.string()",
      "markdown" := "z.string()",
      "uri" := "z.string().url()",
      "url" := "z.string().url()",
      "canonical" := "z.string().url()",
      "oid" := "z.string()",
      "uuid" := "z.string().uuid()",
      // numeric types
      "decimal" := "z.number()",
      "integer" := "z.number().int()",
      "unsignedInt" := "z.number().int().nonnegative()",
      "positiveInt" := "z.number().int().positive()",
      // date and time types, kept as strings
      "date" := "z.string()",
      "dateTime" := "z.string()",
      "instant" := "z.string()",
      "time" := "z.string()",
      // other types
      "boolean" := "z.boolean()",
      "base64Binary" := "z.string()"
    ]
  }

  /** The nineteen FHIR R4 primitive type codes the table covers. */
  const PrimitiveCodes: set<string> := {
    "string", "code", "id", "markdown", "uri", "url", "canonical", "oid", "uuid",
    "decimal", "integer", "unsignedInt", "positiveInt",
    "date", "dateTime", "instant", "time",
    "boolean", "base64Binary"
  }

  /** The primitive codes, in the order the source registers them. */
  const PrimitiveCodeList: seq<string> := [
    "string", "code", "id", "markdown", "uri", "url", "canonical", "oid", "uuid",
    "decimal", "integer", "unsignedInt", "positiveInt",
    "date", "dateTime", "instant", "time", "boolean", "base64Binary"]

  /** The table has exactly the nineteen primitive codes as keys. */
  lemma PrimitiveTableKeys()
    ensures InitializePrimitiveTypeSchemasCodes().Keys == PrimitiveCodes
  {
    var codes := PrimitiveCodeList;
    var s := set j | 0 <= j < |codes| :: codes[j];
    forall x | x in PrimitiveCodes ensures x in s {
      assert x in codes;
    }
    assert s == PrimitiveCodes;
  }

  /** Which primitives are validated as numbers: exactly the four numeric
      types; every other primitive, the date and time types included, is
      validated as a string or a boolean. */
  lemma PrimitiveNumericKinds(k: string)
    requires k in InitializePrimitiveTypeSchemasCodes()
    ensures StartsWith(InitializePrimitiveTypeSchemasCodes()[k], "z.number()") <==>
            k in {"decimal", "integer", "unsignedInt", "positiveInt"}
    ensures !StartsWith(InitializePrimitiveTypeSchemasCodes()[k], "z.number()") ==>
            InitializePrimitiveTypeSchemasCodes()[k] == "z.boolean()" ||
            StartsWith(InitializePrimitiveTypeSchemasCodes()[k], "z.string()")
  {
    if k in {"decimal", "integer", "unsignedInt", "positiveInt"} {
      NumericCodeKind(k);
    } else {
      OtherCodeKind(k);
    }
  }

  lemma NumericCodeKind(k: string)
    requires k in {"decimal", "integer", "unsignedInt", "positiveInt"}
    ensures k in InitializePrimitiveTypeSchemasCodes()
    ensures StartsWith(InitializePrimitiveTypeSchemasCodes()[k], "z.number()")
  {
    var v := InitializePrimitiveTypeSchemasCodes()[k];
    assert v[..10] == "z.number()";
  }

  lemma OtherCodeKind(k: string)
    requires k in InitializePrimitiveTypeSchemasCodes() && k !in {"decimal", "integer", "unsignedInt", "positiveInt"}
    ensures var v := InitializePrimitiveTypeSchemasCodes()[k];
            !StartsWith(v, "z.number()") && (v == "z.boolean()" || StartsWith(v, "z.string()"))
  {
    var v := InitializePrimitiveTypeSchemasCodes()[k];
    assert v in {"z.string()", "z.string().url()", "z.string().uuid()", "z.boolean()"};
    if v != "z.boolean()" {
      StringCode(v);
    }
    assert v[2] != 'n';
  }

  lemma StringCode(v: string)
    requires v in {"z.string()", "z.string().url()", "z.string().uuid()"}
    ensures StartsWith(v, "z.string()")
  {
    assert v[..10] == "z.string()";
  }
}
