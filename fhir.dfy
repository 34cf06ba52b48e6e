/** The slice of the FHIR StructureDefinition shape that the core reads.
    An element definition is an open record: a map from field name to JSON
    value, where `path` is always a string (the schema the repository
    validates with requires it). */
module Fhir {
  import opened Wrappers

  /** The extension by which a type entry names its FHIR type explicitly. */
  const FhirTypeExtensionUrl: string :=
    "http://hl7.org/fhir/StructureDefinition/structuredefinition-fhir-type"

  datatype Extension = Extension(url: string, valueUrl: Option<string>)

  /** One entry of an element's `type` list. An absent `extension` list
      behaves like an empty one everywhere in the core. */
  datatype TypeRef = TypeRef(code: Option<string>, extension: seq<Extension>)

  /** A JSON field value: strings, integers and `type` lists are what the
      core inspects; every other JSON value is an opaque token, compared
      only for equality. */
  datatype Value =
    | VStr(s: string)
    | VInt(i: int)
    | VTypes(types: seq<TypeRef>)
    | VOther(raw: string)

  type Element = e: map<string, Value> | "path" in e && e["path"].VStr?
    witness map["path" := VStr("")]

  function Path(e: Element): string
  {
    e["path"].s
  }

  /** `element.min`, when it is a number. */
  function Min(e: Element): Option<int>
  {
    if "min" in e && e["min"].VInt? then Some(e["min"].i) else None
  }

  /** `element.max`, when it is a string. */
  function Max(e: Element): Option<string>
  {
    if "max" in e && e["max"].VStr? then Some(e["max"].s) else None
  }

  /** `element.type`, when it is present as a list. */
  function Types(e: Element): Option<seq<TypeRef>>
  {
    if "type" in e && e["type"].VTypes? then Some(e["type"].types) else None
  }

  /** `{ ...e, path: p, id: p }` */
  function Relocated(e: Element, p: string): (r: Element)
    ensures Path(r) == p && "id" in r && r["id"] == VStr(p)
    ensures forall k :: k in e && k != "path" && k != "id" ==> k in r && r[k] == e[k]
    ensures r.Keys == e.Keys + {"path", "id"}
  {
    e["path" := VStr(p)]["id" := VStr(p)]
  }

  /** `{ ...base, ...diff }`: every field of `diff` wins. */
  function Overlay(base: Element, diff: Element): (r: Element)
    ensures Path(r) == Path(diff)
    ensures r.Keys == base.Keys + diff.Keys
    ensures forall k :: k in diff ==> r[k] == diff[k]
    ensures forall k :: k in base && k !in diff ==> r[k] == base[k]
  {
    base + diff
  }

  datatype Kind = PrimitiveType | ComplexType | Resource | Logical

  datatype Derivation = Specialization | Constraint

  datatype StructureDefinition = StructureDefinition(
    id: string,
    url: string,
    name: string,
    version: Option<string>,
    kind: Kind,
    derivation: Option<Derivation>,
    baseDefinition: Option<string>,
    snapshot: Option<seq<Element>>,
    differential: Option<seq<Element>>)

  predicate IsConstraint(sd: StructureDefinition)
  {
    sd.derivation == Some(Constraint)
  }

  /** `sd.baseDefinition` as a JavaScript condition sees it: an empty string
      counts as absent. */
  function BaseUrl(sd: StructureDefinition): Option<string>
  {
    if sd.baseDefinition.Some? && sd.baseDefinition.value != "" then sd.baseDefinition else None
  }

  /** No later element of `els` has the path of element `i`: it is the one
      a path-keyed `Map` filled from `els` holds. */
  predicate LastWithPath(els: seq<Element>, i: nat)
    requires i < |els|
  {
    forall j :: i < j < |els| ==> Path(els[j]) != Path(els[i])
  }
}
