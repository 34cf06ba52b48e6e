/** src/utils.ts: the type-name transducer, the id/url registry and the
    reading of an element's type list. */
module Utils {
  import opened Wrappers
  import opened Text
  import opened OrderedMaps
  import opened Fhir

  // ---------------------------------------------------------------------
  // typeNameToZodSchemaName

  predicate IsDigit(c: char)
  {
    '0' <= c <= '9'
  }

  /** The English word for a decimal digit, capitalised. */
  function DigitWord(c: char): string
    requires IsDigit(c)
  {
    ["Zero", "One", "Two", "Three", "Four", "Five", "Six", "Seven", "Eight", "Nine"][c as int - '0' as int]
  }

  /** The character-by-character part of the transducer: a hyphen is dropped
      and capitalises the next character, a digit becomes its word, any other
      character is kept, upper-cased when it follows a hyphen (or starts the
      input, `cap` being true at the start). */
  function Transduce(s: string, cap: bool): string
    decreases |s|
  {
    if |s| == 0 then ""
    else if s[0] == '-' then Transduce(s[1..], true)
    else if IsDigit(s[0]) then DigitWord(s[0]) + Transduce(s[1..], false)
    else [if cap then UpperChar(s[0]) else s[0]] + Transduce(s[1..], false)
  }

  /** The schema identifier a type name is emitted under. */
  function ZodSchemaName(rawTypeName: string): string
  {
    UpperFirst(Transduce(rawTypeName, true)) + "Schema"
  }

  /** The source's loop over the characters of the type name. */
  method TypeNameToZodSchemaName(rawTypeName: string) returns (name: string)
    ensures name == ZodSchemaName(rawTypeName)
  {
    var result := "";
    var capitalizeNext := true;
    for i := 0 to |rawTypeName|
      invariant result + Transduce(rawTypeName[i..], capitalizeNext) == Transduce(rawTypeName, true)
    {
      var c := rawTypeName[i];
      assert rawTypeName[i..][1..] == rawTypeName[i + 1..];
      if c == '-' {
        capitalizeNext := true;
        continue;
      }
      if IsDigit(c) {
        result := result + DigitWord(c);
        capitalizeNext := false;
      } else {
        result := result + [if capitalizeNext then UpperChar(c) else c];
        capitalizeNext := false;
      }
    }
    if |result| > 0 {
      result := [UpperChar(result[0])] + result[1..];
    }
    name := result + "Schema";
  }

  /** Characters that the transducer copies through unchanged (apart from
      case): everything but hyphens and digits. */
  predicate Plain(s: string)
  {
    forall k :: 0 <= k < |s| ==> s[k] != '-' && !IsDigit(s[k])
  }

  /** Every schema name ends in "Schema", and the part before it holds no
      hyphen and no digit. */
  lemma {:induction false} TransduceIsPlain(s: string, cap: bool)
    ensures Plain(Transduce(s, cap))
    decreases |s|
  {
    if |s| > 0 {
      TransduceIsPlain(s[1..], s[0] == '-');
      TransduceIsPlain(s[1..], false);
      if IsDigit(s[0]) {
        var w := DigitWord(s[0]);
        assert Plain(w);
      }
    }
  }

  lemma SchemaNameShape(rawTypeName: string)
    ensures EndsWith(ZodSchemaName(rawTypeName), "Schema")
    ensures Plain(ZodSchemaName(rawTypeName)[..|ZodSchemaName(rawTypeName)| - 6])
  {
    var t := Transduce(rawTypeName, true);
    TransduceIsPlain(rawTypeName, true);
    var u := UpperFirst(t);
    assert ZodSchemaName(rawTypeName)[..|ZodSchemaName(rawTypeName)| - 6] == u;
    forall k | 0 <= k < |u| ensures u[k] != '-' && !IsDigit(u[k]) {
      if k > 0 { assert u[k] == t[k]; }
    }
  }

  /** A hyphen splits the name into words that are transduced separately,
      the second one starting with a capital. */
  lemma {:induction false} TransduceHyphen(a: string, b: string, cap: bool)
    ensures Transduce(a + "-" + b, cap) == Transduce(a, cap) + Transduce(b, true)
    decreases |a|
  {
    if |a| == 0 {
      assert (a + "-" + b)[1..] == b;
    } else {
      assert (a + "-" + b)[1..] == a[1..] + "-" + b;
      TransduceHyphen(a[1..], b, a[0] == '-');
      TransduceHyphen(a[1..], b, false);
    }
  }

  /** The words of a run of digits. */
  function DigitWords(s: string): string
    requires forall k :: 0 <= k < |s| ==> IsDigit(s[k])
  {
    if |s| == 0 then "" else DigitWord(s[0]) + DigitWords(s[1..])
  }

  /** A run of digits becomes its words, whatever capital is pending, and
      clears the pending capital. */
  lemma {:induction false} TransduceDigits(a: string, b: string, cap: bool)
    requires |a| > 0 && forall k :: 0 <= k < |a| ==> IsDigit(a[k])
    ensures Transduce(a + b, cap) == DigitWords(a) + Transduce(b, false)
    decreases |a|
  {
    assert (a + b)[1..] == a[1..] + b;
    if |a| > 1 {
      TransduceDigits(a[1..], b, false);
    } else {
      assert a[1..] + b == b;
    }
  }

  /** A plain word is copied, with only its first letter raised when a
      capital is pending. */
  lemma {:induction false} TransducePlain(s: string, cap: bool)
    requires Plain(s)
    ensures Transduce(s, cap) == if cap then UpperFirst(s) else s
    decreases |s|
  {
    if |s| > 0 {
      TransducePlain(s[1..], false);
    }
  }

  /** A plain name that already starts with a capital, such as "Patient",
      is emitted as itself followed by "Schema". */
  lemma SchemaNameOfPlainName(s: string)
    requires Plain(s) && (|s| > 0 ==> UpperChar(s[0]) == s[0])
    ensures ZodSchemaName(s) == s + "Schema"
  {
    TransducePlain(s, true);
    assert UpperFirst(s) == s;
  }

  // ---------------------------------------------------------------------
  // TypeNameUrlConverter

  /** The (id, url) pair of each definition, in order. */
  function IdUrlPairs(defs: seq<StructureDefinition>): (ps: seq<(string, string)>)
    ensures |ps| == |defs|
    ensures forall i :: 0 <= i < |defs| ==> ps[i] == (defs[i].id, defs[i].url)
  {
    if |defs| == 0 then [] else IdUrlPairs(defs[..|defs| - 1]) + [(defs[|defs| - 1].id, defs[|defs| - 1].url)]
  }

  /** The (url, id) pair of each definition, in order. */
  function UrlIdPairs(defs: seq<StructureDefinition>): (ps: seq<(string, string)>)
    ensures |ps| == |defs|
    ensures forall i :: 0 <= i < |defs| ==> ps[i] == (defs[i].url, defs[i].id)
  {
    if |defs| == 0 then [] else UrlIdPairs(defs[..|defs| - 1]) + [(defs[|defs| - 1].url, defs[|defs| - 1].id)]
  }

  lemma LastWinsSnoc(ps: seq<(string, string)>, p: (string, string))
    ensures LastWins(ps + [p]) == LastWins(ps)[p.0 := p.1]
  {
    assert (ps + [p])[..|ps|] == ps;
  }

  lemma PairsPrefix(defs: seq<StructureDefinition>, i: nat)
    requires i < |defs|
    ensures IdUrlPairs(defs[..i + 1]) == IdUrlPairs(defs[..i]) + [(defs[i].id, defs[i].url)]
    ensures UrlIdPairs(defs[..i + 1]) == UrlIdPairs(defs[..i]) + [(defs[i].url, defs[i].id)]
  {
    assert defs[..i + 1][..i] == defs[..i];
  }

  /** A bidirectional registry between type ids and canonical URLs; a later
      definition with the same id (or url) replaces the earlier binding. */
  class TypeNameUrlConverter {
    var typeNameToUrlMap: map<string, string>
    var urlToTypeNameMap: map<string, string>

    constructor (structureDefinitions: seq<StructureDefinition>)
      ensures typeNameToUrlMap == LastWins(IdUrlPairs(structureDefinitions))
      ensures urlToTypeNameMap == LastWins(UrlIdPairs(structureDefinitions))
    {
      var toUrl: map<string, string> := map[];
      var toName: map<string, string> := map[];
      for i := 0 to |structureDefinitions|
        invariant toUrl == LastWins(IdUrlPairs(structureDefinitions[..i]))
        invariant toName == LastWins(UrlIdPairs(structureDefinitions[..i]))
      {
        var definition := structureDefinitions[i];
        PairsPrefix(structureDefinitions, i);
        LastWinsSnoc(IdUrlPairs(structureDefinitions[..i]), (definition.id, definition.url));
        LastWinsSnoc(UrlIdPairs(structureDefinitions[..i]), (definition.url, definition.id));
        toUrl := toUrl[definition.id := definition.url];
        toName := toName[definition.url := definition.id];
      }
      assert structureDefinitions[..|structureDefinitions|] == structureDefinitions;
      typeNameToUrlMap := toUrl;
      urlToTypeNameMap := toName;
    }

    function TypeNameToUrl(typeName: string): Option<string>
      reads this
    {
      if typeName in typeNameToUrlMap then Some(typeNameToUrlMap[typeName]) else None
    }

    function UrlToTypeName(url: string): Option<string>
      reads this
    {
      if url in urlToTypeNameMap then Some(urlToTypeNameMap[url]) else None
    }
  }

  /** An id is known exactly when some definition has it, and it maps to the
      url of the last definition that has it. */
  lemma ConverterIdLookup(defs: seq<StructureDefinition>, i: nat)
    requires i < |defs|
    requires forall j :: i < j < |defs| ==> defs[j].id != defs[i].id
    ensures defs[i].id in LastWins(IdUrlPairs(defs))
    ensures LastWins(IdUrlPairs(defs))[defs[i].id] == defs[i].url
  {
    LastWinsValue(IdUrlPairs(defs), i);
  }

  lemma ConverterIdDomain(defs: seq<StructureDefinition>, typeName: string)
    ensures typeName in LastWins(IdUrlPairs(defs)) <==> exists i :: 0 <= i < |defs| && defs[i].id == typeName
  {
    LastWinsDomain(IdUrlPairs(defs), typeName);
    if exists i :: 0 <= i < |defs| && defs[i].id == typeName {
      var i :| 0 <= i < |defs| && defs[i].id == typeName;
      assert IdUrlPairs(defs)[i].0 == typeName;
    }
  }

  /** The same two facts for the url direction. */
  lemma ConverterUrlLookup(defs: seq<StructureDefinition>, i: nat)
    requires i < |defs|
    requires forall j :: i < j < |defs| ==> defs[j].url != defs[i].url
    ensures defs[i].url in LastWins(UrlIdPairs(defs))
    ensures LastWins(UrlIdPairs(defs))[defs[i].url] == defs[i].id
  {
    LastWinsValue(UrlIdPairs(defs), i);
  }

  lemma ConverterUrlDomain(defs: seq<StructureDefinition>, url: string)
    ensures url in LastWins(UrlIdPairs(defs)) <==> exists i :: 0 <= i < |defs| && defs[i].url == url
  {
    LastWinsDomain(UrlIdPairs(defs), url);
    if exists i :: 0 <= i < |defs| && defs[i].url == url {
      var i :| 0 <= i < |defs| && defs[i].url == url;
      assert UrlIdPairs(defs)[i].0 == url;
    }
  }

  // ---------------------------------------------------------------------
  // parseElementTypes

  /** The first extension that carries the fhir-type url. */
  function FirstFhirTypeExtension(exts: seq<Extension>): Option<Extension>
  {
    if |exts| == 0 then None
    else if exts[0].url == FhirTypeExtensionUrl then Some(exts[0])
    else FirstFhirTypeExtension(exts[1..])
  }

  /** The name a type entry stands for: the `valueUrl` (possibly absent) of
      its first fhir-type extension when it has one, else its `code`
      (possibly absent). */
  function ParsedType(t: TypeRef): Option<string>
  {
    match FirstFhirTypeExtension(t.extension)
    case Some(e) => e.valueUrl
    case None => t.code
  }

  function ParsedTypes(elementTypes: Option<seq<TypeRef>>): (r: seq<Option<string>>)
    ensures elementTypes.None? ==> r == []
    ensures elementTypes.Some? ==>
              |r| == |elementTypes.value| && forall i :: 0 <= i < |r| ==> r[i] == ParsedType(elementTypes.value[i])
  {
    match elementTypes
    case None => []
    case Some(ts) => seq(|ts|, i requires 0 <= i < |ts| => ParsedType(ts[i]))
  }

  /** What the first-match rule means: the fhir-type extension picked is at
      an index before which no extension carries that url. */
  lemma {:induction false} FirstFhirTypeExtensionSpec(exts: seq<Extension>)
    ensures FirstFhirTypeExtension(exts).None? <==> forall k :: 0 <= k < |exts| ==> exts[k].url != FhirTypeExtensionUrl
    ensures FirstFhirTypeExtension(exts).Some? ==>
              exists k :: (0 <= k < |exts|
                           && exts[k] == FirstFhirTypeExtension(exts).value
                           && exts[k].url == FhirTypeExtensionUrl
                           && forall j :: 0 <= j < k ==> exts[j].url != FhirTypeExtensionUrl)
  {
    if |exts| > 0 && exts[0].url != FhirTypeExtensionUrl {
      FirstFhirTypeExtensionSpec(exts[1..]);
      if FirstFhirTypeExtension(exts).Some? {
        var k :| 0 <= k < |exts| - 1 && exts[1..][k] == FirstFhirTypeExtension(exts).value
          && exts[1..][k].url == FhirTypeExtensionUrl
          && forall j :: 0 <= j < k ==> exts[1..][j].url != FhirTypeExtensionUrl;
        assert exts[k + 1] == FirstFhirTypeExtension(exts).value;
        assert forall j :: 0 <= j < k + 1 ==> exts[j].url != FhirTypeExtensionUrl by {
          forall j | 0 <= j < k + 1 ensures exts[j].url != FhirTypeExtensionUrl {
            if j > 0 { assert exts[j] == exts[1..][j - 1]; }
          }
        }
      } else {
        forall k | 0 <= k < |exts| ensures exts[k].url != FhirTypeExtensionUrl {
          if k > 0 { assert exts[k] == exts[1..][k - 1]; }
        }
      }
    }
  }

  /** The source's loop, with its labelled `continue`. */
  method ParseElementTypes(elementTypes: Option<seq<TypeRef>>) returns (types: seq<Option<string>>)
    ensures elementTypes.None? ==> types == []
    ensures elementTypes.Some? ==> |types| == |elementTypes.value|
    ensures forall i :: 0 <= i < |types| ==>
      var t := elementTypes.value[i];
      if exists k :: 0 <= k < |t.extension| && t.extension[k].url == FhirTypeExtensionUrl
      then exists k :: 0 <= k < |t.extension| && t.extension[k].url == FhirTypeExtensionUrl
             && types[i] == t.extension[k].valueUrl
             && forall j :: 0 <= j < k ==> t.extension[j].url != FhirTypeExtensionUrl
      else types[i] == t.code
  {
    var ts := if elementTypes.Some? then elementTypes.value else [];
    types := [];
    label outerLoop:
    for i := 0 to |ts|
      invariant |types| == i
      invariant forall m :: 0 <= m < i ==>
        var t := ts[m];
        if exists k :: 0 <= k < |t.extension| && t.extension[k].url == FhirTypeExtensionUrl
        then exists k :: 0 <= k < |t.extension| && t.extension[k].url == FhirTypeExtensionUrl
               && types[m] == t.extension[k].valueUrl
               && forall j :: 0 <= j < k ==> t.extension[j].url != FhirTypeExtensionUrl
        else types[m] == t.code
    {
      var t := ts[i];
      for j := 0 to |t.extension|
        invariant forall k :: 0 <= k < j ==> t.extension[k].url != FhirTypeExtensionUrl
      {
        var extension := t.extension[j];
        if extension.url == FhirTypeExtensionUrl {
          types := types + [extension.valueUrl];
          continue outerLoop;
        }
      }
      types := types + [t.code];
    }
  }

  /** The loop computes the per-entry reading `ParsedType`. */
  lemma ParseElementTypesAgrees(t: TypeRef)
    ensures (exists k :: (0 <= k < |t.extension| && t.extension[k].url == FhirTypeExtensionUrl
                          && ParsedType(t) == t.extension[k].valueUrl
                          && forall j :: 0 <= j < k ==> t.extension[j].url != FhirTypeExtensionUrl))
         || ((forall k :: 0 <= k < |t.extension| ==> t.extension[k].url != FhirTypeExtensionUrl)
             && ParsedType(t) == t.code)
  {
    FirstFhirTypeExtensionSpec(t.extension);
  }
}
