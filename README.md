# fhir2zod core, modelled in Dafny

fhir2zod reads FHIR R4 StructureDefinitions and writes one Zod schema module per
type, plus an index file. This project models the in-memory core of that
pipeline and proves properties of the model:

- **Naming and type codes** (`utils.dfy`, module `Utils`):
  - the character transducer that turns a type name into its schema name;
  - the two-way id/url table;
  - the per-entry type-code reading, in which the `structuredefinition-fhir-type` extension overrides `code`.
- **The element-path tree engine** (`tree.dfy`, `build.dfy`, `expand.dfy`, `merge.dfy`):
  - building a tree from a pre-order list of dotted paths with a node stack;
  - the copy-returning `get`/`add`/`delete`/`replace` operations by path;
  - the prefix index of the differential (`HasChildren`);
  - the work-list expansion that grafts a referenced type's snapshot under a leaf and narrows or concretises choice-of-type (`[x]`) elements;
  - the field overlay `{...base, ...diff}`;
  - pre-order flattening;
  - `mergeDefinitions`, and `resolveConstraintChain`, which folds it along a `baseDefinition` chain.
- **Dependencies and ordering** (`dependencies.dfy`, `ordering.dfy`):
  - the per-type dependency lists, deduplicated in first-seen order;
  - the depth-first topological sort with its `visited`/`temp` sets;
  - the schema-name rule for constraints;
  - the index file's lines.
- **Schema emission** (`snapshot_merge.dfy`, `schema_code.dfy`, `generation_graph.dfy`, `schema_generation.dfy`, `primitives.dfy`):
  - the resource loader;
  - the snapshot-over-snapshot merge;
  - the per-element field emitter, with its `z.array` / `.optional()` / `z.lazy` wrapping and its deduplicated imports;
  - the dependency-driven generator with its `processed`/`processing` sets;
  - the primitive-type table.

Shared modules:

- `Wrappers`: `Option` and `Result`. A JavaScript exception becomes an `Err` carrying the exception's message.
- `Text`: `split('.')`, `lastIndexOf` and first-letter case changes, on ASCII.
- `OrderedMaps`: a JavaScript `Map` as an insertion-ordered list of entries. `set` on a present key overwrites in place; on a new key it appends.
- `Fhir`: an element is a map from field names to JSON-like values that always holds a string `path`. With that representation, `{...a, ...b}` is Dafny's right-biased `a + b`.

Code that changes state step by step is written as methods. Each method is
proved equal to a function, or states its new state outright (the class
constructors, `StoreSchema`, `HasChildren.Add`). The properties are proved
about those functions or kept as invariants of the method's state. The generator's methods in
`SchemaGeneration` state both: their new state is that of the depth-first
recursion `ProcessDependenciesF` in `GenerationGraph`, and their contracts
also state coverage and dependencies-first directly.

- **Loops** become methods with loop invariants (the name transducer, `buildTree`, the `expandTree` work list, the merges, the index loop, the emitter).
- **Classes** keep their fields: `HasChildren`, `TypeNameUrlConverter`, `LocalResourceLoader`, the topological sorter, and the generator that holds `processed`, `processing` and `results`.
- **Recursive copy-returning functions** of the tree become Dafny functions over immutable values.

## Model

| member | source | states |
|---|---|---|
| Utils.TypeNameToZodSchemaName | src/utils.ts:10-55 | the character loop (hyphen, digit and capitalisation flags) computes the schema-name function `ZodSchemaName` |
| Utils.SchemaNameShape | src/utils.ts:49-54 | every schema name ends in "Schema", and the part before it has no hyphen and no digit |
| Utils.TransduceIsPlain | src/utils.ts:31-47 | the transducer never emits a hyphen or a digit |
| Utils.TransduceHyphen | src/utils.ts:32-36 | a hyphen is dropped and the text after it restarts capitalised (`ab-cd` gives `AbCd`) |
| Utils.TransduceDigits | src/utils.ts:39-42 | a run of digits becomes their words Zero…Nine, and the letter after them is not capitalised |
| Utils.TransducePlain | src/utils.ts:43-46 | a name without hyphens or digits is copied, with only its first letter upper-cased when capitalising |
| Utils.SchemaNameOfPlainName | src/utils.ts:44-54 | a plain name that already starts upper-case just gets "Schema" appended (`Patient` gives `PatientSchema`) |
| Utils.TypeNameUrlConverter.constructor | src/utils.ts:61-66 | both tables hold the id/url pairs of the definitions, a later definition winning a collision |
| Utils.ConverterIdLookup | src/utils.ts:68-70 | `typeNameToUrl(id)` is the url of the last definition with that id |
| Utils.ConverterIdDomain | src/utils.ts:68-70 | an id is known exactly when some definition has it; otherwise the lookup is undefined |
| Utils.ConverterUrlLookup | src/utils.ts:72-74 | `urlToTypeName(url)` is the id of the last definition with that url |
| Utils.ConverterUrlDomain | src/utils.ts:72-74 | a url is known exactly when some definition has it |
| Utils.ParsedTypes | src/utils.ts:80-95 | one entry per type, in order, and none for a missing `type` |
| Utils.FirstFhirTypeExtensionSpec | src/utils.ts:82-91 | the chosen extension is the first one with the fhir-type url, and there is none exactly when no extension has that url |
| Utils.ParseElementTypes | src/utils.ts:77-96 | the loop with its labelled `continue` yields, per type, the first fhir-type extension's `valueUrl`, or `code` when there is none |
| Utils.ParseElementTypesAgrees | src/utils.ts:82-93 | the per-entry reading picks the first fhir-type extension's `valueUrl`, or `code` when there is none |
| PrimitiveTypes.PrimitiveTableKeys | src/types/primitiveTypeSchemaCodes.ts:13-43 | the table's keys are exactly the nineteen FHIR R4 primitive type codes |
| PrimitiveTypes.PrimitiveNumericKinds | src/types/primitiveTypeSchemaCodes.ts:17-41 | an entry is a `z.number()` schema exactly for decimal, integer, unsignedInt and positiveInt; every other entry is `z.boolean()` or a `z.string()` schema |
| PrimitiveTypes.NumericCodeKind | src/types/primitiveTypeSchemaCodes.ts:28-31 | the four numeric codes are in the table and map to `z.number()` schemas |
| PrimitiveTypes.OtherCodeKind | src/types/primitiveTypeSchemaCodes.ts:17-40 | every non-numeric code maps to `z.boolean()` or to a `z.string()` schema |
| Text.LastIndexOf | src/constructZodSchemaCode.ts:290 | the position where `split('/').pop()` cuts is the separator's last occurrence, and -1 exactly when there is none |
| Text.JoinSplit | src/merger.ts:173-176 | `split('.')` followed by `join('.')` gives back the path |
| Text.SplitDotFree | src/merger.ts:146 | no piece of `split('.')` holds a dot |
| Text.ParentPathShape | src/merger.ts:38 | a dotted path is its parent path, a dot, and its last segment |
| Text.ParentPathOfSegment | src/merger.ts:38 | a path without a dot has parent "" and is its own last segment |
| Text.UpperFirst | src/constructZodSchemaCode.ts:173 | only the first character changes, to upper case |
| Text.LowerFirst | src/merger.ts:387-389 | only the first character changes, to lower case |
| Text.JoinPrefixStep | src/merger.ts:175-176 | one more segment extends the joined prefix by a dot and that segment |
| OrderedMaps.MapSetGetSame | src/constructZodSchemaCode.ts:241 | after `set`, the key maps to the new value |
| OrderedMaps.MapSetGetOther | src/constructZodSchemaCode.ts:241 | `set` leaves every other key's value as it was |
| OrderedMaps.MapSetKeys | src/constructZodSchemaCode.ts:241-251 | `set` keeps keys distinct and in insertion order: a present key keeps its place, a new key goes last |
| OrderedMaps.MapSetNew | src/merger.ts:46 | `set` on an absent key appends the entry |
| OrderedMaps.MapSetTwice | src/constructZodSchemaCode.ts:203 | a second `set` on a key overrides the first |
| OrderedMaps.MapDeleteGetSame | src/merger.ts:69 | after `delete`, the key is absent |
| OrderedMaps.MapDeleteGetOther | src/merger.ts:69 | `delete` leaves every other key's value as it was |
| OrderedMaps.LastWinsDomain | src/merger.ts:185-193 | a map filled by `set` in a loop holds exactly the keys that were set |
| OrderedMaps.LastWinsValue | src/merger.ts:185-193 | each key holds the value of its last `set` |
| Fhir.Relocated | src/merger.ts:333-337 | `{...e, path: p, id: p}` sets path and id to `p` and keeps every other field |
| Fhir.Overlay | src/merger.ts:457-460 | `{...base, ...diff}` has the fields of both; differential fields win and the others keep their base value |
| MergerTree.ResolveIsPreorder | src/merger.ts:481-487 | `resolveElementDefinition` lists the elements of the tree in pre-order |
| MergerTree.GetNodeByPathSpec | src/merger.ts:17-28 | `getNodeByPath` finds a node exactly when the path occurs in the tree. The node found is the subtree at the path's first pre-order occurrence |
| MergerTree.GetInChildrenSpec | src/merger.ts:21-27 | the search in a child list lands in the first child that holds the path |
| MergerTree.ReplaceNodeByPathSpec | src/merger.ts:80-98 | `replaceNodeByPath` succeeds exactly when the path occurs. Only the subtree at the first occurrence is replaced; the rest of the pre-order is unchanged |
| MergerTree.ReplaceInChildrenSpec | src/merger.ts:89-96 | the replacement happens in the first child that holds the path, under the same key |
| MergerTree.ReplaceWithFound | src/merger.ts:80-98 | putting back the node `getNodeByPath` found gives the same tree |
| MergerTree.GetAfterReplace | src/merger.ts:80-98 | after a replacement, `getNodeByPath` finds the new node |
| MergerTree.DeleteNodeByPathSpec | src/merger.ts:62-79 | `deleteNodeByPath` gives null for the root path. Otherwise it succeeds exactly when the path occurs, and it removes only the subtree at the first occurrence |
| MergerTree.DeleteInChildrenSpec | src/merger.ts:67-77 | a matching child is deleted under its key, and otherwise the deletion recurses into the first child that holds the path |
| MergerTree.AddNodeByPathSpec | src/merger.ts:29-61 | for a path not yet in the tree, a top-level path is appended to the root's children. Otherwise the result is a tree exactly when the parent path occurs, with the root and validity kept |
| MergerTree.AddNodeByPathValid | src/merger.ts:29-61 | adding a well-formed subtree at its own path keeps the tree well formed and its root path, whether or not the path was already there |
| MergerTree.AddNodeByPathLands | src/merger.ts:39-59 | the new subtree lands in the pre-order right after the subtree of the first node holding the parent path |
| MergerTree.AddInChildrenSpec | src/merger.ts:53-59 | the search for the parent takes the first child that holds it |
| MergerTree.LandsHere | src/merger.ts:39-51 | when the root is the parent, the node becomes its last child |
| MergerTree.AddHere | src/merger.ts:39-51 | adding under the node itself appends a last child, whose entries follow the node's own |
| MergerBuild.BuildTree | src/merger.ts:133-167 | `buildTree` throws "elementDefinitions is empty" on [], and succeeds exactly when every later path lies under the first. With distinct paths, flattening the tree gives back the input |
| MergerBuild.BuildTreeSpec | src/merger.ts:133-167 | the same statement about the stack loop as a function: the empty error, success exactly under the root, the crash when a parent is missing, and a round trip through `resolveElementDefinition` |
| MergerBuild.BuildLoopSpec | src/merger.ts:145-165 | each pass of the loop keeps the tree valid and its pre-order equal to the elements seen so far |
| MergerBuild.PopDeeper | src/merger.ts:148-150 | popping the stack down to the path's depth keeps only open ancestors |
| MergerBuild.PopToParent | src/merger.ts:151-156 | the pops stop at the nearest stack entry that is a dotted prefix of the path. The stack empties exactly when the path is not under the root |
| MergerBuild.PopToParentOpen | src/merger.ts:151-156 | what is left after the pops is a chain of open ancestors ending at the parent |
| MergerBuild.AddAlongValid | src/merger.ts:157-164 | setting a child through the stack reference keeps the tree valid and puts the child at the end of the stack's path |
| MergerBuild.AddAlongAppends | src/merger.ts:163 | setting a child on the deepest open node appends its subtree to the pre-order |
| MergerBuild.HasChildren.constructor | src/merger.ts:110-112 | the index starts empty |
| MergerBuild.HasChildren.Add | src/merger.ts:114-122 | `add` appends the child path to the key's list, or starts a list, without deduplicating |
| MergerBuild.HasChildren.Has | src/merger.ts:124-126 | `has` holds exactly for the keys of the index |
| MergerBuild.HasChildren.GetChildren | src/merger.ts:128-130 | `get` gives the key's list, or undefined |
| MergerBuild.BuildHasChildren | src/merger.ts:169-184 | the index is the grouping of every (prefix, next-level prefix) pair of the paths, in the order the loops visit them |
| MergerBuild.AddSegmentPairs | src/merger.ts:174-181 | the inner loop adds the pairs of one path, skipping a pair already listed |
| MergerBuild.GroupedDomain | src/merger.ts:169-184 | a path has an entry exactly when it is a proper prefix of some path |
| MergerBuild.GroupedValues | src/merger.ts:177-180 | a prefix's list holds exactly its next-level prefixes, without duplicates |
| MergerBuild.PathPairsShape | src/merger.ts:174-176 | each pair is a dotted prefix of the path and that prefix extended by one segment |
| MergerBuild.SinglePathNoPairs | src/merger.ts:172-173 | a single-segment path adds nothing |
| MergerBuild.BuildElementMap | src/merger.ts:185-193 | the map is path to element, with later elements winning |
| MergerBuild.ElementMapLookup | src/merger.ts:189-191 | a path maps to its last element |
| MergerBuild.ElementMapDomain | src/merger.ts:185-193 | a path is in the map exactly when some element has it |
| MergerExpand.Retyped | src/merger.ts:403-408 | `{...e, type: ts}` sets the type list and keeps every other field |
| MergerExpand.GraftEntries | src/merger.ts:329-347 | a grafted element sits at the leaf's path plus the tail of its own path, with path and id rewritten |
| MergerExpand.GraftKidsValid | src/merger.ts:339-347 | the grafted children form a well-formed child map of leaves |
| MergerExpand.GraftKidsEntries | src/merger.ts:339-347 | with distinct grafted paths, the children appear in snapshot order |
| MergerExpand.StartingWith | src/merger.ts:232-235 | the filter keeps exactly the paths with the prefix |
| MergerExpand.ConstrainedType | src/merger.ts:241-247 | the constrained type is the differential's first type code, when it is a non-empty string |
| MergerExpand.FirstWithCode | src/merger.ts:250-253 | `find` gives the first type with the code, or nothing when none has it |
| MergerExpand.MatchIndex | src/merger.ts:390-395 | `findIndex` gives the first position matching either spelling, or -1 |
| MergerExpand.ChoiceSuffixOfChoice | src/merger.ts:396-399 | only a path ending in `[x]` has the suffix "[x]" |
| MergerExpand.SnapshotOf | src/merger.ts:317-328 | the referenced snapshot is found exactly when the type names a known definition that has one. An unknown type gives "currentElementDefinition not found" |
| MergerExpand.StepPassesThrough | src/merger.ts:435-439 | a node that has children, or that the differential does not reach, only pushes its children |
| MergerExpand.StepGrafts | src/merger.ts:329-357 | a leaf the differential reaches, with one type, gets that type's snapshot minus its root as children. The new tree is the old one with only that node replaced, at its first occurrence, its entries spliced into the pre-order there. The tree stays well formed, the differential is unchanged, and the new children are pushed on the rest of the work list. The element contents are not merged |
| MergerExpand.StepGraftErrors | src/merger.ts:309-323 | a type count other than one, or an unknown type, throws the source's message |
| MergerExpand.StepSkipsUnconstrainedChoice | src/merger.ts:218-222 | an `[x]` leaf with differential children but no differential element at its own path is skipped |
| MergerExpand.StepNarrowErrors | src/merger.ts:241-258 | a missing constrained type, or one absent from the base, throws the source's message |
| MergerExpand.StepNarrows | src/merger.ts:250-292 | a constrained `[x]` leaf gets the first base type with the constrained code as its only type, in the tree and in the differential entry at its path, and no other differential entry changes. It gets that type's snapshot minus its root as children. Only that node of the tree is replaced, the tree stays well formed, and the children are pushed on the rest of the work list |
| MergerExpand.ChoiceStepConcretises | src/merger.ts:382-431 | a differential sibling gets a concrete leaf typed by the choice entry equal to its suffix or the lower-cased suffix. When there is none it throws "currentLeafTypeIndex not found" |
| MergerExpand.ChoiceStepAttaches | src/merger.ts:424-431 | the concrete leaf is added under its parent and pushed on the work list |
| MergerExpand.ExpandWithoutChildren | src/merger.ts:203-439 | with an empty index, the work list only walks the tree |
| MergerExpand.ExpandTreeWithoutChildren | src/merger.ts:195-442 | with an empty index, `expandTree` returns the tree unchanged |
| MergerExpand.GraftNode | src/merger.ts:316-357 | the graft branch of the loop body computes its specification step |
| MergerExpand.GraftChildren | src/merger.ts:339-347 | the loop that sets the grafted children builds the graft's child map and work-list entries |
| MergerExpand.ConcretiseChoices | src/merger.ts:382-432 | the loop over the differential siblings computes its specification fold |
| MergerExpand.ConcretiseChoice | src/merger.ts:383-431 | one sibling is handled as its specification step says |
| MergerExpand.ExpandOne | src/merger.ts:204-439 | the body of the `while` loop computes one step of the work-list specification |
| MergerExpand.StepKeeps | src/merger.ts:204-439 | every step keeps the tree well formed and its root path, and changes a differential element only by giving a choice entry a single type |
| MergerExpand.ExpandRunKeeps | src/merger.ts:203-440 | a run that ends has emptied its work list, and keeps what each step keeps |
| MergerExpand.ExpandTreeKeeps | src/merger.ts:195-442 | `expandTree` of a well-formed tree returns a well-formed tree with the same root. The differential elements keep their paths and every field except that a choice entry's `type` may become a single type |
| MergerExpand.ExpandTree | src/merger.ts:195-442 | the work-list loop computes the expansion function, and its lemmas above apply to it |
| MergerMerge.MergeOneSpec | src/merger.ts:452-477 | one differential element overlays the node at its path's first occurrence. A missing path throws "Element not found: <path>" |
| MergerMerge.MergeElementsSpec | src/merger.ts:444-479 | the merge of all differential elements is the in-order overlay of the tree's pre-order |
| MergerMerge.OverlayEntriesKeeps | src/merger.ts:444-479 | the overlay keeps the paths, and leaves elements no differential path names as they were |
| MergerMerge.OverlayEntriesOk | src/merger.ts:453-456 | the merge succeeds exactly when every differential path occurs. Otherwise the first missing one is named |
| MergerMerge.MergeElementByPath | src/merger.ts:444-479 | the loop computes the overlay, and an empty differential returns the tree |
| MergerMerge.WithNarrowingRetypes | src/merger.ts:223-261 | after the expansion, each differential element is as given, or is the last element with its choice path and differs only in having a single type |
| MergerMerge.WithNarrowingUnchanged | src/merger.ts:185-193 | without narrowing, the differential is overlaid as given |
| MergerMerge.MergeDefinitionsWithoutDiff | src/merger.ts:503-520 | an empty base throws "elementDefinitions is empty". With an empty differential, a base whose paths all lie under the first element's path, are distinct, and fit the step budget (`fuel >= |base|`) comes back unchanged. A repeated path would be collapsed by `children.set` (src/merger.ts:163) |
| MergerMerge.MergeDefinitionsOverlay | src/merger.ts:503-520 | when the base builds and expands, the base is non-empty and the expanded tree is well formed with the first base element's path as root. The differential is only narrowed, and the merged elements are it overlaid, in order, on the expanded tree's pre-order |
| MergerMerge.MergeDefinitions | src/merger.ts:503-520 | the pipeline build, index, expand, overlay and flatten computes its specification |
| MergerMerge.Reverse | src/merger.ts:566 | `reverse` puts the last element first |
| MergerMerge.ResolveKeepsTarget | src/merger.ts:527-584 | the target is never altered apart from its snapshot |
| MergerMerge.ResolveWithoutBase | src/merger.ts:560-570 | a non-constraint target is returned unchanged. Without a snapshot it throws |
| MergerMerge.ResolveLookupErrors | src/merger.ts:537-557 | a missing differential, an unconvertible base url and an unknown base id each throw the source's message, which names them |
| MergerMerge.ResolveOneLevel | src/merger.ts:533-584 | for a direct base, the target's differential is merged onto the base snapshot |
| MergerMerge.ResolveTwoLevels | src/merger.ts:533-584 | for a chain of two, the differentials are merged from base to specific |
| MergerMerge.ChainTwoLevels | src/merger.ts:533-559 | the walk collects the differentials from specific to base and stops at the root specialization |
| MergerMerge.MergeFoldTwo | src/merger.ts:572-578 | `reduce` merges the differentials in turn |
| MergerMerge.ResolveSelfCycle | src/merger.ts:533-559 | a chain leading back to the target is reported as a cycle |
| MergerMerge.ResolveConstraintChain | src/merger.ts:522-585 | the method computes the chain resolution function, and the lemmas above apply to it |
| MergerMerge.WalkChain | src/merger.ts:530-564 | the `while` loop computes the chain walk |
| MergerMerge.MergeAll | src/merger.ts:572-578 | the fold over the differentials computes the merge fold |
| DependencyTree.FirstOccurrencesSpec | src/buildDependencyTree.ts:105-120 | the first occurrences of a list have no duplicates and the same members |
| DependencyTree.AddAllIsFirstOccurrences | src/buildDependencyTree.ts:105-120 | pushing each value guarded by `includes` keeps exactly its first occurrences |
| DependencyTree.AddAllAppend | src/buildDependencyTree.ts:63-79 | adding the snapshot's codes, then the differential's, is adding both in order |
| DependencyTree.AddAllExtends | src/buildDependencyTree.ts:105-120 | the guarded pushes only append to the list |
| DependencyTree.UpdateDependencyMap | src/buildDependencyTree.ts:84-125 | the id's list gains the codes of the elements that are not yet in it. Each code is the fhir-type `valueUrl` and then the `code` of every type entry |
| DependencyTree.AddDefinition | src/buildDependencyTree.ts:22-79 | one pass of the loop sets the definition's entry, or throws |
| DependencyTree.BuildDependencyMap | src/buildDependencyTree.ts:13-82 | the loop computes the dependency-map function, using the converter's url-to-id table |
| DependencyTree.DependencyMapOfErr | src/buildDependencyTree.ts:58 | once the loop throws, later definitions do not matter |
| DependencyTree.DependencyEntrySpec | src/buildDependencyTree.ts:33-79 | a primitive type gets []. A constraint without `baseDefinition` throws. Lists have no duplicates, and a constraint's list starts with its base id. The members are exactly the base id and the element codes |
| DependencyTree.DependencyMapKeys | src/buildDependencyTree.ts:25-33 | the keys are distinct and are exactly the ids of definitions with a snapshot or differential |
| DependencyTree.DependencyMapValues | src/buildDependencyTree.ts:33 | each id holds the entry of its last definition with elements, and a later definition resets the list |
| DependencyTree.DependencyMapOfErrSpec | src/buildDependencyTree.ts:51-61 | the map fails exactly when some constraint has no `baseDefinition`. The first such constraint is named |
| DependencyTree.PatientScenario | src/buildDependencyTree.ts:63-79 | empty input gives {}, and Patient gives ["HumanName", "Identifier"] |
| DependencyTree.PatientEntry | src/buildDependencyTree.ts:63-79 | Patient's entry lists HumanName then Identifier, each once |
| Ordering.GetSomeIffKey | src/processStructureDefinitionsInOrder.ts:233-235 | `dependencyMap[id]` is truthy exactly for the keys |
| Ordering.TopologicalSorter.constructor | src/processStructureDefinitionsInOrder.ts:215-217 | the result and both sets start empty |
| Ordering.TopologicalSorter.Visit | src/processStructureDefinitionsInOrder.ts:220-245 | `visit` computes the depth-first step `VisitF`: the dependencies in list order, then the id appended. It keeps the sorter state and only appends, and afterwards the id is visited or is in `temp` on the current path |
| Ordering.TopologicalSorter.VisitDependencies | src/processStructureDefinitionsInOrder.ts:232-239 | after the loop, every dependency that is a key is visited or on the current path |
| Ordering.TopologicalSort | src/processStructureDefinitionsInOrder.ts:214-253 | the order is the depth-first post-order `PostOrder` over the keys in map order. It lists every key exactly once and nothing else. A dependency comes first unless it reaches back to its dependent. For an acyclic map, every dependency comes first |
| Ordering.PostOrderWithoutDependencies | src/processStructureDefinitionsInOrder.ts:247-250 | when no dependency is a key, the order is the keys in map order |
| Ordering.PostOrderDependencyFirst | src/processStructureDefinitionsInOrder.ts:232-244 | with `a` depending on `b`, listed first, the order is `b`, `a` |
| Ordering.AcyclicFirst | src/processStructureDefinitionsInOrder.ts:232-250 | without cycles, dependencies precede their dependents |
| Ordering.DependenciesFirstSnoc | src/processStructureDefinitionsInOrder.ts:241-244 | emitting an id whose dependencies are settled keeps the order property |
| Ordering.PushedDependencies | src/processStructureDefinitionsInOrder.ts:224-239 | a dependency still in `temp` lies on a cycle through the id |
| Ordering.SorterStart | src/processStructureDefinitionsInOrder.ts:229-230 | marking an id temporary keeps the sorter state |
| Ordering.SorterFinish | src/processStructureDefinitionsInOrder.ts:242-244 | moving an id from `temp` to the result keeps the sorter state |
| Ordering.ConstraintSchemaName | src/processStructureDefinitionsInOrder.ts:136-154 | a constraint's name is its base type's name run into its id's name; the hyphen only capitalises |
| Ordering.WithResultsSpec | src/processStructureDefinitionsInOrder.ts:130-131 | only ids with a result get a line, in sort order, without duplicates |
| Ordering.IndexLinesOk | src/processStructureDefinitionsInOrder.ts:130-156 | the lines are written exactly when every id has one |
| Ordering.IndexLinesValues | src/processStructureDefinitionsInOrder.ts:130-156 | each line is that of the id at the same position |
| Ordering.IndexLinesErr | src/processStructureDefinitionsInOrder.ts:133-146 | otherwise the first failing id's error is thrown |
| Ordering.IndexContentOk | src/processStructureDefinitionsInOrder.ts:126-157 | the index file fails exactly when a line fails, with that line's error |
| Ordering.IndexContentValue | src/processStructureDefinitionsInOrder.ts:126-157 | the index file is the header followed by the lines |
| Ordering.IndexFileContent | src/processStructureDefinitionsInOrder.ts:126-157 | the loop computes the index-file function |
| Ordering.IndexContentErr | src/processStructureDefinitionsInOrder.ts:133-146 | once the loop throws, later ids do not matter |
| SnapshotMerge.LoaderKeysMatch | src/constructZodSchemaCode.ts:17-23 | every key leads to a definition registered under it, by url or by id |
| SnapshotMerge.LoaderDomain | src/constructZodSchemaCode.ts:17-23 | a key is present exactly when some definition has it as url or id |
| SnapshotMerge.LoaderLast | src/constructZodSchemaCode.ts:19-22 | a key leads to the last definition registered under it |
| SnapshotMerge.LocalResourceLoader.constructor | src/constructZodSchemaCode.ts:17-23 | the loader's map is built from the definitions' urls and ids |
| SnapshotMerge.LocalResourceLoader.LoadStructureDefinition | src/constructZodSchemaCode.ts:25-27 | a lookup finds a definition registered under the key, and null when there is none |
| SnapshotMerge.PathIndexSpec | src/constructZodSchemaCode.ts:45-52 | the index holds the non-empty paths, each pointing at the path's last element |
| SnapshotMerge.OverlayMatching | src/constructZodSchemaCode.ts:64-68 | constraint elements with other paths leave a base element unchanged |
| SnapshotMerge.SnapshotOverlay | src/constructZodSchemaCode.ts:55-75 | base elements keep their place and path, unconstrained ones are unchanged, and elements with unseen paths follow in constraint order |
| SnapshotMerge.ApplyAllIsOverlay | src/constructZodSchemaCode.ts:55-75 | the in-place loop computes that overlay |
| SnapshotMerge.MergeSnapshotsSpec | src/constructZodSchemaCode.ts:31-78 | id, name, url and version come from the constraint, and the rest from the base. The snapshot is the overlay when both have one |
| SnapshotMerge.MergeDefinitions | src/constructZodSchemaCode.ts:31-78 | the method computes the snapshot merge |
| SchemaCode.ChoiceFieldsSpec | src/constructZodSchemaCode.ts:170-204 | a `name[x]` element yields one field per type, named base plus the capitalised type. A missing type throws |
| SchemaCode.ElementTypes | src/constructZodSchemaCode.ts:146-212 | an element's fields are made for the types it uses. Nothing is made for the root element or an untyped element, and only the first type of a plain element counts |
| SchemaCode.AddFieldsFields | src/constructZodSchemaCode.ts:241-251 | the fields are in first-insertion order, and each name holds the code of its last setting |
| SchemaCode.AddFieldsImports | src/constructZodSchemaCode.ts:216-225 | in both the plain branch and the choice branch (lines 177-186), each used non-self type is imported once, in first-use order. A primitive-kind definition imports nothing |
| SchemaCode.AddFieldsImportsAll | src/constructZodSchemaCode.ts:220-223 | the import loop is the guarded push over the wanted types |
| SchemaCode.ConstructedModule | src/constructZodSchemaCode.ts:121-254 | the module is the header with the imports, one line per field, and the footer. It fails exactly when an element throws |
| SchemaCode.ArrayRoundTrip | src/constructZodSchemaCode.ts:227-230 | `z.array(...)` is applied exactly when asked and can be read back off |
| SchemaCode.OptionalRoundTrip | src/constructZodSchemaCode.ts:232-235 | `.optional()` is applied exactly when asked and can be read back off |
| SchemaCode.LazyRoundTrip | src/constructZodSchemaCode.ts:236-239 | `z.lazy(() => ...)` is applied exactly when asked and can be read back off |
| SchemaCode.WrapUnwrap | src/constructZodSchemaCode.ts:227-239 | in both branches (the choice branch repeats them at lines 188-201), the three wrappers, applied in order, determine the schema and all three flags |
| SchemaCode.TableUnwrapped | src/types/primitiveTypeSchemaCodes.ts:17-41 | no table entry looks wrapped |
| SchemaCode.BaseSchemaUnwrapped | src/constructZodSchemaCode.ts:216-225 | the schema before wrapping, from the table or a schema name, never looks wrapped |
| SchemaCode.FieldCodeDecodes | src/constructZodSchemaCode.ts:164-239 | a field's code is array exactly when max is "*", optional exactly when min is 0, and lazy exactly for a self-reference outside primitives |
| SchemaCode.ImportOnce | src/constructZodSchemaCode.ts:219-223 | an import line is written only for a type not yet imported |
| SchemaCode.SetField | src/constructZodSchemaCode.ts:214-241 | one field is set with its import, as specified |
| SchemaCode.SetChoiceFields | src/constructZodSchemaCode.ts:170-204 | the loop over the types of a `name[x]` element sets its fields, or throws as specified |
| SchemaCode.EmitFields | src/constructZodSchemaCode.ts:146-244 | the loop over the snapshot's elements computes the fields and imports of the specification |
| SchemaCode.ModuleText | src/constructZodSchemaCode.ts:245-253 | the module text is the header, the field lines in map order, and the footer |
| SchemaCode.ConstructZodSchemaCode | src/constructZodSchemaCode.ts:121-254 | the method computes the module function, merging a constraint with its base when the loader has it |
| GenerationGraph.LastUrlSegment | src/constructZodSchemaCode.ts:290 | the base id is the text after the url's last slash. When there is no slash, or nothing follows the last one, it is the whole url, so "a/b/" gives "a/b/" |
| GenerationGraph.CanonicalLastUrlSegment | src/constructZodSchemaCode.ts:288-291 | a canonical definition url yields the definition's id |
| GenerationGraph.TypeCodesSpec | src/constructZodSchemaCode.ts:298-303 | the loop descends exactly into the non-empty, non-self, non-primitive codes |
| GenerationGraph.ElementsTypeCodesSpec | src/constructZodSchemaCode.ts:295-306 | the codes of a snapshot prefix are those of its elements |
| GenerationGraph.DependenciesSpec | src/constructZodSchemaCode.ts:286-306 | a definition depends exactly on its constraint base and the codes its snapshot descends into |
| GenerationGraph.GraphAtAll | src/constructZodSchemaCode.ts:286-306 | the graph agrees with every definition the loader finds |
| GenerationGraph.GeneratedOk | src/constructZodSchemaCode.ts:308-310 | the results exist exactly when no generated definition throws |
| GenerationGraph.GeneratedKeys | src/constructZodSchemaCode.ts:310 | the results are keyed once per id, in first-generation order |
| GenerationGraph.GeneratedValues | src/constructZodSchemaCode.ts:310 | each key holds its last generated code |
| GenerationGraph.GeneratedSnoc | src/constructZodSchemaCode.ts:309-310 | generating one more definition sets its code under its id |
| GenerationGraph.GeneratorStart | src/constructZodSchemaCode.ts:277 | adding an id to `processing` keeps the generator state |
| GenerationGraph.PendingReaches | src/constructZodSchemaCode.ts:272-275 | a dependency still being processed lies on a cycle through the id |
| GenerationGraph.FinishStep | src/constructZodSchemaCode.ts:310-313 | finishing the id on top of the stack keeps the generator state |
| GenerationGraph.GeneratorFinish | src/constructZodSchemaCode.ts:312-313 | moving an id from `processing` to `processed` keeps the generator state |
| SchemaGeneration.SchemaGenerator.constructor | src/constructZodSchemaCode.ts:261-264 | a loader is made from the definitions, and the results and both sets start empty |
| SchemaGeneration.SchemaGenerator.ProcessDependencies | src/constructZodSchemaCode.ts:267-314 | the keys generated and their order, or the first error, are those of `ProcessDependenciesF`: nothing for a key processed, in progress or unknown to the loader, else its dependencies in order and then its code. Afterwards the id is processed, in progress or unknown to the loader, and an error names a definition whose code throws |
| SchemaGeneration.SchemaGenerator.GenerateSchema | src/constructZodSchemaCode.ts:286-313 | the dependencies are processed in order, then the code is stored, as `ProcessDependenciesF` says for a found key. The definition ends in `processed` and leaves `processing` and the stack, or the error names a definition whose code throws |
| SchemaGeneration.SchemaGenerator.StoreSchema | src/constructZodSchemaCode.ts:308-313 | the code is set under the definition's id, and the id moves from `processing` to `processed` |
| SchemaGeneration.SchemaGenerator.VisitDependencies | src/constructZodSchemaCode.ts:286-306 | processes the dependency list in order, as `ProcessEachF` says. Afterwards every dependency is processed, in progress or unknown |
| SchemaGeneration.SchemaGenerator.VisitBase | src/constructZodSchemaCode.ts:287-292 | processes a constraint's base (last url segment) first, as `ProcessEachF` says for `BaseDependency`, and covers it |
| SchemaGeneration.SchemaGenerator.VisitElements | src/constructZodSchemaCode.ts:295-306 | the element loop processes the snapshot's codes in order, as `ProcessEachF` says, and covers each |
| SchemaGeneration.SchemaGenerator.VisitElement | src/constructZodSchemaCode.ts:297-304 | processes the codes of one element's `type` list in order, as `ProcessEachF` says, and covers each |
| SchemaGeneration.SchemaGenerator.VisitTypeRefs | src/constructZodSchemaCode.ts:298-303 | the type loop processes the descended codes in order, as `ProcessEachF` says, and covers each |
| SchemaGeneration.SchemaGenerator.VisitTypeRef | src/constructZodSchemaCode.ts:299-302 | processes a descended code, as `ProcessEachF` says for it, and covers it |
| SchemaGeneration.SchemaGenerator.ProcessAll | src/constructZodSchemaCode.ts:317-319 | the loop processes the definitions' ids in list order, as `ProcessAllF` says, and every definition the loader finds is processed |
| SchemaGeneration.GenerateZodSchemasWithDependencies | src/constructZodSchemaCode.ts:257-322 | each found id is generated once. The results are the codes in generation order, and every id is generated. Dependencies come first unless they lie on a cycle through the dependent. The keys generated, their order and the error are those of `ProcessAllF` over the list, so the error is the first exception in depth-first order |
| GenerationGraph.ProcessAllInListOrder | src/constructZodSchemaCode.ts:317-319 | two definitions without dependencies are generated in list order |
| GenerationGraph.ProcessEachAppend | src/constructZodSchemaCode.ts:296-304 | processing two key lists in turn is processing their concatenation, and an error in the first ends it |

## Left out

- Reading and writing files, streams, the command line, `console` diagnostics and warnings are not part of this model. That covers src/loader.ts, src/classifier.ts, src/index.ts, and the file and profile-map writing in src/processStructureDefinitionsInOrder.ts. The profile-map name at src/processStructureDefinitionsInOrder.ts:104-111 follows the same rule as the index name.
- The call at src/processStructureDefinitionsInOrder.ts:80-84 passes three arguments to the two-parameter `generateZodSchemasWithDependencies`; the model follows the two-parameter definition.
- Zod's runtime validation (src/types/StructureDefinitions/r4.ts) is not modelled. Its field list shapes the `StructureDefinition` and element datatypes, and an element's `type` that is not a list is treated as absent.
- Character handling is ASCII. `toUpperCase`, `toLowerCase` and `\d` are not modelled for other characters.
- JavaScript object-prototype behaviour of `DependencyMap` keys (such as an id named `__proto__`) is not modelled. The map is an insertion-ordered list of entries.
- Ordering.TopologicalSort: `Object.keys` at src/processStructureDefinitionsInOrder.ts:248 lists integer-like keys (such as "1" or "42") first, in ascending numeric order, and the other keys after them in insertion order. The model visits all keys in insertion order. FHIR type ids are not integer-like.
- `deepCopyNode` and the `JSON.parse(JSON.stringify(...))` copies are the identity on immutable values.
- MergerMerge.WithNarrowing: the source narrows the caller's own differential element in place. `currentNode.element = diffElement` (src/merger.ts:223) shares the element that `buildElementMap` stored by reference (src/merger.ts:185-193), and `currentNode.element.type = [matchingType]` (src/merger.ts:261) rewrites it. The differential lists come from the definitions the caller passes (src/merger.ts:537-541, src/merger.ts:572-578), and the JSON copy at src/merger.ts:530 protects only the returned definition. The model keeps that narrowing within one `mergeDefinitions` call, through `WithNarrowing`: the expansion returns the narrowed map, and the overlay reads it back on the last differential element with each path. The model does not carry the narrowing over into the caller's definitions or into later calls.
- `initializePrimitiveTypeSchemasCodes` returning a fresh map on each call holds trivially for a constant value.
- `typeNameToZodSchemaName` is defined twice, at src/utils.ts:10-55 and src/constructZodSchemaCode.ts:81-119, with the same behaviour; it is modelled once, in `Utils`.
- Exceptions are `Err` values. Where JavaScript would crash, the model returns the error the engine would throw:
  - "Cannot read properties of undefined" when `buildTree` finds no parent on its stack;
  - the undefined-index failures in `expandTree`.
- MergerExpand.ExpandTree: the work list in src/merger.ts:203-440 runs until it is empty. The model takes a step budget (`fuel`) and returns an "out of steps" error when the budget runs out, so a result is stated only for runs within the budget. The merges that call it (`MergerMerge.MergeDefinitions`, `MergerMerge.ResolveConstraintChain`) pass that budget on.
- MergerMerge.ResolveConstraintChain: on a cyclic `baseDefinition` chain the `while` loop at src/merger.ts:533-559 never ends. The model detects a base id it has already visited and returns a cycle error instead.
- MergerExpand.ExpandTreeKeeps: no lemma states that every path of the input tree is still in the expanded tree. A graft can repeat a path that is already there (two grafted snapshots can both hold `p.contact.extension`), and the later `add`, `replace` and lookup act on the first occurrence, so the statement would need a description of where duplicates can arise.
- MergerTree.AddNodeByPathSpec: the lemmas describe adding a path that is not yet in the tree. The "is already exists" error is in the function, but no lemma states on which routes it fires when the path sits below the root.
- MergerExpand.ConcretiseChoices: the lemmas describe one sibling (`ChoiceStepConcretises`, `ChoiceStepAttaches`). No lemma states the whole fold over the siblings beyond the method computing it.
- SchemaGeneration.GenerateZodSchemasWithDependencies: the generator calls the module function (`ConstructZodSchemaCodeF`) rather than the `SchemaCode.ConstructZodSchemaCode` method; the method is proved equal to that function. An exception from one definition ends the whole run, as in the source. The contract does not repeat the per-definition wrapping facts; those are stated by `SchemaCode.ConstructedModule` and `SchemaCode.FieldCodeDecodes`.
- Ordering.TopologicalSorter.Visit: the current depth-first path is a ghost stack beside `temp`, so that the cycle case of the ordering property can be stated.
- The `SchemaGenerator` methods also keep a ghost stack of the ids in progress, for the same reason.
