# beans-visualizer, modelled in Dafny

beans-visualizer draws the bean dependency graph that the Spring Boot Actuator
`/beans` endpoint reports. Its core, in `src/index.js`, does four things:

- It accepts an uploaded report only if the report has a non-empty `contexts` object.
- It builds a graph from the report:
  - One node for each listed bean that the `application` context also lists.
  - One link for each dependency declared for that bean.
  - One placeholder node for each dependency that never became a node.
  - Finally, a key `l<iid(source)>_<iid(target)>` on every link.
- It colours each node by a group that depends on the bean name's prefix.
- When a bean is selected, it highlights the links leaving it, and with the transitive option everything reachable from it.

This project models that core as follows:

- `report.dfy` models the report. A JSON object becomes an ordered list of entries, in the order `Object.keys` and `for...in` visit it.
- `groups.dfy` models the group rule.
- `decimal.dfy` models the decimal text that the key template writes.
- `graph_spec.dfy` states the graph that `render` builds, as functions.
- `graph_builder.dfy` runs `render`'s loops step by step. It is proved to produce exactly that graph.
- `graph_properties.dfy` proves the invariants of the graph, such as:
  - dense numbering;
  - real nodes before placeholders;
  - one placeholder per unresolved dependency name;
  - every link endpoint is a node;
  - keys identify the endpoints.
- `highlight.dfy` covers the highlight in three parts:
  - a traversal with a visited set, proved to mark exactly the links whose source is reachable;
  - the `mark` guard;
  - the recursion as written, with a depth bound standing for the call stack.

  The recursion is proved to:
  - agree with the traversal whenever it finishes;
  - finish on acyclic graphs;
  - never finish once a cycle is reachable from the selection.

The code does not deduplicate nodes by name. `nodeNames.add` is a set insertion, but `data.nodes.push` runs for every occurrence (src/index.js:130-136). So a bean listed by two contexts becomes two nodes with the same id, and `name2iid` resolves both to the first (`GraphProperties.ListedTwiceTwoNodes`).

## Model

| member | source | states |
|---|---|---|
| Groups.GroupMapper | src/index.js:17-28 | every name is given one of the groups 1 to 4 |
| Groups.GroupMapperRules | src/index.js:17-28 | group 2 exactly for names starting "org.springframework"; 3 exactly for other "org." names; 4 exactly for "com." names; 1 exactly for names with neither prefix (first matching rule wins) |
| Groups.GroupMapperExamples | src/index.js:17-28 | one sample name per rule gets groups 2, 3, 4 and 1 |
| Report.Lookup | src/index.js:128-129 | `hasOwnProperty` then index: None exactly when no entry has the name, otherwise the record of the first entry with that name |
| Report.ApplicationBeans | src/index.js:128 | exactly the `beans` of the first context named "application" (None when it has none); None when there is no such context |
| Report.ListedNames | src/index.js:127 | one name per key of a context's `beans`, none without `beans`; a name is listed exactly when some entry of `beans` carries it (the membership `GraphProperties.ListedMembers` and `BuildNodeNames` build on) |
| GraphSpec.QualifyingIn | src/index.js:127-128 | every name kept from a context is listed by the application context; at most one per listed bean |
| GraphSpec.Occurrences | src/index.js:123-128 | every occurrence, across all contexts, is a name the application context lists |
| GraphSpec.InsertionOrder | src/index.js:120-150 | the elements of a `Set`: exactly those of the input, each once (the order is stated by `GraphProperties.InsertionOrderFirstSeen`) |
| GraphProperties.InsertionOrderFirstSeen | src/index.js:120-150 | a `Set` iterates in order of first insertion: of two listed elements, the earlier one was inserted before the later one first was, which fixes the order in which placeholders are numbered |
| GraphSpec.RealNodes | src/index.js:130-136 | one real node per occurrence, in order (contents stated by `GraphProperties.RealNodesAt`) |
| GraphSpec.LinksOf | src/index.js:137-144 | one link per dependency of an occurrence (contents stated by `GraphProperties.OccurrenceLinks`) |
| GraphSpec.RealLinks | src/index.js:123-144 | the links of all occurrences in order; its properties are `GraphProperties.RealLinksFacts`, `RealLinksPrefix` and `OccurrenceLinks` |
| GraphSpec.Placeholders | src/index.js:149-158 | at most one placeholder per referenced name (contents stated by `GraphProperties.PlaceholdersFacts` and `PlaceholdersDistinct`) |
| GraphSpec.LinkKey | src/index.js:162 | the key `l<iid(source)>_<iid(target)>`, with '' for an unresolved name; its properties are `GraphProperties.BuildKeys` and `SameKeySameEnds` |
| GraphSpec.WithKeys | src/index.js:159-162 | the key pass keeps the number of links (that it keeps everything else is `GraphProperties.KeyingKeepsEndpoints`) |
| GraphSpec.BuildSpec | src/index.js:107-162 | the graph `render` builds, or TypeError when the application beans are missing and some context lists a bean; its properties are the `GraphProperties.Build*` lemmas, and `GraphBuilder.Build` is proved equal to it |
| GraphSpec.NameToIid | src/index.js:111-117 | `name2iid`: None (the source's '') exactly when no node has that id, otherwise the `iid` of the first node with that id |
| Report.HasContexts | src/index.js:65 | the upload is accepted exactly when `contexts` is present and has at least one key; used by `GraphBuilder.Load` |
| Decimal.NatToString | src/index.js:162 | the text of an `iid` in a template literal is digits only, non-empty, with no leading zero |
| Decimal.DigitsValueOfNatToString | src/index.js:162 | reading the decimal text back gives the number |
| Decimal.NatToStringInjective | src/index.js:162 | two numbers have the same text exactly when they are equal |
| GraphBuilder.Build | src/index.js:107-162 | the nested loops produce exactly the specified graph, or TypeError when the application beans are missing and some context lists a bean |
| GraphBuilder.AddBeans | src/index.js:126-147 | one context's `for...in` adds a node and the links of every name the application context lists, in key order |
| GraphBuilder.AddBean | src/index.js:128-144 | one qualifying name adds its node (numbered by the incremented counter, resource from the application record), its links and its name |
| GraphBuilder.PushDependencies | src/index.js:137-144 | one link per dependency, in order, with the dependency count as value; the referenced-name set grows in insertion order |
| GraphBuilder.AddPlaceholders | src/index.js:149-158 | the placeholder pass appends exactly the specified placeholders, numbered on from the counter |
| GraphBuilder.AssignKeys | src/index.js:159-162 | every link gets its key and nothing else changes |
| GraphBuilder.Load | src/index.js:64-70 | a report without a non-empty `contexts` is rejected as InvalidFormat; otherwise it is rendered |
| GraphBuilder.ContextStep | src/index.js:123-128 | one more context adds the qualifying names it lists and says whether a bean was listed |
| GraphBuilder.OccurrenceStep | src/index.js:130-144 | one more occurrence adds exactly its node, its links and its name |
| GraphProperties.RealNodesAt | src/index.js:130-136 | real node k has the k-th occurrence's name, number k + 1, its group and the application context's resource |
| GraphProperties.PlaceholdersFacts | src/index.js:149-158 | placeholders are numbered on from the real nodes, have group 0, no resource and a name outside `nodeNames`; every unresolved name gets one |
| GraphProperties.PlaceholdersDistinct | src/index.js:149-158 | distinct referenced names give placeholders with distinct ids |
| GraphProperties.RealLinksFacts | src/index.js:137-144 | every link comes from an occurrence, targets one of its declared dependencies, has their count as value and no key yet |
| GraphProperties.RealLinksPrefix | src/index.js:123-144 | links are only ever appended: earlier occurrences' links come first |
| GraphProperties.OccurrenceLinks | src/index.js:137-144 | an occurrence owns the block of links right after the earlier occurrences' links: position j of the block is the link from it to its j-th declared dependency, valued with the dependency count |
| GraphProperties.InsertionOrderOfTargets | src/index.js:137-150 | a name is in `linkNames` exactly when some link targets it |
| GraphProperties.IidLocates | src/index.js:111-117 | with dense numbers, `name2iid` gives n where node n - 1 has that id and no earlier node has it |
| GraphProperties.IidInjective | src/index.js:111-117 | with dense numbers, two names resolving to the same `iid` are equal |
| GraphProperties.KeyParts | src/index.js:162 | `l<digits>_<rest>` determines both parts |
| GraphProperties.KeyingKeepsEndpoints | src/index.js:159-162 | keying keeps every link's source, target and value |
| GraphProperties.BuildNumbersNodes | src/index.js:121-158 | node k has `iid` k + 1: numbers are dense and unique |
| GraphProperties.BuildRealThenPlaceholders | src/index.js:126-158 | real nodes (application-listed names, application resource, group from the prefix rule, never 0) come first; all later nodes are placeholders with group 0, no resource and a name outside `nodeNames` |
| GraphProperties.BuildNodeNames | src/index.js:126-130 | a name is a real node exactly when some context lists it and the application context has it |
| GraphProperties.BuildLinksFromApplication | src/index.js:128-143 | every link starts at a real node and targets one of the dependencies the application context declares for it, with their count as value |
| GraphProperties.BuildLinksPerOccurrence | src/index.js:137-144 | in the built graph, position j of occurrence k's block of links is the link from that occurrence to its j-th declared dependency, valued with the dependency count |
| GraphProperties.BuildPlaceholdersDistinct | src/index.js:149-158 | no two placeholders share an id |
| GraphProperties.BuildPlaceholderNames | src/index.js:149-158 | a name gets a placeholder exactly when it is a link target and not a real node's name |
| GraphProperties.PlaceholderIsLooseTarget | src/index.js:149-158 | a placeholder's name is a link target outside `nodeNames` |
| GraphProperties.LooseTargetIsPlaceholder | src/index.js:149-158 | a link target outside `nodeNames` has a placeholder |
| GraphProperties.BuildClosed | src/index.js:111-162 | both ends of every link are node ids, so `name2iid` never yields '' for them |
| GraphProperties.RealNodeNamed | src/index.js:130-136 | every name in `nodeNames` is the id of a real node |
| GraphProperties.SameKeySameEnds | src/index.js:111-162 | over densely numbered nodes, two links whose endpoints resolve and whose keys are equal have the same source and the same target |
| GraphProperties.BuildKeys | src/index.js:111-162 | each key is `l` + decimal `iid` of the source + `_` + decimal `iid` of the target; two links share a key exactly when they have the same source and the same target |
| GraphProperties.QualifyingMembers | src/index.js:127-128 | a context contributes a name exactly when it lists it and the application context has it |
| GraphProperties.OccurrencesMembers | src/index.js:123-130 | a name occurs exactly when some context lists it and the application context has it |
| GraphProperties.OccurrencesAppend | src/index.js:123-125 | contexts contribute independently, in key order |
| GraphProperties.ContextWithoutBeans | src/index.js:126 | a context without `beans` contributes nothing, wherever it stands |
| GraphProperties.ListedTwiceTwoNodes | src/index.js:130-136 | a bean without dependencies listed by the application context and by one more context becomes two nodes with its name, numbered 1 and 2; `name2iid` resolves to the first |
| Highlight.MarkDependencies | src/index.js:164-180 | without the transitive flag, exactly the links leaving the selection; with it, exactly the links whose source is reachable from the selection; it always finishes |
| Highlight.Mark | src/index.js:184-187 | a selection that is not a real node's name marks nothing; otherwise the marking of `MarkDependencies` |
| Highlight.Outgoing | src/index.js:165-166 | the filter keeps exactly the links whose source is the selection |
| Highlight.RecMark | src/index.js:164-180 | the recursion as written, allowed `depth` nested calls: when it finishes it marks only existing links, and every link leaving the selection |
| Highlight.RecMarkEach | src/index.js:167-179 | the `forEach` over the outgoing links: when it finishes it marks only existing links, and every link it walks over |
| Highlight.OutgoingGathered | src/index.js:165-177 | marking each outgoing link and what its target reaches is marking what the selection reaches |
| Highlight.RecMarkFinished | src/index.js:164-180 | whenever the recursion as written finishes, it has marked exactly what `MarkDependencies` marks |
| Highlight.RecMarkEachFinished | src/index.js:167-179 | the `forEach` marks each outgoing link together with what its target's call marks |
| Highlight.FailsThroughLink | src/index.js:165-177 | a call below one outgoing link that never finishes keeps the selection's call from finishing |
| Highlight.RecMarkEachFails | src/index.js:167-179 | one call that never finishes keeps the whole `forEach` from finishing |
| Highlight.UnendingNeverFinishes | src/index.js:175-177 | from a set of names that each link into the set, the transitive recursion never finishes, at any depth |
| Highlight.CycleNeverFinishes | src/index.js:175-177 | a cycle reachable from the selection makes the transitive recursion run forever |
| Highlight.ThreeCycleNeverFinishes | src/index.js:175-177 | on A to B to C to A, selecting A, the transitive recursion never finishes, at any depth |
| Highlight.ThreeCycleMarksAll | src/index.js:164-180 | on the same ring the marking to produce is the three links |
| Highlight.RankedFinishes | src/index.js:164-180 | on an acyclic graph the recursion finishes within one level more than the selection's rank |
| Highlight.RankedEachFinishes | src/index.js:167-179 | on an acyclic graph the `forEach` finishes when every target ranks below the remaining depth |
| Highlight.RankedAgrees | src/index.js:164-180 | on an acyclic graph the recursion as written and `MarkDependencies` mark the same links |

## Left out

- Drawing is left out: the d3 force simulation, `arrowPath`, `round`, the stroke width, zooming, SVG element creation, the node-name datalist and its sizing, `init`, `clear` and the root-node cloning. These are floating-point geometry and DOM work.
- File reading is left out: `FileReader`, `JSON.parse` and `alert`. A parsed report is the input, and the `alert` is the InvalidFormat result.
- `lastModel` and the reset button are left out. Reset re-runs the same deterministic build.
- Highlight restyling is left out. `markDependencies` restyles the SVG element with the link's key; the model returns the set of marked link positions instead.
  - Every link's key names an element, so the `if (link)` test always passes (see `GraphProperties.BuildClosed` and `GraphProperties.BuildKeys`).
  - Links with the same endpoints share a key. `querySelector` finds the first element with that key and `appendChild` moves it to the end, so successive queries reach each duplicate in turn. The DOM order and the moves are not modelled; a run that finishes restyles every duplicate, which is what the set of marked positions says.
  - The pulsing animation of the selected circle is not modelled.
  - Marks left from earlier selections are not modelled.
- Highlight.RecMark: the call stack's size is a depth parameter. None stands for a call that needs more depth, so a stack overflow is not told apart from a call needing more depth than given.
- Highlight.MarkDependencies: it expands names from a set in any order. Marking is idempotent, so the marked set does not depend on the order.
- JSON object key order is taken as insertion order. JavaScript visits integer-like keys first, in ascending order.
- A bean named `hasOwnProperty` among the application beans shadows the method, so the `hasOwnProperty` call at src/index.js:128 throws a TypeError at the first listed name. `Report.Lookup` treats that name like any other, so the model builds a graph where the source throws.
- Repeated keys in one JSON object are not modelled. An entry list with a repeated name is read at its first entry, whereas `JSON.parse` keeps the last value.
- Non-object values are left out: a `contexts` or `beans` that is not an object, and a bean record without a `dependencies` array. The latter throws in the source.
- The viewBox reading at the start of `render` is not modelled.
- `webpack.config.js` is build configuration and is not part of this model.

## Findings

| source | as written | input that shows it | evidently intended | confidence | as-written member | corrected member |
|---|---|---|---|---|---|---|
| src/index.js:175-177 | with the transitive flag, `markDependencies` recurses into every link's target, with no record of names already visited | beans A, B, C where A depends on B, B on C and C on A; select A with the transitive box ticked | mark each link reachable from the selection once and stop | medium, not executed | Highlight.CycleNeverFinishes | Highlight.MarkDependencies |
