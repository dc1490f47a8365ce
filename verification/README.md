# clbneo core, modelled in Dafny

This project models the pure logic of the Neo4j checklist importer in
`org.gbif.checklistbank`, with the Neo4j store replaced by maps and sequences:

- **Value normalisation** (`NeoImport.norm`, `NULL_PATTERN`). A raw archive value is
  dropped when it is missing, empty or a null placeholder (`\N`, `NULL`, `\NULL`
  padded by regex white space). Otherwise it is trimmed. The same module builds the
  property map that the batch insert stores for one core record (module `Norm`).
- **Reference resolution** (`setupAcceptedRel`, `setupParentRel`, `setupBasionymRel`
  and the per-node loop of `setupRelations`). The store is a map from taxonID to
  the node's properties, and `nodeByTaxonId` is a map lookup. The output is a set
  of typed edges (SYNONYM_OF, PARENT_OF, BASIONYM_OF) and a set of labels (TAXON,
  ROOT, SYNONYM) (module `Resolver`).
- **Sibling order** (`TaxonomicOrderExpander`). Each node's outgoing PARENT_OF
  relationships are sorted by the child's `taxonRank` and then by its
  `scientificName`. Both use Java's `String.compareTo`, and the sort is stable
  (module `TaxonOrder`).
- **Path-diff walk** (`TaxonWalker.walkAll`). It turns a sequence of root-to-node
  paths into start and end events. For each new path it ends the nodes left on the
  old path, deepest first, and then starts the new nodes, shallowest first
  (module `Walker`).
- **Nested-set numbering** (`ImportTaxonMetricsHandler`). One counter, starting at
  0, writes `lft` on start and `rgt` on end. Over a depth-first pre-order walk the
  intervals nest (module `NestedSet`).

`Wrappers` holds the `Option` and `Result` types used throughout.

Facts about the code that the model keeps, although a reader might expect otherwise:

- `walkAll` ends nothing after its loop (`TaxonWalker.java:51-53`), so the nodes of
  the final path are started but never ended. `Walker.WalkAllReplay` and
  `NestedSet.WalkNumbering` state the consequence: those nodes get `lft` but no
  `rgt`.
- The null pattern (`NeoImport.java:45`) is case-sensitive, so `null` is kept
  (`Norm.NormKeepsLowerCaseNull`). A value of white space only normalises to `""`,
  not to null (`Norm.NormBlankIsEmpty`).
- The guard of the three relation steps (`NeoImport.java:234`, `:249`, `:263`) tests
  only that the reference is not null and differs from the node's own taxonID, so
  `""` passes it. Values reach the store through `norm`, which can yield `""`.
- The relation steps do not make the parent links a forest: two records naming each
  other as parent give a PARENT_OF cycle and neither becomes ROOT
  (`Resolver.ResolveParentCycle`). The nesting theorems of `NestedSet` assume a
  depth-first pre-order walk (`NestedSet.PreOrder`), which such a cycle cannot give.
- `setupRelations` commits every 10000 nodes but never marks the last transaction
  successful before closing it (`NeoImport.java:180-203`), so the last batch of
  edges and labels is rolled back. `Resolver.Committed` states what survives.

## Model

| member | source | states |
|---|---|---|
| Norm.Norm | src/main/java/org/gbif/checklistbank/NeoImport.java:289-294 | null exactly when the value is missing, empty or matched by the null pattern; otherwise the value with characters up to U+0020 cut from both ends, and the result neither starts nor ends with such a character |
| Norm.NullPatternFindsMatches | src/main/java/org/gbif/checklistbank/NeoImport.java:45 | the executable null test holds exactly when the anchored pattern finds a match: regex white space, one of `\N`, `NULL`, `\NULL`, regex white space, and optionally one final line terminator before the end |
| Norm.StripSpacesToken | src/main/java/org/gbif/checklistbank/NeoImport.java:45 | stripping regex white space from both ends leaves a null token exactly when the string is a null token padded with regex white space |
| Norm.NoTokenAmongTrimmable | src/main/java/org/gbif/checklistbank/NeoImport.java:45 | a string made only of characters up to U+0020 never matches the null pattern's token part |
| Norm.Trim | src/main/java/org/gbif/checklistbank/NeoImport.java:293 | `trim` returns the infix left after cutting characters up to U+0020 from both ends, and that infix neither starts nor ends with one |
| Norm.TrimOfIsTrimmed | src/main/java/org/gbif/checklistbank/NeoImport.java:293 | anything `trim` can return neither starts nor ends with a character up to U+0020 |
| Norm.NormBlankIsEmpty | src/main/java/org/gbif/checklistbank/NeoImport.java:289-294 | a non-empty value made only of characters up to U+0020 normalises to the empty string, not to null |
| Norm.NormTokenIsNull | src/main/java/org/gbif/checklistbank/NeoImport.java:289-291 | each of `\N`, `NULL` and `\NULL`, with any regex white space before and after, normalises to null |
| Norm.NormKeepsLowerCaseNull | src/main/java/org/gbif/checklistbank/NeoImport.java:45 | the match is case-sensitive: `null` is kept as a value |
| Norm.NormNullBeforeLineSeparator | src/main/java/org/gbif/checklistbank/NeoImport.java:45 | `$` also matches before a final line separator (U+2028), so `NULL` followed by one is null |
| Norm.NormNotIdempotent | src/main/java/org/gbif/checklistbank/NeoImport.java:289-294 | normalising twice can differ from normalising once: U+0001 then `NULL` gives `NULL`, which gives null |
| Norm.InsertProps | src/main/java/org/gbif/checklistbank/NeoImport.java:107-114 | the taxonID entry is the normalised row id or taxonID column and overrides any other value; any other term is present exactly when its normalised value is not null, and then holds that value; every stored value is trimmed |
| Norm.TaxonIdOf | src/main/java/org/gbif/checklistbank/NeoImport.java:277-283 | the taxonID is null exactly when the raw value (the row id with `useCoreID`, the taxonID column otherwise) is missing, empty or a null placeholder, and otherwise that value trimmed |
| Resolver.Value | src/main/java/org/gbif/checklistbank/NeoImport.java:273-275 | the property is present exactly when the node stores the term, and then holds the stored value |
| Resolver.Target | src/main/java/org/gbif/checklistbank/NeoImport.java:233-236 | a reference resolves exactly when it is present, differs from the node's own taxonID and names a stored node, and then it resolves to exactly the node it names, never to the node itself |
| Resolver.InitialGraph | src/main/java/org/gbif/checklistbank/NeoImport.java:116 | before resolution there are no edges, and exactly the stored nodes carry TAXON |
| Resolver.AcceptedRel | src/main/java/org/gbif/checklistbank/NeoImport.java:232-245 | the synonym flag is set exactly when the accepted reference is present and self-distinct, whether or not it resolves; the SYNONYM_OF edge to the target and the SYNONYM label are added exactly when it resolves; nothing else changes |
| Resolver.ParentRel | src/main/java/org/gbif/checklistbank/NeoImport.java:247-259 | a resolved parent gets a PARENT_OF edge to the node, whatever the synonym flag; ROOT is added exactly when there is no parent link (absent or self) and the flag is false; a dangling parent adds nothing |
| Resolver.BasionymRel | src/main/java/org/gbif/checklistbank/NeoImport.java:261-271 | a resolved original-name reference adds BASIONYM_OF from that node to this one; labels never change |
| Resolver.SetupNode | src/main/java/org/gbif/checklistbank/NeoImport.java:193-195 | the three steps in their order add exactly the edges and labels the node's own references determine: SYNONYM for a resolved accepted name, ROOT when there is neither a parent link nor an accepted link |
| Resolver.SetupRelations | src/main/java/org/gbif/checklistbank/NeoImport.java:182-196 | after the loop over the nodes, an edge or label is present exactly when it was there before or some visited node contributes it |
| Resolver.Resolve | src/main/java/org/gbif/checklistbank/NeoImport.java:182-199 | after the loop over all nodes, an edge is present exactly when its owner was visited and contributes it, and a label exactly when it is the insert's TAXON or a visited node contributes it |
| Resolver.CommittedCount | src/main/java/org/gbif/checklistbank/NeoImport.java:183-189 | the commits inside the loop cover a multiple of 10000 nodes, fewer than all of them, and at most 10000 fewer |
| Resolver.CommittedCountIsLastBoundary | src/main/java/org/gbif/checklistbank/NeoImport.java:183-189 | no batch boundary below the node count lies past the last commit |
| Resolver.Committed | src/main/java/org/gbif/checklistbank/NeoImport.java:180-203 | what survives the closing transaction: the edges and labels of the nodes handled before the last commit, and the insert's TAXON labels |
| Resolver.CommittedLosesSmallChecklist | src/main/java/org/gbif/checklistbank/NeoImport.java:180-203 | a checklist of at most 10000 nodes keeps no edge and no ROOT or SYNONYM label |
| Resolver.ResolveParentCycle | src/main/java/org/gbif/checklistbank/NeoImport.java:247-258 | two records naming each other as parent give PARENT_OF both ways, and neither is ROOT |
| Resolver.ResolveNoSelfLoops | src/main/java/org/gbif/checklistbank/NeoImport.java:232-271 | no relation kind ever creates an edge from a node to itself |
| Resolver.RootAndSynonymExclusive | src/main/java/org/gbif/checklistbank/NeoImport.java:247-258 | no node is both ROOT and SYNONYM |
| Resolver.ResolveAtMostOneParent | src/main/java/org/gbif/checklistbank/NeoImport.java:247-259 | every node has at most one PARENT_OF parent and at most one SYNONYM_OF target |
| Resolver.ResolveOrderIndependent | src/main/java/org/gbif/checklistbank/NeoImport.java:182-196 | the result does not depend on the order in which the store lists its nodes |
| Resolver.SelfReferenceIsAbsent | src/main/java/org/gbif/checklistbank/NeoImport.java:232-271 | a reference to the node's own taxonID, in any term, resolves exactly as if the reference were absent |
| Resolver.ExampleTargets | src/main/java/org/gbif/checklistbank/NeoImport.java:232-271 | in the example store only B's parent and C's accepted name resolve (both to A); D's parent is a link that does not resolve |
| Resolver.ResolveExampleEdges | src/main/java/org/gbif/checklistbank/NeoImport.java:193-195 | the example store, visited in any order, gives exactly A PARENT_OF B and C SYNONYM_OF A; D's dangling parent adds nothing |
| Resolver.ResolveExampleTags | src/main/java/org/gbif/checklistbank/NeoImport.java:193-195 | the example store, visited in any order, gives TAXON on every node, ROOT on A only and SYNONYM on C only |
| TaxonOrder.CompareTo | src/main/java/org/gbif/checklistbank/traverse/TaxonomicOrderExpander.java:27-28 | natural `String` order is negative exactly when the first string precedes the second lexicographically (a proper prefix, or a smaller first differing character) |
| TaxonOrder.CompareToZero | src/main/java/org/gbif/checklistbank/traverse/TaxonomicOrderExpander.java:27-28 | natural `String` order returns 0 exactly for equal strings |
| TaxonOrder.CompareToAntisymmetric | src/main/java/org/gbif/checklistbank/traverse/TaxonomicOrderExpander.java:27-28 | a is below b exactly when b is above a |
| TaxonOrder.CompareToTransitive | src/main/java/org/gbif/checklistbank/traverse/TaxonomicOrderExpander.java:27-28 | natural `String` order is transitive |
| TaxonOrder.RankOrderIsLexicographic | src/main/java/org/gbif/checklistbank/traverse/TaxonomicOrderExpander.java:26-35 | ranks sort by character code, not by rank: `class` before `kingdom`, `genus` after `family` |
| TaxonOrder.KeyCompare | src/main/java/org/gbif/checklistbank/traverse/TaxonomicOrderExpander.java:26-46 | the compound comparator is negative exactly when the rank precedes, or the ranks are equal and the name precedes |
| TaxonOrder.KeyCompareZero | src/main/java/org/gbif/checklistbank/traverse/TaxonomicOrderExpander.java:26-46 | the compound comparator returns 0 exactly when rank and name are both equal |
| TaxonOrder.KeyLeqTotal | src/main/java/org/gbif/checklistbank/traverse/TaxonomicOrderExpander.java:26-46 | any two keys are comparable under the compound order |
| TaxonOrder.KeyLeqTransitive | src/main/java/org/gbif/checklistbank/traverse/TaxonomicOrderExpander.java:26-46 | the compound order is transitive |
| TaxonOrder.Insert | src/main/java/org/gbif/checklistbank/traverse/TaxonomicOrderExpander.java:54 | the result holds the input's elements plus the new one, and is sorted when the input was |
| TaxonOrder.InsertFilter | src/main/java/org/gbif/checklistbank/traverse/TaxonomicOrderExpander.java:54 | inserting puts the element in front of the elements that share its key and keeps their order; elements with other keys are unaffected |
| TaxonOrder.Sort | src/main/java/org/gbif/checklistbank/traverse/TaxonomicOrderExpander.java:54 | the result is sorted, a permutation of the input, and for every key its elements keep their input order |
| TaxonOrder.SortedStableUnique | src/main/java/org/gbif/checklistbank/traverse/TaxonomicOrderExpander.java:54 | two sorted sequences whose elements with equal keys appear in the same order are equal, so a stable sort has only one result |
| TaxonOrder.SortIsTheStableSort | src/main/java/org/gbif/checklistbank/traverse/TaxonomicOrderExpander.java:54 | any sorted arrangement that keeps the input order among equal keys is the model's sort |
| TaxonOrder.ChildRels | src/main/java/org/gbif/checklistbank/traverse/TaxonomicOrderExpander.java:50-52 | the children are exactly the relationships that are PARENT_OF and leave the path's end node |
| TaxonOrder.Expand | src/main/java/org/gbif/checklistbank/traverse/TaxonomicOrderExpander.java:48-55 | fails exactly when the comparator would read a missing rank or name; otherwise returns a permutation of the children in which, when there are two or more, every one has a rank, ranks ascend and names ascend within a rank, with equal-keyed children in input order; one child or none is returned as it is without reading a key |
| TaxonOrder.Reverse | src/main/java/org/gbif/checklistbank/traverse/TaxonomicOrderExpander.java:57-61 | `reverse()` flips the flag |
| TaxonOrder.ExpandIgnoresReverse | src/main/java/org/gbif/checklistbank/traverse/TaxonomicOrderExpander.java:57-61 | `reverse()` flips the flag (twice restores it), and `expand` returns the same either way |
| TaxonOrder.ExpandIsTheStableSort | src/main/java/org/gbif/checklistbank/traverse/TaxonomicOrderExpander.java:48-55 | `Expand`'s contract fixes its result: any permutation of the children in taxonomic order that keeps equal-keyed children in input order is the one `Expand` returns |
| Walker.SharedPrefix | src/main/java/org/gbif/checklistbank/traverse/TaxonWalker.java:29-34 | the peeking loop stops at the longest position-wise equal prefix: the prefixes agree, and the next nodes differ or a path has ended |
| Walker.SharedPrefixUnique | src/main/java/org/gbif/checklistbank/traverse/TaxonWalker.java:31-34 | any position where the prefixes agree and the next nodes differ (or a path ends) is the shared prefix's length |
| Walker.Starts | src/main/java/org/gbif/checklistbank/traverse/TaxonWalker.java:41-43 | one start event per node, in path order |
| Walker.Ends | src/main/java/org/gbif/checklistbank/traverse/TaxonWalker.java:38-40 | one end event per node, deepest node first |
| Walker.Step | src/main/java/org/gbif/checklistbank/traverse/TaxonWalker.java:28-50 | one iteration emits one event per node of the first path, and later one per node past the shared prefix on either path |
| Walker.StepFirst | src/main/java/org/gbif/checklistbank/traverse/TaxonWalker.java:45-49 | for the first path every node is started, root first, and nothing is ended |
| Walker.StepLater | src/main/java/org/gbif/checklistbank/traverse/TaxonWalker.java:28-43 | a later path ends the previous path's nodes past the shared prefix, deepest first, and only then starts its own nodes past it, shallowest first; nothing else is emitted |
| Walker.WalkAllSnoc | src/main/java/org/gbif/checklistbank/traverse/TaxonWalker.java:26-52 | one more path appends exactly that path's step, taken against the path before it, to the events so far |
| Walker.Walk | src/main/java/org/gbif/checklistbank/traverse/TaxonWalker.java:24-53 | the loop over the paths emits the steps' events in order, and no events for no paths |
| Walker.WalkStep | src/main/java/org/gbif/checklistbank/traverse/TaxonWalker.java:28-50 | one iteration of the loop emits exactly the step's events |
| Walker.EndAll | src/main/java/org/gbif/checklistbank/traverse/TaxonWalker.java:38-40 | the reversed copy of the remaining old nodes ends them deepest first |
| Walker.StartAll | src/main/java/org/gbif/checklistbank/traverse/TaxonWalker.java:41-43 | the remaining current nodes start in path order |
| Walker.Apply | src/main/java/org/gbif/checklistbank/traverse/TaxonWalker.java:38-43 | a start event pushes its node; an end event is accepted exactly when it names the node on top, and pops it |
| Walker.ReplayConcat | src/main/java/org/gbif/checklistbank/traverse/TaxonWalker.java:26-52 | replaying two event sequences one after the other is replaying their concatenation |
| Walker.ReplayStarts | src/main/java/org/gbif/checklistbank/traverse/TaxonWalker.java:41-49 | start events push their nodes in order |
| Walker.ReplayEnds | src/main/java/org/gbif/checklistbank/traverse/TaxonWalker.java:38-40 | the end events of a stack's top segment pop exactly that segment |
| Walker.StepReplay | src/main/java/org/gbif/checklistbank/traverse/TaxonWalker.java:28-51 | from the previous path as the open-node stack, one step's events leave exactly the current path open, and no end event mismatches |
| Walker.StepReplayLater | src/main/java/org/gbif/checklistbank/traverse/TaxonWalker.java:28-43 | for a later path, the end events pop the previous path back to the shared prefix and the start events push the rest of the current path |
| Walker.WalkAll | src/main/java/org/gbif/checklistbank/traverse/TaxonWalker.java:24-53 | no paths give no events; the rest is stated by `WalkAllSnoc` and `WalkAllReplay` |
| Walker.WalkAllReplay | src/main/java/org/gbif/checklistbank/traverse/TaxonWalker.java:26-53 | after the whole walk the open nodes are exactly the final path (none for no paths): nothing ends them after the loop |
| Walker.StepDescent | src/main/java/org/gbif/checklistbank/traverse/TaxonWalker.java:31-43 | a path that extends the previous one by one node emits one start and no end |
| Walker.StepToSibling | src/main/java/org/gbif/checklistbank/traverse/TaxonWalker.java:31-43 | a path that is a prefix of the previous one plus a new node ends the rest of the previous path and starts just that node |
| NestedSet.Init | src/main/java/org/gbif/checklistbank/ImportTaxonMetricsHandler.java:19-23 | a fresh handler has counter 0 and no numbers written, which satisfies the numbering invariant |
| NestedSet.StartNode | src/main/java/org/gbif/checklistbank/ImportTaxonMetricsHandler.java:25-31 | `start` writes the counter into the node's `lft` and moves the counter by one; no other node's `lft` and no `rgt` changes |
| NestedSet.EndNode | src/main/java/org/gbif/checklistbank/ImportTaxonMetricsHandler.java:33-40 | `end` writes the counter into the node's `rgt` and moves the counter by one; no other node's `rgt` and no `lft` changes |
| NestedSet.Run | src/main/java/org/gbif/checklistbank/ImportTaxonMetricsHandler.java:19-40 | after k events the counter has moved by k |
| NestedSet.RunConcat | src/main/java/org/gbif/checklistbank/ImportTaxonMetricsHandler.java:19-40 | one handler fed two event sequences in turn equals one fed their concatenation: the counter is never reset |
| NestedSet.RunNumbersEvents | src/main/java/org/gbif/checklistbank/ImportTaxonMetricsHandler.java:19-40 | the event at position i writes the starting counter plus i, and keeps it unless the same event recurs later |
| NestedSet.RunKeeps | src/main/java/org/gbif/checklistbank/ImportTaxonMetricsHandler.java:25-40 | later events that do not repeat an event keep the value it wrote |
| NestedSet.ExecRuns | src/main/java/org/gbif/checklistbank/ImportTaxonMetricsHandler.java:19-40 | the handler inside the stack-tracking machine is the plain handler run over the same events |
| NestedSet.FirePreserves | src/main/java/org/gbif/checklistbank/ImportTaxonMetricsHandler.java:25-40 | every accepted event keeps the numbering, stack, nesting and separation invariant (two started nodes are nested or the earlier one closed before the later starts) |
| NestedSet.ExecPreserves | src/main/java/org/gbif/checklistbank/ImportTaxonMetricsHandler.java:19-40 | any accepted event sequence keeps the invariant |
| NestedSet.PreOrderStep | src/main/java/org/gbif/checklistbank/traverse/TaxonWalker.java:28-43 | in a pre-order walk each step ends the nodes below the new node's parent on the previous path and starts only the new node |
| NestedSet.PreOrderLater | src/main/java/org/gbif/checklistbank/traverse/TaxonWalker.java:28-43 | when the new path's parent part is a prefix of the previous path and its node is not on it, the step ends exactly the previous path's nodes below that parent, deepest first, then starts the new node |
| NestedSet.WalkMachineStep | src/main/java/org/gbif/checklistbank/traverse/TaxonWalker.java:28-51 | one step of a pre-order walk is accepted by the handler machine and moves its stack, started nodes and ancestor pairs from the previous paths' to the extended paths' |
| NestedSet.WalkMachine | src/main/java/org/gbif/checklistbank/traverse/TaxonWalker.java:24-53 | a pre-order walk never ends a node that is not on top and never restarts a node; afterwards the stack is the final path, the started nodes are all nodes of all paths, and the recorded ancestor pairs are exactly the paths' ancestor pairs |
| NestedSet.WalkInv | src/main/java/org/gbif/checklistbank/NeoImport.java:208-213 | the numbering invariant holds at the end of a pre-order walk numbered by one fresh handler |
| NestedSet.WalkNumbering | src/main/java/org/gbif/checklistbank/NeoImport.java:208-213 | one handler over the whole walk writes `lft` on every node, `rgt` on every node except those of the final path, and ends with counter 2·(nodes) − (final path's nodes) |
| NestedSet.WalkDistinct | src/main/java/org/gbif/checklistbank/ImportTaxonMetricsHandler.java:19-39 | no number is written twice across `lft` and `rgt`, and every closed node has `lft < rgt` |
| NestedSet.NestedIntervals | src/main/java/org/gbif/checklistbank/ImportTaxonMetricsHandler.java:11 | an ancestor has a smaller `lft` than its descendant, and once the ancestor is closed the descendant is too, with `a.lft < b.lft < b.rgt < a.rgt`; conversely a node whose `lft` lies inside another's interval, or after the `lft` of one still open, is its descendant; and of two nodes neither of which is the other's ancestor, the one started first is closed before the other starts (`a.rgt < b.lft`), so siblings' intervals are disjoint |
| NestedSet.ExampleWalk | src/main/java/org/gbif/checklistbank/traverse/TaxonWalker.java:24-53 | the paths [1], [1,2], [3] give start 1, start 2, end 2, end 1, start 3 and nothing for root 3 at the end |
| NestedSet.ExampleNumbers | src/main/java/org/gbif/checklistbank/ImportTaxonMetricsHandler.java:19-40 | those events number node 1 as (0, 3) and node 2 as (1, 2), and leave node 3 with `lft` 4 and no `rgt` |

## Left out

- Neo4j plumbing: database construction, the batch inserter, schema indexes, relation deletion, the deprecated `getMaxNodeId`, metrics and memory reporting. These are storage and I/O with no logic to state.
- Resolver.SetupRelations: it and `Resolver.Resolve` give the graph the loop builds inside its transactions. The code as written never marks the last transaction successful before `tx.close()` (`NeoImport.java:201-203`), so under Neo4j's transaction semantics the last batch is rolled back. `Resolver.Committed` states what remains; the rollback itself is Neo4j behaviour, not modelled code.
- Walker.WalkAll: its own contract states only that no paths give no events. The per-path composition is `Walker.WalkAllSnoc` and the open-node result is `Walker.WalkAllReplay`. As ensures of the function, the replay fact would enter every proof that mentions the walk.
- Walker.Step: its own contract states only how many events one iteration emits. `Walker.StepFirst` and `Walker.StepLater` state the events themselves, for the same reason.
- Logging: the resolution warnings and the `idx % 5000` debug lines only log.
- Reading the Darwin Core archive, and detecting `useCoreID`. A record is a row id plus a map from term to optional value, and `useCoreID` is a parameter of `Norm.InsertProps`.
- `run()` has the relation step commented out. The model states the methods as written, not which of them `run()` currently calls.
- `setupRelations` reads the node's taxonID with `getProperty`, which throws when it is missing, and `createNode` receives a null taxonID when `norm` drops it. The model keys the store by taxonID and does not model either failure.
- Relationship identity: Neo4j creates a fresh relationship on every call. The model's edges are values in a set, so two identical (from, to, type) triples would be one edge. Within one resolution pass each triple is created by one node only, so this cannot happen there.
- `TaxonomicIterator`, the depth-first traversal that drives `walkAll`, is not part of this model. The path sequence is an input. `NestedSet.PreOrder` states what the nesting theorems assume of it: each path is a prefix of the previous one plus one new node.
- NestedSet.WalkNumbering: the handler's `idx` is a 32-bit `int`; the model's counter is unbounded, so wrap-around after 2^31 values is not modelled.
- TaxonOrder.CompareTo: Java compares UTF-16 code units; the model compares Dafny characters, which agree for characters in the Basic Multilingual Plane.
- TaxonOrder.Expand: it states that the comparator fails on a missing key rather than modelling Neo4j's `NotFoundException`. It assumes every child's end node is in the store.
- `RelationCreateTest`, `NeoExport` and `UsageMetrics`: a benchmark, a stub and a data holder with no logic used by the core.

## Findings

| source | as written | input that shows it | evidently intended | confidence | as-written member | corrected member |
|---|---|---|---|---|---|---|
| src/main/java/org/gbif/checklistbank/NeoImport.java:180-203 | the loop commits before every 10000th node, and after the loop the transaction is closed without `tx.success()` | any checklist of at most 10000 taxa: every edge and every ROOT and SYNONYM label is rolled back | all relations made by the loop are committed | not executed; depends on Neo4j rolling back a transaction closed without `success()` | Resolver.CommittedLosesSmallChecklist | Resolver.Resolve |
