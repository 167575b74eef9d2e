# A verified model of Gortex's graph analyses, contract registry and daemon snapshot

Gortex keeps a graph of a code base (symbols as nodes, calls, imports and other relations as
edges), analyses it, tracks the API contracts that symbols provide and consume, and lets a daemon
save all of this and load it again. This project models the parts whose behaviour is hard to see
from their text, and proves what they are for. To check it with Dafny 4.11:
`dafny verify dfyconfig.toml`.

How the program is represented:

- Ids, names and paths are strings; `float64` is `real`; a Go map is a `map`, a Go map used as a
  set is a `set`, and iteration over either takes an arbitrary element each time, so every result
  holds for every iteration order.
- Closures and objects that update variables are classes with those variables as fields
  (`Tarjan.Searcher`, `CyclePath.Finder`, `CycleGuard.PathSearch`, `Louvain.Clusterer`,
  `Processes.Tracer`, `Registry.Registry`, `Snapshot.Graph`); loops are loops. Functions whose
  effect is only file I/O or logging around a computation are modelled by the computation.
- The snapshot decoder is a sequence of outcomes: a record of one of four kinds, or garbage; the
  end of the sequence is the end of the stream.
- Specifications are stated in vocabulary of their own: walks and reachability (`Reachability`),
  Newman modularity over all pairs (`Modularity`), shortest distances (`Impact`), trees
  (`CallTrees`), one flat list of contracts (`Registry`, `Matching`).

| files | part of the program |
|---|---|
| `Reachability`, `Paths`, `Tarjan`, `CyclePath`, `Cycles`, `CycleGuard` | dependency cycles and the guard against new ones |
| `Sums`, `Modularity`, `WeightedGraph`, `Louvain`, `LouvainLimits`, `Communities` | community detection |
| `Impact` | tiers of affected symbols |
| `Processes`, `CallTrees`, `ProcessIndex` | execution traces |
| `Contracts`, `Registry`, `Matching` | contract registry and pairing |
| `TypeNames`, `Assignability`, `ShapeDiff`, `PairDiff`, `Validation` | contract validation |
| `Snapshot`, `SnapshotTheorems`, `Rehydration` | saving, loading, restarting |
| `MarkedBlock`, `Signatures` | text rewriting and signature splitting |
| `Basics`, `CodeGraph`, `Sorting` | shared |

Where the code and what is said about it differ, the model follows the code:

- `Registry.Add` appends; the note at internal/contracts/bind.go:53-55 says it overwrites by id.
- `loadSnapshot` does not report a dropped dangling edge as partial
  (cmd/gortex/daemon_snapshot.go:430-439), although lines 50-52 list dangling records.
- The Louvain gain leaves the node's own degree in its current community
  (internal/analysis/communities.go:124), so an accepted move need not raise modularity:
  `LouvainLimits.AcceptedMoveCanLowerModularity` gives one that lowers it and
  `Modularity.MoveRaisesModularity` says exactly when a move raises it.
- `computeModularity` adds up adjacent pairs only (internal/analysis/communities.go:284-289):
  `LouvainLimits.ReportedExact` says exactly when that is Newman's value, and it is never less.
- A trace can miss a symbol that is near enough: `CallTrees.LimitHidesNearSymbol` gives one for every
  limit of two or more, `CallTrees.NearCompleteIff` says exactly when.
- `All` loses contracts exactly when two different ones share a dedup key
  (`Registry.AllCompleteIff`): the key ignores the repo (`Registry.DedupIgnoresRepo`), and bars in
  its parts can be mistaken for its own (`Registry.DedupKeyCollision`).
- `UpsertMarkedBlock` is not idempotent on a file whose markers are out of order or incomplete, nor
  when it removes one of several blocks (`MarkedBlock.IdempotentIff`, `MarkedBlock.TwoBlocksGoOneByOne`).
- Request compatibility does not compose (`ShapeDiff.RequestDoesNotCompose`), unlike response
  compatibility.

## Model

| member | source | states |
|---|---|---|
| `Tarjan.TarjanSCC` | internal/analysis/cycles.go:163-220 | For every finite graph and iteration order, the components partition the node set, two nodes share one exactly when each reaches the other inside the node set, and every arc between components goes from a later-emitted to an earlier-emitted one |
| `Tarjan.Searcher.StrongConnect` | internal/analysis/cycles.go:173-211 | The recursive closure keeps the search invariant (stack, indices, low links, emitted components) and returns with the low link that its caller relies on |
| `Tarjan.Searcher.PopComponent` | internal/analysis/cycles.go:199-208 | Pops exactly the nodes indexed at or after v, leaving the stack as it was when v was entered |
| `Tarjan.RootMutual` | internal/analysis/cycles.go:198-209 | When the low link equals the index, the nodes above v on the stack are exactly those mutually reachable with v |
| `Tarjan.Retire` | internal/analysis/cycles.go:181-198 | Otherwise v stays on the stack and the invariant holds without it on the call chain |
| `CyclePath.OrderCyclePath` | internal/analysis/cycles.go:226-280 | Returns a simple directed cycle with a real closing edge through the first node whenever one exists, and the component itself only if none does |
| `CyclePath.ComponentOnCycle` | internal/analysis/cycles.go:226-280 | A component of two or more nodes always has such a cycle, so the fallback is never reached |
| `Paths.Unwind` | internal/analysis/cycles.go:248-258 | Following the parent map back and reversing gives the search path |
| `Cycles.BuildAdjacency` | internal/analysis/cycles.go:39-57 | The adjacency lists hold exactly the in-scope calls and imports arcs, the kinds of each pair exactly those of its edges |
| `Cycles.ClassifyCycle` | internal/analysis/cycles.go:284-320 | Import cycle exactly when some edge of the cycle is an import, else cross-community exactly when two communities occur, else call cycle; severities 3, 2, 1 |
| `Cycles.DetectCycles` | internal/analysis/cycles.go:23-87 | One simple cycle for each component of two or more nodes, correctly classified, by descending severity |
| `Cycles.DetectorVerdict` | internal/analysis/cycles.go:23-87 | The list is empty exactly when the graph has no cycle through two or more nodes, and reported cycles share no node |
| `CycleGuard.WouldCreateCycle` | internal/analysis/cycles.go:92-159 | True exactly when `from` is reachable from `to` over calls and imports; the path starts at `to`, ends at `from`, repeats no node and uses existing edges |
| `CycleGuard.PathSearch.Dfs` | internal/analysis/cycles.go:116-135 | Either the parent chain reaches the target, or everything reachable from the visited nodes was visited without meeting it |
| `CycleGuard.DependencyTable` | internal/analysis/cycles.go:95-109 | The lookup table holds exactly the dependency arcs |
| `CycleGuard.NewArcCloses` | internal/analysis/cycles.go:89-92 | On an acyclic graph a new arc closes a cycle exactly when it is not a self-loop and its source is reachable from its target |
| `CycleGuard.GuardSound` | internal/analysis/cycles.go:89-159 | If the unscoped detector finds nothing and the guard says no, adding the edge leaves the detector finding nothing |
| `CycleGuard.AddGuarded` | internal/analysis/cycles.go:23-159 | The detector, the guard, the addition and the detector again, all by the real methods: nothing reported before, nothing after |
| `CycleGuard.GuardedRunSound` | internal/analysis/cycles.go:89-159 | So does every sequence of guarded additions |
| `CycleGuard.GuardExact` | internal/analysis/cycles.go:23-159 | Exactly which additions make the detector report a cycle |
| `CycleGuard.GuardStricterThanDetector` | internal/analysis/cycles.go:95-109 | The guard also walks through file and import nodes, so it can refuse an edge the detector would accept |
| `WeightedGraph.TallyWeights` | internal/analysis/communities.go:44-60 | Pair weights are the sums over all edges between two symbols, in both directions, and positive |
| `WeightedGraph.NeighborLists` | internal/analysis/communities.go:62-69 | The neighbour lists are the same weights, row by row |
| `WeightedGraph.PairWeightSymmetric` | internal/analysis/communities.go:55-59 | Weights are symmetric, self-edges counting twice |
| `WeightedGraph.OneRelation` | internal/analysis/communities.go:238-255 | A single relation weighs what its kind weighs: calls 3, memberships, implementations and extensions 2, references 1.5, instantiations 1, imports 0.5, others nothing |
| `WeightedGraph.TotalWeight` | internal/analysis/communities.go:71-76 | Half the sum over ordered pairs |
| `WeightedGraph.ComputeDegrees` | internal/analysis/communities.go:82-88 | Every node's weighted degree |
| `Modularity.GainIsModularityChange` | internal/analysis/communities.go:120-130 | The code's gain differs from half the (scaled) Newman modularity change of the move by an amount that depends on the node alone, self-edges included |
| `Modularity.GainRanksModularity` | internal/analysis/communities.go:126-134 | Among other communities the gain orders moves exactly as modularity does |
| `Modularity.MoveRaisesModularity` | internal/analysis/communities.go:124-134 | A move raises modularity exactly when its gain exceeds that amount, not when it exceeds zero |
| `Modularity.TotsAddUp` | internal/analysis/communities.go:98-104 | Degree totals over a covering set of communities add up to twice the total weight |
| `Louvain.CommunityWeights` | internal/analysis/communities.go:114-118 | The node's link weight to each neighbouring community, for exactly those communities |
| `Louvain.BestCommunity` | internal/analysis/communities.go:110-135 | Either no neighbouring community has positive gain, or the chosen one has the largest |
| `Louvain.BestMoveMaximisesModularity` | internal/analysis/communities.go:115-135 | The chosen community maximises true Newman modularity among the node's other neighbouring communities |
| `Louvain.StartConsistent` | internal/analysis/communities.go:90-104 | The singleton start is consistent; its internal weights are right exactly when there are no self-edges |
| `Louvain.MoveKeepsConsistent` | internal/analysis/communities.go:137-161 | A move keeps: comm and commNodes inverse to each other and a partition, no empty community recorded, sigmaTot the members' degrees, and without self-edges sigmaIn the internal weight |
| `Louvain.DegreeTotalsConserved` | internal/analysis/communities.go:98-163 | In every consistent state all sigmaTot add up to twice the total weight |
| `Louvain.Clusterer.Visit` | internal/analysis/communities.go:109-161 | One node takes the best move, or stays because there is no gain to be had; the state stays consistent |
| `Louvain.Clusterer.Pass` | internal/analysis/communities.go:108-163 | One pass visits every node of the graph exactly once, in any order, and reports an improvement exactly if some node moved |
| `Louvain.Clusterer.Run` | internal/analysis/communities.go:106-163 | From singletons, passes that each visit every node exactly once, every visit a best move or a node without a gain; each pass but the last moved some node, there are at most ten, and fewer only if the last moved none; the final state is consistent |
| `Louvain.StoppedSettled` | internal/analysis/communities.go:106-135 | If the passes stopped before the tenth, no node has a gainful move left |
| `Louvain.PassesAreMoves` | internal/analysis/communities.go:106-163 | The moves of all passes, one after the other, are one run of accepted moves from the singletons to the final clustering |
| `LouvainLimits.AcceptedMoveCanLowerModularity` | internal/analysis/communities.go:124-135 | On a three-node chain the second accepted move of a run lowers Newman modularity |
| `LouvainLimits.ChainIsReal` | internal/analysis/communities.go:44-69 | A call and a membership between three symbols give that chain its weights |
| `LouvainLimits.ChainGraph` | internal/analysis/communities.go:44-69 | Every weighted graph of these two edges is such a chain |
| `LouvainLimits.ReportedExceedsNewman` | internal/analysis/communities.go:279-292 | The reported sum is Newman's plus a nonnegative part, the non-adjacent pairs of a community |
| `LouvainLimits.ReportedTooHigh` | internal/analysis/communities.go:284-289 | Any node with an edge and no self-edge makes it strictly too high |
| `LouvainLimits.ReportedExact` | internal/analysis/communities.go:284-289 | It is exact if and only if all connected nodes of a community, each with itself too, are adjacent |
| `Communities.ComputeModularity` | internal/analysis/communities.go:279-292 | The loops compute that sum over twice the total weight, which is never below Newman modularity |
| `Communities.ComputeCohesion` | internal/analysis/communities.go:257-277 | Before rounding, internal weight over total degree of the members, zero if they have none |
| `Communities.CohesionBounds` | internal/analysis/communities.go:263-276 | The quotient lies between 0 and 1 |
| `Communities.LabelsMean` | internal/analysis/communities.go:175-191 | Two nodes get the same label exactly when they share a community, and a node gets one exactly when its community has two or more members |
| `Communities.ListCommunities` | internal/analysis/communities.go:193-225 | Each labelled community is listed once, with exactly its members and its cohesion |
| `Communities.Summarise` | internal/analysis/communities.go:165-235 | Node labels and community list agree, each listed community has its cohesion, the list is in descending size, and the modularity is that of the final clustering |
| `Communities.DetectCommunities` | internal/analysis/communities.go:32-236 | The whole analysis: the weighted graph is that of the edges; the result, with members, cohesion and modularity, is that of the clustering which such passes leave; without weight it is empty |
| `Impact.AnalyzeImpact` | internal/analysis/impact.go:46-103 | ByDepth[d] holds, once each, exactly the symbols at shortest distance d (1 to 3) whose node exists and is neither file nor import, in the order of the search and with the confidence of the edge first met; TotalAffected is their number; test files are exactly the affected symbols' test paths, each where it first occurs |
| `Impact.NextTier` | internal/analysis/impact.go:57-72 | A symbol is at distance d + 1 exactly when it is not nearer and depends on one at distance d |
| `Impact.AdvanceTier` | internal/analysis/impact.go:57-92 | One round takes visited and current from distance d to d + 1 and reports exactly the new tier |
| `Impact.FreshMeans` | internal/analysis/impact.go:57-92 | A round takes, of the dependency edges in order, the first from each symbol not visited before |
| `Impact.TiersCount` | internal/analysis/impact.go:97-100 | The three tiers are disjoint and together hold each affected symbol once |
| `Impact.Dedup` | internal/analysis/impact.go:215-225 | The distinct strings, each where it first occurs |
| `Impact.ContainsAny` | internal/analysis/impact.go:202-213 | True exactly when some pattern occurs somewhere |
| `Impact.RiskThresholds` | internal/analysis/impact.go:182-193 | Medium, high and critical are reached exactly from two smallest pairs of counts on: (2, 0) or (0, 5), (5, 0) or (0, 10), (10, 0) or (5, 20) |
| `Processes.TraceForward` | internal/analysis/processes.go:207-228 | The recursive closure appends the preorder walk that the specification function describes |
| `Processes.Tracer.Dfs` | internal/analysis/processes.go:211-224 | One call extends the result and the visited set by exactly that call's walk |
| `CallTrees.TraceIsCallTree` | internal/analysis/processes.go:11-20 | The list is the preorder of a call tree rooted at the start and of no other tree, in which the children of a symbol keep the order of its callees; its ids are distinct, and each later step's nearest shallower predecessor is one level up and calls it |
| `CallTrees.FlattenInjective` | internal/analysis/processes.go:11-20 | A list of ids with depths determines its tree |
| `CallTrees.Walk1Closed` | internal/analysis/processes.go:211-224 | Every callee of a step below the depth limit has been visited |
| `CallTrees.TraceCompleteIff` | internal/analysis/processes.go:207-228 | The steps are exactly the symbols reachable by calls if and only if every callee of a step at the limit is a step |
| `CallTrees.NearCompleteIff` | internal/analysis/processes.go:207-228 | Every symbol within the limit is a step if and only if every callee of a step at the limit that a shorter chain of calls leads to is a step |
| `CallTrees.TraceComplete` | internal/analysis/processes.go:207-228 | In particular when no step stands at the limit |
| `CallTrees.LimitHidesNearSymbol` | internal/analysis/processes.go:94-224 | For every limit of two or more, the limit 15 that the program uses among them, a symbol two calls away can be missing, because its caller was first met at the limit |
| `ProcessIndex.TraceProcesses` | internal/analysis/processes.go:80-127 | Exactly those of the first fifty candidates that have two or more steps to depth 15 become processes, one per entry point and in the order of the candidates, and each symbol's list holds, once and in order, exactly the processes with a step at it |
| `Registry.Registry.Add` | internal/contracts/registry.go:28-37 | Appends to the flat list of which all four indexes stay views |
| `Registry.Registry.AddAll` | internal/contracts/registry.go:40-49 | Appends all contracts with the repo prefix overwritten |
| `Registry.Registry.ReplaceByID` | internal/contracts/registry.go:52-75 | Replaces the id's contracts; the indexes stay views of one list exactly when every new entry carries that id |
| `Registry.Registry.EvictRepo` | internal/contracts/registry.go:217-255 | Removes exactly the repo's contracts from all indexes and returns how many the flat list loses |
| `Registry.Registry.ByID` | internal/contracts/registry.go:138-145 | In order, exactly the contracts of the flat list with that id |
| `Registry.Registry.ByRepo` | internal/contracts/registry.go:148-155 | The same by repo |
| `Registry.Registry.BySymbol` | internal/contracts/registry.go:158-165 | The same by symbol; contracts without a symbol are not indexed |
| `Registry.Registry.ByFile` | internal/contracts/registry.go:168-175 | The same by file |
| `Registry.Registry.Clear` | internal/contracts/registry.go:207-214 | Empties everything |
| `Registry.Registry.AllIDs` | internal/contracts/registry.go:178-186 | Every recorded id once |
| `Registry.Registry.All` | internal/contracts/registry.go:189-204 | One contract for each dedup key that occurs, no two for one key, and each the first of its id and key in the order of recording, which those of one id keep |
| `Registry.AllCompleteIff` | internal/contracts/registry.go:189-204 | All returns exactly the contracts recorded if and only if no two different ones among them share a dedup key |
| `Registry.FirstWins` | internal/contracts/registry.go:189-204 | Of two recorded contracts with one id and one key, never the later is returned |
| `Registry.AllReturnsEverything` | internal/contracts/registry.go:189-204 | With distinct dedup keys, All returns exactly the contracts recorded |
| `Registry.DedupKeyExact` | internal/contracts/registry.go:189-204 | Without bars in id, path and symbol, dedup keys are equal exactly when these fields and the role are |
| `Registry.DedupKeyCollision` | internal/contracts/registry.go:189-204 | With bars two contracts with different ids can share a key, and All then drops one |
| `Registry.DedupIgnoresRepo` | internal/contracts/registry.go:189-204 | Two contracts that differ in their repo alone always share a key, and All returns the first only |
| `Registry.RemoveContract` | internal/contracts/registry.go:257-267 | Keeps, in order, exactly the entries that differ from the target in one of five fields |
| `Registry.Execute` | internal/contracts/registry.go:28-75 | After any sequence of Add, AddAll, ReplaceByID, EvictRepo and Clear, the lookups are filters of the flat list that the operations produce when read as list operations |
| `Matching.Match` | internal/contracts/matcher.go:20-60 | Orphans are exactly the contracts without a counterpart, with multiplicity; links are all provider-consumer pairs of an id, consumers outside and providers inside; there are as many links as providers times consumers, summed over the ids |
| `Matching.NextId` | internal/contracts/matcher.go:23-57 | Whichever branch an id takes, it contributes exactly what the flat list says |
| `Matching.GridTimes` | internal/contracts/matcher.go:45-56 | The nested loops produce each pair as often as its two members occur |
| `Matching.GridAt` | internal/contracts/matcher.go:45-56 | Which pair stands where |
| `TypeNames.CanonicalType` | internal/contracts/validate.go:507-559 | The loop terminates, every slice is in range, and the result is the canonical name |
| `TypeNames.WrappingUndone` | internal/contracts/validate.go:529-551 | Wrapping any text in a container or in brackets leaves its unwrapped form unchanged: the rewrites never disagree |
| `TypeNames.UnwrapDone` | internal/contracts/validate.go:529-551 | Nothing is left to unwrap |
| `TypeNames.ContainerName` | internal/contracts/validate.go:507-559 | For every element text, a container is named after the element with nothing but blanks dropped |
| `TypeNames.ContainerTexts` | internal/contracts/validate.go:529-537 | The five containers by name: all are named after the element alike |
| `TypeNames.SliceName` | internal/contracts/validate.go:507-559 | For every element text, a slice is named after the element cleaned at its open end only, and a slice of bytes is called bytes |
| `TypeNames.ContainerNamedAfterElement` | internal/contracts/validate.go:507-559 | Exactly when a container has its element's canonical name; if cleaning the element drops nothing but blanks, if and only if the element is not a byte slice |
| `TypeNames.SliceNamedAfterElement` | internal/contracts/validate.go:507-559 | The same for leading and trailing brackets, with byte as the further exception |
| `TypeNames.OptionalElement` | internal/contracts/validate.go:507-511 | An optional element keeps its mark inside a container and loses it on its own, so the names differ |
| `TypeNames.PackageDropped` | internal/contracts/validate.go:552-557 | A package qualifier is dropped, whatever it is |
| `TypeNames.MarksDropped` | internal/contracts/validate.go:508-515 | So are a pointer star, an optional mark and each nullable suffix |
| `TypeNames.NullableTexts` | internal/contracts/validate.go:512-515 | The three suffixes by name |
| `TypeNames.BytesName` | internal/contracts/validate.go:516-523 | The four byte slices are called bytes |
| `Basics.TrimSpaceMeans` | internal/contracts/validate.go:508 | Trimming drops white space at both ends and leaves none there |
| `Assignability.AssignReflexive` | internal/contracts/validate.go:366-412 | canAssign is reflexive on all type texts |
| `Assignability.AssignTransitive` | internal/contracts/validate.go:366-412 | canAssign is transitive on all type texts |
| `Assignability.AssignMeansInclusion` | internal/contracts/validate.go:366-412 | With each category given the forms that its values take on the wire, and each user-defined type its own structure, a slot can be assigned a type exactly when it takes every form of that type |
| `Assignability.WideningIsOneWay` | internal/contracts/validate.go:396-411 | A float64 slot holds int, a string slot holds UUID and []byte, and none the other way round |
| `Assignability.OthersStayApart` | internal/contracts/validate.go:366-412 | Time, Duration, bool, int and string do not mix; any holds every type, and a slot that can hold any can hold Time and bool too |
| `Assignability.AssignBothWays` | internal/contracts/validate.go:366-412 | Two types are assignable both ways exactly when they have one canonical name or one category |
| `Assignability.AssignThroughContainers` | internal/contracts/validate.go:366-551 | For all element texts, which containers are used does not matter; for elements without marks that are no byte slices, neither does it whether any are used |
| `ShapeDiff.IndexFields` | internal/contracts/validate.go:324-330 | Exactly the declared names, each with its last declaration |
| `ShapeDiff.DiffResponseFields` | internal/contracts/validate.go:219-268 | For every map order: one issue for each name that calls for one, the right one, and no other |
| `ShapeDiff.DiffRequestFields` | internal/contracts/validate.go:273-320 | The same for requests |
| `ShapeDiff.ResponseVerdict` | internal/contracts/validate.go:219-252 | No removed and no type-changed field is reported exactly when every field read is written with a type it can hold |
| `ShapeDiff.ResponseComposes` | internal/contracts/validate.go:219-252 | If P to M and M to C report neither, P to C reports neither |
| `ShapeDiff.RequestVerdict` | internal/contracts/validate.go:273-303 | The corresponding equivalence for requests |
| `ShapeDiff.RequestComposesIff` | internal/contracts/validate.go:273-303 | Requests compose if and only if no field goes round the middle |
| `ShapeDiff.RequestDoesNotCompose` | internal/contracts/validate.go:279-303 | Both kinds of bypass happen |
| `PairDiff.DiffPair` | internal/contracts/validate.go:153-213 | The response direction, then the request direction, each with unknown types or the field diff |
| `PairDiff.Compare` | internal/contracts/validate.go:164-184 | One direction: nothing without both types, unknown types if a shape is missing, else the field diff |
| `PairDiff.PairBreaksIff` | internal/contracts/validate.go:153-213 | A pair gets a breaking issue exactly when, in a direction where both shapes are known, the reading side has a mandatory field not written or a field that cannot hold what is written |
| `PairDiff.DirectionOfIssues` | internal/contracts/validate.go:153-213 | Response issues come from response_type and request issues from request_type: where a side lacks one, every issue is about the other |
| `PairDiff.SymbolIDMeans` | internal/contracts/validate.go:336-345 | A type is looked up exactly when its name contains a double colon |
| `Validation.Validate` | internal/contracts/validate.go:81-148 | The issues are the orphans, as warnings or information, and the diff of each pair, nothing else; ordered by severity, breaking before warnings before information, then by id and kind in lexicographic order; ties keep the order in which ids, providers and consumers were taken |
| `Validation.ValidateBreaksIff` | internal/contracts/validate.go:81-213 | A breaking issue is reported exactly when some provider and consumer of one contract break; an orphan never does |
| `Validation.ValidateAgreesWithMatch` | internal/contracts/validate.go:86-135 | On one registry the orphan issues are those of Match's orphans, as often, and the other issues are the diffs of exactly the matched pairs |
| `Validation.PairingUnique` | internal/contracts/matcher.go:20-60 | The flat list determines orphans and links up to order |
| `Validation.NestingTimes` | internal/contracts/validate.go:130-134 | Pairing provider by provider gives the same links as consumer by consumer, as often |
| `Validation.NestedAt` | internal/contracts/validate.go:130-134 | Which pair stands where: providers outside, consumers inside |
| `Validation.BeforeRanks` | internal/contracts/validate.go:138-146 | The comparison is a strict weak order on issues with known severities |
| `Sorting.StableSort` | internal/contracts/validate.go:138-146 | A stable, ordered rearrangement |
| `Snapshot.LoadSnapshot` | cmd/gortex/daemon_snapshot.go:317-516 | For every stream: what is loaded, and Partial exactly when a record failed to decode, a key was empty or the stream ended early; another schema version loads nothing |
| `Snapshot.LoadNodes` | cmd/gortex/daemon_snapshot.go:373-405 | The node loop keeps the nodes with a valid id, later ones replacing earlier ones |
| `Snapshot.LoadEdges` | cmd/gortex/daemon_snapshot.go:407-443 | The edge loop keeps the edges with both ends loaded |
| `Snapshot.LoadRepos` | cmd/gortex/daemon_snapshot.go:445-468 | The repo loop keeps repos with a prefix |
| `Snapshot.LoadContracts` | cmd/gortex/daemon_snapshot.go:470-493 | The contract loop groups contracts with an id by repo, in order |
| `Snapshot.SaveSnapshot` | cmd/gortex/daemon_snapshot.go:174-267 | A header with the true counts, then every node, edge, repo and contract once |
| `SnapshotTheorems.LoadIsWellFormed` | cmd/gortex/daemon_snapshot.go:365-445 | Whatever the damage, no dangling edge, no empty id and none that starts with a slash |
| `SnapshotTheorems.SameEdgeIff` | internal/graph/graph.go:41-50 | Edges count as one exactly when ends, kind, file and line agree |
| `SnapshotTheorems.DamagedNodes` | cmd/gortex/daemon_snapshot.go:365-405 | With distinct ids, a damaged stream loads exactly the nodes whose records survive, unchanged |
| `SnapshotTheorems.DamagedEdges` | cmd/gortex/daemon_snapshot.go:407-445 | And exactly the edges whose records and both ends survive |
| `SnapshotTheorems.DamagedEdgeContents` | cmd/gortex/daemon_snapshot.go:407-445 | With one record per edge key, unchanged |
| `SnapshotTheorems.SaveLoadRoundTrip` | cmd/gortex/daemon_snapshot.go:174-516 | Saving and loading gives exactly the graph restricted to valid ids and edges with both ends kept |
| `SnapshotTheorems.SaveThenLoad` | cmd/gortex/daemon_snapshot.go:174-516 | The same with the real save and load methods, from one graph object to another; repos and contracts come back as saved, and the load is partial exactly when something saved had no key |
| `SnapshotTheorems.SecondRoundTrip` | cmd/gortex/daemon_snapshot.go:174-516 | Saving what was loaded and loading that changes nothing, in whatever order either save writes |
| `SnapshotTheorems.SavedIsCompleteIff` | cmd/gortex/daemon_snapshot.go:174-267 | A snapshot as written is partial exactly when a node id, repo prefix or contract id is empty |
| `Rehydration.CollectContracts` | cmd/gortex/daemon_state.go:350-375 | The concatenation of what each repo's registry hands out |
| `Rehydration.LoadGroups` | cmd/gortex/daemon_snapshot.go:470-493 | Loading regroups the saved contracts by repo, in order |
| `Rehydration.PartOfConcat` | cmd/gortex/daemon_state.go:350-375 | Whatever the other repos hold, a repo whose part has its own prefix and ids, and whose prefix no other part uses, gets its part back whole |
| `Rehydration.Rehydrate` | cmd/gortex/daemon_state.go:239-263 | Registries that exist are left alone; a missing one is built exactly when contracts were loaded for it, and holds exactly these |
| `Rehydration.RestartKeepsContracts` | cmd/gortex/daemon_state.go:239-263 | For such a repo, All gives the same set before the save and after the load |
| `Rehydration.Restart` | cmd/gortex/daemon_state.go:239-263 | Collecting, saving, loading and rehydrating in one: the graph is restored, newly extracted registries are left alone, and each other repo that keeps to its own prefix has a registry again exactly if it was not empty, holding a list that All can have given before |
| `Rehydration.AllAfterRestart` | cmd/gortex/daemon_state.go:239-263 | All of that registry gives the same contracts again, a choice that All can have made before |
| `MarkedBlock.IdempotentIff` | internal/agents/instructions.go:227-272 | For every marker-free body, exactly when a second run changes nothing: for a body that is not blank, if and only if the text has no markers or its first start marker precedes its first end marker; for a blank one, if and only if there was no block, or what is left has none, or there its end marker is followed at once by its start marker |
| `MarkedBlock.TwoBlocksGoOneByOne` | internal/agents/instructions.go:239-251 | With two blocks in a file and a blank body, the first run removes the first and the second run the second, so markers in order are not enough there |
| `MarkedBlock.LastWriteWins` | internal/agents/instructions.go:227-272 | With markers in order, for all four combinations of blank and other bodies, exactly when writing one body and then another is writing the other alone: always for two that are not blank; else unless a gap stays behind, a removed block comes back elsewhere, or a second block is removed |
| `MarkedBlock.RemoveThenWrite` | internal/agents/instructions.go:240-267 | Removing and then writing equals writing exactly when there was no block, or the block ended the file and needs no gap |
| `MarkedBlock.WriteThenRemove` | internal/agents/instructions.go:240-267 | Writing and then removing equals removing exactly when there was a block, or a new one needs no gap |
| `MarkedBlock.KeepsOutside` | internal/agents/instructions.go:227-267 | The old text is two kept parts around the block between its markers, and the updated text is the same parts, byte for byte, around the new block or around nothing; without markers the whole text is kept |
| `MarkedBlock.GapSetsApart` | internal/agents/instructions.go:254-263 | A block appended to a text stands after a blank line |
| `MarkedBlock.GapIsShortest` | internal/agents/instructions.go:254-263 | With no more newlines than that takes |
| `MarkedBlock.BlankMeans` | internal/agents/instructions.go:228 | A body is blank exactly when trimming leaves nothing of it |
| `MarkedBlock.Replaces` | internal/agents/instructions.go:239-252 | A fenced block is found again and replaced |
| `MarkedBlock.BlankRemoves` | internal/agents/instructions.go:248-250 | A blank body removes exactly the block |
| `MarkedBlock.NewFileIdempotent` | internal/agents/instructions.go:227-256 | A new file holds the fenced block, or is not made for a blank body, and updating again changes nothing |
| `MarkedBlock.CommunityMarkers` | internal/agents/instructions.go:36-39 | The program's two markers hold no newline and cannot overlap themselves or each other |
| `MarkedBlock.BackwardsGrows` | internal/agents/instructions.go:239-252 | With the end marker first, writing a block makes the text longer, by the block and by what stands between the markers; a removal makes it longer by the latter |
| `MarkedBlock.OpenEndedShrinks` | internal/agents/instructions.go:227-272 | With a start marker only, the second update cuts away text that the first had kept |
| `Signatures.SplitParams` | internal/analysis/contracts.go:338-358 | Joining the pieces with commas gives the input back, no piece holds a comma outside brackets, and every cut is at one |
| `Signatures.SplitUnique` | internal/analysis/contracts.go:338-358 | Only one list of pieces does that |
| `Signatures.ExtractBalancedParens` | internal/analysis/contracts.go:291-311 | Prefix, parenthesis, balanced content, parenthesis, rest; or, if the first parenthesis is never closed, all that follows it |
| `Signatures.ClosesUnique` | internal/analysis/contracts.go:291-311 | That decomposition is unique and excludes the unclosed case |

## Left out

- Regex extractors and enrichers of contracts, `BindProviderSymbols` and `UpgradeBareTypeRefs`: their meaning lies in a regexp engine and in lookups outside this model.
- gob and gzip encoding, file renaming, directories, logging, command line, proxies and servers: input and output.
- Track, untrack and reload of repositories, and the `MultiIndexer` they rest on: not part of this model.
- Mutexes and concurrent use of the registry: operations are modelled one at a time.
- Entry-point scoring, process names, community labels, dead-code, hotspot and bloat heuristics: name tables and easy arithmetic. `ProcessIndex.TraceProcesses` takes the sorted candidates as input and names a process by its position.
- File lists of communities and processes, and `deduplicateViolations`: easy members.
- Communities.ComputeModularity: three-decimal rounding is not modelled; the statement is about the value before rounding.
- Communities.ComputeCohesion: two-decimal rounding is not modelled.
- Communities.DetectCommunities: labels, files and the text of community ids are not modelled.
- Louvain.Clusterer.Run: float64 rounding is not modelled; weights are exact reals.
- Louvain.MoveKeepsConsistent: with self-edges sigmaIn is not characterised; the program never reads it.
- Impact.AnalyzeImpact: affected processes and communities, grouping by repo, the summary text and the confidence label are not modelled.
- Registry.RemoveContract: works on values; the in-place reuse of the slice is not modelled. The same holds for the member lists of communities.
- Contracts and graph records: Meta maps are from string to string; other values are not modelled.
- PairDiff.DiffPair: the details text of an issue is not modelled; both directions share one method.
- TypeNames.CanonicalType: strings are sequences of characters, not of UTF-8 bytes.
- Snapshot.LoadSnapshot: schema migration is not modelled; the table of migrations is empty.
- MarkedBlock.LastWriteWins: like the rest of its module, about the text before and after; reading, writing, dry runs and the reported action are not modelled.
