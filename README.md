# ExtraBlockDataManager, modelled in Dafny

Terasology lets modules attach small per-block "extra data" fields to chunks. A module
declares a field with a `@RegisterExtraData(name, bitSize)` method. The method is a static
predicate on `Block` that says which blocks the field applies to.

`ExtraBlockDataManager` does three things:

- It collects these registrations into one group per supported bit size (4, 8 or 16).
- It packs fields that never apply to the same block into a shared storage slot.
- It answers slot lookups, and it creates the per-chunk arrays for the slots.

Slot packing is a minimum clique cover problem. It runs on the "disjointness graph" of each
group. The vertices are field names. Two names are adjacent when their block sets are
disjoint. The cover is found by a branch-and-bound search. That search branches on an edge
v0-v1 in two ways:

- It keeps the two names together. This is `ntract(v0, v1)`, a contraction on the complement
  graph.
- It forces the two names apart, by removing the edge.

The project has seven modules, one per file:

- `Wrappers` (`wrappers.dfy`): `Option` and `Result`. `None` stands for Java `null`. `Failure`
  stands for a thrown exception.
- `Factories` (`factories.dfy`): the static table of sparse-array factories, keyed by bit size.
  Arrays are known only by their bit size and dimensions.
- `Registration` (`registration.dfy`):
  - the `validRegistrationMethod` check, over an abstract method signature;
  - the loops that record an accepted registration's applicable blocks under its bit size and
    name.
- `Graphs` (`graphs.dfy`): the private `Graph` class.
  - It is a `class` with a `verts` sequence, set only by the constructors, and an `edges` map, updated in place.
  - `AddEdge`, `RemoveEdge` and `Ntract` are proved against the value-level functions
    `WithEdge`, `WithoutEdge` and `Contracted`.
- `Disjointness` (`disjointness.dfy`): `isDisjoint`, and `getDisjointnessGraph` with its
  double loop over the fields.
- `CliqueCover` (`cliquecover.dfy`): the recursive `findCliqueCover`. It works on one shared
  `Graph` object, which it mutates and restores.
- `Manager` (`manager.dfy`):
  - slot allocation;
  - the `ExtraBlockDataManager` class, with its `slots` map and its `slotFactories` array;
  - `getSlotNumber` and `makeDataArrays`.

Iteration order of `HashMap` and `HashSet` is unspecified in Java, so the model does not fix
it. Four choices are made with Dafny's `:|`, so every property holds for any order:

- the order in which the groups are visited;
- the order of the field names handed to the graph;
- the neighbour `v1` taken from `edges.get(v0).iterator()`;
- the order in which `isDisjoint` walks the first block set.

The model keeps two behaviours of the code on purpose:

- A second registration with the same name and bit size replaces the first. This is
  `LastRegistrationWins`.
- A name registered under two bit sizes ends up with the slot of the group visited last. The
  slot it was given earlier may then hold no name at all. This is `SlotIsLastClique`,
  `SlotFactoryMatches` and `OverwrittenSlotUnused`.

## Model

All source paths are under `engine/src/main/java/org/terasology/world/chunks/blockdata/`; the
table gives them in full.

| member | source | states |
|---|---|---|
| Factories.FactoriesTagged | engine/src/main/java/org/terasology/world/chunks/blockdata/ExtraBlockDataManager.java:60-65 | The factory table has exactly the bit sizes 4, 8 and 16, and each factory makes arrays of its own bit size. |
| Registration.ValidRegistrationMethod | engine/src/main/java/org/terasology/world/chunks/blockdata/ExtraBlockDataManager.java:133-142 | There is no error exactly when all five checks pass (boolean return type, supported bit size, static, one argument, argument of type Block). Otherwise the error returned is a check that fails, and every check ranked before it passes. |
| Registration.IncludedBlocks | engine/src/main/java/org/terasology/world/chunks/blockdata/ExtraBlockDataManager.java:93-105 | A block is in the included set exactly when it is a registered block and the field's predicate accepts it. |
| Registration.CollectFields | engine/src/main/java/org/terasology/world/chunks/blockdata/ExtraBlockDataManager.java:80-109 | The field groups built by the registration loops are the fold `Registered` over the registrations in order. Rejected registrations are skipped. |
| Registration.Registered | engine/src/main/java/org/terasology/world/chunks/blockdata/ExtraBlockDataManager.java:80-81 | There is one group for every supported bit size, and no other group. |
| Registration.LastRegistrationWins | engine/src/main/java/org/terasology/world/chunks/blockdata/ExtraBlockDataManager.java:106 | A name is in a bit size's group exactly when some accepted registration recorded it there. Its block set is the applicable set of the last such registration. |
| Graphs.IndexOfDistinct | engine/src/main/java/org/terasology/world/chunks/blockdata/ExtraBlockDataManager.java:176-183 | In a duplicate-free vertex array, the position searched for a name is the position it is at. |
| Graphs.Graph.constructor | engine/src/main/java/org/terasology/world/chunks/blockdata/ExtraBlockDataManager.java:148-151 | The new graph has the given vertex array and adjacency map. |
| Graphs.Graph.OfVertices | engine/src/main/java/org/terasology/world/chunks/blockdata/ExtraBlockDataManager.java:153-159 | The new graph has the given vertices, an adjacency entry for exactly those vertices, and every entry empty. |
| Graphs.Graph.AddEdge | engine/src/main/java/org/terasology/world/chunks/blockdata/ExtraBlockDataManager.java:161-165 | The graph becomes `WithEdge`: each endpoint gains the other as a neighbour, and nothing else changes. |
| Graphs.Graph.RemoveEdge | engine/src/main/java/org/terasology/world/chunks/blockdata/ExtraBlockDataManager.java:167-171 | The graph becomes `WithoutEdge`: each endpoint loses the other as a neighbour, and nothing else changes. |
| Graphs.WithEdge | engine/src/main/java/org/terasology/world/chunks/blockdata/ExtraBlockDataManager.java:161-165 | Vertices and keys are unchanged. A row gains exactly the other endpoint of the added edge. |
| Graphs.WithoutEdge | engine/src/main/java/org/terasology/world/chunks/blockdata/ExtraBlockDataManager.java:167-171 | Vertices and keys are unchanged. A row loses exactly the other endpoint of the removed edge. |
| Graphs.RestoreEdge | engine/src/main/java/org/terasology/world/chunks/blockdata/ExtraBlockDataManager.java:258-260 | Removing an existing edge and then adding it back gives the original graph. |
| Graphs.WithEdgeWellFormed | engine/src/main/java/org/terasology/world/chunks/blockdata/ExtraBlockDataManager.java:161-165 | Adding an edge between two different vertices keeps the graph symmetric, loop-free and keyed by its vertices. |
| Graphs.WithoutEdgeShrinks | engine/src/main/java/org/terasology/world/chunks/blockdata/ExtraBlockDataManager.java:258-259 | Removing an existing edge keeps the graph well formed and strictly shrinks its edge set. |
| Graphs.Graph.Ntract | engine/src/main/java/org/terasology/world/chunks/blockdata/ExtraBlockDataManager.java:174-204 | Returns a fresh graph equal to `Contracted(g, s0, s1)` and leaves the receiver unchanged. |
| Graphs.LastPosition | engine/src/main/java/org/terasology/world/chunks/blockdata/ExtraBlockDataManager.java:175-183 | The result is -1 exactly when the name is absent. Otherwise it is the last position holding the name. |
| Graphs.CopyNeighbours | engine/src/main/java/org/terasology/world/chunks/blockdata/ExtraBlockDataManager.java:187-190 | The copy has an entry for exactly the vertices, and each entry equals the original row. |
| Graphs.PruneContracted | engine/src/main/java/org/terasology/world/chunks/blockdata/ExtraBlockDataManager.java:192-202 | After the pruning loop, the copied adjacency (without s1) equals the contracted adjacency. |
| Graphs.VisitVertex | engine/src/main/java/org/terasology/world/chunks/blockdata/ExtraBlockDataManager.java:195-201 | One iteration of the pruning loop, run on the copied adjacency, yields `Visit`, whose effect `VisitEffect` states. |
| Graphs.VisitEffect | engine/src/main/java/org/terasology/world/chunks/blockdata/ExtraBlockDataManager.java:195-201 | One iteration of the pruning loop removes only the pairs s0-s2 (s2 not adjacent to s1) and s2-s1 (s2 adjacent to s1). |
| Graphs.PruneVisit | engine/src/main/java/org/terasology/world/chunks/blockdata/ExtraBlockDataManager.java:194-202 | Visiting one more vertex preserves the loop invariant. Every map entry the iteration dereferences exists, provided s0 is visited before s1. |
| Graphs.PrunedAll | engine/src/main/java/org/terasology/world/chunks/blockdata/ExtraBlockDataManager.java:194-203 | Once every vertex is visited, the map is exactly `Contracted(g, s0, s1).edges`. |
| Graphs.ContractedVertices | engine/src/main/java/org/terasology/world/chunks/blockdata/ExtraBlockDataManager.java:184-186 | The new vertex array is the old one without s1's position. It has no duplicates, holds exactly the old vertices other than s1, and keys the new adjacency map. |
| Graphs.ContractedKeys | engine/src/main/java/org/terasology/world/chunks/blockdata/ExtraBlockDataManager.java:187-191 | The new adjacency map has every old vertex except s1. |
| Graphs.ContractedSymmetric | engine/src/main/java/org/terasology/world/chunks/blockdata/ExtraBlockDataManager.java:192-202 | The contracted graph is symmetric and has no self-loops. |
| Graphs.ContractedWellFormed | engine/src/main/java/org/terasology/world/chunks/blockdata/ExtraBlockDataManager.java:174-204 | The contracted graph is well formed. |
| Graphs.ContractedShrinks | engine/src/main/java/org/terasology/world/chunks/blockdata/ExtraBlockDataManager.java:256 | Contraction only removes neighbours, and strictly shrinks the edge set. This is what makes the search terminate. |
| Graphs.RemoveAtMembers | engine/src/main/java/org/terasology/world/chunks/blockdata/ExtraBlockDataManager.java:184-186 | Removing position i of a duplicate-free sequence removes exactly the name at i. |
| Disjointness.IsDisjoint | engine/src/main/java/org/terasology/world/chunks/blockdata/ExtraBlockDataManager.java:231-238 | The result is true exactly when the two sets share no element. |
| Disjointness.PrecedesTotal | engine/src/main/java/org/terasology/world/chunks/blockdata/ExtraBlockDataManager.java:223 | For two names under `compareTo` order: exactly one comes first when they differ, and neither does when they are equal. So each unordered pair is considered once. |
| Disjointness.ListKeys | engine/src/main/java/org/terasology/world/chunks/blockdata/ExtraBlockDataManager.java:220 | The key array lists every field name exactly once. |
| Disjointness.DisjointnessWellFormed | engine/src/main/java/org/terasology/world/chunks/blockdata/ExtraBlockDataManager.java:219-229 | The disjointness graph is symmetric, has no self-loops, and is keyed by its vertex array. |
| Disjointness.GetDisjointnessGraph | engine/src/main/java/org/terasology/world/chunks/blockdata/ExtraBlockDataManager.java:219-229 | Returns a fresh graph whose vertices are the field names, each once. Two names are adjacent exactly when they differ and their block sets are disjoint. |
| Disjointness.ConsiderPair | engine/src/main/java/org/terasology/world/chunks/blockdata/ExtraBlockDataManager.java:222-226 | One step of the inner loop: after considering the pair (i, j), the edges are exactly the disjoint pairs considered so far. |
| Disjointness.AddDisjointEdges | engine/src/main/java/org/terasology/world/chunks/blockdata/ExtraBlockDataManager.java:221-227 | One pass of the outer loop extends the invariant from row i to row i + 1. |
| Disjointness.EdgesDone | engine/src/main/java/org/terasology/world/chunks/blockdata/ExtraBlockDataManager.java:221-228 | Once every pair is considered, the edge map is `DisjointnessEdges`. |
| Disjointness.InnerAdd | engine/src/main/java/org/terasology/world/chunks/blockdata/ExtraBlockDataManager.java:223-224 | Adding the edge for a disjoint, ordered pair keeps the invariant. |
| Disjointness.InnerSkip | engine/src/main/java/org/terasology/world/chunks/blockdata/ExtraBlockDataManager.java:223 | Skipping a pair that is unordered or overlapping keeps the invariant. |
| CliqueCover.FindCliqueCover | engine/src/main/java/org/terasology/world/chunks/blockdata/ExtraBlockDataManager.java:241-243 | The graph is restored. A cover returned is a minimum clique cover (a partition of the vertices into cliques of the graph). A graph with fewer than `Integer.MAX_VALUE` vertices always gets a cover. |
| CliqueCover.FindCliqueCoverBelow | engine/src/main/java/org/terasology/world/chunks/blockdata/ExtraBlockDataManager.java:245-279 | The graph is restored on return. A cover returned is a clique cover, smaller than `bestSize` (or the graph is empty), that lists the leading isolated vertices first. `null` means no clique cover is smaller than `bestSize`. Otherwise no clique cover is smaller than the one returned. |
| CliqueCover.Branch | engine/src/main/java/org/terasology/world/chunks/blockdata/ExtraBlockDataManager.java:253-268 | Branching on v0-v1 restores the graph and satisfies the same search contract as `FindCliqueCoverBelow`. Which branch's cover is returned (the separated one, or the merged one with v1 appended to clique i) is stated by `CombineBranches`. |
| CliqueCover.BuildSingletons | engine/src/main/java/org/terasology/world/chunks/blockdata/ExtraBlockDataManager.java:272-278 | The final cover has one singleton clique per vertex, in vertex order. |
| CliqueCover.SingletonsCover | engine/src/main/java/org/terasology/world/chunks/blockdata/ExtraBlockDataManager.java:271-278 | Singletons form a clique cover and list every vertex at its own position. |
| CliqueCover.AllIsolated | engine/src/main/java/org/terasology/world/chunks/blockdata/ExtraBlockDataManager.java:271-278 | When every vertex is isolated and the loop did not give up, the singletons are a correct and minimum search result. |
| CliqueCover.GiveUp | engine/src/main/java/org/terasology/world/chunks/blockdata/ExtraBlockDataManager.java:248-251 | When the first i vertices are isolated and i >= bestSize - 1, no clique cover is smaller than bestSize, so `null` is a correct answer. |
| CliqueCover.LowerBound | engine/src/main/java/org/terasology/world/chunks/blockdata/ExtraBlockDataManager.java:248 | A clique cover has at least as many cliques as there are leading isolated vertices, plus one more if a vertex follows them. |
| CliqueCover.Pigeonhole | engine/src/main/java/org/terasology/world/chunks/blockdata/ExtraBlockDataManager.java:248 | Distinct indices below m number at most m. This supports the lower bound. |
| CliqueCover.BranchOrder | engine/src/main/java/org/terasology/world/chunks/blockdata/ExtraBlockDataManager.java:252-256 | The chosen vertex v0 is at position i, and its neighbour v1 comes after it. This is what `ntract` needs. |
| CliqueCover.LiftMerged | engine/src/main/java/org/terasology/world/chunks/blockdata/ExtraBlockDataManager.java:264-266 | v0 sits in clique i of a cover of `ntract(v0, v1)`. Adding v1 to that clique gives a clique cover of the original graph with the same prefix property. |
| CliqueCover.LiftSeparated | engine/src/main/java/org/terasology/world/chunks/blockdata/ExtraBlockDataManager.java:258-262 | A cover of the graph without the edge v0-v1 is also a cover of the graph with it. |
| CliqueCover.MergedCover | engine/src/main/java/org/terasology/world/chunks/blockdata/ExtraBlockDataManager.java:256 | A cover that puts v0 and v1 together becomes, with v1 removed, a cover of `ntract(v0, v1)` of the same size. |
| CliqueCover.SeparatedCover | engine/src/main/java/org/terasology/world/chunks/blockdata/ExtraBlockDataManager.java:258-259 | A cover that keeps v0 and v1 apart is a cover of the graph without their edge. |
| CliqueCover.BranchLowerBound | engine/src/main/java/org/terasology/world/chunks/blockdata/ExtraBlockDataManager.java:256-268 | A bound below which neither branch has a cover is a bound for the whole graph. The two branches are exhaustive. |
| CliqueCover.CombineBranches | engine/src/main/java/org/terasology/world/chunks/blockdata/ExtraBlockDataManager.java:257-268 | Combining the two recursive answers, as the source does, gives a correct search result for the graph. |
| CliqueCover.IsolatedContracted | engine/src/main/java/org/terasology/world/chunks/blockdata/ExtraBlockDataManager.java:256 | `ntract` keeps the vertices before v1 in place and keeps the leading isolated vertices isolated. |
| CliqueCover.IsolatedWithoutEdge | engine/src/main/java/org/terasology/world/chunks/blockdata/ExtraBlockDataManager.java:258 | Removing an edge keeps the leading isolated vertices isolated. |
| Manager.CoverGroup | engine/src/main/java/org/terasology/world/chunks/blockdata/ExtraBlockDataManager.java:114-115 | The cliques found for a group are a minimum clique cover of the group's disjointness graph. |
| Manager.AssignClique | engine/src/main/java/org/terasology/world/chunks/blockdata/ExtraBlockDataManager.java:117-119 | Every name of the clique is mapped to the current slot count. Later entries overwrite earlier ones. |
| Manager.AssignGroup | engine/src/main/java/org/terasology/world/chunks/blockdata/ExtraBlockDataManager.java:116-121 | After one group's cliques, the slots and factories are the numbering of the cliques so far with this group's cliques appended. |
| Manager.AllocateSlots | engine/src/main/java/org/terasology/world/chunks/blockdata/ExtraBlockDataManager.java:111-123 | Every group is visited exactly once, in some order. Each gets a minimum clique cover. Slots and factories are the numbering of all cliques, group after group. |
| Manager.SlotIsLastClique | engine/src/main/java/org/terasology/world/chunks/blockdata/ExtraBlockDataManager.java:116-121 | A name has a slot exactly when some clique holds it. Its slot is the last clique holding it. |
| Manager.LastHolderSlot | engine/src/main/java/org/terasology/world/chunks/blockdata/ExtraBlockDataManager.java:118 | The last clique holding a name is the name's slot. |
| Manager.SlotsDense | engine/src/main/java/org/terasology/world/chunks/blockdata/ExtraBlockDataManager.java:116-121 | When no name is in two cliques, every slot is below the number of cliques, and clique k's first name has slot k. |
| Manager.OverwrittenSlotUnused | engine/src/main/java/org/terasology/world/chunks/blockdata/ExtraBlockDataManager.java:118 | One name in a 4-bit clique and then an 8-bit clique gets slot 1, and slot 0 holds no name. |
| Manager.CliquesOfAt | engine/src/main/java/org/terasology/world/chunks/blockdata/ExtraBlockDataManager.java:113-121 | Clique p of the g-th group visited is slot number (cliques of earlier groups) + p. It is tagged with that group's bit size. |
| Manager.CliquesOfIndex | engine/src/main/java/org/terasology/world/chunks/blockdata/ExtraBlockDataManager.java:113-121 | Every slot number is clique p of some group g. |
| Manager.LastCliqueOfGroup | engine/src/main/java/org/terasology/world/chunks/blockdata/ExtraBlockDataManager.java:113-121 | A name in clique p of group g, and in no later group, gets slot (cliques before g) + p. |
| Manager.LastHolderGroup | engine/src/main/java/org/terasology/world/chunks/blockdata/ExtraBlockDataManager.java:113-121 | The clique holding a name's slot belongs to the last visited group that registered the name. |
| Manager.ExtraBlockDataManager.ForTesting | engine/src/main/java/org/terasology/world/chunks/blockdata/ExtraBlockDataManager.java:71-74 | The test constructor gives a valid manager with no fields, no slots and no slot factories. |
| Manager.ExtraBlockDataManager.constructor | engine/src/main/java/org/terasology/world/chunks/blockdata/ExtraBlockDataManager.java:76-123 | The manager is valid. Its groups are the registered fields, and slots and factories come from minimum clique covers of every group. |
| Manager.ExtraBlockDataManager.GetSlotNumber | engine/src/main/java/org/terasology/world/chunks/blockdata/ExtraBlockDataManager.java:290-296 | Success exactly when the name has a slot, and then the value is the name's entry in `slots`. Otherwise the failure carries the `IllegalArgumentException` message. A slot returned is a valid index into `slotFactories`, and is the last clique holding the name. |
| Manager.ExtraBlockDataManager.SlotCount | engine/src/main/java/org/terasology/world/chunks/blockdata/ExtraBlockDataManager.java:120-123 | There is one slot factory per clique of all covers, and every slot number is below `slotFactories.length`. |
| Manager.ExtraBlockDataManager.SlotsAreRegistered | engine/src/main/java/org/terasology/world/chunks/blockdata/ExtraBlockDataManager.java:111-123 | A name has a slot exactly when it is a field of some group. |
| Manager.ExtraBlockDataManager.SharedSlotDisjoint | engine/src/main/java/org/terasology/world/chunks/blockdata/ExtraBlockDataManager.java:113-121 | Two different names share a slot only when both are fields of the slot's bit size, with disjoint block sets. |
| Manager.ExtraBlockDataManager.SlotFactoryMatches | engine/src/main/java/org/terasology/world/chunks/blockdata/ExtraBlockDataManager.java:118-120 | A name's slot holds the factory for the bit size of the last visited group that registered the name. |
| Manager.ExtraBlockDataManager.SlotOfClique | engine/src/main/java/org/terasology/world/chunks/blockdata/ExtraBlockDataManager.java:116-121 | A name in clique p of its last group g has slot (cliques before g) + p. So all names of clique p whose last group is g share a slot. |
| Manager.ExtraBlockDataManager.SlotsContiguous | engine/src/main/java/org/terasology/world/chunks/blockdata/ExtraBlockDataManager.java:111-123 | When no name is registered under two bit sizes, the slot numbers in use are exactly 0 to `slotFactories.length - 1`. |
| Manager.ExtraBlockDataManager.MakeDataArrays | engine/src/main/java/org/terasology/world/chunks/blockdata/ExtraBlockDataManager.java:298-304 | Returns a fresh array with one element per slot factory. Element i is what `slotFactories[i]` creates for the given size. |

## Left out

- Reflection is not modelled. This covers `getTypesAnnotatedWith`, `getMethods`, annotations, `setAccessible` and `invoke`. A registration is given as a name, a bit size, a method signature and a total predicate on blocks. The `RuntimeException`s for access or invocation failures are not modelled, because a total predicate cannot fail.
- `Context`, `ModuleManager` and `BlockManager` are not modelled. The registered blocks are a parameter, and so is the sequence of registrations in discovery order.
- The internals of `TeraArray` and its sparse factories are not modelled. A factory is its bit size, and a created array is its bit size and dimensions.
- Logging is left out: the error log for rejected registrations, the slot summary in the constructor, `verboseLog`, `toString`, and the `tabs` parameter of `findCliqueCover`. None of it affects results.
- `RenderGraph` is not part of this model.
- Manager.ExtraBlockDataManager.constructor: it requires every group to hold fewer than `Integer.MAX_VALUE` fields. Java arrays of field names cannot be longer. Under this bound `findCliqueCover(graph)` never returns `null`, so the `null` case on line 115 is not reachable in the model.
- CliqueCover.FindCliqueCover: the `null` case is stated only for graphs of `Integer.MAX_VALUE` vertices or more, where the source may give up. Java cannot build such a graph.
- Graphs.Graph.Ntract: it requires s0 to come before s1 in the vertex array. Otherwise the source's pruning loop dereferences the removed entry for s1 and throws `NullPointerException`. The only caller, `findCliqueCover`, always meets this requirement (`CliqueCover.BranchOrder`).
- Graphs.Graph.Ntract: the position of s0 that the first loop records is never read, so it is not computed.
- Covers are values (`seq<seq<string>>`), not mutable `ArrayList`s. The one in-place update, `bestCover0.get(i).add(v1)`, becomes a sequence update. No list is aliased, so nothing is lost.
- Manager.ExtraBlockDataManager.SlotsContiguous: slots are proved dense only when no name is registered under two bit sizes. Otherwise the overwritten slot can stay empty, as `Manager.OverwrittenSlotUnused` shows.
- `HashMap` and `HashSet` iteration order is not fixed. The model picks the group order, the key order, the neighbour `v1` and the walk order of `isDisjoint` with `:|`, and proves every property for any choice.
- Java's `String.compareTo` is modelled as `Precedes`, a lexicographic order on characters. It is used only to consider each unordered pair once.
- The bound `Integer.MAX_VALUE` is the constant `CliqueCover.MaxInt`. Java `int` arithmetic in the search does not overflow for graphs below that bound, so ints are unbounded in the model.
