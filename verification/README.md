# The address-space graph engine of node-opcua, verified

An OPC UA address space is a graph of nodes joined by typed references. Each node of
`node-opcua-address-space` keeps the references it declares, the mirrors of references declared
elsewhere, a cache of lookups, an index of its children by browse name and a memo of subtype
answers; every one of these is updated in place, and every one has to agree with the others. This
project models those structures and the algorithms that live on them and proves what holds in every
reachable state. It consists of

- the reference graph: step functions on a graph value (`reference_graph.dfy`), the invariant between
  the two indexes of all nodes (`reference_graph_mirroring.dfy`), the structures derived from them
  (`reference_graph_derived.dfy`), whole runs (`reference_graph_runs.dfy`), looking children up by name
  (`reference_graph_children.dfy`), the hash that files a
  reference (`reference_impl.dfy`), and the node objects whose methods are proved to move the graph
  exactly as the step functions say (`base_node.dfy`);
- the type hierarchy and its memo (`type_lattice.dfy`), how HasSubtype references of the graph move it
  and how the walk follows them (`subtype_references.dfy`), and runs of the graph as runs of the
  hierarchy, memos included (`subtype_runs.dfy`);
- instantiation of types (`instantiate.dfy`);
- the address-space services: browse paths (`browse_path.dfy`), model-change transactions
  (`model_change.dfy`), root views (`root_views.dfy`), event ids (`event_id.dfy`);
- the NodeId allocator (`nodeid_manager.dfy`), the odometer (`idx_iterator.dfy`), the extension-object
  array (`extension_object_array.dfy`), the condition refresh (`condition_refresh.dfy`), the
  dependency-cycle search (`verify_cycle.dfy`) and the role-list splitter (`role_list.dfy`).

Where the source updates objects in place, the model has a class with those fields; each of its methods
is proved against a step function, and the laws are proved about the step functions.

## What turned out to be conditional

Several properties one would expect are not unconditional. For each the exact condition is proved, and
where it helps a concrete counterexample is given.

- Registering a node keeps the two indexes in bijection if and only if nothing already points to it
  and it does not declare a reference to itself in both directions (`CreateKeepsMirrored`,
  `DanglingBreaksMirroring`). addReference accepts dangling targets, so such a node can exist.
- removeReference called from either end returns if and only if the two ends do not both hold only a
  mirror (`RemoveTerminates`); mirroring excludes that.
- removeReference clears only the cache of the owning node. The far end's remembered lookups stay
  exact if and only if it did not remember that reference type and direction (`RemovalExact`); what
  is stale is always a superset of the truth, never a missed reference (`RemovalLeavesStaleAnswer`).
- unpropagate_back_references throws if and only if the node references itself (`UnpropagateThrows`).
- A memoised isSubtypeOf answer goes stale when a type that already has subtypes is hung under a
  supertype, or taken out by a reference it does not own itself (`AttachCoherent`,
  `DetachCoherent`, `RunCoherent`, `LateAttachBreaksMemo`). On the graph, the answers are right all
  along a run if and only if no step changes an edge across which a type it does not wipe remembers an
  answer (`StepKeepsMemoRight`, `SubtypeAnswersRight`).
- A slot of the child index with a single entry is deleted without comparing it; that is right if and
  only if the reference was indexed or no single entry stands there (`IndexRemoveHolds`).
- getChildByName looks only at the first reference under a name, and gives up when that one is not a
  HasChild: a component is hidden by an organized node of the same name if and only if the latter
  comes first (`ChildByNameFinds`). Which comes first depends on when the index was built: a data type
  created below a folder asks nobody for a version, so a component that is then added to the folder
  is found by the same lookup if the folder was never asked for a child before, and hidden if it was
  (`IndexedLate`, `IndexedEarly`, `LookupDependsOnHistory`). With unique names it does not matter
  (`UniqueNameAnySchedule`).
- Instantiation merges by simple name in the filter, which sees aggregates only, and by qualified name
  in the list of clones already made. Exactly which children are cloned is `ClonesExactly`; the names
  added are distinct if and only if no name is organized at its most derived level and qualifies with
  another namespace further up (`NamesOnceIff`, `TwoNamespacesTwoChildren`). A child that the instance
  only organizes does not count: its name is cloned again (`OnlyAggregatesCount`,
  `WholeInstanceDistinct`). The "Duplication found" assertion can only fail over aggregates of one name
  that the instance has twice (`InstantiateThrows`).
- The table of symbolic names is a plain object, so under the names of members that every object
  inherits, such as "constructor" and "valueOf", something is found that has no number and is taken
  for the id 0. Two such names can be given that id one after the other; ids are distinct if and only
  if that does not happen (`DistinctNamesDistinctIds`, `InheritedNamesShareZero`), and between other
  names always (`AutomaticRunDistinct`). The table of package dependencies has the same gap
  (`VerifyCycle`).
- A textual NodeId joins the text of the parent and the name by "-". Under one parent distinct names give
  distinct ids; under different parents they need not (`TextIdsDistinct`, `TextIdsMeet`).
- A NodeId given by the caller is recorded under its symbolic name without a look at the id; the table
  stays injective, in one step and over whole runs, if and only if the name was found or the id unused
  (`AdoptInjective`, `TableInjectiveIff`, `TwoNamesOneId`). Loading new names keeps it so if and only if their values are
  new and distinct (`SymbolsInjective`).
- A browse path throws although it has targets if some other chain of matching nodes leads to one that
  throws (`PathThrows`).
- extractRootViews throws if and only if a dangling reference can be reached on the way up
  (`ExtractRootViews`, `OrganizedByNobody`).
- The test for an unused browse name (`packages/node-opcua-address-space/src/ua_variable_type_impl.ts:324-336`)
  asks for references of exactly the type HasChild, so it never sees a component; two elements with
  one key are accepted and cannot be removed cleanly (`DuplicateKeyBreaksRemoval`). Its documentation
  says that it reports any child of that name; the model follows the code.
- removeElement refuses index 0, because its entry assertion takes it for a missing argument.
- An empty referenceTypeId in a browse path also disables isInverse, where the comment in the source
  names only includeSubtypes; the model follows the code.
- A role list survives a round trip if and only if it is canonical; that includes a bare "ns=1" in the
  last place (`SplitUndoesJoin`).

## Model

| member | source | states |
|---|---|---|
| References.HashIdentifiesReference | packages/node-opcua-address-space/src/reference_impl.ts:148-153 | the hash text tells all references over a set of reference types apart if and only if no type id followed by a dash begins another; this is what lets both Maps be keyed by the reference itself |
| References.FiledByHash | packages/node-opcua-address-space/src/base_node_impl.ts:1316-1320 | for separable type ids, a Map keyed by the hash holds an entry for a reference if and only if the reference is filed |
| ReferenceGraphMirroring.MirrorBijection | packages/node-opcua-address-space/src/base_node_impl.ts:1616-1666 | in a mirrored graph, for mirrored reference types between registered nodes, A owns (t, dir, B) if and only if B holds (t, !dir, A) as a back reference; no edge is declared at both ends |
| ReferenceGraphMirroring.AddReachesMirror | packages/node-opcua-address-space/src/base_node_private.ts:1263-1293 | once the entry assertions passed, addReference fails only on an unknown type: neither the silent return nor the "exists already" throw at the far end can be reached |
| ReferenceGraphMirroring.AddThrows | packages/node-opcua-address-space/src/base_node_impl.ts:905-910 | in a mirrored graph addReference throws if and only if the node owns the reference, holds it as a back reference, or its type is unknown; in the first two cases nothing has changed, in the last the reference stays filed |
| ReferenceGraphMirroring.AddBackwardThrows | packages/node-opcua-address-space/src/base_node_private.ts:1263-1280 | the far end throws if and only if it holds the mirror already, and keeps quiet when it declares that reference itself |
| ReferenceGraphMirroring.AddEdges | packages/node-opcua-address-space/src/base_node_impl.ts:905-916 | addReference appends one owned reference and at most one mirror; every other index entry of every node keeps its value and place |
| ReferenceGraphMirroring.AddKeepsMirrored | packages/node-opcua-address-space/src/base_node_impl.ts:1306-1324 | addReference, also one that throws, keeps owned references and mirrors in bijection and both indexes duplicate-free and disjoint |
| ReferenceGraphMirroring.AnnounceOnlyIndexes | packages/node-opcua-address-space/src/address_space_change_event_tools.ts:48-55 | the event at the end of addReference changes nothing in the graph but the child indexes that asking for a version builds |
| ReferenceGraphMirroring.AnnounceAsks | packages/node-opcua-address-space/src/address_space_change_event_tools.ts:48-53 | nobody is asked for a version if the far end is not registered; otherwise the near end, and the far end if and only if the near one has none |
| ReferenceGraphMirroring.RemoveEdges | packages/node-opcua-address-space/src/base_node_impl.ts:943-948 | removal at the owner deletes that reference and its mirror and nothing else |
| ReferenceGraphMirroring.RemoveExactly | packages/node-opcua-address-space/src/base_node_impl.ts:918-954 | in any graph: a reference the node owns goes with its mirror; one it holds as a mirror goes with the original at the other end; otherwise, and with an unregistered target, nothing changes |
| ReferenceGraphMirroring.RemoveKeepsMirrored | packages/node-opcua-address-space/src/base_node_impl.ts:918-954 | removeReference from either end keeps the bijection |
| ReferenceGraphMirroring.BouncesForever | packages/node-opcua-address-space/src/base_node_impl.ts:949-950 | when both ends hold only a mirror the two calls alternate without end |
| ReferenceGraphMirroring.RemoveTerminates | packages/node-opcua-address-space/src/base_node_impl.ts:918-954 | in any graph at all, removeReference returns if and only if the ends do not both hold only a mirror, and then two calls are enough |
| ReferenceGraphMirroring.RemoveAtMostTwoDeep | packages/node-opcua-address-space/src/base_node_impl.ts:943-953 | in a mirrored graph the recursion is at most two deep and its result is the closed form used elsewhere |
| ReferenceGraphMirroring.EitherEnd | packages/node-opcua-address-space/src/base_node_impl.ts:949-950 | removing from the end that holds the mirror is the same as removing from the owner |
| ReferenceGraphMirroring.AddThenRemoveRestores | packages/node-opcua-address-space/src/base_node_impl.ts:905-954 | addReference followed by removeReference from either end restores both indexes of every node, order included |
| ReferenceGraphMirroring.PropagateAllEdges | packages/node-opcua-address-space/src/base_node_impl.ts:1156-1167 | propagating a node's references adds exactly the mirrors that are not declared at the far end, and never throws when they are new |
| ReferenceGraphMirroring.CreateKeepsMirrored | packages/node-opcua-address-space/src/base_node_impl.ts:1156-1167 | creating a node throws, without a change, if and only if its references are not distinct; otherwise it keeps mirroring if and only if nothing dangled towards it and it has no double self-reference |
| ReferenceGraphMirroring.UnpropagateEdges | packages/node-opcua-address-space/src/base_node_impl.ts:1207-1234 | for a node without references to itself, unpropagating removes exactly the mirrors of its references and keeps every other back reference in order |
| ReferenceGraphMirroring.UnpropagateThrows | packages/node-opcua-address-space/src/base_node_impl.ts:1207-1234 | unpropagating a registered node throws if and only if one of its references leads to the node itself |
| ReferenceGraphMirroring.UnregisterKeepsMirrored | packages/node-opcua-address-space/src/base_node_impl.ts:1207-1234 | unpropagating a node and dropping it leaves the remaining nodes mirrored |
| ReferenceGraphMirroring.CreateThenUnregisterRestores | packages/node-opcua-address-space/src/base_node_impl.ts:1204-1234 | unpropagate undoes propagate: after creating, unpropagating and dropping a node both indexes of all other nodes are what they were, order included |
| ReferenceGraphDerived.IndexAddHolds | packages/node-opcua-address-space/src/base_node_private.ts:1109-1125 | adding a new reference to the child index keeps it the grouping of the indexed references by target browse name, through the switch from a single entry to an array |
| ReferenceGraphDerived.IndexRemoveHolds | packages/node-opcua-address-space/src/base_node_private.ts:1133-1150 | deleting a single entry without comparing it is right if and only if the reference was indexed or no single entry stands under its name |
| ReferenceGraphDerived.IndexAllHolds | packages/node-opcua-address-space/src/base_node_private.ts:1170-1182 | the index built by a scan is that grouping |
| ReferenceGraphDerived.SameIndex | packages/node-opcua-address-space/src/base_node_private.ts:1109-1150 | any two indexes that group the same references have the same names, the same single entries and arrays equal up to order |
| ReferenceGraphDerived.FoundExactly | packages/node-opcua-address-space/src/base_node_impl.ts:414-433 | findReferences_no_cache finds the references of the node that have the type and direction asked for, all of them, nothing else, each once, in the order of the two indexes |
| ReferenceGraphDerived.AddKeepsDerived | packages/node-opcua-address-space/src/base_node_impl.ts:905-916 | addReference keeps the child index of every node a correct grouping and every remembered lookup a cover of the fresh one |
| ReferenceGraphDerived.RemoveKeepsDerived | packages/node-opcua-address-space/src/base_node_impl.ts:918-954 | so does removeReference, from either end, self-references included |
| ReferenceGraphDerived.CreateKeepsDerived | packages/node-opcua-address-space/src/base_node_private.ts:1151-1168 | so does creating a node that nothing pointed to, although a new browse name becomes resolvable |
| ReferenceGraphRuns.StepKeepsConsistent | packages/node-opcua-address-space/src/base_node_impl.ts:1306-1324 | for each kind of step: mirroring and derived structures survive it if and only if it is not the registration of a node that clashes |
| ReferenceGraphRuns.RunKeepsConsistent | packages/node-opcua-address-space/src/base_node_impl.ts:905-954 | every run of safe steps keeps the whole graph consistent |
| ReferenceGraphRuns.ReachableGraph | packages/node-opcua-address-space/src/base_node_private.ts:1250-1293 | in every graph reached from the empty one by safe steps: bijection of owned references and mirrors, no mirror of an unmirrored type, disjoint indexes, removal in two calls, child index equal to a rescan; an answer of findReferences misses no live reference and lists nothing of another type or direction |
| ReferenceGraphRuns.GroundedRunSafe | packages/node-opcua-address-space/src/base_node_impl.ts:1639-1665 | a run whose every new reference leads to a registered node, or singly to the node being created, is safe: everything stays consistent and nothing ever dangles |
| ReferenceGraphRuns.NameIndexIsRescan | packages/node-opcua-address-space/src/base_node_private.ts:1170-1182 | once built, the child index has the same slots as one rebuilt now from all forward hierarchical references |
| ReferenceGraphRuns.RemovalExact | packages/node-opcua-address-space/src/base_node_impl.ts:943-948 | after a removal all remembered lookups are still exact if and only if the far end did not remember the mirror's type and direction |
| ReferenceGraphRuns.RemovalLeavesStaleAnswer | packages/node-opcua-address-space/src/base_node_impl.ts:943-948 | a concrete run: a node that was asked for a reference type still lists the mirror of a reference that its owner has removed |
| ReferenceGraphRuns.RunWithoutRemovalExact | packages/node-opcua-address-space/src/base_node_impl.ts:414-458 | in any run without removals findReferences equals findReferences_no_cache on every node |
| ReferenceGraphRuns.DanglingBreaksMirroring | packages/node-opcua-address-space/src/base_node_impl.ts:1639-1665 | a concrete run: a reference declared before its target is registered never gets its mirror |
| ReferenceGraphChildren.SelectIsLive | packages/node-opcua-address-space/src/base_node_impl.ts:1558-1568 | the references found under a name are exactly the live forward hierarchical references to registered nodes of that name, each once |
| ReferenceGraphChildren.ChildByNameFinds | packages/node-opcua-address-space/src/base_node_impl.ts:1103-1120 | getChildByName returns the first reference selected if that is a HasChild, which is then a live child of that name, and misses an existing child if and only if a reference that is no HasChild stands before it |
| ReferenceGraphChildren.VersionFound | packages/node-opcua-address-space/src/base_node_impl.ts:1121-1122 | getNodeVersion answers with a child called "NodeVersion" in namespace 0 only, and finds it when no other hierarchical reference leads to that name |
| ReferenceGraphChildren.UniqueNameAnySchedule | packages/node-opcua-address-space/src/base_node_impl.ts:1103-1120 | with at most one hierarchical reference under the name the answer does not depend on when the index was built |
| ReferenceGraphChildren.StartIsConsistent | packages/node-opcua-address-space/src/base_node_impl.ts:1156-1167 | the two runs below start from a consistent graph over a valid type table |
| ReferenceGraphChildren.IndexedLate | packages/node-opcua-address-space/src/namespace_impl.ts:635-667 | a concrete run: a data type is created below a folder, then a component of the same name is added to the folder, whose index is first built by that addReference and lists the component first |
| ReferenceGraphChildren.IndexedEarly | packages/node-opcua-address-space/src/base_node_private.ts:1109-1125 | the same run with one lookup on the folder in between: the index lists the component last |
| ReferenceGraphChildren.SameReferences | packages/node-opcua-address-space/src/base_node_private.ts:1170-1182 | both runs end with the same references and names on every node |
| ReferenceGraphChildren.LookupDependsOnHistory | packages/node-opcua-address-space/src/base_node_impl.ts:1103-1120 | in the first end state the lookup finds the component, in the second the same lookup finds nothing |
| BaseNodes.BaseNode.FindReferencesNoCache | packages/node-opcua-address-space/src/base_node_impl.ts:414-433 | returns exactly the references of this type and direction in both indexes, owned ones first, in order |
| BaseNodes.BaseNode.FindReferences | packages/node-opcua-address-space/src/base_node_impl.ts:435-458 | throws if and only if there is no reference type of the given name or the given id is that of another node, and then changes nothing; otherwise returns the remembered answer or remembers the fresh one, nothing for an unknown id, and changes only the cache |
| BaseNodes.BaseNode.FindHierarchicalReferences | packages/node-opcua-address-space/src/base_node_impl.ts:385-412 | returns all forward references of a hierarchical type, owned ones first |
| BaseNodes.BaseNode.GetHierarchicalReference | packages/node-opcua-address-space/src/base_node_private.ts:1170-1182 | builds the child index on first use, by the fold over the scan, and returns it |
| BaseNodes.BaseNode.GetChildByName | packages/node-opcua-address-space/src/base_node_impl.ts:1103-1120 | with or without a namespace: builds the index if needed and answers from the first reference selected, as the lookup step does |
| BaseNodes.SelectNamespace | packages/node-opcua-address-space/src/base_node_impl.ts:1574-1584 | keeps, in order, the references whose target has the namespace |
| BaseNodes.AddToIndex | packages/node-opcua-address-space/src/base_node_private.ts:1109-1125 | refines the index step: dangling targets are skipped, a second child of a name turns the slot into an array |
| BaseNodes.RemoveFromIndex | packages/node-opcua-address-space/src/base_node_private.ts:1133-1150 | refines the removal step: arrays shrink to a single entry and then vanish, single entries vanish unseen |
| BaseNodes.BaseNode.AddReference | packages/node-opcua-address-space/src/base_node_impl.ts:905-916 | moves the graph of all node objects as the addReference step does, with the same error and with the child indexes the event at its end builds; succeeds on a mirrored heap if and only if the reference is in neither index and its type is known, and changes nothing when it was there |
| BaseNodes.BaseNode.HandleAddReferenceChangeEvent | packages/node-opcua-address-space/src/address_space_change_event_tools.ts:48-55 | asks the near end for its version and the far end only if that has none |
| BaseNodes.BaseNode.AddBackwardReference | packages/node-opcua-address-space/src/base_node_private.ts:1263-1293 | moves the graph as the back-reference step does and touches no other node |
| BaseNodes.BaseNode.RemoveReference | packages/node-opcua-address-space/src/base_node_impl.ts:918-954 | terminates on every heap on which the two ends do not both hold only a mirror, with the result of two calls; on mirrored heaps that is the closed form, and the heap stays mirrored |
| BaseNodes.BaseNode.RemoveBackwardReference | packages/node-opcua-address-space/src/base_node_private.ts:1250-1261 | deletes the mirror and its index entry and leaves the far end's cache alone |
| BaseNodes.BaseNode.SlowIsSubtypeOf | packages/node-opcua-address-space/src/tool_isSubtypeOf.ts:45-68 | the recursion over the node objects returns what the walk says, throws on a second or an unregistered supertype, and stops early where the source does |
| BaseNodes.BaseNode.IsSubtypeOf | packages/node-opcua-address-space/src/tool_isSubtypeOf.ts:92-106 | answers from the node's memo or remembers the walk's answer, and remembers nothing when the walk throws |
| BaseNodes.BaseNode.PropagateBackReferences | packages/node-opcua-address-space/src/base_node_impl.ts:1156-1167 | the loop refines propagation of the whole list and stops at the first error |
| BaseNodes.BaseNode.UnpropagateBackReferences | packages/node-opcua-address-space/src/base_node_impl.ts:1207-1234 | the loop refines unpropagation and stops at a self-reference |
| BaseNodes.AddressSpace.CreateNode | packages/node-opcua-address-space/src/base_node_impl.ts:355-367 | constructing, registering and propagating a node object is the creation step; a constructor that throws leaves the space as it was |
| TypeLattice.PartialOrder | packages/node-opcua-address-space/src/tool_isSubtypeOf.ts:29-69 | on an acyclic single-inheritance hierarchy isSubtypeOf is reflexive, transitive and antisymmetric |
| TypeLattice.WalkDecides | packages/node-opcua-address-space/src/tool_isSubtypeOf.ts:29-69 | there the recursive walk ends within as many calls as there are subtypes and answers membership in the reflexive-transitive closure, both ways |
| TypeLattice.AboveAfterAttach | packages/node-opcua-address-space/src/tool_isSubtypeOf.ts:48-68 | exactly which pairs a new HasSubtype edge adds to the order |
| TypeLattice.AttachCoherent | packages/node-opcua-address-space/src/tool_isSubtypeOf.ts:73-107 | after a new edge the memo is right if and only if no type below it, other than the two wiped ends, remembers an answer across it |
| TypeLattice.DetachCoherent | packages/node-opcua-address-space/src/base_node_private.ts:128-134 | after the removal of an edge the memo is right if and only if nothing but the wiped owner remembers an answer across it |
| TypeLattice.AttachAllCoherent | packages/node-opcua-address-space/src/tool_isSubtypeOf.ts:73-107 | several edges added at once, as when a node is created, leave the memo right if and only if no type that none of them wipes remembers an answer across one of them |
| TypeLattice.RunCoherent | packages/node-opcua-address-space/src/tool_isSubtypeOf.ts:75-107 | for every legal interleaving of questions, attachments, removals and unrelated wipes: the memo is right in every state if and only if every step is safe |
| TypeLattice.RunKeepsCoherent | packages/node-opcua-address-space/src/tool_isSubtypeOf.ts:120-139 | in every run that only attaches or detaches types without subtypes, memoised isSubtypeOf equals the walk |
| TypeLattice.LateAttachBreaksMemo | packages/node-opcua-address-space/src/tool_isSubtypeOf.ts:92-106 | a concrete run: a type keeps denying its new grandparent |
| SubtypeReferences.SupersAreFound | packages/node-opcua-address-space/src/tool_isSubtypeOf.ts:23-50 | the references the walk follows are, in order, those findReferences_no_cache returns for HasSubtype and inverse |
| SubtypeReferences.AddSubtypeReference | packages/node-opcua-address-space/src/tool_isSubtypeOf.ts:48-51 | addReference of HasSubtype from either end adds exactly that edge to the hierarchy, or none if the subtype is not registered; the "zero or one" assertion keeps holding if and only if the type had no supertype |
| SubtypeReferences.RemoveSubtypeReference | packages/node-opcua-address-space/src/base_node_impl.ts:918-954 | removeReference of HasSubtype from either end takes exactly that edge out |
| SubtypeReferences.EndsWiped | packages/node-opcua-address-space/src/base_node_private.ts:128-134 | adding a reference drops lookups and memo of exactly the ends that learn of it, removing those of exactly the declaring end |
| SubtypeReferences.WalkUpAnswers | packages/node-opcua-address-space/src/tool_isSubtypeOf.ts:29-69 | in any graph an answer of the walk is membership in the closure of the hierarchy |
| SubtypeReferences.WalkUpBound | packages/node-opcua-address-space/src/tool_isSubtypeOf.ts:53-67 | a walk that has not ended after as many calls as there are nodes never ends |
| SubtypeReferences.WalkUpThrows | packages/node-opcua-address-space/src/tool_isSubtypeOf.ts:53-60 | in any graph a walk that ends throws if and only if the chain of supertypes leads to one that is not registered, or to a type with several supertypes, before it finds the base type |
| SubtypeReferences.AskAnswers | packages/node-opcua-address-space/src/tool_isSubtypeOf.ts:92-139 | on any acyclic hierarchy isSubtypeOf throws if and only if it does not remember the answer and the walk would; otherwise it answers, and by the closure if and only if it remembers nothing wrong |
| SubtypeRuns.CreateLinked | packages/node-opcua-address-space/src/base_node_impl.ts:1156-1167 | creating a node without clashes gives the graph that linking its references to the bare node one by one gives |
| SubtypeRuns.StepSimulates | packages/node-opcua-address-space/src/base_node_private.ts:128-134 | every step of the graph, creations included, moves hierarchy and memos as its run of hierarchy steps does |
| SubtypeRuns.RunSimulates | packages/node-opcua-address-space/src/tool_isSubtypeOf.ts:73-107 | so does every safe run |
| SubtypeRuns.StepKeepsMemoRight | packages/node-opcua-address-space/src/tool_isSubtypeOf.ts:73-107 | a step of any kind, creations included, keeps all memos right if and only if no type that it does not wipe remembers an answer across an edge it changes |
| SubtypeRuns.SubtypeAnswersRight | packages/node-opcua-address-space/src/tool_isSubtypeOf.ts:120-139 | along every run without dangling references that keeps single inheritance without cycles, isSubtypeOf answers by the hierarchy for any two nodes in every state if and only if every step is harmless to the memos |
| SubtypeRuns.LeafRunAnswersRight | packages/node-opcua-address-space/src/tool_isSubtypeOf.ts:120-139 | from the empty graph, in particular along every run that only attaches or detaches types without subtypes |
| Instantiation.ClonesExactly | packages/node-opcua-address-space/src/_instantiate_helpers.ts:42-106 | for aggregates of distinct names on the instance and unique names per level, on all chains: instantiation never throws, existing children stay in place, and a child is cloned if and only if it qualifies, is the first of its browse name, and no aggregate of its simple name is in the way |
| Instantiation.NamesOnceIff | packages/node-opcua-address-space/src/_instantiate_helpers.ts:42-106 | the names added are distinct if and only if, for every name no aggregate of the instance has, an organized child at its most derived level has its browse name at every less derived level too |
| Instantiation.OneChildPerName | packages/node-opcua-address-space/src/_instantiate_helpers.ts:42-106 | then a name is added if and only if it qualifies at some level and no aggregate of the instance has it, once, from the most derived level where it qualifies |
| Instantiation.NameIsAdded | packages/node-opcua-address-space/src/_mandatory_child_or_requested_optional_filter.ts:38-86 | on every chain on which instantiation does not throw, a name is added at all if and only if no aggregate of the instance has it and some level has a child of it that is Mandatory, or Optional and asked for by name or with all the others |
| Instantiation.OneMoreOptional | packages/node-opcua-address-space/src/_mandatory_child_or_requested_optional_filter.ts:76-80 | asking for one more optional child adds no other name, and adds that one if and only if some level has it as Optional and no aggregate of the instance has it, unless it was added before |
| Instantiation.InstantiateThrows | packages/node-opcua-address-space/src/_mandatory_child_or_requested_optional_filter.ts:41-54 | the "Duplication found" assertion fails if and only if, at some level it comes to, the instance has two aggregates of a name that a child of the level with a modelling rule has |
| Instantiation.OnlyAggregatesCount | packages/node-opcua-address-space/src/_mandatory_child_or_requested_optional_filter.ts:29-36 | on every chain: two instances with the same aggregate names gain the same children, or both throw, whatever else they organize |
| Instantiation.WholeInstanceDistinct | packages/node-opcua-address-space/src/_instantiate_helpers.ts:42-106 | all children end up with distinct names if and only if they had, the names added are distinct, and nothing qualifies under a name the instance only organizes |
| Instantiation.InstantiatesExpected | packages/node-opcua-address-space/src/_instantiate_helpers.ts:42-106 | the recursion gives, in order, exactly the contribution of every level, and the "Duplication found" assertion cannot fail |
| Instantiation.NoBrowseNameTwice | packages/node-opcua-address-space/src/base_node_private.ts:644-659 | for any chain whatsoever: existing children keep their places and no qualified name is cloned twice |
| Instantiation.TwoNamespacesTwoChildren | packages/node-opcua-address-space/src/_mandatory_child_or_requested_optional_filter.ts:35-56 | a concrete chain on which one name yields two children |
| Instantiation.Instance.ListAggregates | packages/node-opcua-address-space/src/_mandatory_child_or_requested_optional_filter.ts:29-36 | the snapshot of the filter: the names of the aggregates present when the level begins |
| Instantiation.Instance.CloneCollectionNew | packages/node-opcua-address-space/src/base_node_private.ts:600-659 | the loop refines the collection step: rule, filter, name list, clone, in that order |
| Instantiation.Instance.Initialize | packages/node-opcua-address-space/src/_instantiate_helpers.ts:108-143 | the recursion up the type chain refines the fold over the levels, most derived first |
| BrowsePaths.DirectTargets | packages/node-opcua-address-space/src/base_node_impl.ts:765-818 | one node and one element: throws if and only if some reference cannot be decided or a followed one cannot be resolved; otherwise the targets are exactly the followed nodes of the qualified name asked for, each once |
| BrowsePaths.DirectInOrder | packages/node-opcua-address-space/src/base_node_impl.ts:797-818 | the targets stand in the order in which the references first lead to them |
| BrowsePaths.HopTargets | packages/node-opcua-address-space/src/base_node_impl.ts:820-830 | the targets of one element are those of the node itself or else of its nearest registered supertype that has any |
| BrowsePaths.SoundIsValid | packages/node-opcua-address-space/src/base_node_impl.ts:785-790 | every graph that the runs of the reference graph keep sound and right about its types is one that the theorems on paths speak of |
| BrowsePaths.PathComposition | packages/node-opcua-address-space/src/address_space.ts:963-993 | following p and then q is following p + q: the results of q from the targets of p, concatenated in order, throws included |
| BrowsePaths.PathTargets | packages/node-opcua-address-space/src/address_space.ts:963-993 | the targets of a path are exactly the ends of all chains of matching nodes |
| BrowsePaths.PathThrows | packages/node-opcua-address-space/src/address_space.ts:963-993 | following a path throws if and only if some chain of matching nodes leads to one at which the next element throws, even if other chains go all the way |
| BrowsePaths.ThereAndBack | packages/node-opcua-address-space/src/base_node_impl.ts:767-776 | where references are mirrored, each one can be followed by its type and direction to its target, and the opposite direction leads back |
| BrowsePaths.GoodIffReachable | packages/node-opcua-address-space/src/address_space.ts:916-1003 | Good if and only if the start is known, the path non-empty and fully named, and some chain exists; then the listed targets are exactly the ends of chains |
| BrowsePaths.StatusMeans | packages/node-opcua-address-space/src/address_space.ts:916-1003 | each status if and only if its own condition holds, looked for in that order: unknown start, empty path, an empty name anywhere, no target, some target; remainingPathIndex is always 0xffffffff |
| BrowsePaths.BrowsePathQuery.CheckReference | packages/node-opcua-address-space/src/base_node_impl.ts:767-792 | without a type every reference is followed; with one, those against isInverse are not, and of the others those of that type or, if asked for, of a subtype; throws if and only if the type is unknown, or asked about and led to an unregistered supertype |
| BrowsePaths.BrowsePathQuery.GetSubtypeOf | packages/node-opcua-address-space/src/tool_isSubtypeOf.ts:133-152 | the supertype found by the inverse HasSubtype reference is that of the hierarchy, if it is registered |
| BrowsePaths.BrowsePathQuery.BrowseNodeByTargetName | packages/node-opcua-address-space/src/base_node_impl.ts:740-831 | the loop and the supertype fallback refine one hop, throws included |
| BrowsePaths.BrowsePathQuery.BrowsePath | packages/node-opcua-address-space/src/address_space.ts:916-1003 | the service answers with the status and targets the relational definition gives, or throws when it says so |
| ModelChanges.EveryChangeFlushedOnce | packages/node-opcua-address-space/src/address_space.ts:1258-1313 | for every nesting of transactions, throws and catches: flushes followed by the buffer are the old buffer followed by what was collected, in order; no flush is empty |
| ModelChanges.NestedNeverFlushes | packages/node-opcua-address-space/src/address_space.ts:1267-1273 | while a transaction is open nothing is flushed and everything collected is in the buffer |
| ModelChanges.OneFlushPerOutermost | packages/node-opcua-address-space/src/address_space.ts:1304-1312 | when changes are collected inside transactions only, each outermost one, thrown through or not, is one flush of exactly what it collected (none if nothing), and the buffer ends empty |
| ModelChanges.NodeAddedFlushes | packages/node-opcua-address-space/src/address_space_change_event_tools.ts:99-139 | what the handler of an added node would raise on its own: one event per versioned parent, in their order, each naming the node, that parent, and the node again if it is versioned |
| ModelChanges.OneFlushInside | packages/node-opcua-address-space/src/address_space.ts:1267-1273 | inside a transaction the events a body would raise become one, with the same changes in the same order, or none |
| ModelChanges.NodeDeletedFlushes | packages/node-opcua-address-space/src/address_space_change_event_tools.ts:141-177 | the handler of a deleted node raises one event, with the lost reference of every parent in order and then the node, if and only if one of them is versioned |
| ModelChanges.CreateNodeRaises | packages/node-opcua-address-space/src/namespace_impl.ts:677-710 | createNode raises at most one event: the new NodeVersion property and its owner, if one is asked for, and then for each versioned parent what the handler would raise, in one batch |
| ModelChanges.DeleteNodeRaises | packages/node-opcua-address-space/src/namespace_impl.ts:742-782 | deleteNode of a node with all below it raises as one event, children first, what the single deletions would raise one by one, or nothing if they would raise nothing |
| ModelChanges.ChildrenBeforeParents | packages/node-opcua-address-space/src/namespace_impl.ts:760-782 | the event of deleteNode ends with the lost reference of every parent and the node, if one of them is versioned, and the deletions of all versioned children come before |
| ModelChanges.OneEventPerService | packages/node-opcua-address-space/src/namespace_impl.ts:677-782 | addReference, createNode and deleteNode raise one event if something versioned takes part and none otherwise, leave the buffer empty, and raise nothing inside a transaction |
| ModelChanges.AddressSpace.ModelChangeTransaction | packages/node-opcua-address-space/src/address_space.ts:1258-1313 | whatever the body does, the counter returns to its entry value; only the outermost call flushes, and it leaves the buffer empty; a throw passes through |
| ModelChanges.AddressSpace.Execute | packages/node-opcua-address-space/src/address_space.ts:1197-1199 | running a body on the object is the meaning given to it as a value |
| RootViews.ExtractRootViews | packages/node-opcua-address-space/src/address_space.ts:1214-1251 | terminates on cyclic graphs and throws if and only if a dangling reference can be reached; otherwise the views are exactly those reachable upwards without passing through the Objects folder or another view, each once per reference to a searched node; the start is searched first and every node in between exactly once |
| RootViews.UpwardsMeans | packages/node-opcua-address-space/src/address_space.ts:1230-1248 | what the search counts as reachable: along parents, never to the Objects folder, and never on from a view |
| RootViews.OrganizedByNobody | packages/node-opcua-address-space/src/address_space.ts:1230-1248 | a concrete node from which a dangling reference is reached, so that extractRootViews throws on it |
| RootViews.ScanParents | packages/node-opcua-address-space/src/address_space.ts:1230-1248 | one turn of the queue: throws if and only if a parent is not registered; otherwise the view parents are appended to the results in order, what is queued is exactly what was newly marked, and no parent is forgotten |
| ConditionRefresh.RefreshRun.ApplyConditionRefresh | packages/node-opcua-address-space/src/apply_condition_refresh.ts:6-29 | from any cache: the node itself, then once each the refreshable nodes that enter the cache; those are reachable, and nothing reachable through them is left out |
| ConditionRefresh.ConditionRefresh | packages/node-opcua-address-space/src/apply_condition_refresh.ts:6-29 | from an empty cache every reachable refreshable node is processed exactly once after the start |
| ConditionRefresh.HowOftenProcessed | packages/node-opcua-address-space/src/apply_condition_refresh.ts:20-28 | the start is processed twice if and only if it lies on a cycle, every other node once if and only if it is reachable |
| DependencyCycles.DependencyGraph.AddDependencies | extractModules.js:188-193 | records a package once and refuses it the second time without a change; refuses a name that every object inherits at once |
| DependencyCycles.DependencyGraph.VerifyCycle | extractModules.js:198-236 | throws on an unrecorded package, and otherwise only if it depends on an unrecorded one whose name every object inherits; when it answers, the count is positive if and only if the package lies on a cycle of recorded packages |
| DependencyCycles.Search.Visit | extractModules.js:208-232 | every hit is a real cycle and every throw is due to an inherited name; a search without either has visited everything reachable, although a hit cuts a list short and the visited set is shared |
| DependencyCycles.NoHitNoCycle | extractModules.js:208-232 | a visited set closed under dependencies that never names the parent proves that the parent is on no cycle and that no inherited name can be reached |
| EventIds.ReadWritten | packages/node-opcua-address-space/src/address_space.ts:675-677 | big-endian signed 32-bit writing followed by reading is the identity |
| EventIds.AfterCalls | packages/node-opcua-address-space/src/address_space.ts:661-683 | after n calls the buffer is the 16 random bytes and the counter, stuck at its largest value where writing throws |
| EventIds.IdsDistinct | packages/node-opcua-address-space/src/address_space.ts:661-683 | exactly the first 2^31-1 calls succeed, their ids are pairwise distinct and differ in the last four bytes only |
| EventIds.BytesOfId | packages/node-opcua-address-space/src/address_space.ts:671-682 | the last four bytes of the n-th id are the base 256 digits of n, the highest first |
| EventIds.AddressSpace.GenerateEventId | packages/node-opcua-address-space/src/address_space.ts:671-682 | the method on the in-place buffer is one such call, and returns a copy |
| NodeIdAllocation.NextFree | packages/node-opcua-address-space/src/nodeid_manager.ts:139-146 | the search terminates at the first number from the counter on that is neither registered nor in the symbol table |
| NodeIdAllocation.ConstructSound | packages/node-opcua-address-space/src/nodeid_manager.ts:165-183 | a numeric id is unoccupied or belongs to a node of the same browse name and parent; it becomes the id of a second name if and only if it is the 0 that inherited names are given |
| NodeIdAllocation.RunSound | packages/node-opcua-address-space/src/nodeid_manager.ts:165-201 | that is kept by every run, explicit ids that stand for no other name included, also when the address space changes arbitrarily in between; the ids handed out stay distinct if and only if 0 is given to one name only |
| NodeIdAllocation.DistinctNamesDistinctIds | packages/node-opcua-address-space/src/nodeid_manager.ts:148-203 | from any injective table, in any run of automatic allocations, mixed with explicit ids if these are new, the table stays injective and distinct symbolic names never share an id but 0; they share none at all if and only if no request is answered with a second 0 |
| NodeIdAllocation.AutomaticRunDistinct | packages/node-opcua-address-space/src/nodeid_manager.ts:148-183 | in purely automatic runs over names that no object inherits, distinct names never share an id |
| NodeIdAllocation.SameNameSameId | packages/node-opcua-address-space/src/nodeid_manager.ts:165-183 | a number the table gives or records is given again for the same name as long as nobody else has it |
| NodeIdAllocation.NewNumberGiven | packages/node-opcua-address-space/src/nodeid_manager.ts:139-183 | otherwise, unless the parent has a textual id, the number is the first from the counter on that neither a node nor a name has, and is recorded if and only if the table has nothing for the name |
| NodeIdAllocation.TextId | packages/node-opcua-address-space/src/nodeid_manager.ts:252-265 | a textual id is given if and only if the parent has one and the table gives none; it is in the namespace of the parent, properly extends its text, and is not recorded |
| NodeIdAllocation.TextIdsDistinct | packages/node-opcua-address-space/src/nodeid_manager.ts:259-265 | under one parent two textual ids are equal if and only if the prepared names are |
| NodeIdAllocation.TextIdsMeet | packages/node-opcua-address-space/src/nodeid_manager.ts:259-265 | concrete texts; under different parents "a" and "a-b" two different names get one textual id |
| NodeIdAllocation.InheritedNamesShareZero | packages/node-opcua-address-space/src/nodeid_manager.ts:92-177 | a concrete run: "constructor" is created and deleted, then "valueOf" is created, and both get the id 0 |
| NodeIdAllocation.AdoptInjective | packages/node-opcua-address-space/src/nodeid_manager.ts:189-201 | recording an explicit id keeps the table injective if and only if the name is found, in the table or inherited, or the id stood for no name |
| NodeIdAllocation.TableInjectiveIff | packages/node-opcua-address-space/src/nodeid_manager.ts:148-203 | in any run of both kinds of requests the table is injective in every state if and only if every explicit id meets that condition |
| NodeIdAllocation.TwoNamesOneId | packages/node-opcua-address-space/src/nodeid_manager.ts:189-201 | a concrete run in which two explicit ids make the table ambiguous |
| NodeIdAllocation.LastGiven | packages/node-opcua-address-space/src/nodeid_manager.ts:115-118 | after loading, a name stands for the last value given to it, or for its old one |
| NodeIdAllocation.SymbolsInjective | packages/node-opcua-address-space/src/nodeid_manager.ts:106-119 | loading new names keeps the table injective if and only if their values are new and distinct |
| NodeIdAllocation.NodeIdManager.AdoptNodeId | packages/node-opcua-address-space/src/nodeid_manager.ts:189-201 | records the id in both tables unless the name is found, inherited names included |
| NodeIdAllocation.NodeIdManager.Lookup | packages/node-opcua-address-space/src/nodeid_manager.ts:92-174 | what reading the table under a name gives: its own entry, or for the name of an inherited member one that stands for the id 0 |
| NodeIdAllocation.NodeIdManager.BuildNewNodeId | packages/node-opcua-address-space/src/nodeid_manager.ts:139-146 | the loop finds that first free number and leaves the counter just past it |
| NodeIdAllocation.NodeIdManager.ConstructNodeId | packages/node-opcua-address-space/src/nodeid_manager.ts:165-183 | the method on the tables is the allocation step: reuse, combine with a textual parent, or count; a name found is not recorded again |
| NodeIdAllocation.NodeIdManager.IsCacheHitReusable | packages/node-opcua-address-space/src/nodeid_manager.ts:220-243 | true if and only if the id is free or its occupant has the same qualified name and the same parent, or neither has one |
| NodeIdAllocation.NodeIdManager.SetSymbols | packages/node-opcua-address-space/src/nodeid_manager.ts:106-119 | the loop loads any list into any tables, repeated names and values included |
| IndexIteration.AdvanceCounts | packages/node-opcua-address-space/src/idx_iterator.ts:12-35 | one increment adds one to the mixed-radix value, and fails exactly at the last tuple |
| IndexIteration.LexIsValueOrder | packages/node-opcua-address-space/src/idx_iterator.ts:15-30 | lexicographic order of index tuples is the order of their values |
| IndexIteration.Enumeration | packages/node-opcua-address-space/src/idx_iterator.ts:36-43 | call k of next returns the digits of k, and exactly as many calls succeed as the product of the limits says |
| IndexIteration.EveryTupleOnce | packages/node-opcua-address-space/src/idx_iterator.ts:12-43 | every tuple within the limits is returned by exactly one call, in lexicographic order |
| IndexIteration.IndexIterator.Increase | packages/node-opcua-address-space/src/idx_iterator.ts:15-30 | the in-place carry chain advances the digits up to n and leaves those after n alone |
| IndexIteration.IndexIterator.Next | packages/node-opcua-address-space/src/idx_iterator.ts:36-43 | returns the digits held and moves from the state after k calls to that after k + 1, or throws once used up |
| ExtensionObjectArrays.AddKeepsInStep | packages/node-opcua-address-space/src/extension_object_array_node.ts:202-262 | an addition keeps element keys and component names equal and distinct if and only if the key is new and a given variable bears it |
| ExtensionObjectArrays.RemoveKeepsInStep | packages/node-opcua-address-space/src/extension_object_array_node.ts:33-69 | from an array in step, removal throws only before changing anything, removes exactly one key from both sides, and stays in step |
| ExtensionObjectArrays.RemovesDesignated | packages/node-opcua-address-space/src/extension_object_array_node.ts:267-302 | from an array in step, removal throws if and only if no element is designated, that is number i for a positive index, or the first that satisfies the functor or bears the name of the variable; otherwise exactly that element goes, with the component of its key |
| ExtensionObjectArrays.AddThenRemoveRestores | packages/node-opcua-address-space/src/extension_object_array_node.ts:202-302 | what is added under a new key and removed by that key leaves elements and components as they were, order included |
| ExtensionObjectArrays.RemoveLosesNoNode | packages/node-opcua-address-space/src/extension_object_array_node.ts:57-68 | removal deletes the component node if and only if the array was its only parent, so no node is left without a parent and no deleted node is a component |
| ExtensionObjectArrays.RunKeepsInStep | packages/node-opcua-address-space/src/extension_object_array_node.ts:202-302 | after any run of keyed additions and removals by index, functor or variable the two sides are in step |
| ExtensionObjectArrays.DuplicateKeyBreaksRemoval | packages/node-opcua-address-space/src/extension_object_array_node.ts:43-53 | a concrete run: with two equal keys removal drops the element and then throws, leaving both components |
| ExtensionObjectArrays.FindIndex | packages/node-opcua-address-space/src/extension_object_array_node.ts:283-292 | the first element that satisfies the functor, or -1 if and only if none does |
| ExtensionObjectArrays.DynamicVariableArray.Add | packages/node-opcua-address-space/src/extension_object_array_node.ts:202-262 | the method is the addition step: the element is appended unless the variable is a component already or the id of the new component is taken, and then nothing changes |
| ExtensionObjectArrays.DynamicVariableArray.Remove | packages/node-opcua-address-space/src/extension_object_array_node.ts:267-302 | the method is the removal step: when it succeeds exactly the designated element is gone, an orphaned component is deleted, and index 0 and out-of-range indexes are refused |
| RoleLists.SplitUndoesJoin | packages/node-opcua-address-space/source/session_context.ts:304-319 | splitting a joined list gives it back if and only if each role is trimmed, non-empty and semicolon-free, or "ns=digits;rest", with a bare "ns=digits" only in last place |
| RoleLists.RoleListCanonical | packages/node-opcua-address-space/source/session_context.ts:304-319 | every result of splitting is such a list, whatever the text |
| RoleLists.BlanksDoNotMatter | packages/node-opcua-address-space/source/session_context.ts:304-311 | blanks around a text between semicolons change nothing, and where there are only blanks nothing is listed |
| RoleLists.ListsItsRoles | packages/node-opcua-address-space/source/session_context.ts:304-319 | so a text lists the canonical list that has the same texts between its semicolons, blanks and empty ones aside |
| RoleLists.PrefixMeans | packages/node-opcua-address-space/source/session_context.ts:289 | half a NodeId is "ns=" and at least one digit |
| RoleLists.SplitIsNormalForm | packages/node-opcua-address-space/source/session_context.ts:304-319 | splitting, joining and splitting again changes nothing |
| RoleLists.SplitRoleList | packages/node-opcua-address-space/source/session_context.ts:304-319 | the loop computes the split and its result is canonical |

## Left out

- NodeIds stand for their canonical text, so two spellings of one NodeId and object identity are not distinguished; the lazily resolved fields of a reference and `dispose` are not modelled.
- References.FiledByHash: the graph files references by themselves, which the hash justifies for the reference types of the address space when none of their ids, followed by a dash, begins another; references of a type that does not exist, which addReference files before it throws, are filed by themselves as well.
- The reference types, which of them are hierarchical and which are not mirrored do not change during a run; the memoised test for hierarchical types is taken to be right.
- ReferenceGraphMirroring.CreateKeepsMirrored: construction, registration and propagation are one step; the time between them, and the suspended propagation while a nodeset file is read, are not modelled. The lookups some ways of creating a node end with are steps of their own.
- ReferenceGraphMirroring.UnregisterKeepsMirrored: node deletion is only unpropagation and dropping the node; what deletion does to references declared by other nodes happens in `namespace_impl.ts`.
- BaseNodes.BaseNode.AddReference: of the model-change event only the lookups of NodeVersion show in the graph; those of a flush are steps of their own. The JavaScript properties installed on a node are not modelled.
- BaseNodes.BaseNode.FindReferences: what findReferenceType finds under a name is a parameter. A lookup step of a run that would throw changes nothing, as one for an unknown id.
- Normalising reference options (inverse names such as "OrganizedBy") is done before the modelled steps.
- The other caches of a node (`_parent`, `_children`, the cached supertype object) are not modelled; they are dropped together with the lookup cache.
- SubtypeRuns.SubtypeAnswersRight: the check that both types are of the same node class, and the throw on a base type that is not registered, are not modelled.
- Instantiation.ClonesExactly: children are leaves; nested children, placeholders, interfaces, the merging of children into an already cloned one, and the registry of CloneHelper are not modelled.
- Instantiation.NoBrowseNameTwice: qualified names are compared as pairs, where the source compares their texts, in which "1:Limits" of namespace 0 would equal "Limits" of namespace 1.
- BrowsePaths.GoodIffReachable: the hierarchy is acyclic, no remembered lookup or subtype answer is wrong, and the graph does not change during a query, answers newly remembered by isSubtypeOf included; remainingPathIndex of intermediate targets, which the source never returns, is not computed.
- ModelChanges.AddressSpace.EndModelChange: a flush is one recorded batch; raising NodeVersion values and building the event are left out, and a flush is taken neither to throw nor to collect.
- ConditionRefresh.RefreshRun.ApplyConditionRefresh: re-sending the conditions of a node is one log entry, and `_conditionRefresh` of objects and variables is a re-entry.
- DependencyCycles.DependencyGraph.VerifyCycle: the printed path is left out; when an unrecorded package with an inherited name can be reached, whether the search gets there before a hit stops it is not said.
- EventIds.AddressSpace.GenerateEventId: the random bytes are a parameter.
- NodeIdAllocation.NodeIdManager.SetSymbols: loading the name "__proto__" would replace what the table inherits; that is not modelled.
- NodeIdAllocation.NodeIdManager.ConstructNodeId: the full symbolic name is a parameter; composing it from the ancestors, and the node classes kept with it, are left out.
- ExtensionObjectArrays.RunKeepsInStep: the components are all that hang below the array by HasComponent, and their other parents do not change during a run; binding of values is left out.
- XML output, text output, tracing, Variant and DataValue encoding, browse filters, attribute reads, permissions and certificates are not part of this model.
