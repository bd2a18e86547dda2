# nestjs-state-machine, modelled in Dafny

The repository is a small state-machine engine for NestJS. A developer writes
the allowed transitions of an entity's state field as a declarative tree: a
root node whose `next` is a bare state, a nested node or a list of them. Some
states are marked *manual*, and the graph can be *strict*. The engine
compiles the tree into an adjacency map. It answers "what comes next" and
"is this state final". It finds the shortest transition path between two
states by breadth-first search and draws the map as a text diagram. The
transition service moves an entity along such a path step by step. Each step
asks the guard registered for that edge, if there is one. The service writes
the new state into the entity after each step that is allowed.

The model has seven modules:

- `TransitionKeys` (keys.dfy): states as strings, and the transition key
  `a->b` under which a guard is registered and looked up.
- `Errors` (errors.dfy): the three failures and their messages.
  `NoTransitionFound` is the strict search's error. `EntityInFinalState` is
  `next`'s error. `GuardRejected` is a guard's own error, passed on unchanged.
- `Adjacency` (adjacency.dfy): the declarative tree, the edge list its
  depth-first walk produces, and the adjacency map that results. It also
  holds the filter that removes manual states.
- `Paths` (paths.dfy): the specification of a search result and the queue
  invariants of the breadth-first search. A result must be a path without
  repeated states, shortest, and first in declaration order among the
  shortest.
- `Graph` (graph.dfy): the class `StateMachineGraph`. Its constructor, the
  imperative `Build` and `Reduce`, `GetNextStates`, `IsFinalState`, the
  search `Transitions` with its loop, and the diagram.
- `Service` (service.dfy): the entity, the guards, the walk along a path as a
  specification function, the guard registration fold, and the class
  `StateMachineService` with `TransitionAll`, `Transition` and `Next`. These
  update the entity in place.
- `Fixtures` (fixtures.dfy): the graphs of the repository's own tests, and
  the maps, successors, paths, walks and diagram the model derives for them.

Design decisions:

- A guard is a pure function from a snapshot of the entity to a verdict:
  approve, or reject with a cause.
- `undefined` options are `None`.
- The search's "first in declaration order" is stated through `Choices`.
  `Choices` reads a path as the sequence of positions of the edges it takes,
  each position counted in its state's successor list. The result's choices
  are lexicographically least among the shortest paths.

## Model

| member | source | states |
|---|---|---|
| TransitionKeys.AsTransition | src/transition.type.ts:3-6 | the key is the source state, then the separator `->`, then the target state, with lengths adding up |
| TransitionKeys.AsTransitionInjective | src/transition.type.ts:3-6 | when neither source state contains `->`, equal keys mean equal source states and equal target states |
| TransitionKeys.SeparatorOfShorter | src/transition.type.ts:3-6 | if two keys are equal and one source state is shorter, the longer source state contains the separator |
| TransitionKeys.AsTransitionOrderSensitive | src/transition.type.ts:3-6 | the key of the edge from b to a differs from the key of the edge from a to b |
| TransitionKeys.AsTransitionCollides | src/transition.type.ts:3-6 | states that contain `->` can make two distinct edges share one key |
| Errors.Message | src/no-transition-found.error.ts:1-5 | each failure's message: the fixed prefix, then the from and to states in quotes; the final-state prefix, then the state (the message of src/entity-in-final-state.error.ts:1-5); a guard's cause unchanged |
| Errors.FinalStateMessageNamesState | src/entity-in-final-state.error.ts:1-5 | the final-state message determines the state it names |
| Errors.NoTransitionMessageOfTests | src/state-machine.module.spec.ts:131-144 | the no-transition message the tests expect, character for character |
| Errors.FinalStateMessageOfTests | src/state-machine.module.spec.ts:212-221 | the final-state message the tests expect, character for character |
| Adjacency.SubSmaller | src/state-machine-graph.model.ts:41-46 | a nested child is structurally smaller than its parent, so the recursive walk terminates |
| Adjacency.ChildStates | src/state-machine-graph.model.ts:36-37 | a node's child states in declaration order, with a bare `next` read as a one-element list; the walk adds an edge from the node to each of them |
| Adjacency.ChildEdges | src/state-machine-graph.model.ts:39-49 | every child of a node, bare or nested, is the target of an edge from the node's state in the node's walk |
| Adjacency.EdgesUpTo | src/state-machine-graph.model.ts:39-50 | the edges the walk produces over a node's first k children: for each child, its edge from the node, then the edges of its subtree when it is nested |
| Adjacency.Edges | src/state-machine-graph.model.ts:31-53 | all the edges of the depth-first walk of a tree, in the order the walk meets them |
| Adjacency.Successors | src/state-machine-graph.model.ts:43 | a state's list in the map, or the empty list when the map has no key for it |
| Adjacency.AddEdges | src/state-machine-graph.model.ts:42-48 | the map after appending each edge's target to its source's list, first edge to last |
| Adjacency.Compile | src/state-machine-graph.model.ts:28-56 | the map that `build` returns: the walk's edges appended, in order, to an empty map |
| Adjacency.AddEdge | src/state-machine-graph.model.ts:42-48 | adding an edge appends its target to its source's list, creating the key if needed, and leaves every other list alone |
| Adjacency.AddEdgesLookup | src/state-machine-graph.model.ts:42-48 | after a batch of edges, a state's list is its old list followed by the batch's targets from that state, and it has a key iff it had one or gained an edge |
| Adjacency.AddEdgesAppend | src/state-machine-graph.model.ts:39-50 | adding edges one after another is the same as adding them in two batches |
| Adjacency.AddEdgesSnoc | src/state-machine-graph.model.ts:39-50 | adding one more edge to a batch is one more append |
| Adjacency.TargetsAppend | src/state-machine-graph.model.ts:39-50 | the targets of a concatenated edge list are the targets of the first part, then those of the second |
| Adjacency.TargetsMember | src/state-machine-graph.model.ts:42-48 | a state is a target of s iff the edge list holds the edge from s to it |
| Adjacency.CompileSuccessors | src/state-machine-graph.model.ts:28-56 | the compiled list of each state is exactly the targets of the tree's edges from it, in walk order with repeats, and only states with an edge have a key |
| Adjacency.RootSuccessors | src/state-machine-graph.model.ts:36-50 | when no nested child declares edges from the node's state again, the node's list is its children's states in declaration order |
| Adjacency.RootSuccessorsUpTo | src/state-machine-graph.model.ts:39-50 | the same holds after each prefix of the children |
| Adjacency.NestedEdgesIncluded | src/state-machine-graph.model.ts:40-46 | every edge of a nested child's subtree is an edge of the whole tree |
| Adjacency.PrefixEdgesIncluded | src/state-machine-graph.model.ts:39-50 | the walk's edges only grow as it goes through more children |
| Adjacency.NoDeduplication | src/state-machine-graph.model.ts:42-48 | the tree a:[b, b] compiles to a → [b, b]: a child listed twice is not deduplicated (the general law, successors are exactly the targets of the edges in order, is `CompileSuccessors`) |
| Adjacency.EmptyRootHasNoKey | src/state-machine-graph.model.ts:37-50 | a root with an empty `next` compiles to the empty map |
| Adjacency.WithoutManual | src/state-machine-graph.model.ts:89-93 | the filter keeps exactly the listed states that are not manual, and never lengthens the list |
| Adjacency.WithoutManualAppend | src/state-machine-graph.model.ts:89-93 | filtering a concatenation is concatenating the filtered parts, so relative order is kept |
| Adjacency.WithoutManualKeepsAll | src/state-machine-graph.model.ts:89-93 | a list without manual states is returned unchanged |
| Adjacency.WithoutManualFirst | src/state-machine-graph.model.ts:89-93 | the filter is empty iff every state in the list is manual; otherwise its first element is the list's first non-manual state, and every state before it is manual |
| Paths.IndexOf | src/state-machine-graph.model.ts:110-111 | the first position of a state in a successor list |
| Paths.Choices | src/state-machine-graph.model.ts:110-115 | a path has one successor-list position per edge |
| Paths.PathPrefix | src/state-machine-graph.model.ts:105-114 | every non-empty prefix of a path is a path with the same start |
| Paths.PathExtend | src/state-machine-graph.model.ts:110-114 | a path followed by one of its last state's successors is a path, and its choices gain that successor's first position in the list |
| Paths.ChoicesSplit | src/state-machine-graph.model.ts:110-115 | the choices of a path are the choices of its prefix, followed by the position of its last edge |
| Paths.ChoicesDetermine | src/state-machine-graph.model.ts:110-115 | two paths from the same start with the same choices are equal |
| Paths.ChoicesSplitEqual | src/state-machine-graph.model.ts:110-115 | equal choices of two equally long paths mean equal choices of their prefixes and the same position for the last edge |
| Paths.LeaveVisited | src/state-machine-graph.model.ts:104-117 | a path that starts inside a set and ends outside it has an edge that leaves the set |
| Paths.LexExtend | src/state-machine-graph.model.ts:110-115 | appending one choice to each of two equal-length sequences keeps the first strictly below the second |
| Paths.LexExtendSame | src/state-machine-graph.model.ts:110-115 | appending a smaller last choice to equal prefixes gives the smaller sequence |
| Paths.LexTrans | src/state-machine-graph.model.ts:110-115 | the order on choices is transitive |
| Paths.LexLessLeq | src/state-machine-graph.model.ts:110-115 | strictly below, then below or equal, gives strictly below |
| Paths.LexAsymmetric | src/state-machine-graph.model.ts:110-115 | the strict order is asymmetric and irreflexive |
| Paths.BfsPathReachable | src/state-machine-graph.model.ts:99-108 | a search result from a to b witnesses that b is reachable from a |
| Paths.ClosedSetUnreachable | src/state-machine-graph.model.ts:104-117 | no state outside a set that every edge keeps you in is reachable from inside it |
| Paths.BfsPathUnique | src/state-machine-graph.model.ts:99-124 | the search result is unique: two paths that both meet the specification are equal |
| Paths.InitFrontier | src/state-machine-graph.model.ts:100-102 | the queue holding only the start with path [start], with only the start visited, meets the search invariant |
| Paths.PopHead | src/state-machine-graph.model.ts:105-110 | removing a head that is not the target keeps the invariant, now expanding that head |
| Paths.PopKeepsEntries | src/state-machine-graph.model.ts:105 | the rest of the queue keeps its entries' invariants, its levels and its order, and every equally long path in it comes after the head's |
| Paths.PopKeepsParents | src/state-machine-graph.model.ts:105 | the paths queued from earlier parents stay below the head's choices |
| Paths.PopKeepsClosure | src/state-machine-graph.model.ts:105-108 | every visited state other than the head that is not queued stays closed, and a visited target stays queued |
| Paths.SkipVisited | src/state-machine-graph.model.ts:111-112 | skipping a visited successor keeps the expansion invariant |
| Paths.CrossFrontier | src/state-machine-graph.model.ts:111-115 | a path to an unvisited state is at least one state longer than the expanded path; at exactly that length, its next-to-last state is the expanded state or a queued state of the same level |
| Paths.LeaveThroughFrontier | src/state-machine-graph.model.ts:111-115 | the same conclusion as `CrossFrontier`, from only the invariant facts it uses |
| Paths.FirstPositionUnvisited | src/state-machine-graph.model.ts:110-113 | an unvisited i-th successor is first listed at position i, because every earlier successor was visited |
| Paths.PushedBeforeOthers | src/state-machine-graph.model.ts:112-114 | the expanded path extended by its i-th successor makes choices no greater than any other equally short path to that successor |
| Paths.ExtendFirst | src/state-machine-graph.model.ts:112-114 | extending choices below or equal to another's by a smaller-or-equal last choice keeps the order |
| Paths.ExtendBelow | src/state-machine-graph.model.ts:112-114 | extending choices strictly below another's by any last choices keeps them below |
| Paths.PushedIsFirst | src/state-machine-graph.model.ts:112-114 | the expanded path extended by its i-th successor, if unvisited, is a path to it whose choices end in i, shortest and first in order |
| Paths.PushUnvisited | src/state-machine-graph.model.ts:112-115 | marking an unvisited successor visited and queueing it with the extended path keeps the expansion invariant |
| Paths.PushKeepsLevels | src/state-machine-graph.model.ts:112-115 | the queue stays sorted by path length and spans at most two lengths |
| Paths.PushKeepsEntries | src/state-machine-graph.model.ts:112-115 | every queued path is still a search result for its state |
| Paths.PushKeepsOrder | src/state-machine-graph.model.ts:112-115 | queued entries of equal length stay in the order of their choices |
| Paths.PushKeepsClosure | src/state-machine-graph.model.ts:112-115 | a visited state that is not queued keeps all its successors visited, and a visited target stays queued |
| Paths.CloseExpanded | src/state-machine-graph.model.ts:110-116 | after all of a state's successors are handled, the search invariant holds again |
| Paths.FoundTarget | src/state-machine-graph.model.ts:105-108 | when the head of the queue is the target, its path without the start is the answer: empty iff start equals target, a search result otherwise |
| Paths.ExhaustedUnreachable | src/state-machine-graph.model.ts:104-117 | when the queue runs empty, the target is unreachable and differs from the start |
| Graph.StateMachineGraph.constructor | src/state-machine-graph.model.ts:19-26 | the map is the compiled tree, the manual set is the listed states (none when absent), and the graph is strict only when the option is exactly true |
| Graph.StateMachineGraph.Build | src/state-machine-graph.model.ts:28-56 | the imperative walk produces the compiled map of the tree |
| Graph.StateMachineGraph.Reduce | src/state-machine-graph.model.ts:31-53 | the loop over children appends each child's edge and then walks a nested child, adding exactly the subtree's edges to the incoming map |
| Graph.StateMachineGraph.GetNextStates | src/state-machine-graph.model.ts:89-93 | a state is returned iff it is a successor and is automatic (or manual ones are included); unknown states have no next state |
| Graph.StateMachineGraph.NextStatesOfTree | src/state-machine-graph.model.ts:89-93 | in a constructed graph, the next states are exactly the targets of the tree's edges from the state, without those named in the manual option unless asked for |
| Graph.StateMachineGraph.IsFinalState | src/state-machine-graph.model.ts:95-97 | in a graph built from its options, a state is final iff it has no next state |
| Graph.StateMachineGraph.FinalIffNoNextStates | src/state-machine-graph.model.ts:95-97 | in a constructed graph, a state is final iff it has no next state, iff the tree has no edge leaving it |
| Graph.StateMachineGraph.Transitions | src/state-machine-graph.model.ts:99-124 | same states give the empty path; a non-empty result is the shortest path without repeats, first in declaration order; a non-empty result comes back iff the target is reachable; an unreachable target gives the no-transition error in strict mode and the empty path otherwise |
| Graph.VisitShrinks | src/state-machine-graph.model.ts:112-113 | visiting a new state shrinks the set of unvisited states |
| Graph.StateMachineGraph.Visit | src/state-machine-graph.model.ts:112-115 | handling one successor keeps the expansion invariant, moving to the next successor; an unvisited successor is added to the visited set and its entry, the path extended by it, is appended to the queue, which shrinks the unvisited states; a visited one leaves queue and visited set unchanged |
| Graph.StateMachineGraph.Expand | src/state-machine-graph.model.ts:110-116 | one round of the search restores the invariant of the outer loop; its queue and visited set are `Round` of the successors in list order; it either changes nothing or visits at least one more state, which makes the search terminate |
| Graph.Round | src/state-machine-graph.model.ts:111-116 | the queue and visited set after the successors are handled in order: a new one is visited and queued with its path, a visited one changes nothing |
| Graph.RoundStep | src/state-machine-graph.model.ts:111-116 | handling the successor at the next position, as `Visit` does, extends the round by that successor |
| Graph.Pushed | src/state-machine-graph.model.ts:111-116 | the entries one round queues: each successor neither visited before the round nor listed earlier, with its path, in list order |
| Graph.Elems | src/state-machine-graph.model.ts:111-113 | the states a list holds |
| Graph.ElemsMembers | src/state-machine-graph.model.ts:111-113 | a state is in `Elems` of a list iff the list holds it |
| Graph.ExpandStep | src/state-machine-graph.model.ts:111-116 | handling one more successor appends its entry to the round's queue exactly when it is new, and adds it to the visited set |
| Graph.RoundPushes | src/state-machine-graph.model.ts:110-116 | a round appends to the queue exactly the entries `Pushed` lists and adds every successor to the visited set |
| Graph.StateMachineGraph.Label | src/state-machine-graph.model.ts:73 | a label is the state's name, marked with `(*)` exactly when the options list the state as manual |
| Graph.StateMachineGraph.Line | src/state-machine-graph.model.ts:65-73 | the line `print` writes for a state: the indentation, the branch (closing for a last child), the label and a newline |
| Graph.StateMachineGraph.Print | src/state-machine-graph.model.ts:59-84 | `print`: the accumulator, then the state's line, then, when the state has a key, its successors' entries one indentation step further |
| Graph.StateMachineGraph.PrintChildren | src/state-machine-graph.model.ts:76-80 | the `reduce` over a state's successors: each printed onto the accumulator in list order, only the last with the closing branch |
| Graph.StateMachineGraph.PrintAppends | src/state-machine-graph.model.ts:59-84 | printing onto a prefix is the same as printing alone and prepending the prefix |
| Graph.StateMachineGraph.PrintChildrenAppends | src/state-machine-graph.model.ts:76-80 | the same holds for the fold over successors |
| Graph.StateMachineGraph.PrintEntry | src/state-machine-graph.model.ts:65-81 | a state's entry is its line (indent, branch, label), then its successors' entries indented one step further; a state without a key prints only its line |
| Graph.StateMachineGraph.PrintChildrenStep | src/state-machine-graph.model.ts:76-80 | the successors' entries are printed in list order, and only the last one uses the closing branch |
| Graph.StateMachineGraph.Diagram | src/state-machine-graph.model.ts:58-87 | the diagram is a newline, then the root's line, then the tree, and ends with the manual-transitions legend |
| Service.WalkPath | src/state-machine.service.ts:48-66 | the step-by-step pipeline of `transitionAll`: each step computes its key from the current state, asks the guard under that key if there is one, stops with the guard's error on rejection, and otherwise moves to the step's target |
| Service.WalkShape | src/state-machine.service.ts:48-66 | a walk applies a prefix of the path and ends in the last applied state; it stops early only at a guard's rejection, whose error it returns; it asks at most one guard per applied step plus the rejecting one |
| Service.WalkStep | src/state-machine.service.ts:52-60 | one step of the walk: without a guard the step is taken; a rejecting guard stops the walk in place with its cause; an approving guard is recorded and the step taken |
| Service.WalkReachesTarget | src/state-machine.service.ts:27-39 | a walk along a search result that no guard stops applies every step and ends in the search's target |
| Service.StepKeys | src/state-machine.service.ts:52 | the walk's step keys, one per step |
| Service.StepKeysAt | src/state-machine.service.ts:52 | the key of each step joins the state before the step with the step's target |
| Service.Guarded | src/state-machine.service.ts:53-58 | a key is kept iff a guard is registered under it |
| Service.GuardedCons | src/state-machine.service.ts:53-58 | filtering a key followed by a tail is the key if it is guarded, then the filtered tail |
| Service.WalkApprovedSteps | src/state-machine.service.ts:55-60 | every step the walk applied either had no guard or had its guard approve the entity in that step's start state |
| Service.WalkRejectedStep | src/state-machine.service.ts:55-60 | a walk that stopped early stopped at a registered guard, which rejected the entity in the walk's final state with the returned cause |
| Service.WalkInvokedGuards | src/state-machine.service.ts:53-60 | the guards asked are those of the steps up to and including the rejected one that have a guard, each once, in path order |
| Service.SingleStep | src/state-machine.service.ts:41-46 | a one-step walk either reaches its target with the step approved or unguarded, or stays put with its guard's error |
| Service.Register | src/state-machine.module.ts:38-41 | every declared guard's key is in the registry |
| Service.RegisterFinds | src/state-machine.module.ts:38-41 | when no source state contains `->`, a step finds a guard iff one was declared for that source and target |
| Service.RegisterFindsLast | src/state-machine.module.ts:38-41 | the guard found is the last one declared for that edge |
| Service.Entity.constructor | src/state-machine.service.ts:27 | an entity holds its state and its other fields |
| Service.StateMachineService.constructor | src/state-machine.service.ts:21-25 | the service keeps its graph and its guard registry |
| Service.StateMachineService.TransitionAll | src/state-machine.service.ts:48-66 | the entity ends in the walk's state with its other fields unchanged, after asking the walk's guards; the result is the rejection's error, nothing for an empty path, or the entity |
| Service.StateMachineService.Transition | src/state-machine.service.ts:27-39 | with the start equal to the target, or the target unreachable, no guard runs and the entity is unchanged: the result is the strict-mode error or the entity; otherwise the entity is walked along the search result; a successful transition to a reachable target, or to the current state, leaves the entity in the target state |
| Service.StateMachineService.Next | src/state-machine.service.ts:41-46 | with no automatic successor, the final-state error and no change; otherwise a one-step walk to the first automatic successor |
| Fixtures.RootEdges | src/state-machine-graph.model.spec.ts:18-40 | the depth-first edge list of the graph tests' tree |
| Fixtures.CompileRoot | src/state-machine-graph.model.spec.ts:18-40 | that tree compiles to the four keyed lists in declaration order |
| Fixtures.KeyedTargets | src/state-machine-graph.model.spec.ts:18-40 | each keyed state's list is its targets in the tree |
| Fixtures.TargetsCreated | src/state-machine-graph.model.spec.ts:18-40 | CREATED's targets |
| Fixtures.TargetsProcessing | src/state-machine-graph.model.spec.ts:18-40 | PROCESSING's targets |
| Fixtures.TargetsSynchronized | src/state-machine-graph.model.spec.ts:18-40 | SYNCHRONIZED's targets |
| Fixtures.TargetsFailed | src/state-machine-graph.model.spec.ts:18-40 | FAILED's targets |
| Fixtures.RootSources | src/state-machine-graph.model.spec.ts:18-40 | only the four keyed states are sources of edges |
| Fixtures.TargetsNone | src/state-machine-graph.model.ts:42-48 | a state that is the source of no edge has no targets |
| Fixtures.AutomaticSuccessorsOfCreated | src/state-machine-graph.model.spec.ts:72-94 | without FAILED, EXPIRED and CANCELLED, CREATED's successors keep PROCESSING then SYNCHRONIZED |
| Fixtures.AutomaticSuccessorsOfProcessing | src/state-machine-graph.model.spec.ts:72-94 | PROCESSING's successors keep SYNCHRONIZED alone |
| Fixtures.AutomaticSuccessorsOfSynchronized | src/state-machine-graph.model.spec.ts:72-94 | SYNCHRONIZED's successors keep FULFILLED alone |
| Fixtures.AutomaticSuccessorsOfFailed | src/state-machine-graph.model.spec.ts:72-94 | FAILED's successors keep FULFILLED |
| Fixtures.TestGraph | src/state-machine-graph.model.spec.ts:18-40 | the graph built with the tests' options has the expected map, FAILED, EXPIRED and CANCELLED as manual states, and lenient search |
| Fixtures.GraphNextStatesOfCreated | src/state-machine-graph.model.spec.ts:72-94 | in the graph built with the tests' options, `getNextStates(CREATED, false)` is PROCESSING, SYNCHRONIZED |
| Fixtures.GraphNextStatesOfProcessing | src/state-machine-graph.model.spec.ts:72-94 | in that graph, `getNextStates(PROCESSING, false)` is SYNCHRONIZED |
| Fixtures.GraphNextStatesOfSynchronized | src/state-machine-graph.model.spec.ts:72-94 | in that graph, `getNextStates(SYNCHRONIZED, false)` is FULFILLED |
| Fixtures.GraphNextStatesOfFailed | src/state-machine-graph.model.spec.ts:72-94 | in that graph, `getNextStates(FAILED, false)` is FULFILLED |
| Fixtures.CreatedToFulfilled | src/state-machine-graph.model.spec.ts:97-159 | the search result from CREATED to FULFILLED is SYNCHRONIZED, FULFILLED |
| Fixtures.ProcessingToFailed | src/state-machine-graph.model.spec.ts:97-159 | the search result from PROCESSING to FAILED is SYNCHRONIZED, FAILED |
| Fixtures.NothingReachesCreated | src/state-machine-graph.model.spec.ts:97-159 | no other state reaches CREATED, so those searches find nothing |
| Fixtures.SynchronizedNeverReachesProcessing | src/state-machine-graph.model.spec.ts:97-159 | SYNCHRONIZED does not reach PROCESSING |
| Fixtures.DiamondTieBreak | src/state-machine-graph.model.ts:104-117 | of two shortest routes, the search returns the one through the first-listed successor and not the other |
| Fixtures.DiamondChoices | src/state-machine-graph.model.ts:110-114 | the two routes of the diamond and the successor positions each takes |
| Fixtures.DiamondPaths | src/state-machine-graph.model.ts:104-117 | every route through the diamond has three states or more, and the three-state ones are the two routes |
| Fixtures.WalkWithGuards | src/state-machine.module.spec.ts:146-155 | walking pending to fulfilled asks the two registered guards on the way, once each, and ends in fulfilled |
| Fixtures.WalkFromProcessed | src/state-machine.module.spec.ts:146-155 | from processed to fulfilled, only the guard of the first step is asked |
| Fixtures.WalkWithoutGuard | src/state-machine.module.spec.ts:157-166 | a step without a guard is taken and asks nobody |
| Fixtures.WalkRejected | src/state-machine.module.spec.ts:179-190 | the rejecting guard leaves the entity in failed, and its message is the result |
| Fixtures.SmallEdges | src/state-machine-graph.model.ts:36-50 | the depth-first edge list of the small tree |
| Fixtures.CompileSmall | src/state-machine-graph.model.ts:28-56 | a small tree with a nested node compiles to its two keyed lists |
| Fixtures.CompileFromTargets | src/state-machine-graph.model.ts:28-56 | a map whose lists are the tree's targets, and whose keys are the edges' sources, is the compiled map |
| Fixtures.SmallGraph | src/state-machine-graph.model.ts:19-26 | a graph constructed from the small tree has its compiled map, the manual set {b}, and an acyclic ranking |
| Fixtures.SmallRanked | src/state-machine-graph.model.ts:59-84 | the ranking used to draw the small tree decreases along every edge |
| Fixtures.SmallLines | src/state-machine-graph.model.ts:65-73 | the line of each state of the small tree at its indentation, with the manual mark on b |
| Fixtures.DiagramLeaves | src/state-machine-graph.model.ts:65-73 | leaf entries are one line each, with the manual mark where due |
| Fixtures.DiagramOfC | src/state-machine-graph.model.ts:65-81 | an inner node's entry is its line with its child's line indented under it |
| Fixtures.ChildrenOfA | src/state-machine-graph.model.ts:76-80 | the root's children use the middle branch first and the closing branch last |
| Fixtures.DiagramOfA | src/state-machine-graph.model.ts:59-84 | the root's entry, in full |
| Fixtures.SmallDiagramText | src/state-machine-graph.model.ts:86 | the newline, the small tree's entry and the legend make up the expected text |
| Fixtures.DiagramOfSmall | src/state-machine-graph.model.ts:58-87 | the small tree's whole diagram, character for character |

## Left out

- Observables and scheduling: the service returns RxJS observables, and the model treats each call as a synchronous sequence of steps. Steps run one after another, as they do when guards emit synchronously. With asynchronous guards, `mergeMap` can run several steps at once, each computing its key from a stale state. That interleaving is not modelled.
- Service.WalkPath: a guard that completes without emitting is not modelled. It can only approve or reject. In the source, an empty guard skips that step's state assignment but not the later steps.
- Service.WalkPath: a guard that emits some other object, or mutates the entity, is not modelled. The model's guard sees a snapshot and cannot change it. The source assigns the new state to whatever object the guard emits.
- Graph.StateMachineGraph.Diagram: requires a ranking that shows the map has no cycle. On a cyclic map the source's `print` recurses until the call stack overflows. A cyclic map arises whenever the declared edges of all subtrees together form a cycle; `{a: [{b: [c]}, {c: [b]}]}` is one, with no state declared again inside its own subtree.
- The ranking parameter of `Print` exists only to prove termination and does not affect the output.
- A child whose `next` is omitted: the source then appends `undefined` as a successor. The model's `Next` always holds a child or a list, so that edge has no counterpart.
- States are strings. The source's states are any value of the entity's state field, and the key embeds their template-literal string form. Distinct values with the same string form are not modelled.
- TransitionKeys.AsTransitionInjective: holds only when the source states contain no `->`. The source does not check for this, and `AsTransitionCollides` shows a collision when it is violated.
- Module wiring: dependency injection, the `forFeature` provider list, the guard decorator's reflection metadata and the `or` helper are not modelled. Only the fold that registers guards by key is, as `Register`. A declared guard's key is modelled as `AsTransition` of its two states.
- Error classes: only the message text of each class is modelled. JavaScript's `Error` machinery (stack, prototype) is not.
- The diagram test of the graph tests' seven-state tree (src/state-machine-graph.model.spec.ts:180-203) is not restated. `DiagramOfSmall` proves a smaller tree's diagram, with a nested node, a manual state and both branch shapes, character for character.
- Timeouts, logging and the test harness of the repository's tests are not modelled. Their expected values appear as the `Fixtures` lemmas.
