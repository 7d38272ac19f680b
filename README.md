# Tactics-prototype core, modelled in Dafny

This project models the core logic of a Unity tactics prototype, which also has an LLM-driven story layer. The model covers these parts:

- **Grid pathfinding.** A* with a Manhattan heuristic and line-hugging tie-breaks, a Dijkstra "range" query and an offset-mask "pattern" query, all on a 4-connected grid of cells.
- **Order scheduler.** A FIFO queue of orders, each driven through the START / UPDATE / COMPLETE / CANCEL / REMOVE state machine. It includes the basic order, the wait order and the waypoint-consuming grid move order.
- **Grid occupancy.** Tile cells hold at most one occupant. There are two variants of `GridObject.SetLocation`.
- **Ability click protocol.** Click toggling, use and finish, each with its fixed event order.
- **AI library.**
  - The HTN planner: nodes, goal trees and the stack/queue goal containers.
  - The finite-state machine.
  - Utility-based behaviour selection (KBB).
  - The typed AI blackboard with its save/load format.
- **Terrain generation.** Area arrays, 8-neighbour counting, synchronous cellular automata and random seeding.
- **Text and list utilities.**
  - `ListUtils`.
  - The comma-masking scanner and function-call parser of `ParsingUtils`.
  - The `<tag>` sanitizer.
  - Safe save-file names.
  - The `key|value` data-file reader.
  - The key/value loaders of the agent data records.
  - `RectInt` corner arithmetic.

There is one module per source file; `wrappers.dfy` and `text.dfy` are shared helpers.

- `Wrappers` holds `Option` and `Result`.
- `Text` models the .NET `Trim`, `Split`, `Join` and `IndexOf` the code relies on. Trim uses the whitespace class of `char.IsWhiteSpace`: U+0009 to U+000D, U+0020, U+0085, U+00A0, U+1680, U+2000 to U+200A, U+2028, U+2029, U+202F, U+205F and U+3000.
- Code that changes objects in place is modelled as classes with `modifies` clauses. Order, TileCell, GridObject, GameAbility, HTNNode, HTNGoalTree, HTNGoalContainer, FSMState, FSMStateMachine, KBBList, AIBlackboard and the agent data records all take this form.
- Loops are methods proved against specification functions. Pure formulas are functions and lemmas.
- Delegates are function-valued fields. Events and calls into abstract hooks are recorded in a trace (a `seq` field, or an out-parameter) so that their order can be stated.
- Randomness is a nondeterministic choice (`:|`).
- Resource files and `Time.deltaTime` become parameters.

About occupancy: the older `GridMovements/GridObject.SetLocation` never clears the cell it leaves (`GridMovements.MoveLeavesOldCell`). The `Grids/` variant keeps the object↔cell link only when the target cell is free or already its own (`Grids.MoveKeepsLinked`). Moving onto an occupied cell breaks the link in both variants (`MoveOntoOccupied`).

## Model

All source paths are under `Assets/GameContent/Scripts/`.

| member | source | states |
|---|---|---|
| AStarNodes.Manhattan | Assets/GameContent/Scripts/Pathfinding/AStarSearch.cs:163-164 | the heuristic is zero exactly at the goal and is the sum of the coordinate distances |
| AStarNodes.ManhattanTriangle | Assets/GameContent/Scripts/Pathfinding/AStarSearch.cs:163-164 | the Manhattan distance obeys the triangle inequality |
| AStarNodes.Neighbors4 | Assets/GameContent/Scripts/Pathfinding/IAStarNode.cs:28 | a node's neighbours are exactly the existing cells orthogonally adjacent to it |
| AStarNodes.ManhattanConsistent | Assets/GameContent/Scripts/Pathfinding/AStarSearch.cs:44-58 | along any path, the heuristic never overestimates the remaining path cost (consistency, given entry costs of at least 1) |
| AStarNodes.CostAtLeastSteps | Assets/GameContent/Scripts/Pathfinding/AStarSearch.cs:50 | a path's cost is at least its number of steps |
| AStarNodes.SwapRemoveMultiset | Assets/GameContent/Scripts/Pathfinding/AStarSearch.cs:217-221 | swap-removal from the open list removes exactly the chosen element |
| AStarNodes.SwapRemoveDistinct | Assets/GameContent/Scripts/Pathfinding/AStarSearch.cs:217-221 | swap-removal keeps a duplicate-free list duplicate-free, and keeps every other element |
| AStarNodes.ReachableMonotone | Assets/GameContent/Scripts/Pathfinding/AStarSearch.cs:76-111 | what is reachable within a budget stays reachable within a larger one |
| AStarNodes.ClosedSetContainsRoutes | Assets/GameContent/Scripts/Pathfinding/AStarSearch.cs:24-66 | a set closed under enterable neighbours contains the end of every path that starts in it |
| AStarSearch.LineDeviationArea | Assets/GameContent/Scripts/Pathfinding/AStarSearch.cs:227-228 | the deviation is zero exactly when the point is collinear with the start→goal vector |
| AStarSearch.OnTheLine | Assets/GameContent/Scripts/Pathfinding/AStarSearch.cs:227-232 | points on the start→goal line have zero deviation, and progress proportional to their position along it |
| AStarSearch.ProgressGrowsAlongLine | Assets/GameContent/Scripts/Pathfinding/AStarSearch.cs:231-232 | forward progress strictly grows along the start→goal direction |
| AStarSearch.BeforeIsStrictTotal | Assets/GameContent/Scripts/Pathfinding/AStarSearch.cs:166-213 | the preference (smaller F; on equal F, smaller deviation, then larger progress, then smaller H) is a strict total order on keys |
| AStarSearch.PopBest | Assets/GameContent/Scripts/Pathfinding/AStarSearch.cs:166-223 | the popped node has minimal F, nothing in the list beats it under the tie-break order, and the first best index wins; the list is swap-removed and the node leaves the open set |
| AStarSearch.PoppedIsOptimal | Assets/GameContent/Scripts/Pathfinding/AStarSearch.cs:30-42 | a node popped with minimal F already has its optimal G (A* with a consistent heuristic) |
| AStarSearch.PopStep | Assets/GameContent/Scripts/Pathfinding/AStarSearch.cs:30-42 | popping the best node keeps the search invariant, ready for expansion |
| AStarSearch.Reverse | Assets/GameContent/Scripts/Pathfinding/AStarSearch.cs:259 | the reversed list holds the elements in opposite order |
| AStarSearch.Reconstruct | Assets/GameContent/Scripts/Pathfinding/AStarSearch.cs:250-261 | following parents from the goal and reversing gives a path from the source to the goal whose cost is the goal's G |
| AStarSearch.RelaxNeighbours | Assets/GameContent/Scripts/Pathfinding/AStarSearch.cs:44-58 | relaxing all neighbours of the closed node restores the full search invariant |
| AStarSearch.Expand | Assets/GameContent/Scripts/Pathfinding/AStarSearch.cs:44-58 | the same, written into the nodes' G/H/Parent scratch fields |
| AStarSearch.RoutesStayClosed | Assets/GameContent/Scripts/Pathfinding/AStarSearch.cs:24-66 | when the open list runs empty, every reachable cell was closed |
| AStarSearch.FindShortestPath | Assets/GameContent/Scripts/Pathfinding/AStarSearch.cs:14-69 | a non-empty result is a path from src to dst of minimal cost; an empty result means a missing endpoint or that no path exists; on an all-walkable unit-cost grid covering the rectangle of src and dst the path has Manhattan(src, dst) + 1 nodes |
| AStarSearch.StaircaseIsRoute | Assets/GameContent/Scripts/Pathfinding/AStarSearch.cs:14-69 | on an all-walkable unit-cost grid covering their rectangle, a route from src to dst costing exactly their Manhattan distance exists |
| AStarSearch.UniformCost | Assets/GameContent/Scripts/Pathfinding/AStarSearch.cs:14-69 | with unit entry costs a route costs its number of steps |
| AStarSearch.ShortestUniformRoute | Assets/GameContent/Scripts/Pathfinding/AStarSearch.cs:14-69 | on such a grid a least-cost route exists and has Manhattan(src, dst) + 1 nodes |
| AStarSearch.ResetTouched | Assets/GameContent/Scripts/Pathfinding/AStarSearch.cs:265-273 | every touched node gets G = H = 0 and no parent, and the touched set is emptied; a null set changes nothing |
| AStarRange.PopLowestCost | Assets/GameContent/Scripts/Pathfinding/AStarSearch.cs:234-248 | picks the first node of least recorded cost (or the head when none has one) and swap-removes it |
| AStarRange.RelaxAround | Assets/GameContent/Scripts/Pathfinding/AStarSearch.cs:91-107 | relaxing one node keeps every recorded cost witnessed by a path, settles the node and lists every new node once |
| AStarRange.RelaxedCoversRoutes | Assets/GameContent/Scripts/Pathfinding/AStarSearch.cs:91-107 | once every node is relaxed, every path within the range has its end recorded at no more than its cost |
| AStarRange.RangeExact | Assets/GameContent/Scripts/Pathfinding/AStarSearch.cs:76-111 | at the end of the search, the result holds exactly the cells other than the source that are reachable within the range |
| AStarRange.FindRange | Assets/GameContent/Scripts/Pathfinding/AStarSearch.cs:76-111 | the result has no duplicates and holds exactly the cells other than the source reachable within the range; a missing source or a negative range gives nothing |
| AStarRange.RangeGrows | Assets/GameContent/Scripts/Pathfinding/AStarSearch.cs:76-111 | a larger range finds every cell a smaller one finds |
| AStarPattern.FirstOriginUnique | Assets/GameContent/Scripts/Pathfinding/AStarSearch.cs:127-133 | the mask's first origin cell in row-major order is unique |
| AStarPattern.Target | Assets/GameContent/Scripts/Pathfinding/AStarSearch.cs:143-146 | the offset lands on the source exactly for the origin cell |
| AStarPattern.MatchesMembers | Assets/GameContent/Scripts/Pathfinding/AStarSearch.cs:135-156 | the matches are exactly the targets of mask cells holding 1 whose cell exists and, if tested, is walkable |
| AStarPattern.MatchesExcludeSource | Assets/GameContent/Scripts/Pathfinding/AStarSearch.cs:135-156 | the source cell is never in the result, and every result cell is enterable |
| AStarPattern.FindOrigin | Assets/GameContent/Scripts/Pathfinding/AStarSearch.cs:127-133 | finds the first -1 in row-major order, and nothing exactly when the mask has none |
| AStarPattern.FindPattern | Assets/GameContent/Scripts/Pathfinding/AStarSearch.cs:119-157 | a missing source or mask gives the empty list; a mask without -1 is an error; otherwise the result is the matches in row-major order |
| Orders.Step | Assets/GameContent/Scripts/RXLIB/RX/AI/Orders/OrderHandler.cs:176-200 | each state's successor, with both directions: START→UPDATE, UPDATE→COMPLETE exactly when DoUpdate reports done, COMPLETE/CANCEL→REMOVE, CANCEL sets `cancelled`; a hook runs unless the order is REMOVE |
| Orders.RunRemoved | Assets/GameContent/Scripts/RXLIB/RX/AI/Orders/OrderHandler.cs:178-199 | a removed order stays removed and runs no hook |
| Orders.RunUpdating | Assets/GameContent/Scripts/RXLIB/RX/AI/Orders/OrderHandler.cs:184-193 | an updating order calls DoUpdate until it reports done, then DoComplete, then is removed |
| Orders.Lifecycle | Assets/GameContent/Scripts/RXLIB/RX/AI/Orders/OrderHandler.cs:176-200 | a fresh order runs DoStart, then DoUpdate until done, then DoComplete, and ends REMOVE without being cancelled |
| Orders.CancelLifecycle | Assets/GameContent/Scripts/RXLIB/RX/AI/Orders/OrderHandler.cs:194-198 | a cancelled order runs DoCancel once and ends REMOVE with `cancelled` set |
| Orders.Order.Update | Assets/GameContent/Scripts/RXLIB/RX/AI/Orders/OrderHandler.cs:176-200 | the order's new state and hook are those `Step` gives |
| Orders.OrderHandler.CurrentOrder | Assets/GameContent/Scripts/RXLIB/RX/AI/Orders/OrderHandler.cs:27 | the head of the queue, or none when it is empty |
| Orders.OrderHandler.ClearOrders | Assets/GameContent/Scripts/RXLIB/RX/AI/Orders/OrderHandler.cs:34-37 | the queue becomes empty |
| Orders.OrderHandler.CancelOrders | Assets/GameContent/Scripts/RXLIB/RX/AI/Orders/OrderHandler.cs:39-48 | only the head order remains, set to CANCEL; an empty queue stays empty |
| Orders.OrderHandler.AddOne | Assets/GameContent/Scripts/RXLIB/RX/AI/Orders/OrderHandler.cs:92-95 | the order is enqueued at the back |
| Orders.OrderHandler.Add | Assets/GameContent/Scripts/RXLIB/RX/AI/Orders/OrderHandler.cs:82-86 | the orders are enqueued at the back, in order |
| Orders.OrderHandler.Insert | Assets/GameContent/Scripts/RXLIB/RX/AI/Orders/OrderHandler.cs:50-76 | the orders go in front, in order; the old head is reset to START, not cancelled |
| Orders.OrderHandler.UpdateOrders | Assets/GameContent/Scripts/RXLIB/RX/AI/Orders/OrderHandler.cs:102-120 | a REMOVE head is dequeued and fires OrderComplete, then AllOrdersComplete if the queue emptied; any other head takes one `Step` |
| OrderUtils.BasicOrderThreeUpdates | Assets/GameContent/Scripts/RXLIB/RX/AI/Orders/OrderUtils.cs:37-46 | a basic order completes on its first update: three updates run DoStart, DoUpdate and DoComplete, leaving it REMOVE |
| OrderUtils.BasicTrace | Assets/GameContent/Scripts/RXLIB/RX/AI/Orders/OrderUtils.cs:37-50 | the hook bodies a basic order runs include DoComplete exactly when its hook calls include DoComplete or DoCancel |
| OrderUtils.BasicCancelCompletes | Assets/GameContent/Scripts/RXLIB/RX/AI/Orders/OrderUtils.cs:47-50 | cancelling a basic order runs DoCancel and then DoComplete, the same teardown that ends a completed basic order |
| OrderUtils.BasicTraceKeepsOthers | Assets/GameContent/Scripts/RXLIB/RX/AI/Orders/OrderUtils.cs:37-50 | without a cancel, the hook bodies run are the hook calls themselves |
| OrderUtils.BasicOrder.DoUpdate | Assets/GameContent/Scripts/RXLIB/RX/AI/Orders/OrderUtils.cs:40-43 | always reports done |
| OrderUtils.BasicOrder.Update | Assets/GameContent/Scripts/RXLIB/RX/AI/Orders/OrderUtils.cs:40-43 | one `Step` with done = true |
| OrderUtils.WaitOrder.constructor | Assets/GameContent/Scripts/RXLIB/RX/AI/Orders/OrderUtils.cs:15-18 | a fresh START order named WaitOrder whose timeout is the given time |
| OrderUtils.WaitOrder.DoUpdate | Assets/GameContent/Scripts/RXLIB/RX/AI/Orders/OrderUtils.cs:20-28 | the timeout drops by the frame delta, and the wait is done exactly when it is negative |
| OrderUtils.WaitOrder.Update | Assets/GameContent/Scripts/RXLIB/RX/AI/Orders/OrderUtils.cs:20-28 | the timeout drops only in the UPDATE state, and the order steps as its countdown says |
| OrderUtils.WaitFirstDone | Assets/GameContent/Scripts/RXLIB/RX/AI/Orders/OrderUtils.cs:20-28 | with a positive delta, the wait first reports done on update number `time / delta + 1` |
| OrderUtils.WaitUpdates | Assets/GameContent/Scripts/RXLIB/RX/AI/Orders/OrderUtils.cs:15-28 | `k` DoUpdate calls on a new wait order leave `Remaining(time, delta, k)`, and call `i` reports done exactly when `Remaining(time, delta, i)` is negative |
| GridOrderUtils.GridMoveOrder.constructor | Assets/GameContent/Scripts/Grids/AI/GridOrderUtils.cs:16-18 | a fresh START order named GridMoveOrder, holding the path and time arguments |
| GridOrderUtils.GridMoveOrder.DoStart | Assets/GameContent/Scripts/Grids/AI/GridOrderUtils.cs:20-31 | the path is copied, dropping its first cell when the actor already stands there |
| GridOrderUtils.GridMoveOrder.DoUpdate | Assets/GameContent/Scripts/Grids/AI/GridOrderUtils.cs:33-54 | before the step time, only the clock advances; at the step time, the actor moves to the next waypoint (with the `SetLocation` effects), the waypoint is dropped, and the order is done when none remain |
| GridOrderUtils.WaitingCallsCeil | Assets/GameContent/Scripts/Grids/AI/GridOrderUtils.cs:40-51 | the number of waiting calls before a step is the ceiling of the remaining time over the delta |
| GridOrderUtils.ThreeCellWalk | Assets/GameContent/Scripts/Grids/AI/GridOrderUtils.cs:33-54 | walking a three-cell path with zero step time ends on the last cell, leaves the others empty, and reports done on the second move |
| TileCells.TileCell.ClearContents | Assets/GameContent/Scripts/GridMovements/TileCell.cs:14-25 | the cell is emptied; the call is refused exactly when it was already empty |
| TileCells.TileCell.SetContents | Assets/GameContent/Scripts/GridMovements/TileCell.cs:27-37 | an empty cell takes the object; an occupied cell refuses and is unchanged |
| Grids.GridObject.SetLocation | Assets/GameContent/Scripts/Grids/GridObject.cs:17-30 | the location becomes the cell; the old cell is cleared unless it is the new one; the new cell holds the object unless someone else occupies it |
| Grids.OneCellEach | Assets/GameContent/Scripts/Grids/GridObject.cs:17-30 | while objects and cells are linked, no object occupies two cells |
| Grids.MoveKeepsLinked | Assets/GameContent/Scripts/Grids/GridObject.cs:17-30 | moving to a free cell (or staying put) keeps every object and cell linked both ways |
| Grids.MoveOntoOccupied | Assets/GameContent/Scripts/Grids/GridObject.cs:17-30 | moving onto an occupied cell clears the old cell, yet the location still changes, so the link breaks |
| GridMovements.GridObject.SetLocation | Assets/GameContent/Scripts/GridMovements/GridObject.cs:12-27 | the location becomes the cell; the new cell takes the object if it is free; the old cell is cleared only when moving to no cell |
| GridMovements.MoveLeavesOldCell | Assets/GameContent/Scripts/GridMovements/GridObject.cs:12-27 | after a move, the old cell still holds the object, so the object appears in two cells |
| GridMovements.MoveOntoOccupied | Assets/GameContent/Scripts/GridMovements/GridObject.cs:12-27 | moving onto an occupied cell breaks the link |
| GridMovements.SetSameCell | Assets/GameContent/Scripts/GridMovements/GridObject.cs:12-27 | setting the current cell again keeps the link |
| GameAbilities.NextClick | Assets/GameContent/Scripts/Grids/Abilities/GameAbility.cs:57-59 | the click counter toggles between 0 and 1 |
| GameAbilities.ClicksAlternate | Assets/GameContent/Scripts/Grids/Abilities/GameAbility.cs:55-59 | after n clicks from 0, the counter is n mod 2 |
| GameAbilities.GameAbility.UpdateClick | Assets/GameContent/Scripts/Grids/Abilities/GameAbility.cs:55-84 | the counter toggles; the result is true exactly on the first click, which draws the area or path for the effect type; a drawing click with no user yet throws after the counter has moved, drawing nothing |
| GameAbilities.GameAbility.UseAbility | Assets/GameContent/Scripts/Grids/Abilities/GameAbility.cs:86-108 | with no target occupant, the ability finishes quietly; otherwise it fires OnAbilityStart, then DoStartAbility, and resets the counter |
| GameAbilities.GameAbility.FinishAbility | Assets/GameContent/Scripts/Grids/Abilities/GameAbility.cs:110-118 | fires DoCompleteAbility, then OnAbilityComplete, then destroys the ability |
| HTN.HTNNode.constructor | Assets/GameContent/Scripts/RXLIB/RX/AI/HTN/HTNNode.cs:54-74 | a DEFAULT node with no parent, no children, the given precondition and no flip |
| HTN.HTNNode.Precondition | Assets/GameContent/Scripts/RXLIB/RX/AI/HTN/HTNNode.cs:76-85 | the delegate's verdict, inverted when the flip flag is set |
| HTN.HTNNode.AddChild | Assets/GameContent/Scripts/RXLIB/RX/AI/HTN/HTNNode.cs:101-107 | the child gets this node as parent and is appended to the children; the child is returned |
| HTN.HTNNode.GetRoot | Assets/GameContent/Scripts/RXLIB/RX/AI/HTN/HTNNode.cs:128-136 | the end of the parent chain, which has no parent |
| HTN.HTNNode.GetPath | Assets/GameContent/Scripts/RXLIB/RX/AI/HTN/HTNNode.cs:139-153 | the parent chain from the root down to this node, each node the parent of the next |
| HTN.HTNNode.GetPathDesc | Assets/GameContent/Scripts/RXLIB/RX/AI/HTN/HTNNode.cs:155-165 | the names along that path, joined with ':' |
| HTN.ChainUnique | Assets/GameContent/Scripts/RXLIB/RX/AI/HTN/HTNNode.cs:128-153 | a node's parent chain is unique, so GetRoot and GetPath are determined |
| HTN.HTNGoalTree.constructor | Assets/GameContent/Scripts/RXLIB/RX/AI/HTN/HTNGoalTree.cs:23-27 | the root is linked back to the new tree, and the result starts DEFAULT |
| HTN.HTNGoalTree.Init | Assets/GameContent/Scripts/RXLIB/RX/AI/HTN/HTNGoalTree.cs:30-46 | every node is initialized once, in pre-order |
| HTN.HTNGoalTree.InitNode | Assets/GameContent/Scripts/RXLIB/RX/AI/HTN/HTNGoalTree.cs:35-46 | a subtree is initialized in pre-order |
| HTN.HTNGoalTree.Plan | Assets/GameContent/Scripts/RXLIB/RX/AI/HTN/HTNGoalTree.cs:49-94 | the plan and the recorded result are those of the pure planner `PlanOf` on the tree |
| HTN.HTNGoalTree.PlanNode | Assets/GameContent/Scripts/RXLIB/RX/AI/HTN/HTNGoalTree.cs:67-94 | the recursive planner appends `PlanOf` of the subtree to its output |
| HTN.HTNGoalTree.PlanKids | Assets/GameContent/Scripts/RXLIB/RX/AI/HTN/HTNGoalTree.cs:84-94 | the loop over an open node's children appends their plans left to right and stops at the first child whose plan stops, as `PlanSeq` of the children |
| HTN.PlanSeqStep | Assets/GameContent/Scripts/RXLIB/RX/AI/HTN/HTNGoalTree.cs:85-93 | after siblings that did not stop, the next sibling's plan is appended and its stop type decides |
| HTN.PlanFromLeaves | Assets/GameContent/Scripts/RXLIB/RX/AI/HTN/HTNGoalTree.cs:67-94 | every planned node is a leaf of the tree |
| HTN.LeavesAreLeaves | Assets/GameContent/Scripts/RXLIB/RX/AI/HTN/HTNGoalTree.cs:70 | the shape's leaves are nodes without children |
| HTN.PlanStops | Assets/GameContent/Scripts/RXLIB/RX/AI/HTN/HTNGoalTree.cs:72-93 | planning stops at the first GOAL or non-DEFAULT leaf, which ends the plan |
| HTN.ClosedNodeHides | Assets/GameContent/Scripts/RXLIB/RX/AI/HTN/HTNGoalTree.cs:82-95 | an inner node whose precondition fails contributes nothing |
| HTN.PlanAllOpen | Assets/GameContent/Scripts/RXLIB/RX/AI/HTN/HTNGoalTree.cs:67-94 | when every precondition holds and every leaf is DEFAULT, the plan is all leaves in order |
| HTN.TestTreePlan | Assets/GameContent/Scripts/RXLIB/RX/AI/HTN/HTNGoalTreeFactory.cs:18-43 | the factory's test tree plans to the single action a2 |
| HTN.PlanTestTree | Assets/GameContent/Scripts/RXLIB/RX/AI/HTN/HTNGoalTreeFactory.cs:18-43 | building and planning the test tree yields exactly the node named a2 |
| HTN.GoalTreeContainer.Push | Assets/GameContent/Scripts/RXLIB/RX/AI/HTN/HTNGoalContainer.cs:286-292 | pushing adds one tree and keeps the container's kind |
| HTN.GoalTreeContainer.Remove | Assets/GameContent/Scripts/RXLIB/RX/AI/HTN/HTNGoalContainer.cs:294-300 | removal takes the peeked tree and leaves the other trees |
| HTN.StackIsLifo | Assets/GameContent/Scripts/RXLIB/RX/AI/HTN/HTNGoalContainer.cs:284-308 | a STACK container returns the last tree pushed, and removing it restores the container |
| HTN.QueueIsFifo | Assets/GameContent/Scripts/RXLIB/RX/AI/HTN/HTNGoalContainer.cs:284-308 | a QUEUE container returns the earliest tree pushed, and push commutes with remove |
| HTN.PushTo | Assets/GameContent/Scripts/RXLIB/RX/AI/HTN/HTNGoalContainer.cs:102-117 | pushing onto a named stack creates it if needed and leaves the other stacks alone |
| HTN.PopFrom | Assets/GameContent/Scripts/RXLIB/RX/AI/HTN/HTNGoalContainer.cs:155-182 | popping removes the top tree and drops the stack once it is empty; other stacks are kept |
| HTN.PopUndoesPush | Assets/GameContent/Scripts/RXLIB/RX/AI/HTN/HTNGoalContainer.cs:102-182 | on a stack, popping right after a push restores the stacks |
| HTN.StacksStayNonEmpty | Assets/GameContent/Scripts/RXLIB/RX/AI/HTN/HTNGoalContainer.cs:102-242 | pushes and pops never leave an empty stack in the dictionary |
| HTN.StackDefs.constructor | Assets/GameContent/Scripts/RXLIB/RX/AI/HTN/HTNGoalContainer.cs:16 | the shared definition table starts out absent (the static field is null) |
| HTN.HTNGoalContainer.constructor | Assets/GameContent/Scripts/RXLIB/RX/AI/HTN/HTNGoalContainer.cs:245-256 | no stacks and no feeders; the first container creates the shared table with "default" as a STACK, a later one leaves the shared table as it is |
| HTN.HTNGoalContainer.AddDef | Assets/GameContent/Scripts/RXLIB/RX/AI/HTN/HTNGoalContainer.cs:53-56 | records the container type of a stack name in the table every container shares |
| HTN.DefinitionsAreShared | Assets/GameContent/Scripts/RXLIB/RX/AI/HTN/HTNGoalContainer.cs:16-17 | a definition added through one container is seen by a container built later, which still sees "default" as a STACK |
| HTN.HTNGoalContainer.Clear | Assets/GameContent/Scripts/RXLIB/RX/AI/HTN/HTNGoalContainer.cs:68-82 | stacks and feeders are emptied |
| HTN.HTNGoalContainer.AddGoalTree | Assets/GameContent/Scripts/RXLIB/RX/AI/HTN/HTNGoalContainer.cs:102-117 | the tree is initialized, linked to this container and pushed onto its stack |
| HTN.HTNGoalContainer.FeedGoalTree | Assets/GameContent/Scripts/RXLIB/RX/AI/HTN/HTNGoalContainer.cs:124-134 | the tree is appended to the stack's feeder list |
| HTN.HTNGoalContainer.FeedStack | Assets/GameContent/Scripts/RXLIB/RX/AI/HTN/HTNGoalContainer.cs:141-152 | moves the first fed tree onto its stack, succeeding exactly when one was waiting |
| HTN.HTNGoalContainer.PopTree | Assets/GameContent/Scripts/RXLIB/RX/AI/HTN/HTNGoalContainer.cs:155-182 | returns the top tree of a non-empty stack and pops it; a missing stack gives nothing |
| HTN.HTNGoalContainer.Plan | Assets/GameContent/Scripts/RXLIB/RX/AI/HTN/HTNGoalContainer.cs:194-227 | plans each stack's top tree; stacks with a non-empty plan appear in the result, trees that reached a GOAL are marked for popping, and empty maps become null |
| HTN.HTNGoalContainer.PlanTops | Assets/GameContent/Scripts/RXLIB/RX/AI/HTN/HTNGoalContainer.cs:199-224 | the loop over the top trees computes exactly those plans and pops |
| HTN.HTNGoalContainer.CleanUpGoals | Assets/GameContent/Scripts/RXLIB/RX/AI/HTN/HTNGoalContainer.cs:229-242 | pops every marked stack once and fires one completion event per popped tree |
| FSM.FirstPassingIsFirst | Assets/GameContent/Scripts/RXLIB/RX/AI/FSM/FSMState.cs:129-160 | the chosen transition is the first whose check passes, and none is chosen exactly when none passes |
| FSM.FSMState.constructor | Assets/GameContent/Scripts/RXLIB/RX/AI/FSM/FSMState.cs:112-115 | a new state starts in ENTER_STATE, checks transitions LAST, and has no transitions or methods |
| FSM.FSMState.SetState | Assets/GameContent/Scripts/RXLIB/RX/AI/FSM/FSMState.cs:100 | setting the state also flags it as changed this frame |
| FSM.FSMState.InitializeTransitions | Assets/GameContent/Scripts/RXLIB/RX/AI/FSM/FSMState.cs:117-120 | stores the transitions |
| FSM.FSMState.InitializeMethods | Assets/GameContent/Scripts/RXLIB/RX/AI/FSM/FSMState.cs:122-127 | stores the enter, update and exit methods |
| FSM.FSMState.CheckTransitions | Assets/GameContent/Scripts/RXLIB/RX/AI/FSM/FSMState.cs:129-160 | returns the first passing transition, if any |
| FSM.FSMState.UpdateStateFixed | Assets/GameContent/Scripts/RXLIB/RX/AI/FSM/FSMState.cs:170-177 | the fixed update runs only while IN_STATE, unchanged this frame, and defined |
| FSM.FSMState.UpdateStateLate | Assets/GameContent/Scripts/RXLIB/RX/AI/FSM/FSMState.cs:179-186 | the late update runs under the same gating |
| FSM.FSMState.UpdateState | Assets/GameContent/Scripts/RXLIB/RX/AI/FSM/FSMState.cs:188-209 | FIRST: a passing transition pre-empts the update; LAST: the update runs, then transitions are checked; the changed flag is cleared |
| FSM.FSMStateMachine.Clear | Assets/GameContent/Scripts/RXLIB/RX/AI/FSM/FSMState.cs:20-26 | head, current and final transition are cleared |
| FSM.FSMStateMachine.Set | Assets/GameContent/Scripts/RXLIB/RX/AI/FSM/FSMState.cs:28-39 | clears any running machine, then starts at the given state in ENTER_STATE; a null state just clears |
| FSM.FSMStateMachine.Move | Assets/GameContent/Scripts/RXLIB/RX/AI/FSM/FSMState.cs:41-51 | the new state becomes current, in ENTER_STATE, with no pending transition |
| FSM.FSMStateMachine.Update | Assets/GameContent/Scripts/RXLIB/RX/AI/FSM/FSMState.cs:54-87 | ENTER→IN when the enter method accepts; IN→EXIT when a transition fires; EXIT moves to the destination, or stops the machine if there is none, once the exit method accepts; with no current state (never set, or stopped) the call throws and nothing changes; `head` is kept except when the machine stops; a declined enter or exit keeps the state's changed flag, and an IN update with no transition clears it |
| KBB.KnowledgeBasedBehavior.UpdateUtility | Assets/GameContent/Scripts/RXLIB/RX/AI/KBB/KnowledgeBasedBehavior.cs:34-37 | the utility becomes the delegate's value |
| KBB.KnowledgeBasedBehavior.Execute | Assets/GameContent/Scripts/RXLIB/RX/AI/KBB/KnowledgeBasedBehavior.cs:39-42 | the execute delegate runs once on the AI; a behaviour built without one throws and runs nothing |
| KBB.Choose | Assets/GameContent/Scripts/RXLIB/RX/AI/KBB/KBBList.cs:51-54 | the head is selected exactly when its utility is positive |
| KBB.ChooseIsBest | Assets/GameContent/Scripts/RXLIB/RX/AI/KBB/KBBList.cs:41-55 | on a sorted list, the selection has the highest utility, and nothing is selected exactly when no utility is positive |
| KBB.SortByUtility | Assets/GameContent/Scripts/RXLIB/RX/AI/KBB/KBBList.cs:38 | the result is a permutation of the list, in non-increasing utility |
| KBB.KBBList.UpdateKBB | Assets/GameContent/Scripts/RXLIB/RX/AI/KBB/KBBList.cs:33-39 | every behaviour is scored, and the list is permuted into non-increasing utility |
| KBB.KBBList.SelectKBB | Assets/GameContent/Scripts/RXLIB/RX/AI/KBB/KBBList.cs:41-55 | the selection is `Choose` of the sorted list |
| KBB.KBBList.UpdateList | Assets/GameContent/Scripts/RXLIB/RX/AI/KBB/KBBList.cs:14-31 | skips entirely while the list is empty or the selection is executing; otherwise scores, sorts, selects, and executes exactly the selected behaviour once; it throws exactly when the selected behaviour has no execute delegate, whatever the unselected ones lack |
| Blackboard.Default | Assets/GameContent/Scripts/RXLIB/RX/AI/AIBlackboard.cs:34-40 | `default(T)`: null for reference types, a zero value of the requested type otherwise |
| Blackboard.StringEntries | Assets/GameContent/Scripts/RXLIB/RX/AI/AIBlackboard.cs:48-62 | exactly the string-valued entries of the blackboard |
| Blackboard.AIBlackboard.HasKey | Assets/GameContent/Scripts/RXLIB/RX/AI/AIBlackboard.cs:11-14 | true exactly when the key is present |
| Blackboard.AIBlackboard.RemoveKey | Assets/GameContent/Scripts/RXLIB/RX/AI/AIBlackboard.cs:16-24 | removes the key, reporting whether it was present |
| Blackboard.AIBlackboard.HasValue | Assets/GameContent/Scripts/RXLIB/RX/AI/AIBlackboard.cs:26-32 | the key is present and its value has the requested type (null has none) |
| Blackboard.AIBlackboard.GetValue | Assets/GameContent/Scripts/RXLIB/RX/AI/AIBlackboard.cs:34-40 | the stored value when it has the requested type, otherwise the type's default |
| Blackboard.AIBlackboard.SetValue | Assets/GameContent/Scripts/RXLIB/RX/AI/AIBlackboard.cs:42-46 | the key maps to the value; nothing else changes |
| Blackboard.AIBlackboard.GetSaveData | Assets/GameContent/Scripts/RXLIB/RX/AI/AIBlackboard.cs:48-62 | a flat key,value list of the string entries, each pair stored, which loads back to exactly those entries |
| Blackboard.AIBlackboard.LoadFromData | Assets/GameContent/Scripts/RXLIB/RX/AI/AIBlackboard.cs:64-70 | stores each complete key,value pair over the current map; an odd-length list fails after the complete pairs |
| Blackboard.ApplyOver | Assets/GameContent/Scripts/RXLIB/RX/AI/AIBlackboard.cs:64-70 | loading overrides the current map with the loaded pairs |
| Blackboard.LaterPairWins | Assets/GameContent/Scripts/RXLIB/RX/AI/AIBlackboard.cs:64-70 | a key's last pair in the data decides its value |
| Blackboard.ReloadIsIdentity | Assets/GameContent/Scripts/RXLIB/RX/AI/AIBlackboard.cs:48-70 | loading a blackboard's own save data back into it changes nothing |
| Blackboard.SaveLoadRoundTrip | Assets/GameContent/Scripts/RXLIB/RX/AI/AIBlackboard.cs:48-70 | saving and loading into a fresh blackboard copies exactly the string entries |
| WorldGeneration.CreateAreaArray | Assets/GameContent/Scripts/Generate/WorldGeneration.cs:8-19 | a fresh width×height array filled with the value; a negative dimension throws and gives no array |
| WorldGeneration.CopyAreaArray | Assets/GameContent/Scripts/Generate/WorldGeneration.cs:24-37 | a fresh array with the same dimensions and cells |
| WorldGeneration.OpenCells | Assets/GameContent/Scripts/Generate/WorldGeneration.cs:51-59 | the candidate positions, each once: all cells, or the interior when edges are ignored |
| WorldGeneration.OpenCellList | Assets/GameContent/Scripts/Generate/WorldGeneration.cs:51-59 | the loop builds exactly those positions |
| WorldGeneration.CellsToSet | Assets/GameContent/Scripts/Generate/WorldGeneration.cs:61-62 | the number of cells to set lies between 0 and the number of candidates |
| WorldGeneration.Clamp01 | Assets/GameContent/Scripts/Generate/WorldGeneration.cs:61 | clamps into [0, 1] and leaves values already there unchanged |
| WorldGeneration.RoundToInt | Assets/GameContent/Scripts/Generate/WorldGeneration.cs:61-62 | rounds to the nearest integer, with ties to even |
| WorldGeneration.RandomizeAreaArray | Assets/GameContent/Scripts/Generate/WorldGeneration.cs:44-74 | a copy in which distinct candidate cells, as many as requested or all of them, are set to the value, and every other cell is kept |
| WorldGeneration.Hit | Assets/GameContent/Scripts/Generate/WorldGeneration.cs:121-129 | one neighbour counts exactly when it is not the cell itself, lies inside the grid, and holds 1 |
| WorldGeneration.NeighborCountBounded | Assets/GameContent/Scripts/Generate/WorldGeneration.cs:112-133 | a cell has at most 8 neighbours |
| WorldGeneration.IsolatedCellHasNoNeighbors | Assets/GameContent/Scripts/Generate/WorldGeneration.cs:117-131 | for any grid and any position, the count is zero exactly when none of the eight surrounding positions is an in-grid 1 |
| WorldGeneration.CountNeighbors | Assets/GameContent/Scripts/Generate/WorldGeneration.cs:112-133 | the loop counts the 8-neighbours holding 1, as `NeighborCount` defines |
| WorldGeneration.StepRule | Assets/GameContent/Scripts/Generate/WorldGeneration.cs:96-100 | a cell is 1 in the next generation exactly when it has at least `threshold` neighbours, else 0 |
| WorldGeneration.HighThresholdClears | Assets/GameContent/Scripts/Generate/WorldGeneration.cs:96-100 | a threshold above 8 clears the whole grid in one generation |
| WorldGeneration.EmptyStaysEmpty | Assets/GameContent/Scripts/Generate/WorldGeneration.cs:83-106 | an all-zero grid is a fixed point for any positive threshold |
| WorldGeneration.Generation | Assets/GameContent/Scripts/Generate/WorldGeneration.cs:89-104 | one synchronous generation, read from the previous grid only |
| WorldGeneration.CellularAutomata | Assets/GameContent/Scripts/Generate/WorldGeneration.cs:83-106 | a fresh array holding the grid after `loops` generations, and the input unchanged in effect |
| ListUtils.Clean | Assets/GameContent/Scripts/RXLIB/ListUtils.cs:12-33 | as written: the recorded null indices are removed one after another, without adjusting for earlier removals |
| ListUtils.CleanCorrected | Assets/GameContent/Scripts/RXLIB/ListUtils.cs:12-33 | as intended: the list loses every null and keeps the rest in order |
| ListUtils.NullIndicesExact | Assets/GameContent/Scripts/RXLIB/ListUtils.cs:16-22 | the recorded indices are exactly those of the nulls |
| ListUtils.CleanOneNull | Assets/GameContent/Scripts/RXLIB/ListUtils.cs:12-33 | with a single null, the as-written Clean is correct |
| ListUtils.CleanTwoNullsThrows | Assets/GameContent/Scripts/RXLIB/ListUtils.cs:24-31 | on [null, null], the as-written Clean indexes out of range |
| ListUtils.CleanTwoNullsKeepsOne | Assets/GameContent/Scripts/RXLIB/ListUtils.cs:24-31 | on [null, null, x], the as-written Clean removes x and leaves a null |
| ListUtils.CleanCorrectedExamples | Assets/GameContent/Scripts/RXLIB/ListUtils.cs:12-33 | the corrected Clean maps the same inputs to [] and [x] |
| ListUtils.CleanedHasNoNull | Assets/GameContent/Scripts/RXLIB/ListUtils.cs:12-33 | the corrected result has no null and keeps every non-null element |
| ListUtils.GetList | Assets/GameContent/Scripts/RXLIB/ListUtils.cs:35-47 | a fresh list with the queue's items in queue order |
| ListUtils.AddAll | Assets/GameContent/Scripts/RXLIB/ListUtils.cs:49-53 | the list's items are enqueued in order |
| ListUtils.Randomize | Assets/GameContent/Scripts/RXLIB/ListUtils.cs:55-65 | the shuffled list is a permutation of the original |
| ListUtils.ClipToSize | Assets/GameContent/Scripts/RXLIB/ListUtils.cs:67-77 | a fresh list with the first `size` items (all if fewer, none if negative) |
| ListUtils.FilterTo | Assets/GameContent/Scripts/RXLIB/ListUtils.cs:79-89 | a fresh list of the items the filter keeps, in order |
| ListUtils.Filter | Assets/GameContent/Scripts/RXLIB/ListUtils.cs:111-121 | the list is replaced in place by the items the filter keeps, in order |
| ListUtils.FilteredSound | Assets/GameContent/Scripts/RXLIB/ListUtils.cs:79-89 | every kept item was in the list and passes the filter, and none is duplicated |
| ListUtils.FilteredComplete | Assets/GameContent/Scripts/RXLIB/ListUtils.cs:79-89 | every item that passes the filter is kept |
| ListUtils.FilteredIdempotent | Assets/GameContent/Scripts/RXLIB/ListUtils.cs:111-121 | filtering twice equals filtering once |
| ListUtils.FirstSelected | Assets/GameContent/Scripts/RXLIB/ListUtils.cs:91-100 | the index of the first selected item, or the length when there is none |
| ListUtils.Select | Assets/GameContent/Scripts/RXLIB/ListUtils.cs:91-100 | the first selected item, or `default` when none is selected |
| ListUtils.Last | Assets/GameContent/Scripts/RXLIB/ListUtils.cs:102-109 | the final item of a non-empty list, `default` for an empty one |
| ListUtils.LastAppended | Assets/GameContent/Scripts/RXLIB/ListUtils.cs:102-109 | the last item of a list with x appended is x |
| RectUtils.ToRect | Assets/GameContent/Scripts/RXLIB/RectUtils.cs:10-13 | the float rectangle has exactly the position and size of the integer one |
| RectUtils.ToRectRoundTrip | Assets/GameContent/Scripts/RXLIB/RectUtils.cs:10-13 | truncating the float fields gives the integer rectangle back |
| RectUtils.CornersFormRectangle | Assets/GameContent/Scripts/RXLIB/RectUtils.cs:42-67 | the four corners are axis-aligned: BR−BL is (width, 0), TL−BL is (0, height), and TR shares x with BR and y with TL |
| RectUtils.ToRectKeepsCorners | Assets/GameContent/Scripts/RXLIB/RectUtils.cs:10-67 | the float corners of the converted rectangle are the integer corners |
| TagOutputSanitizer.ExtractTags | Assets/GameContent/Scripts/GenAI/Text/TagOutputSanitizer.cs:18-60 | fails exactly when `<` and `>` do not alternate starting with `<`; otherwise returns the text between each bracket pair, in order |
| TagOutputSanitizer.TagCountIsCloseCount | Assets/GameContent/Scripts/GenAI/Text/TagOutputSanitizer.cs:26-58 | on accepted text, there is one tag per `>` |
| TagOutputSanitizer.TagsHaveNoBrackets | Assets/GameContent/Scripts/GenAI/Text/TagOutputSanitizer.cs:26-58 | no extracted tag contains a bracket |
| TagOutputSanitizer.BracketPosExact | Assets/GameContent/Scripts/GenAI/Text/TagOutputSanitizer.cs:26-58 | the bracket positions are exactly the positions of `<` and `>` |
| TagOutputSanitizer.DoubleCloseFails | Assets/GameContent/Scripts/GenAI/Text/TagOutputSanitizer.cs:49-53 | a second `>` without an opening `<` is rejected |
| TagOutputSanitizer.SampleIsRejected | Assets/GameContent/Scripts/GenAI/Text/TagOutputSanitizer.cs:11-14 | the built-in test sentence is rejected |
| LoadSaveStoryUtils.Mask | Assets/GameContent/Scripts/LoadSaveStoryUtils.cs:51-61 | every invalid character becomes `%`, and the length is kept |
| LoadSaveStoryUtils.ToSafeFilename | Assets/GameContent/Scripts/LoadSaveStoryUtils.cs:43-68 | the loop computes `SafeName`: non-empty, and free of invalid characters when `%` is allowed |
| LoadSaveStoryUtils.SafeNameIsSafe | Assets/GameContent/Scripts/LoadSaveStoryUtils.cs:43-68 | a safe name is never empty and contains no invalid character |
| LoadSaveStoryUtils.BlankTitleIsPercent | Assets/GameContent/Scripts/LoadSaveStoryUtils.cs:45-46 | a null or blank title gives "%" |
| LoadSaveStoryUtils.NonBlankTitleIsMaskedTrim | Assets/GameContent/Scripts/LoadSaveStoryUtils.cs:48-67 | any other title gives its masked text, trimmed |
| LoadSaveStoryUtils.SafeNameEnds | Assets/GameContent/Scripts/LoadSaveStoryUtils.cs:48-67 | a safe name neither starts nor ends with whitespace |
| LoadSaveStoryUtils.SafeNameIdempotent | Assets/GameContent/Scripts/LoadSaveStoryUtils.cs:43-68 | making a safe name safe again changes nothing |
| LoadSaveStoryUtils.TitlesCanCollide | Assets/GameContent/Scripts/LoadSaveStoryUtils.cs:51-61 | different titles can map to the same file name ("a/b" and "a%b") |
| LoadSaveStoryUtils.GetBaseSaveFileName | Assets/GameContent/Scripts/LoadSaveStoryUtils.cs:36-41 | the save path, then the safe title, then "_Save_", the player name and ".es3" |
| DataUtils.SplitLines | Assets/GameContent/Scripts/GenAI/Agent/DataUtils.cs:52 | there is at least one piece and no piece contains '\n'; a '\r' not followed by '\n' may stay in a piece |
| DataUtils.SplitLinesCRLF | Assets/GameContent/Scripts/GenAI/Agent/DataUtils.cs:52 | Windows line endings split the same as Unix ones |
| DataUtils.SplitLinesUnix | Assets/GameContent/Scripts/GenAI/Agent/DataUtils.cs:52 | without carriage returns, splitting lines is splitting on '\n' |
| DataUtils.ReadLinesFromResources | Assets/GameContent/Scripts/GenAI/Agent/DataUtils.cs:39-64 | the trimmed lines that are neither blank nor `#` comments, in order; a null or empty path or a missing asset gives none |
| DataUtils.KeptLinesSound | Assets/GameContent/Scripts/GenAI/Agent/DataUtils.cs:53-61 | every returned line is trimmed, non-blank and not a `#` comment |
| DataUtils.KeptLinesComplete | Assets/GameContent/Scripts/GenAI/Agent/DataUtils.cs:53-61 | every input line that qualifies is returned |
| DataUtils.KeptLinesIdempotent | Assets/GameContent/Scripts/GenAI/Agent/DataUtils.cs:53-61 | filtering the returned lines again changes nothing |
| DataUtils.ParseData | Assets/GameContent/Scripts/GenAI/Agent/DataUtils.cs:10-32 | one trimmed [key, value] pair per line containing `|`, in order |
| DataUtils.ParseLineSkips | Assets/GameContent/Scripts/GenAI/Agent/DataUtils.cs:17-22 | a line is skipped exactly when it has no `|` |
| DataUtils.ParseLineKey | Assets/GameContent/Scripts/GenAI/Agent/DataUtils.cs:24 | the key is the trimmed text before the first `|`, and neither part contains `|` |
| DataUtils.ParseLineOfEntry | Assets/GameContent/Scripts/GenAI/Agent/DataUtils.cs:17-28 | parsing `key|value` gives back the key and value |
| DataUtils.EmptyValue | Assets/GameContent/Scripts/GenAI/Agent/DataUtils.cs:17-28 | a line ending in `|` gives an empty value |
| DataUtils.EntriesShape | Assets/GameContent/Scripts/GenAI/Agent/DataUtils.cs:10-32 | every entry is a pair with no `|` in it |
| DataUtils.EntriesComplete | Assets/GameContent/Scripts/GenAI/Agent/DataUtils.cs:10-32 | every line with a `|` yields an entry |
| BaseData.ReplaceAll | Assets/GameContent/Scripts/GenAI/Agent/BaseData.cs:41-47 | null input gives null; a null or empty pattern leaves the input unchanged |
| BaseData.ReplaceAbsent | Assets/GameContent/Scripts/GenAI/Agent/BaseData.cs:41-47 | text without the pattern is unchanged |
| BaseData.ReplaceSelf | Assets/GameContent/Scripts/GenAI/Agent/BaseData.cs:41-47 | replacing a pattern with itself changes nothing |
| BaseData.ReplaceNoOverlap | Assets/GameContent/Scripts/GenAI/Agent/BaseData.cs:41-47 | matches do not overlap and are taken left to right |
| BaseData.ReplaceCharRoundTrip | Assets/GameContent/Scripts/GenAI/Agent/BaseData.cs:46 | replacing a character with a fresh one and back restores the text |
| BaseData.LastEntryWins | Assets/GameContent/Scripts/GenAI/Agent/BaseData.cs:18-30 | a field ends with the value of its last entry, with `{user}` replaced |
| BaseData.UnsetKeeps | Assets/GameContent/Scripts/GenAI/Agent/BaseData.cs:18-30 | a field with no entry keeps its value |
| BaseData.BaseData.constructor | Assets/GameContent/Scripts/GenAI/Agent/BaseData.cs:13-16 | a fresh identity and the name "New Data" |
| BaseData.BaseData.LoadFromResourcePath | Assets/GameContent/Scripts/GenAI/Agent/BaseData.cs:18-30 | the name is the loaded value of "dataName", and the identity is kept |
| CharacterData.KeysDistinct | Assets/GameContent/Scripts/GenAI/Agent/CharacterData.cs:29-63 | the ten field keys are pairwise distinct, so each entry sets at most one field |
| CharacterData.CharacterData.constructor | Assets/GameContent/Scripts/GenAI/Agent/CharacterData.cs:10-21 | the default character description |
| CharacterData.CharacterData.ApplyEntry | Assets/GameContent/Scripts/GenAI/Agent/CharacterData.cs:29-63 | one entry updates exactly the field its key names |
| CharacterData.CharacterData.LoadFromResourcePath | Assets/GameContent/Scripts/GenAI/Agent/CharacterData.cs:23-64 | every field, including the base name, is the loaded value of its key |
| LocationData.LocationData.constructor | Assets/GameContent/Scripts/GenAI/Agent/LocationData.cs:9 | the default location description |
| LocationData.LocationData.LoadFromResourcePath | Assets/GameContent/Scripts/GenAI/Agent/LocationData.cs:11-23 | the name and the description are the loaded values of their keys |
| ParsingUtils.ScanMeaning | Assets/GameContent/Scripts/RXLIB/ParsingUtils.cs:41-83 | a comma is masked exactly when the mode says so for the parenthesis and quote state before it; every other character is kept |
| ParsingUtils.ConvertFunctionString | Assets/GameContent/Scripts/RXLIB/ParsingUtils.cs:41-61 | commas inside parentheses and outside quotes become `$`, and nothing else changes |
| ParsingUtils.ConvertFunctionListString | Assets/GameContent/Scripts/RXLIB/ParsingUtils.cs:63-83 | commas outside parentheses and quotes become `$`, and nothing else changes |
| ParsingUtils.QuotedArgs | Assets/GameContent/Scripts/RXLIB/ParsingUtils.cs:26-36 | arguments keep only quoted tokens, one at most per token |
| ParsingUtils.ParseMasked | Assets/GameContent/Scripts/RXLIB/ParsingUtils.cs:15-36 | on success, the first element is the trimmed text before `(` |
| ParsingUtils.ParseFunction | Assets/GameContent/Scripts/RXLIB/ParsingUtils.cs:11-39 | on success, the first element is the function name, taken after masking |
| ParsingUtils.ParseEncode | Assets/GameContent/Scripts/RXLIB/ParsingUtils.cs:11-39 | parsing `name("a1","a2",…)` gives back the name and the arguments |
| ParsingUtils.NameAloneFails | Assets/GameContent/Scripts/RXLIB/ParsingUtils.cs:18-20 | a bare name without parentheses is an error |
| ParsingUtils.DollarSplitsArgument | Assets/GameContent/Scripts/RXLIB/ParsingUtils.cs:9-36 | a `$` inside a quoted argument splits it: the first half, without its last character, is kept and the second half is dropped |
| Text.TrimShape | Assets/GameContent/Scripts/GenAI/Agent/DataUtils.cs:55 | Trim removes exactly the leading and trailing whitespace |
| Text.SplitJoin | Assets/GameContent/Scripts/GenAI/Agent/DataUtils.cs:52 | joining the pieces of a split gives back the text |
| Text.JoinSplit | Assets/GameContent/Scripts/RXLIB/ParsingUtils.cs:22 | splitting separator-free pieces after joining them gives them back |

## Left out

- **Floats.**
  - A* costs are integers, with every `Distance` at least 1. The `max(0.0001, Distance)` floor and the `EPS` comparisons are then exact, and they are modelled as such.
  - Utilities are reals. `perc` and rounding in `RandomizeAreaArray` are reals with `Mathf.RoundToInt`'s ties-to-even.
  - Time is an integer tick count.
  - RectUtils: float fields are reals. The rounding of an int→float conversion above 2^24 in magnitude is not modelled, so ToRect copies every integer exactly.
- AStarSearch.PopBest: the `long` casts of coordinates are taken to be exact. Overflow of the 64-bit products is not modelled.
- AStarRange.FindRange: the order of the result is not stated. The source lists cells in the order they are first given a cost. The model promises only which cells are listed, each once. Its one caller, `MapManager.GetCellsInRange`, maps the list cell by cell and does not depend on the order.
- AStarSearch.Expand: the source's reset of `touched` nodes is commented out, so the model only promises that the touched set grows.
- AStarSearch.Expand: the G/H/Parent scratch fields are maps held in one object. `RelaxNeighbours` works on copies of them that `Expand` writes back, so aliasing between nodes is not modelled.
- `IAStarNode` is not implemented in the repository. Its neighbours are the four orthogonal cells in the grid map, in up/down/left/right order. `GetNodeAt` is map lookup.
- AStarPattern.FindPattern: its error message asks for "exactly one -1", but the code takes the first -1 in row-major order. The model follows the code.
- HTNNode's `Execute`, `Initialize` and `GetTree`: delegate calls and a root lookup that the model records only as the `initialized` trace and the root's `goalTree` link.
- `HTNGoalContainer.GetStackName` is not modelled. It depends on the enumeration order of a .NET dictionary.
- HTNGoalContainer's static `stackDef` table is a `StackDefs` object handed to every container's constructor; the containers of one program share one such object.
- HTNGoalContainer's static `allGoalContainers` registry, keyed by Unity GameObjects, is not modelled.
- HTN delegates take the node's name rather than the node, because a Dafny function stored in a node cannot read that node.
- HTN.HTNGoalContainer.CleanUpGoals: its event log covers the most recent call only, not the whole history.
- `GameAbility.FinishAbilityDelay` is a coroutine that waits real time before `FinishAbility`. It is left out. Object destruction is a `destroyed` flag.
- `GameAbility`'s `DrawArea`/`DrawPath` are not defined in the repository, so they are recorded as trace events.
- GridOrderUtils.GridMoveOrder.DoUpdate: the `Lerp` interpolation of the transform is left out; only the waypoint steps are modelled.
- CharacterData derives from `AgentData`, whose source is not available. The model takes its loader to be the `BaseData` one, so anything AgentData adds (such as `agentRole`) is not modelled.
- GridOrderUtils.GridMoveOrder: the map manager calls of `DoStart` (DeselectCell) and `DoComplete` (DeselectPath, SelectCell) change only the selection display and are left out. That cancelling runs the same `DoComplete` is stated at hook level by OrderUtils.BasicCancelCompletes.
- TileCells.TileCell.SetContents: the transform snap of the occupant is left out.
- Unity rendering, `Debug.Log` warnings, ES3 save/load and `Resources.Load` are left out. Loaded text is a parameter; a missing asset is `None`.
- `ListUtils.Randomize` and `RandomizeAreaArray` pick by nondeterministic choice rather than `Random.Range`. Their contracts hold for every choice.
- Randomness and GUIDs are parameters (constructors take the identity).
- FSMTransition and KnowledgeBasedBehavior are folded into the FSM and KBB modules as a record and a small class.

## Findings

| source | as written | input that shows it | evidently intended | confidence | as-written member | corrected member |
|---|---|---|---|---|---|---|
| Assets/GameContent/Scripts/RXLIB/ListUtils.cs:16-31 | `Clean` records the indices of all nulls, then calls `RemoveAt` on each recorded index in turn. Earlier removals shift later elements, so the indices go stale. | `[null, null]` throws (index 1 is out of range once one element is gone), and `[null, null, x]` becomes `[null]` | remove every null and keep the other items in order | not executed | ListUtils.Clean (ListUtils.CleanTwoNullsThrows, ListUtils.CleanTwoNullsKeepsOne) | ListUtils.CleanCorrected (ListUtils.CleanedHasNoNull, ListUtils.CleanCorrectedExamples) |
