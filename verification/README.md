# ofxSeam in Dafny

ofxSeam is a node editor runtime for generative visuals: nodes with input and output pins form a
graph, a frame updates the dirty nodes of the visible part of the graph parents first, and an audio
thread runs beside the main thread. This project models its hardest parts and proves what they
promise.

- **Octree** (`OctreeCells`, `OctreeTree`, `OctreeSplits`, `Octree`, `OctreeRun`). `OctreeCells` has the geometry,
  `OctreeTree` the value a tree stands for and what routing, capacity, splitting, collapsing and
  searching mean on it. `Octree` has the heap structure: nodes with parent pointers and counts that
  `Add`, `Remove` and `Update` change in place, tied to the value by two ghost fields. `OctreeSplits`
  says when the nested splits of `Add` come to an end. `OctreeRun`
  compares whole runs with a plain list: every search of the octree answers as a linear scan.
- **Node graph** (`Lists`, `GraphOrder`, `Nodes`, `TraversalOrder`, `CyclicOrder`, `SeamGraph`,
  `FrameUpdate`). The links
  between pins are the ground truth. In every valid state the parent and child lists count those
  links and every `update_order` is the length of the longest path that ends at its node. `Connect`,
  `Disconnect`, `DeleteNode` and `CreateAndAdd` keep states valid, through the invalidate-then-recompute
  recursion of `TraversalOrder`; `CyclicOrder` says when that recursion returns at all, and that what
  it returns is then such an order. `FrameUpdate`
  is one frame, for any behaviour of the nodes' own `Update()`; every call of one enters a record of
  the frame, and the results are about that record.
- **Audio handshake** (`AudioHandshake`). The two threads as a state machine with one step for each
  atomic load or store, safe over all interleavings exactly when `NewGraph` is compiled with its wait.
  With it, a call of `ProcessAudio` that finds the lock down processes every listed node once and in
  order, whatever the main thread does meanwhile.
- **Texture locations** (`TextureLocations`), **threshold** (`Threshold`), **buffers** (`Buffers`,
  `PinCopy`, `PinValues`, `PushPatterns`): the reference-counted slots that compact by swapping, the
  sustain and silence times, the flat and the strided copy, pin values written to a list and read
  back, and the push patterns.

These promises hold only under a condition, which is proved to be the exact one:

- the nested splits of `Add` come to an end exactly when fewer than N stored items sit at the very
  position of the new one (`OctreeSplits.AddEndsIff`); `OctreeSplits.CrowdedNeverEnds` has an octree
  on which they never do;
- `Connect` returns exactly when the new edge closes no cycle (`CyclicOrder.ReturnsIff`), and keeps
  the two ends of all connections in agreement exactly when the input was free
  (`SeamGraph.SeamGraph.WirePins`);
- the handshake is safe exactly when `NewGraph` waits for the audio thread, which the code does only
  under `BUILD_AUDIO_ANALYSIS` (`AudioHandshake.SafeIffNewGraphWaits`, with a run for each way it
  goes wrong);
- `Bind` keeps the texture slots in order exactly when it is not asked to bind null to a free slot or
  to count past the last `uint32_t` (`TextureLocations.TextureLocationResolver.Bind`);
- repeat comes to an end exactly when there is something to repeat or nothing to fill, and reverse
  repeat when there is nothing to fill, or something to repeat and a destination of whole elements
  (`PushPatterns.RepeatEndsIff`, `PushPatterns.ReverseEndsIff`).

## Model

| member | source | states |
|---|---|---|
| OctreeCells.IntersectionMeans | src/seam/containers/octree.h:266-301 | the box test answers Full exactly for cells inside the search box, and None exactly for cells it does not overlap |
| OctreeCells.ChildrenTileParent | src/seam/containers/octree.h:381-406 | the eight closed cells cover exactly their parent, and away from the dividing planes a position lies in the cell of its index only |
| OctreeCells.PrunedCellHoldsNothing | src/seam/containers/octree.h:266-301 | a cell for which the box test says None holds no position of the search sphere |
| OctreeCells.OutOfBoundsIsPruned | src/seam/containers/octree.h:381-386 | a position outside a cell is pruned by a search at that very position, so the bounds assertion is needed |
| OctreeCells.DistinctPositionsSeparate | src/seam/containers/octree.h:395-406 | halving cells parts any two distinct positions at a finite depth |
| OctreeTree.FindLeafReachesItem | src/seam/containers/octree.h:303-325 | in a routed tree the position of a stored item leads to the leaf that holds every occurrence of it |
| OctreeTree.SameLeafKeepsRouting | src/seam/containers/octree.h:46-58 | the shortcut of Update: if both positions lead to one leaf, the tree is already routed for the new position |
| OctreeTree.FiledSplit | src/seam/containers/octree.h:327-340 | turning a leaf into a branch keeps routing, capacity, bounds and the stored items |
| OctreeTree.SplitKidsInOrder | src/seam/containers/octree.h:327-340 | each child of a split gets the items whose index it has, in the order they had |
| OctreeTree.FiledAppend | src/seam/containers/octree.h:148-156 | an item appended to the leaf its position leads to, if there is room, keeps them too and is the only item added |
| OctreeTree.FiledRemove | src/seam/containers/octree.h:178-186 | the swap removal takes out one occurrence and keeps the rest filed |
| OctreeTree.FiledCollapse | src/seam/containers/octree.h:342-369 | folding a branch of at most N items into one leaf keeps the tree filed and its items as they were |
| OctreeTree.CompanyThins | src/seam/containers/octree.h:135-147 | at some finite depth the cell of a position holds only the items at that very position |
| OctreeTree.CompanyAtLeastCoincident | src/seam/containers/octree.h:135-147 | items at one position share the cell at every depth, so splitting never parts them |
| OctreeTree.CoincidentFit | src/seam/containers/octree.h:135-147 | no tree of capacity N that routes by position stores more than N items at one position |
| OctreeTree.ScanCounts | src/seam/containers/octree.h:247-264 | a linear scan finds each item in range as often as it is stored and nothing else |
| OctreeSplits.SplitStaysFull | src/seam/containers/octree.h:327-340 | a leaf with n items at one position is split into a child that has n items again |
| OctreeSplits.AddEndsIff | src/seam/containers/octree.h:135-147 | the second attempts of Add reach a leaf with room after some number of splits, if and only if fewer than N stored items sit at the position |
| OctreeSplits.CrowdedNeverEnds | src/seam/containers/octree.h:12-16 | for every N an octree with N items at its center, on which an addition there meets a full leaf after any number of splits |
| Octree.ByteLoopEnds | src/seam/containers/octree.h:166-174 | the uint8_t loops over the items of a leaf end exactly when it holds at most 255 items |
| Octree.Octree.constructor | src/seam/containers/octree.h:23-28 | a new octree is valid and stores nothing |
| Octree.Octree.Count | src/seam/containers/octree.h:34-36 | the count of the root is the number of stored items |
| Octree.Octree.AdjustCounts | src/seam/containers/octree.h:151-156 | the walk along the parent pointers changes the count of every node from the leaf to the root by the same amount |
| Octree.Octree.FindLeaf | src/seam/containers/octree.h:303-325 | reaches the leaf or the empty place that the position leads to, with its parent, index and cell |
| Octree.Octree.SplitLeaf | src/seam/containers/octree.h:327-340 | distributes the items over fresh leaves by octant and counts them in the new branch |
| Octree.Octree.SplitFullLeaf | src/seam/containers/octree.h:135-143 | exchanges a full leaf for its split, all counts along the parent pointers staying right |
| Octree.Octree.AddToLeaf | src/seam/containers/octree.h:135-157 | adds at the leaf, splitting as often as needed, within the depth that parts the items |
| Octree.Octree.Add | src/seam/containers/octree.h:38-40 | adds exactly one item, in a new leaf, at the end of a leaf with room or through a split of a full leaf, changes nothing elsewhere, and keeps the whole tree valid and filed |
| Octree.Octree.TakeItems | src/seam/containers/octree.h:354-362 | the items of a child join the collapsed leaf in order |
| Octree.Octree.GatherChildren | src/seam/containers/octree.h:345-363 | collapses inner branches child by child and gathers exactly the items of the branch |
| Octree.Octree.CollapseBranch | src/seam/containers/octree.h:342-369 | replaces a branch of at most N items by one leaf that holds exactly its items, all counts and pointers staying right |
| Octree.Octree.FindChildIndex | src/seam/containers/octree.h:371-379 | finds the index under which the parent holds the branch |
| Octree.Octree.Search | src/seam/containers/octree.h:166-174 | finds the first occurrence of an item in a leaf if there is one |
| Octree.Octree.CollapseIfSparse | src/seam/containers/octree.h:188-191 | folds a branch below the root with fewer than N/2 items, and only then |
| Octree.Octree.Remove | src/seam/containers/octree.h:160-193 | takes the first occurrence out of the leaf the position leads to, folds the parent exactly when it is below the root and holds fewer than N/2 items, changes nothing elsewhere, and keeps the whole tree valid and filed |
| Octree.Octree.Update | src/seam/containers/octree.h:46-58 | keeps the stored items and leaves the tree filed for the position the caller is about to write, unchanged when both positions lead to one leaf, which may hold the item any number of times |
| Octree.Octree.AddLeafItems | src/seam/containers/octree.h:247-264 | appends the linear scan of a leaf and counts it |
| Octree.Octree.AddItems | src/seam/containers/octree.h:228-245 | appends the linear scan of everything below a node |
| Octree.Octree.FindItemsBelow | src/seam/containers/octree.h:195-226 | the pruned search below a node yields the linear scan of its items |
| Octree.Octree.FindItems | src/seam/containers/octree.h:67-70 | yields the stored items at most the radius away from the center, in coordinates, each as often as it is stored, and their number |
| OctreeRun.RoomIsNeeded | src/seam/containers/octree.h:12-16 | where the bound on coinciding items fails, no octree of capacity N stores the result of the addition |
| OctreeRun.Apply | src/seam/containers/octree.h:38-70 | one operation keeps the octree in step with a plain list |
| OctreeRun.Run | src/seam/containers/octree.h:474-497 | over any sequence of additions, removals, moves and searches every search answers as a linear scan of the list |
| GraphOrder.OrderIsLongestPath | src/seam/nodes/iNode.h:251-253 | orders that are one above the highest parent everywhere are the lengths of the longest paths |
| GraphOrder.OrderBelowCount | src/seam/nodes/iNode.h:251-253 | such an order is below the number of nodes |
| GraphOrder.NewEdgeAllowedIff | src/seam/seamGraph.cpp:567-567 | a new edge leaves an order possible exactly when the child does not reach the parent |
| Nodes.INode.AddParent | src/seam/nodes/iNode.cpp:94-110 | counts a connection in an entry for the parent where lower_bound lands, bumping the one there or inserting before it; the other entries keep their order and a list sorted by update order stays sorted |
| Nodes.INode.AddChild | src/seam/nodes/iNode.cpp:112-127 | counts a connection in the one entry for the child, at the end exactly when there was none; the other entries stay in their places |
| Nodes.INode.LowerBound | src/seam/nodes/iNode.cpp:99-99 | some position, and on a sorted list the first one that is not below |
| TraversalOrder.InvalidateChildren | src/seam/seamGraph.cpp:588-598 | marks the node, only its descendants, and leaves no unmarked node below a newly marked one although it stops at marked nodes |
| TraversalOrder.InvalidatedBelow | src/seam/seamGraph.cpp:588-598 | from a graph without marks, exactly the node and its descendants are marked |
| TraversalOrder.RecalculateUpdateOrder | src/seam/seamGraph.cpp:561-586 | ends, gives marked nodes the order their parents ask for, changes no valid order and leaves nothing marked below what it settled, although it re-enters the node it computes |
| TraversalOrder.MaxFits | src/seam/seamGraph.cpp:569-578 | the next order never leaves the int16_t |
| TraversalOrder.RecalculateTraversalOrder | src/seam/seamGraph.cpp:600-604 | every update order satisfies its equation again, and nodes that are not below the edited one keep theirs |
| CyclicOrder.ClosingEdgeNeverEnds | src/seam/seamGraph.cpp:561-586 | on a cycle the recursion exceeds every depth, since every marked node there waits for a marked parent |
| CyclicOrder.ReturnsIff | src/seam/seamGraph.cpp:561-604 | after a new edge the recomputation returns, if and only if the child did not reach the parent before |
| CyclicOrder.ReturnedIsOrdered | src/seam/seamGraph.cpp:561-604 | whenever the recomputation returns, every node of the enlarged graph is one above its highest parent, and nodes that are not below the child keep their orders |
| SeamGraph.SeamGraph.OrdersAreLongestPaths | src/seam/nodes/iNode.h:251-253 | in a valid graph every order is the longest path to its node, above every parent's, below every child's and below the number of nodes |
| SeamGraph.SeamGraph.CountsFitInputs | src/seam/nodes/iNode.h:218-223 | a connection count never exceeds the number of input pins of the child |
| SeamGraph.SeamGraph.EntryIffEdge | src/seam/nodes/iNode.h:218-223 | two nodes have list entries for each other exactly when some pin connects them |
| SeamGraph.SeamGraph.WirePins | src/seam/seamGraph.cpp:454-455 | the two ends of all connections go on knowing each other, if and only if the input was free |
| SeamGraph.SeamGraph.CountLink | src/seam/seamGraph.cpp:468-473 | for every pair of nodes both lists go on adding up to the number of pin connections |
| SeamGraph.SeamGraph.CountUnlink | src/seam/seamGraph.cpp:520-544 | the same when a connection goes, with the entry when its last connection goes |
| SeamGraph.SeamGraph.Connect | src/seam/seamGraph.cpp:441-480 | adds one connection and its edge, counts it in one entry of each list with the other entries in order, leaves a sorted parent list sorted by the new orders, renumbers descendants of the child only, and keeps the graph valid |
| SeamGraph.SeamGraph.Disconnect | src/seam/seamGraph.cpp:482-552 | takes out one connection and no other, its count from the first entry of each list with the other entries in order, leaves a sorted parent list sorted by the new orders, and keeps the graph valid |
| SeamGraph.SeamGraph.DisconnectInputs | src/seam/seamGraph.cpp:395-401 | frees every input of a node and no connection between other nodes |
| SeamGraph.SeamGraph.DisconnectOutputs | src/seam/seamGraph.cpp:403-410 | empties every output of a node and frees no connection between other nodes |
| Lists.EraseFromDistinct | src/seam/seamGraph.cpp:10-16 | erasing from a list without duplicates leaves exactly the others |
| Lists.EraseTakesOut | src/seam/seamGraph.cpp:10-16 | erasing takes out the first occurrence, if there is one, and leaves everything before and after it as it was |
| SeamGraph.SeamGraph.NoOthersNamed | src/seam/seamGraph.cpp:412-427 | in a valid graph no list, entry or connection refers to a node that is not in it |
| SeamGraph.SeamGraph.DeleteNode | src/seam/seamGraph.cpp:392-428 | nothing refers to the node any more, every list keeps its other nodes in order, every other connection stays, and the graph stays valid with orders of what remains |
| SeamGraph.SeamGraph.CreateAndAdd | src/seam/seamGraph.cpp:350-372 | a new node enters exactly the lists it belongs in, the visible nodes at its place by update order, no edge changes and the graph stays valid |
| SeamGraph.SeamGraph.UpperBound | src/seam/seamGraph.cpp:363-364 | some position among the visible nodes, and on a sorted list the one behind all nodes that are not above |
| FrameUpdate.SetDirty | src/seam/nodes/iNode.h:193-200 | dirties the node and its descendants and nothing else |
| FrameUpdate.UpdateStep | src/seam/seamGraph.cpp:242-251 | an update of a dirty node whose ancestors are finished keeps the frame invariant, whatever descendants it dirties |
| FrameUpdate.UpdateNode | src/seam/seamGraph.cpp:243-244 | a call of any Update() enters the record, with the nodes it dirties, all of them descendants |
| FrameUpdate.UpdateVisibleNodeGraph | src/seam/seamGraph.cpp:231-252 | finishes the node and its ancestors; the recorded updates are those of the ones that were or got dirty, once each and after their ancestors |
| FrameUpdate.UpdateEarly | src/seam/seamGraph.cpp:258-278 | dirties the nodes that update over time and updates each node that updates every frame once if it is dirty in its turn |
| FrameUpdate.Update | src/seam/seamGraph.cpp:254-284 | over the visible nodes and their ancestors the traversal updates exactly those that were dirty or got dirty, once and after their ancestors; all end clean, no recorded update and no dirt is without a reason, and the updated visual nodes are in nodesToDraw once each |
| FrameUpdate.UpdateCounts | src/seam/seamGraph.cpp:273-283 | an updated visible node or ancestor is on record once, and once more exactly if the first loops updated it |
| AudioHandshake.InvAlways | src/seam/seamGraph.cpp:286-348 | with the wait, the invariant holds in every state of every run |
| AudioHandshake.ChangeMeans | src/seam/seamGraph.cpp:374-424 | a new audio node joins at the end of the list, a deleted one leaves its place, NewGraph leaves nothing, and no other step changes the list |
| AudioHandshake.ListedAlways | src/seam/seamGraph.cpp:374-424 | in every state of every run each audio node that is not just being created or deleted is in the list |
| AudioHandshake.CallProcessesAll | src/seam/seamGraph.cpp:295-315 | a call that ends its loop has processed exactly the listed nodes, in order and once each, every node not in transit among them, whatever the main thread did meanwhile |
| AudioHandshake.LoopEnds | src/seam/seamGraph.cpp:310-314 | the loop is at its end exactly after two audio steps for each listed node and one more, over all interleavings |
| AudioHandshake.UnlockedCallProcesses | src/seam/seamGraph.cpp:305-314 | a call that finds the lock down goes through the whole loop |
| AudioHandshake.DeletedNodeIsProcessed | src/seam/seamGraph.cpp:333-337 | without the wait there is a run in which the audio thread processes a deleted node |
| AudioHandshake.ClearOverlapsPush | src/seam/seamGraph.cpp:374-382 | without the wait there is a run in which the deferred clear overlaps a push |
| AudioHandshake.SafeIffNewGraphWaits | src/seam/seamGraph.cpp:286-348 | over all interleavings audioNodes is never used by both threads and no deleted node is processed, if and only if NewGraph waits |
| AudioHandshake.WaitsCanEnd | src/seam/seamGraph.cpp:286-293 | neither wait of the main thread is a deadlock |
| TextureLocations.NumberedCovers | src/seam/textureLocationResolver.cpp:8-12 | the locations are a permutation of 1 to n |
| TextureLocations.TextureLocationResolver.constructor | src/seam/textureLocationResolver.cpp:6-13 | n free locations, nothing bound |
| TextureLocations.TextureLocationResolver.Found | src/seam/textureLocationResolver.cpp:84-90 | the search finds the slot of a texture in use, the first free slot for null and the end for anything else |
| TextureLocations.TextureLocationResolver.Bind | src/seam/textureLocationResolver.cpp:15-46 | counts up a texture in use, gives a new one a location nobody has, answers UINT32_MAX when all are taken, and keeps the slots in order exactly for the bindings it can carry |
| TextureLocations.TextureLocationResolver.Release | src/seam/textureLocationResolver.cpp:48-64 | counts down, and frees the location exactly when the last binding goes |
| TextureLocations.TextureLocationResolver.ReleaseAll | src/seam/textureLocationResolver.cpp:66-76 | frees the location of the texture and touches no other |
| TextureLocations.Released | src/seam/textureLocationResolver.cpp:92-102 | the swap keeps every other texture at its location and the used slots in front |
| TextureLocations.TextureLocationResolver.LocationsDistinct | src/seam/textureLocationResolver.h:39-42 | textures in use have different locations between 1 and n |
| TextureLocations.Run | src/seam/textureLocationResolver.h:15-27 | over any run the counts are those of a reference map, and a texture that stays in use keeps its location |
| Threshold.Update | src/seam/nodes/threshold.cpp:18-67 | every channel compares its value with its trigger value, adds to or resets its time, and turns exactly past its sustain or silence time; it pushes true and a flow event when it turns on, in this order, false when it turns off, and nothing else |
| Threshold.ClockIsStretch | src/seam/nodes/threshold.cpp:31-65 | the time of a channel is that of the longest stretch of samples against its state since the state began |
| Threshold.FlipsIff | src/seam/nodes/threshold.h:25-34 | a channel changes its state exactly at the end of a stretch of samples, all against the state, that lasts longer than the sustain or silence time |
| Threshold.TurnsOnIff | src/seam/nodes/threshold.cpp:31-65 | an idle channel turns on exactly at the end of a stretch of samples at or above the trigger value that lasts longer than the sustain time |
| Threshold.TurnsOffIff | src/seam/nodes/threshold.cpp:31-65 | a channel that is on turns off exactly at the end of a stretch of samples below the trigger value that lasts longer than the silence time |
| Threshold.PushesAlternate | src/seam/nodes/threshold.cpp:31-65 | pushed states alternate, and there is one flow event for every rise |
| PinCopy.CopyFlat | src/seam/pins/pinConnection.cpp:147-154 | one copy of as many bytes as there are and the pin holds |
| PinCopy.CopyStrided | src/seam/pins/pinConnection.cpp:173-192 | copies the common values of the common elements, each element to its place; when the stride covers an element, every byte that both sides have is found at its element and offset |
| PinCopy.StridedElement | src/seam/pins/pinConnection.cpp:179-190 | when the stride covers an element, every copied element is found in its place |
| PinCopy.StridedGap | src/seam/pins/pinConnection.cpp:179-190 | bytes outside the copied elements stay as they were |
| PinCopy.OneCopyIsStrided | src/seam/pins/pinConnection.cpp:142-154 | where the single copy is chosen it leaves the buffer as the strided copy would |
| PinValues.DecodeEncode | src/seam/properties/nodeProperty.cpp:23-59 | a value is read back from memory as it was written |
| PinValues.EncodeMeans | src/seam/properties/nodeProperty.cpp:101-140 | what is written stands for the value in the same sense |
| PinValues.Serialize | src/seam/properties/nodeProperty.cpp:10-59 | lists value j of element i, as its bytes in memory give it, at i * numCoords + j, and nothing beyond |
| PinValues.GuardMeans | src/seam/properties/nodeProperty.cpp:102-103 | the loop guard, wrap-around of size_t included, holds exactly when the list has a whole row for the element |
| PinValues.Deserialize | src/seam/properties/nodeProperty.cpp:76-151 | puts the rows the list has to the elements the pin has, where their bytes stand for the listed values when the stride covers an element; never reads past the list, and does nothing if the first value is of another type |
| PinValues.RoundTrip | src/seam/properties/nodeProperty.cpp:76-151 | values written from one pin and read into another are restored byte by byte, for any strides |
| PinValues.BetweenElements | src/seam/properties/nodeProperty.cpp:103-108 | no byte between elements changes |
| PushPatterns.OneToOne | src/seam/pins/push.cpp:13-20 | copies once, as much as there is and fits |
| PushPatterns.RepeatEndsIff | src/seam/pins/push.cpp:27-32 | the loop ends exactly when there is something to repeat or nothing to fill |
| PushPatterns.Repeat | src/seam/pins/push.cpp:22-33 | byte k of the destination is byte k mod n of the source, and no byte outside is written |
| PushPatterns.MirroredElement | src/seam/pins/push.cpp:35-49 | byte by byte, element j of the reversed source is element n - 1 - (j mod n) |
| PushPatterns.ReverseRepeat | src/seam/pins/push.cpp:35-49 | fills the destination with the reversed source, element by element, and writes no byte outside |
| PushPatterns.ReverseEndsIff | src/seam/pins/push.cpp:40-48 | from a source of whole elements the two loops end exactly when there is nothing to fill, or something to repeat and a destination of whole elements |
| PushPatterns.PushPatterns.Register | src/seam/pins/push.cpp:54-66 | the sorted list stands for a map in which the id now names the pattern; answers whether it named one before |
| PushPatterns.PushPatterns.Get | src/seam/pins/push.cpp:68-77 | the pattern registered under an id |

## Left out

- Octree.Octree.Add: coordinates are reals, GetPosition is a map from items to positions, N lies between 1 and 255 (Octree.ByteLoopEnds says why), item slots past the count and the memory of dropped nodes are not modelled.
- Octree.Octree.Remove: an item that is not in the leaf its position leads to is excluded, as by the assertions at octree.h:164 and 176.
- Octree.Octree.Update: an item stored more than once may not change its leaf, since the new position holds for all its occurrences but only one of them moves.
- SeamGraph.SeamGraph.Connect: requires a free input and an edge that closes no cycle; what the code does otherwise is stated by SeamGraph.SeamGraph.WirePins and CyclicOrder.ReturnsIff. The OnConnected callbacks and the push pattern id of the pin are not modelled.
- SeamGraph.SeamGraph.Disconnect: the OnDisconnected callbacks and the clearing of FBO buffers are not modelled.
- SeamGraph.SeamGraph.DeleteNode: pins are top-level pins; visualOutputNode and the audio node list (see AudioHandshake) are not part of the class.
- SeamGraph.SeamGraph.CreateAndAdd: the node comes as a parameter instead of from the factory; Setup and resizing are foreign calls.
- FrameUpdate.UpdateVisibleNodeGraph: every call walks its own list of parents, as the comment at seamGraph.cpp:232-233 describes; the shared static vector that recursion overwrites is not modelled, nor are overrides of InUseParents.
- FrameUpdate.UpdateNode: an Update() dirties children through its pins and nothing else; the values it pushes are not modelled.
- AudioHandshake.Init: that the flags start false is assumed; seamGraph.h:143-145 leaves them to the default constructor of std::atomic, which does not set them before C++20.
- AudioHandshake.MainStep: atomics are sequentially consistent, and the loop over all nodes in NewGraph deletes audio nodes one at a time in any order.
- TextureLocations.TextureLocationResolver.ReleaseAll: the push of null to the consumers of an FBO is not modelled.
- Threshold.FlipsIff: times are reals and do not run backwards; the same holds for Threshold.TurnsOnIff and Threshold.TurnsOffIff.
- PinCopy.GetConvertMulti: the copy for differing coordinate counts (pinConnection.cpp:158-171) and the converting loop (194-212) are named but not modelled, because their end pointer and counter depart from their own comments.
- PinValues.Deserialize: what the getter of one type answers for a listed value of another type is a parameter; string values (nodeProperty.cpp:60-67) are left out because line 64 indexes them by element; one loop stands for the four type cases, which differ in the accessor only.
- PushPatterns.PushPatterns.Register: the default pattern is a pointer into the vector that insertion may invalidate and is not modelled; the id is a parameter in place of the hash of the name.
- SerializeProperty and DeserializeProperty: the same loops with one value per element and no stride.
- Saving and loading whole graphs, vector pins that resize, the id manager, ring buffer, frame pool, factory and the simple signal nodes: they would add only easy members or need heavy assumptions.
- GUI, rendering, shaders, MIDI, audio devices and the Cap'n Proto wire format: foreign calls.
