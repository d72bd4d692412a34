# Verification of LibREDasm's core algorithms

This project models eight parts of LibREDasm, the core library of the REDasm disassembler, and proves what the rest of
the library relies on. `dafny verify dfyconfig.toml` checks all of it with Dafny 4.11.

**The layered graph layout** (`LayoutGraph`, `SpanningTree`, `TreeLayout`, `BlockTree`, `EdgeLanes`, `EdgeRoute`,
`PixelGrid`, `LayoutResult`, `LaneCount`, `EdgeLines`, `LineEnds`, `LayeredLayout`). `LayeredLayout.Execute` runs all phases of the
layout over its fields. The spanning tree search ends on every graph, cycles and self loops included, and its tree has exactly the nodes
that can be reached from the root. Every node after the root is listed behind all its predecessors, as the next one in
the queue, or was the best successor when it was taken; if no edge enters the reachable part from outside, the order is
topological exactly when that part has no cycle. There is only one such order, whatever the order in which the map gives
the blocks (`OrderIsUnique`), and children are listed in it, so it decides what is drawn on the left. The tree is laid
out on a grid in which the row of a node is its depth, no two two-column cells overlap, and neither a row nor a column is
empty, for each of the three layout kinds. Every edge of the reachable part is then routed through lanes that no
other edge holds, each the least one that was free along its run, in the nearest column that no node blocks. The
rectangles in pixels of any two reachable nodes are apart. That holds for odd widths too: a node that fills its columns
can be moved one pixel to the left, but only if no lane is counted for its middle column, and every node but the root is
entered by one there. Lanes of different edges are drawn at least a lane width apart where they pass each other, and no
drawn line touches a reachable node. Nodes are centred on the lanes between their two columns, and a line begins and
ends in a lane there, on its node wherever the node is wide enough for these lanes. That no line touches a node is so although the first point of an edge that runs straight down is placed as
if its lane were one of the row: whoever holds a lane in a free stretch of a column pays for it with a lane of a row
there, all but one edge, so the point stays above the next node.

**The interval store** (`BlockContainer`, `BlockRuns`). A container of half-open blocks stands for a map from addresses to pairs of
type and info. Marking changes that map exactly at the marked addresses and at what is left of the two blocks it cuts;
over every run of operations the blocks tile the initial range and a lookup finds the only block that holds an address,
and what a container does with a list of operations (`Replay`) is such a run. Where blocks start is told exactly too, so
the operations alone decide every container of a run, and what was marked as data, string or code stays a block of its
own until an operation has to do with it.

**The MSVC demangler's memory** (`UndnamePool`, `UndnameText`, `Undname`). Memory is a map from addresses to bytes and
pointers; the system's allocator behind the pool may refuse any request. Regions lie in blocks, past the links, and
apart; whatever is allocated and written later, strings and string tables made earlier stay readable, and freeing gives
each block back once. The two passes of the string builders agree on every format and every stack of names.

**The Itanium demangler's output** (`GrowableString`, `Rendering`, `PrintBuffer`). A buffer of 255 characters feeds a
growable string while components are printed, names of section 5.1 of the Itanium C++ ABI. The result is compared with
the ideal text, in which a separator stands only before something and two angle brackets are kept apart by what was
printed last: it is that text exactly when no separator is left in and no bracket is hidden by one that was taken back.

**RDIL expressions** (`Rdil`, `RdilFormat`, `RdilShapes`). Format strings are unambiguous on statements, and their
placeholders are the values that `extract` returns.

**Types and JSON** (`FieldNames`, `Types`, `TypeJson`, `TypeLoading`). A type comes back from its JSON form exactly when
it is sound, and whatever is loaded is sound.

**The control-flow net** (`SortedContainer`, `NetNodes`, `NetBranches`, `DocumentNet`). Links agree at both ends, and
the fall-through walk ends.

**The CRC** (`CrcWords`, `Crc16`). The byte-at-a-time loop computes the remainder of a polynomial division by the
generator of section 2 of ITU-T V.41, and no change within 16 neighbouring bits goes unnoticed.

## Where the code differs from what it is meant to do

- The order of the spanning tree need not be topological although the reachable part has no cycle, when an edge enters it
  from outside: the unreachable predecessor counts as open for ever (`OutsideEdgeMatters`).
- The line of an edge ends in a lane in the middle of its target, but beside the target when this is too narrow for its
  lanes. All lanes end on a node exactly when the node is as wide as they are apart (`LanesHitNode`).
- A separator with nothing behind it stays in the Itanium demangler's output when the empty part behind it opens
  separators of its own and these make the buffer flush (`SeparatorLeftIn`). `PrintBuffer.Fine` says from which positions
  a component comes out without such a separator; names shorter than the buffer always do (`ShortIsFine`).
- Taking a separator back does not restore the last character, so the space between two `>` is left out behind an
  empty argument pack (`LastCharIsStale`). `Rendering.Clear` says when that does not happen, and `RendersIdeal` that the
  text is right exactly then; `PrintToString` puts both together.
- A wide string made with a name is tagged as a structure, so its copy is not loaded again (`WideCopyIsLost`).
- A structure sums its size in a 32-bit integer. It is the sum of the field sizes exactly when that is below 2^31 or within
  2^31 of 2^64 (`Types.StructureSize`); a field of 2^32 bytes makes a structure of size 0 (`SizeOfOneField`).
- `unlinkCall` and `unlinkBranch` forget the source and the reference even when the other kind of link remains
  (`UnlinkingOneLosesBoth`); the contracts of `DocumentNet.UnlinkCall` and `UnlinkBranch` say exactly when the net still
  agrees.
- The fall-through walk asks for the node at `RD_NVAL` instead of stopping there (`WalkEndsUnlessMarked`).
- A string table whose first allocation fails claims room for 32 entries that it does not have. After a failure a table
  is as it should be exactly when it had room before (`MakeRoom`).
- `get_class_string` asks for 4 GB less one byte when its slice of the stack is empty (`GetClassString`).
- A copy within a copy is printed without parentheses (`NestedCopiesAreAmbiguous`).

## What callers have to see to

Graphs have distinct nodes with ids from 1, distinct edges between them, and a root that is a node or 0; widths and
heights are not negative. Ranges marked in the interval store are not empty and lie in the initial range. The lengths
that the demangler adds up fit into 32 bits. Format strings get arguments of the kinds they ask for. The order in which
an `unordered_map` is walked, what the system's allocator answers and whether `realloc` fails are left open: what is
proved holds for all of them. Addresses and pixels are unbounded integers unless a width is mentioned.

## Model

| member | source | states |
|---|---|---|
| LayoutGraph.Graph.Outgoing | rdcore/graph/graph.cpp:59-73 | returns the edges that leave a node, in the order in which they were pushed |
| LayoutGraph.OutgoingInOrder | rdcore/graph/graph.cpp:59-73 | the edges that leave a node keep the order in which all edges were pushed |
| LayeredLayout.LayeredLayout.Execute | rdcore/builtin/graph/layeredlayout.cpp:12-40 | without a root nothing changes; for every graph with one: a spanning tree along real edges of exactly the reachable nodes, in the one order that the search can give, children in it too, topologically exactly when there is no cycle if no edge enters from outside; each node in its cell of the grid; every edge of the reachable part routed, in order, with lanes of its own, and rows and columns with room for these lanes and no more; node rectangles of the given sizes pairwise apart, inside of the reported area and centred on the lanes between their columns; every route drawn as a line with an arrow, from the middle of its source to the middle of its target, lanes of different edges apart, and no line on a node |
| LayeredLayout.LayeredLayout.CreateBlocks | rdcore/builtin/graph/layeredlayout.cpp:42-68 | one bare block for every node, heights padded once; the incoming lists hold each predecessor once |
| LayeredLayout.LayeredLayout.PadNodes | rdcore/builtin/graph/layeredlayout.cpp:47-52 | every node's height grows by the padding, no other height changes |
| LayeredLayout.LayeredLayout.CollectIncoming | rdcore/builtin/graph/layeredlayout.cpp:54-67 | whatever the order of the blocks, the incoming lists are those of all edges |
| LayeredLayout.LayeredLayout.MakeAcyclic | rdcore/builtin/graph/layeredlayout.cpp:70-147 | ends on every graph; the child lists form a tree of real edges in which parents are listed first and children in the order of the list; the list has exactly the reachable nodes; each node after the root is behind all its predecessors, below the last of them and behind all nodes whose tree edges came earlier, or was the best successor; a topological list proves that there is no cycle, and without an edge from outside the list is topological exactly when there is none |
| LayeredLayout.LayeredLayout.VisitEdge | rdcore/builtin/graph/layeredlayout.cpp:94-110 | the target becomes a child exactly when it is outside of the tree and this is its last open edge |
| LayeredLayout.LayeredLayout.Expand | rdcore/builtin/graph/layeredlayout.cpp:85-111 | all edges out of one node are dealt with, and whether the tree grew is told |
| LayeredLayout.LayeredLayout.PickBest | rdcore/builtin/graph/layeredlayout.cpp:113-135 | whatever the order of the blocks: no node is picked exactly when the tree is closed under edges, otherwise the successor with the fewest open incoming edges, lowest id first |
| LayeredLayout.LayeredLayout.InTurn | rdcore/builtin/graph/layeredlayout.cpp:85-111 | edges are dealt with by their sources as these are listed, and as pushed where they have one source |
| SpanningTree.OrderIsUnique | rdcore/builtin/graph/layeredlayout.cpp:70-147 | whatever the order of the blocks, the search lists the nodes in the same order, and every node that waited in the queue hangs below the same parent |
| SpanningTree.GrowInOrder | rdcore/builtin/graph/layeredlayout.cpp:103-104 | a new child stands behind its siblings, in the child list as in the list of nodes |
| SpanningTree.SomeUnlisted | rdcore/builtin/graph/layeredlayout.cpp:113-135 | a node that is picked as the best one has a predecessor that is not listed |
| SpanningTree.GrownIsReachable | rdcore/builtin/graph/layeredlayout.cpp:70-147 | every node of a tree in the making can be reached from the root |
| SpanningTree.ClosedTreeListsReachable | rdcore/builtin/graph/layeredlayout.cpp:137-146 | a tree that no edge leaves has all reachable nodes |
| SpanningTree.LastPredecessor | rdcore/builtin/graph/layeredlayout.cpp:99-107 | when one incoming edge is open, all other predecessors are already listed |
| LayeredLayout.LayeredLayout.ForceBest | rdcore/builtin/graph/layeredlayout.cpp:113-145 | the best successor is taken into the tree; that proves a cycle or an edge from outside, and nothing is taken exactly when the tree is closed under edges |
| LayeredLayout.IsBest | rdcore/builtin/graph/layeredlayout.cpp:118-133 | what is best by the incoming lists is best by the edges from nodes that are not listed |
| SpanningTree.OpenIsIncoming | rdcore/builtin/graph/layeredlayout.cpp:94-110 | with nothing queued, an incoming list has as many nodes as there are predecessors not listed |
| SpanningTree.StuckMeansNoRank | rdcore/builtin/graph/layeredlayout.cpp:113-145 | having to pick a best node proves that the reachable part has a cycle or is entered from outside |
| SpanningTree.OutsideEdgeMatters | rdcore/builtin/graph/layeredlayout.cpp:113-135 | a graph without a cycle for which the only order that the search can give is not topological |
| SpanningTree.TopologicalGivesRank | rdcore/builtin/graph/layeredlayout.cpp:70-147 | a list of the reachable nodes can be topological only if a ranking exists |
| SpanningTree.FinishSearch | rdcore/builtin/graph/layeredlayout.cpp:80-146 | what the finished search has established |
| BlockTree.TreeOfBlocks | rdcore/builtin/graph/layeredlayout.cpp:539-556 | the child lists describe one finite tree with each listed node once, so the recursions over them end |
| LayeredLayout.LayeredLayout.AdjustGraphLayout | rdcore/builtin/graph/layeredlayout.cpp:530-537 | exactly the blocks of the subtree are moved |
| LayeredLayout.LayeredLayout.ComputeLayout | rdcore/builtin/graph/layeredlayout.cpp:539-616 | every block of the subtree lands in the cell that the layout of its tree defines, no other block changes |
| LayeredLayout.LayeredLayout.ArrangePair | rdcore/builtin/graph/layeredlayout.cpp:558-590 | the two subtrees are moved to their places in the pair |
| LayeredLayout.LayeredLayout.ArrangeInRow | rdcore/builtin/graph/layeredlayout.cpp:593-597 | the subtrees are moved side by side |
| TreeLayout.RootFits | rdcore/builtin/graph/layeredlayout.cpp:584-615 | the root of a tree stands within its columns |
| TreeLayout.CellInGrid | rdcore/builtin/graph/layeredlayout.cpp:539-616 | for every layout kind a node's row is its depth and its two columns lie in the grid of the root |
| TreeLayout.RowUsed | rdcore/builtin/graph/layeredlayout.cpp:552-553 | the row count is exact: no row of the grid is empty |
| TreeLayout.ColumnUsed | rdcore/builtin/graph/layeredlayout.cpp:558-615 | the column count is exact: no column of the grid is empty |
| TreeLayout.OuterColumnsUsed | rdcore/builtin/graph/layeredlayout.cpp:558-615 | a node stands in the first column, and one in the last two |
| TreeLayout.TuckedBeside | rdcore/builtin/graph/layeredlayout.cpp:563-577 | a leaf of a pair stands right beside its sibling, however wide this one's subtree is |
| TreeLayout.WhollyInOrder | rdcore/builtin/graph/layeredlayout.cpp:578-597 | otherwise a subtree lies wholly to the left of the next one, in whatever rows |
| TreeLayout.SiblingsInOrder | rdcore/builtin/graph/layeredlayout.cpp:558-597 | in every row the subtree of an earlier child lies to the left of that of a later one; a leaf of a pair may be tucked in beside its sibling |
| TreeLayout.Separated | rdcore/builtin/graph/layeredlayout.cpp:530-616 | two nodes in the same row are at least two columns apart, for every layout kind |
| TreeLayout.OnlyChildBelow | rdcore/builtin/graph/layeredlayout.cpp:602-602 | an only child stands exactly below its parent |
| TreeLayout.MediumHalfway | rdcore/builtin/graph/layeredlayout.cpp:586-587 | in the medium layout a parent of two stands halfway between them |
| TreeLayout.CentredOverColumns | rdcore/builtin/graph/layeredlayout.cpp:589-603 | otherwise a parent stands over the middle of its columns |
| LayoutResult.PlacedInGrid | rdcore/builtin/graph/layeredlayout.cpp:539-616 | after the layout all blocks, also those outside of the tree, lie on the root's grid |
| LayoutResult.PlacedApart | rdcore/builtin/graph/layeredlayout.cpp:530-616 | the blocks of the tree do not share cells |
| EdgeLanes.EdgeMatrix.IsEdgeMarked | rdcore/builtin/graph/layeredlayout.cpp:516-520 | tells whether the lane is among those marked |
| EdgeLanes.EdgeMatrix.MarkEdge | rdcore/builtin/graph/layeredlayout.cpp:522-528 | marks or frees this lane and no other |
| EdgeLanes.MarkIsTight | rdcore/builtin/graph/layeredlayout.cpp:522-528 | a list of lanes grows only up to the lane that is marked, so it ends with a lane in use |
| EdgeLanes.EdgeMatrix.FirstFree | rdcore/builtin/graph/layeredlayout.cpp:340-348 | the least lane free in a cell |
| EdgeLanes.EdgeMatrix.FindHorizEdgeIndex | rdcore/builtin/graph/layeredlayout.cpp:466-489 | ends, and takes the least lane free along the whole stretch of the row |
| EdgeLanes.EdgeMatrix.FindVertEdgeIndex | rdcore/builtin/graph/layeredlayout.cpp:491-514 | ends, and takes the least lane free along the whole stretch of the column |
| EdgeLanes.AddPointLanes | rdcore/builtin/graph/layeredlayout.h:25-31 | adding a point gives the previous one its lane: the lanes of the route grow by those of its new run |
| LayeredLayout.LayeredLayout.PrepareEdgeRouting | rdcore/builtin/graph/layeredlayout.cpp:149-173 | empty matrices of the grid's size, and only the middle of each node invalid, so the outer columns are free |
| LayeredLayout.LayeredLayout.PickColumn | rdcore/builtin/graph/layeredlayout.cpp:355-404 | ends because the outer columns are free; the own column, else the target's, else the nearest one without a node in the rows between, the left one of two |
| LayeredLayout.LayeredLayout.RouteEdge | rdcore/builtin/graph/layeredlayout.cpp:334-464 | ends with all accesses in bounds; the corners of the route; the lanes it took were free before and are exactly what was marked since, also where a lane is freed and taken anew; each is the least one free along its run |
| LayeredLayout.LayeredLayout.MoveAlong | rdcore/builtin/graph/layeredlayout.cpp:427-435 | the vertical run in the own column replaces the stub marked first, and takes the least lane as if that had not been marked |
| LayeredLayout.LayeredLayout.EnterEnd | rdcore/builtin/graph/layeredlayout.cpp:437-461 | the last run, and the lane by which the edge enters its target |
| LayeredLayout.LayeredLayout.PerformEdgeRouting | rdcore/builtin/graph/layeredlayout.cpp:175-192 | every edge of the listed nodes is routed in order, the k-th taking the least lanes free among those of the routes before |
| EdgeRoute.RoutesApart | rdcore/builtin/graph/layeredlayout.cpp:334-528 | over the whole routing no two edges hold the same lane of a cell, horizontally or vertically |
| EdgeRoute.RouteCourse | rdcore/builtin/graph/layeredlayout.cpp:350-454 | a route starts below its source, ends above its target and turns by right angles only |
| EdgeRoute.VerticalRunsAvoidNodes | rdcore/builtin/graph/layeredlayout.cpp:355-404 | no vertical run crosses the middle of a node |
| EdgeRoute.EntersByLane | rdcore/builtin/graph/layeredlayout.cpp:427-461 | an edge holds a vertical lane in the cell through which it enters its target |
| EdgeRoute.GridLeavesOuterColumns | rdcore/builtin/graph/layeredlayout.cpp:168-172 | nodes on the grid never block column 0 or the last column |
| LayeredLayout.LayeredLayout.ComputeEdgeCount | rdcore/builtin/graph/layeredlayout.cpp:194-210 | each row and column is given as many lanes as its fullest cell has |
| PixelGrid.ColumnLanesListed | rdcore/builtin/graph/layeredlayout.cpp:206-207 | no more is counted for a column than one of its cells lists |
| LineEnds.CountsAreExact | rdcore/builtin/graph/layeredlayout.cpp:194-210 | each row and column counts the lanes that routes hold in it, up to the highest one and no further, also where a lane was freed again |
| PixelGrid.ColumnLanesCover | rdcore/builtin/graph/layeredlayout.cpp:206-207 | every lane in use has an index below the count of its column |
| LayeredLayout.LayeredLayout.ComputeRowColumnSizes | rdcore/builtin/graph/layeredlayout.cpp:212-230 | columns and rows are exactly as large as the blocks in them need |
| LayeredLayout.LayeredLayout.ComputeRowColumnPositions | rdcore/builtin/graph/layeredlayout.cpp:232-263 | bands of lanes and cells follow each other without gap or overlap, and the area ends behind them |
| LayeredLayout.LayeredLayout.ComputeNodePositions | rdcore/builtin/graph/layeredlayout.cpp:265-279 | every block and node of the graph gets the place that the grid has for it |
| PixelGrid.Grid.CentredOnLanes | rdcore/builtin/graph/layeredlayout.cpp:270-273 | a node is centred on the lanes between its two columns, half a pixel to the right for odd widths, half a pixel to the left where it is moved |
| PixelGrid.Grid.LanesHitNode | rdcore/builtin/graph/layeredlayout.cpp:232-279 | all lanes in the middle of a node are drawn within its width, exactly when it is as wide as they are apart |
| PixelGrid.Grid.NodeInRow | rdcore/builtin/graph/layeredlayout.cpp:275-275 | in its row a node keeps a padding above, and below once its own padding is taken off, at least, and exactly where it is the highest |
| PixelGrid.LineInStrip | rdcore/builtin/graph/layeredlayout.cpp:290-304 | a lane is drawn in the middle of the pixels that are kept for it |
| LineEnds.NodesStand | rdcore/builtin/graph/layeredlayout.cpp:265-279 | that holds for all nodes after the layout |
| PixelGrid.Grid.NodeInColumns | rdcore/builtin/graph/layeredlayout.cpp:270-273 | a node stays within its two columns, except that it sticks out by one pixel exactly when it is odd, fills them and has no lane in the middle |
| PixelGrid.Grid.SideBySide | rdcore/builtin/graph/layeredlayout.cpp:270-273 | exactly when two nodes of a row do not overlap |
| PixelGrid.Grid.RectsApart | rdcore/builtin/graph/layeredlayout.cpp:212-279 | nodes that share no cell have disjoint rectangles unless one is overfull |
| PixelGrid.Grid.NodeInArea | rdcore/builtin/graph/layeredlayout.cpp:259-279 | every node lies within the area that is reported for the graph |
| PixelGrid.Grid.LanesApart | rdcore/builtin/graph/layeredlayout.cpp:232-248 | different vertical lanes are drawn at least a lane width apart |
| PixelGrid.Grid.LaneClearsNode | rdcore/builtin/graph/layeredlayout.cpp:232-279 | a vertical lane clears every node in whose middle column it is not |
| PixelGrid.Grid.RowLanesApart | rdcore/builtin/graph/layeredlayout.cpp:251-257 | different horizontal lanes are drawn at least a lane width apart |
| PixelGrid.Grid.RowLaneClearsNode | rdcore/builtin/graph/layeredlayout.cpp:250-279 | a horizontal lane runs above the nodes of its row and of those below, and below the nodes above it |
| LayoutResult.TargetHasLane | rdcore/builtin/graph/layeredlayout.cpp:194-210 | the middle column of every routed edge's target has a lane |
| LayoutResult.RoutesStayClear | rdcore/builtin/graph/layeredlayout.cpp:334-464 | over the whole routing no vertical run is drawn through the rectangle of a node in a row that it crosses, and every horizontal run passes above or below each node |
| LayoutResult.LinesApart | rdcore/builtin/graph/layeredlayout.cpp:334-528 | vertical runs of different edges that share a row, and horizontal ones that share a column, are drawn at least a lane width apart |
| LayoutResult.HeldApart | rdcore/builtin/graph/layeredlayout.cpp:334-528 | lanes of different edges in the same row or column, of runs and of the stubs at both ends, are drawn at least a lane width apart |
| LayoutResult.PassedIsNotOverfull | rdcore/builtin/graph/layeredlayout.cpp:194-279 | a node that a vertical run passes is never one pixel too wide for its columns |
| LayeredLayout.LayeredLayout.DrawEdge | rdcore/builtin/graph/layeredlayout.cpp:289-316 | the corners of an edge's line |
| LayeredLayout.LayeredLayout.PrecomputeEdgeCoordinates | rdcore/builtin/graph/layeredlayout.cpp:281-332 | whatever the order of the blocks, every route gets its own line and the arrow at its end |
| LineEnds.LineMeetsEnds | rdcore/builtin/graph/layeredlayout.cpp:289-316 | a line begins below its source and ends above its target, in a lane in the middle of each, on the node where it is wide enough |
| LineEnds.LastCorner | rdcore/builtin/graph/layeredlayout.cpp:297-313 | the lane in which a line comes down to its target |
| LineEnds.ArrowPointsDown | rdcore/builtin/graph/layeredlayout.cpp:318-322 | the tip of the arrow is the end of the line, the barbs are above it on both sides |
| EdgeLines.DrawnRun | rdcore/builtin/graph/layeredlayout.cpp:297-313 | each run of a route is drawn along the pixel line of its lane; a vertical one begins at the lane of the horizontal run before it, or at a first point placed by the lane of the run itself |
| EdgeLines.RouteHasCourse | rdcore/builtin/graph/layeredlayout.cpp:350-461 | the direction changes at every corner, and a route that begins in its own column leads down |
| EdgeLines.PolylineClears | rdcore/builtin/graph/layeredlayout.cpp:289-316 | a drawn line touches no node, neither with its runs nor with the stubs at its ends |
| EdgeLines.LinesStayClear | rdcore/builtin/graph/layeredlayout.cpp:281-332 | that holds for all lines and all nodes of the tree |
| EdgeLines.TurnsAbove | rdcore/builtin/graph/layeredlayout.cpp:301-306 | the first point of an edge that runs straight down is drawn above every node from its target's row on that it could hit |
| LaneCount.StartIsLow | rdcore/builtin/graph/layeredlayout.cpp:334-514 | over the whole routing, an edge that starts straight down does so in a lane that is at most one more than there are lanes in the rows down to a node below |
| LaneCount.LaneIsPaid | rdcore/builtin/graph/layeredlayout.cpp:350-461 | a route with a lane in the free stretch of a column below a node keeps a lane of a row in that stretch too, or runs straight from that node to the next |
| LaneCount.PaidByOne | rdcore/builtin/graph/layeredlayout.cpp:334-528 | different lanes of a column go with different lanes of rows |
| LaneCount.StraightByOne | rdcore/builtin/graph/layeredlayout.cpp:355-454 | at most one edge runs straight from a node to the next one in its column |
| LaneCount.WayHolds | rdcore/builtin/graph/layeredlayout.cpp:334-461 | the vertical lanes that a route can hold |
| LaneCount.WayPays | rdcore/builtin/graph/layeredlayout.cpp:334-461 | the lanes of rows that it holds beside them |
| LaneCount.SmallerAreTaken | rdcore/builtin/graph/layeredlayout.cpp:491-514 | all lanes smaller than the one taken are held by earlier routes somewhere in the stretch |
| LayoutResult.EdgesAreInOrder | rdcore/builtin/graph/layeredlayout.cpp:175-192 | edges are routed by their sources as these are listed, and as pushed where they have one source |
| LayoutResult.RoutesKeepOrder | rdcore/builtin/graph/layeredlayout.cpp:189-189 | a block keeps its routes in the order in which they were laid |
| LayoutResult.DrawnApart | rdcore/builtin/graph/layeredlayout.cpp:212-279 | the rectangles of any two nodes of the tree are disjoint, whatever their widths |
| BlockContainer.HolderIsUnique | rdcore/document/model/blockcontainer.h:10-17 | only one block holds an address, and it decides the address's pair |
| BlockContainer.Find | rdcore/document/model/blockcontainer.h:15-16 | the block equivalent to an address under the ordering is the one that holds it |
| BlockContainer.CoversIsGapFree | rdcore/document/model/blockcontainer.cpp:48-98 | ordered blocks that hold exactly a range follow each other from its start to its end |
| BlockContainer.Container.Get | rdcore/document/model/blockcontainer.cpp:119-130 | the block holding the address; the first one for an address in a gap, none past the end |
| BlockContainer.Container.DoInsert | rdcore/document/model/blockcontainer.cpp:102-117 | the recursion ends; the addresses of the block get its pair and no other address changes; an unknown block swallows the blocks behind it as far as they have its pair, and otherwise one start is added and none lost |
| BlockContainer.MergeStarts | rdcore/document/model/blockcontainer.cpp:102-117 | which starts are lost when neighbours are absorbed one after the other |
| BlockContainer.FilledStarts | rdcore/document/model/blockcontainer.cpp:83-97 | where blocks start once the rests and the new block are in the gap, merged or not |
| BlockContainer.Container.Mark | rdcore/document/model/blockcontainer.cpp:48-98 | the range gets the pair, the rests of the two blocks at its ends are demoted, every other address keeps its pair; the tiling is kept, and blocks start exactly where they did before, at the range and behind it, less those that an unknown block takes in |
| BlockContainer.Container.MarkSize | rdcore/document/model/blockcontainer.cpp:100-100 | the same for a size; a range that wraps around 64 bits is the error of a reversed range |
| BlockContainer.Container.Refill | rdcore/document/model/blockcontainer.cpp:83-97 | the rests and the new block fill the gap, as one block where they are equally unknown |
| BlockContainer.Container.Info | rdcore/document/model/blockcontainer.cpp:20-34 | only the addresses from the argument to the end of its block change, or only the info of a whole block, although each mark demotes neighbouring parts; blocks start exactly where they did before and at the argument, less those that an unknown part takes in |
| BlockContainer.InfoSplits | rdcore/document/model/blockcontainer.cpp:27-31 | two marks, each of which demotes and may merge what the other one is about, come to exactly that |
| BlockContainer.InfoOfWhole | rdcore/document/model/blockcontainer.cpp:32-32 | the info of a whole block demotes nothing |
| BlockRuns.RunKeepsTiling | rdcore/document/model/blockcontainer.cpp:20-130 | from one initial block, over every run of operations told by what they do to the pairs of addresses, the blocks tile the range, their number is bounded by the operations, and lookup finds the only holder of each address |
| BlockRuns.StepGrows | rdcore/document/model/blockcontainer.cpp:20-98 | a mark adds at most two blocks, an info at most one |
| BlockRuns.StepKeepsTiling | rdcore/document/model/blockcontainer.cpp:20-98 | what an operation does to the pairs of addresses keeps the tiling |
| BlockRuns.Replay | rdcore/document/model/blockcontainer.cpp:10-100 | a fresh container, given its range and then any operations in it, goes through a run |
| BlockRuns.LastMarkDecides | rdcore/document/model/blockcontainer.cpp:48-98 | in every run the last mark over an address decides its pair |
| BlockRuns.UntouchedKeepsPair | rdcore/document/model/blockcontainer.cpp:20-130 | an address that no operation of a run touches keeps its pair |
| BlockRuns.MarkedBlock | rdcore/document/model/blockcontainer.cpp:48-98 | a mark as data, string or code makes one block of exactly its range |
| BlockRuns.MarkedIsWhole | rdcore/document/model/blockcontainer.cpp:48-98 | whatever is marked lies in one block afterwards |
| BlockRuns.BlockStays | rdcore/document/model/blockcontainer.cpp:48-117 | a block outside of the range stays if its type is known or if it lies before the range |
| BlockRuns.InformedBlocks | rdcore/document/model/blockcontainer.cpp:20-34 | what info makes of its block: two blocks where their types are known, or one with the new info |
| BlockRuns.InfoKeeps | rdcore/document/model/blockcontainer.cpp:20-34 | the other blocks of known types stay, and all those before |
| BlockRuns.SameTiling | rdcore/document/model/blockcontainer.cpp:132-137 | tilings with the same pairs and the same starts are the same container |
| BlockRuns.StepIsDetermined | rdcore/document/model/blockcontainer.cpp:20-137 | what is stated about an operation leaves only one container that it can lead to |
| BlockRuns.RunIsDetermined | rdcore/document/model/blockcontainer.cpp:20-137 | so the operations alone decide every container of a run |
| BlockRuns.BlockStaysInRun | rdcore/document/model/blockcontainer.cpp:20-137 | in every run a block of a known type stays until an operation has to do with it |
| BlockRuns.MarkedStaysInRun | rdcore/document/model/blockcontainer.cpp:48-137 | so does what was marked as data, string or code, as a block of exactly its range |
| Undname.ParsedSymbol.UndAlloc | rdcore/libs/undname.h:121-156 | a region inside of one block, past its link, apart from all others; earlier contents stay; a request that fits the newest block neither fails nor takes a new one |
| Undname.ParsedSymbol.UndFreeAll | rdcore/libs/undname.h:163-174 | gives back every block once, newest first, and nothing else |
| Undname.FreedOnce | rdcore/libs/undname.h:167-172 | the next block in the list has not been given back yet |
| UndnamePool.BlockAdded | rdcore/libs/undname.h:128-147 | a new block at the head keeps the chain of links and all regions |
| UndnamePool.CutFromTail | rdcore/libs/undname.h:149-151 | what is cut from the newest block is apart from all regions and from what is left |
| UndnamePool.WritesStayInside | rdcore/libs/undname.h:260-313 | writing into a region damages neither links nor other regions |
| UndnamePool.StringKept | rdcore/libs/undname.h:115-120 | a string stays readable whatever is allocated and written elsewhere |
| UndnamePool.TableKept | rdcore/libs/undname.h:115-120 | so does a table of strings |
| Undname.ParsedSymbol.MakeRoom | rdcore/libs/undname.h:199-212 | 32 entries at first, twice as many when all were used, the strings kept by the move; what is left when memory runs out, and exactly when that is still a table |
| Undname.ParsedSymbol.StrArrayPush | rdcore/libs/undname.h:190-234 | the text is stored at num, over an old entry or behind the last; all other strings and regions stay |
| Undname.PlacedAt | rdcore/libs/undname.h:190-234 | the entry at num is the text, the others are as they were, and there is one more at most |
| Undname.ParsedSymbol.StrArrayGetRef | rdcore/libs/undname.h:241-253 | the string at start + idx, in unsigned arithmetic, if that is below max, else NULL |
| Undname.ParsedSymbol.Measure | rdcore/libs/undname.h:267-283 | the first pass counts exactly the text and its NUL, for every format, trailing and unknown '%' included |
| Undname.ParsedSymbol.Print | rdcore/libs/undname.h:285-311 | the second pass fills exactly that room |
| Undname.ParsedSymbol.StrPrintf | rdcore/libs/undname.h:260-313 | a new region holds the expanded format and its NUL and nothing else |
| UndnameText.TextPrints | rdcore/libs/undname.h:290-299 | %s prints its text, and nothing for NULL |
| UndnameText.CharacterPrints | rdcore/libs/undname.h:301-303 | %c prints its character |
| UndnameText.PercentPrints | rdcore/libs/undname.h:304-308 | %% prints one percent sign; before any other character it prints itself |
| UndnameText.ExpandJoins | rdcore/libs/undname.h:267-283 | formats compose unless the first one ends with a '%' that starts no directive |
| UndnameText.DanglingMatters | rdcore/libs/undname.h:277-278 | with such an ending they need not |
| UndnameText.EscapedPrintsItself | rdcore/libs/undname.h:267-283 | every text has a format that prints it |
| Undname.ParsedSymbol.GetClassString | rdcore/libs/undname.h:650-676 | the room asked for is exactly what is written; the result is the names in reverse, joined by "::"; an empty slice asks for 2^32 - 1 bytes |
| Undname.ParsedSymbol.WriteScoped | rdcore/libs/undname.h:663-674 | the second pass writes the scoped name |
| UndnameText.ScopedLength | rdcore/libs/undname.h:657-662 | the sum of lengths is the length of the scoped name plus two |
| UndnameText.ScopedJoins | rdcore/libs/undname.h:663-673 | scoped names compose in reverse |
| UndnameText.PartsOfScoped | rdcore/libs/undname.h:663-673 | names without colons can be read back from the result |
| GrowableString.Growable.Resize | rdcore/libs/binutils_demangler/cp-demangle.c:3971-3999 | ends; doubles from 2 or the old capacity to the least size that is enough; without memory all is given up |
| GrowableString.Growable.AppendBuffer | rdcore/libs/binutils_demangler/cp-demangle.c:4003-4019 | the buffer holds all that was ever appended and a closing NUL, its length below the capacity, unless memory ran out |
| PrintBuffer.PrintInfo.Flush | rdcore/libs/binutils_demangler/cp-demangle.c:4223-4230 | what was passed on and what is buffered stay the text |
| PrintBuffer.PrintInfo.AppendChar | rdcore/libs/binutils_demangler/cp-demangle.c:4234-4242 | adds one character, flushing only at 255; the index stays in the buffer |
| PrintBuffer.PrintInfo.AppendString | rdcore/libs/binutils_demangler/cp-demangle.c:4244-4257 | adds the characters; whether the buffer was flushed can be told from the position |
| PrintBuffer.PrintInfo.PrintList | rdcore/libs/binutils_demangler/cp-demangle.c:5285-5306 | only the separator just appended is ever taken back; without a failure the text is the rendered one exactly from a fine position and longer otherwise |
| PrintBuffer.PrintInfo.PrintTemplate | rdcore/libs/binutils_demangler/cp-demangle.c:4823-4835 | the same for a template with the spaces that keep angle brackets apart |
| PrintBuffer.PrintInfo.PrintComp | rdcore/libs/binutils_demangler/cp-demangle.c:5721-5742 | the same for every component; the whole fails when something in it is missing or too deep |
| PrintBuffer.FailsWhenDeep | rdcore/libs/binutils_demangler/cp-demangle.c:5725-5729 | printing fails exactly for what is incomplete or nested more deeply than the limit |
| PrintBuffer.PrintToString | rdcore/libs/binutils_demangler/cp-demangle.c:4326-4346 | no result exactly when printing fails or memory runs out, told apart by the capacity; else a NUL-terminated buffer that holds the ideal text exactly when the component is fine and clear |
| Rendering.RendersIdeal | rdcore/libs/binutils_demangler/cp-demangle.c:4823-4835 | without separators left in, the code prints the ideal text exactly when no bracket is hidden; only spaces are ever missing |
| Rendering.ListPrintsJoined | rdcore/libs/binutils_demangler/cp-demangle.c:5285-5306 | a list of texts, nested as the parser does it, prints them with ", " in between |
| Rendering.TemplatePrints | rdcore/libs/binutils_demangler/cp-demangle.c:4823-4835 | a template prints its name and its arguments in angle brackets, which stand apart from others |
| Rendering.BothPrint | rdcore/libs/binutils_demangler/cp-demangle.c:4664-4669 | things printed one after another come out in that order |
| Rendering.EmptyPrintsNothing | rdcore/libs/binutils_demangler/cp-demangle.c:5301-5304 | which components print nothing |
| Rendering.LastIsVisible | rdcore/libs/binutils_demangler/cp-demangle.c:4240-4241 | exactly when the last character counted is that of the text |
| Rendering.LastCharIsStale | rdcore/libs/binutils_demangler/cp-demangle.c:4832-4834 | an input on which it is not, and the missing space |
| PrintBuffer.CalmIsFine | rdcore/libs/binutils_demangler/cp-demangle.c:5295-5304 | an empty part that makes no flush leaves text and buffer alone |
| PrintBuffer.ShortIsFine | rdcore/libs/binutils_demangler/cp-demangle.c:5285-5306 | in what fits the buffer with its open separators no separator is left in |
| PrintBuffer.PlainIsFine | rdcore/libs/binutils_demangler/cp-demangle.c:5285-5306 | nor, from any position, in what has no empty part with separators of its own |
| PrintBuffer.EmptyRightPart | rdcore/libs/binutils_demangler/cp-demangle.c:5295-5304 | for a list with an empty right part that condition is exact |
| PrintBuffer.SeparatorLeftIn | rdcore/libs/binutils_demangler/cp-demangle.c:5295-5304 | a list of arguments, ending with two empty packs, in which a separator is left in |
| Rdil.FormatTo | rdcore/rdil/rdil.cpp:428-481 | throws exactly on the operators and types that are not printed, and otherwise appends the format string |
| Rdil.WrapFormatTo | rdcore/rdil/rdil.cpp:496-507 | the same with parentheses around what is no value or memory reference |
| Rdil.ExtractTo | rdcore/rdil/rdil.cpp:191-196 | appends the values that a walk visits, in its order; throws exactly on unknown types |
| Rdil.WalkedValues | rdcore/rdil/rdil.cpp:314-395 | the walk visits the values from left to right, wherever it visits the operators |
| RdilFormat.PlaceholdersAreValues | rdcore/rdil/rdil.cpp:191-481 | the words cnst, var and reg of a format string are, in order and number, the kinds of the extracted values |
| Rdil.OperandFormats | rdcore/rdil/rdil.cpp:428-507 | values and memory references stand as operands by themselves, all else in parentheses |
| Rdil.SampleFormats | rdcore/rdil/rdil.cpp:464-476 | the words for values and the texts around the operand of each operation |
| Rdil.OperatorTexts | rdcore/rdil/rdil.cpp:147-174 | each operator between two values as it is printed |
| RdilShapes.WrapIsRead | rdcore/rdil/rdil.cpp:496-507 | wrapped operands form a prefix-free set: one is read whatever follows |
| RdilShapes.FormatIsRead | rdcore/rdil/rdil.cpp:428-481 | an operand is read up to what is no operator |
| RdilShapes.OperatorIsRead | rdcore/rdil/rdil.cpp:147-174 | an operator is told from a longer one by what follows |
| RdilShapes.StatementIsRead | rdcore/rdil/rdil.cpp:428-481 | a statement is read up to its end |
| RdilShapes.FormatIsUnambiguous | rdcore/rdil/rdil.cpp:428-507 | two statements have the same format string exactly when they differ at most in their values |
| RdilShapes.NestedCopiesAreAmbiguous | rdcore/rdil/rdil.cpp:464-464 | copies within copies are not statements in this sense: two different ones are printed the same |
| Types.StructureSize | rdcore/types/structure.cpp:14-19 | the size is the sum of the field sizes cut down to a signed 32-bit number and widened again, and which sums survive that |
| Types.SizeOfOneField | rdcore/types/structure.cpp:14-19 | two structures that are as small as nothing and larger than everything, because of one field |
| Types.TruncatedIsCongruent | rdcore/types/structure.cpp:16-18 | what is left of a sum differs from it by whole turns of 2^32 and is the only number of its range that does |
| Types.ArraySize | rdcore/types/array.cpp:6-6 | an array is as large as its items together exactly when 64 bits can say so |
| Types.SumStep | rdcore/types/structure.cpp:16-18 | cutting down after each field is cutting down once |
| FieldNames.Pigeonhole | rdcore/types/structure.cpp:75-76 | no more candidates can be taken than there are fields |
| FieldNames.DigitsAreDecimal | rdcore/types/structure.cpp:76-76 | the number of a name is written in decimal, without leading zeros |
| FieldNames.UncollidedSuffix | rdcore/types/structure.cpp:71-79 | when the name is taken, the one given ends with the lowest number from 0 on that makes it unused |
| FieldNames.UncollidedIsFree | rdcore/types/structure.cpp:71-79 | the name is unused, is the one asked for if that is unused, and otherwise has the lowest free suffix |
| TypeLoading.StructureType.Uncollided | rdcore/types/structure.cpp:71-79 | the loop ends with that name |
| TypeLoading.StructureType.Append | rdcore/types/structure.cpp:21-29 | a missing, empty or nameless type is dropped, any other is added under an unused name; the index by name keeps up |
| TypeLoading.ByNameFinds | rdcore/types/structure.cpp:25-28 | with distinct names the index finds the type of each field |
| TypeLoading.StructureType.FromJson | rdcore/types/structure.cpp:31-47 | fills the structure as loading defines it, with the same failures |
| TypeLoading.LoadType | rdcore/types/type.cpp:11-31 | for every JSON value: the type, nothing, or an exception |
| TypeJson.LoadedIsSound | rdcore/types/type.cpp:11-82 | whatever is loaded has tags that match its classes, and distinct non-empty field names |
| TypeJson.SoundComesBack | rdcore/types/type.cpp:86-93 | a sound type is loaded again as it was |
| TypeJson.RoundTrip | rdcore/types/structure.cpp:31-63 | a type with item types for all arrays comes back from its JSON form exactly when it is sound |
| TypeJson.CompoundDocuments | rdcore/types/structure.cpp:49-63 | the documents of arrays and structures: the size is the number of items of the one and the number of bytes of the other |
| TypeJson.NumberDocuments | rdcore/types/numeric.cpp:32-38 | the documents of numbers, member by member |
| TypeJson.StringDocuments | rdcore/types/string.cpp:21-26 | those of strings, in which the size is that of the string |
| TypeJson.TypeNames | rdcore/types/type.cpp:33-55 | the name of every type |
| TypeJson.NamesAreDistinct | rdcore/types/type.cpp:33-68 | typeId is the inverse of typeName |
| TypeJson.AppendedIsSound | rdcore/types/structure.cpp:21-29 | appending keeps fields sound |
| TypeLoading.CloneIsFaithful | rdcore/types/structure.cpp:7-12 | a sound type equals its copy exactly when it holds no wide string and no string of size RD_NVAL |
| TypeLoading.WideCopyIsLost | rdcore/types/string.cpp:40-41 | the copy of a wide string is not loaded again |
| SortedContainer.Container.IndexOf | rdcore/containers/sortedcontainer.h:24-30 | finds the element with the key by halving, RD_NVAL exactly when there is none |
| SortedContainer.Container.Insert | rdcore/containers/sortedcontainer.h:38-47 | keeps the order; an element of the same key stays and the new one is dropped |
| SortedContainer.Container.Remove | rdcore/containers/sortedcontainer.h:32-36 | keeps the order; only the element with the key goes |
| SortedContainer.InsertedElements | rdcore/containers/sortedcontainer.h:38-47 | the elements after an insertion |
| SortedContainer.RemovedElements | rdcore/containers/sortedcontainer.h:32-36 | the elements after a removal |
| DocumentNet.DocumentNet.LinkNext | rdcore/document/documentnet.cpp:8-12 | both ends know of the link and no other link changes; forward links stay forward |
| DocumentNet.DocumentNet.UnlinkPrev | rdcore/document/documentnet.cpp:14-36 | the loop ends; nothing falls through to the address any more, everything else stays |
| DocumentNet.DocumentNet.UnlinkNext | rdcore/document/documentnet.cpp:38-52 | nothing falls through from the address any more, everything else stays |
| NetNodes.UnlinkedAll | rdcore/document/documentnet.cpp:21-33 | because predecessors are known at both ends, looking through prev finds all that fall through |
| DocumentNet.DocumentNet.LinkBranch | rdcore/document/documentnet.cpp:54-84 | exactly the list for branches that are taken, or for BranchFalse the other one, gains the target, and exactly its sources the address; a reference is added, direct unless the branch is indirect, where the branch is taken; targets still know their sources |
| DocumentNet.DocumentNet.LinkCall | rdcore/document/documentnet.cpp:94-106 | exactly the calls gain the target, and exactly its sources the address; a reference is added, direct unless the call is indirect |
| NetBranches.RefAdded | rdcore/document/documentnet.cpp:63-74 | one more reference; one from the same address stays as direct or indirect as it was |
| DocumentNet.DocumentNet.UnlinkBranch | rdcore/document/documentnet.cpp:86-92 | both lists of branches lose the target and its sources the address, nothing else; sources and references still agree exactly when the address is not called from there as well |
| DocumentNet.DocumentNet.UnlinkCall | rdcore/document/documentnet.cpp:108-113 | the calls lose the target and its sources the address, nothing else; the two still agree exactly when there is no branch to the address as well |
| DocumentNet.LinkBoth | rdcore/document/documentnet.cpp:54-106 | an address that is branched to and called, linked in either order |
| DocumentNet.UnlinkingOneLosesBoth | rdcore/document/documentnet.cpp:86-113 | a net in which either unlinking leaves the other link without its source and its reference |
| DocumentNet.DocumentNet.RemoveRef | rdcore/document/documentnet.cpp:123-135 | takes out the reference from one address to another and no other; nothing for the end mark |
| DocumentNet.DocumentNet.GenerateBasicBlock | rdcore/rdil/ilfunction.cpp:94-105 | with forward links and no node at RD_NVAL the walk ends, and adds exactly the addresses it comes to |
| DocumentNet.DocumentNet.ProcessFunctionBounds | rdcore/engine/engine.cpp:167-171 | afterwards a walk comes to the start of a function only by starting there |
| NetNodes.WalkEndsUnlessMarked | rdcore/rdil/ilfunction.cpp:99-104 | the walk from a node ends exactly when no node stands at RD_NVAL |
| NetNodes.TraceIsWalk | rdcore/rdil/ilfunction.cpp:99-104 | a finished walk has been to all addresses that following the links leads to |
| NetNodes.TraceIncreases | rdcore/rdil/ilfunction.cpp:99-104 | the addresses of a walk strictly increase |
| NetNodes.LaterIsEntered | rdcore/rdil/ilfunction.cpp:99-104 | a walk comes only to what something falls through to, but for its start |
| Crc16.Crc | rdcore/support/hash.cpp:6-19 | the register holds the remainder of the message times x^16, the start value added at its head, by x^16 + x^12 + x^5 + 1 |
| Crc16.CrcOfPart | rdcore/support/hash.cpp:23-29 | the remainder for a part; 0 when it reaches past the end, all of the data when no size is given |
| CrcWords.ByteStepIsEightSteps | rdcore/support/hash.cpp:13-15 | the mixing of one byte is eight steps of division, most significant bit first |
| Crc16.BytesAreBits | rdcore/support/hash.cpp:6-19 | over any message the byte form is the bit form |
| Crc16.CrcIsRemainder | rdcore/support/hash.cpp:6-19 | the bit form is long division of polynomials |
| Crc16.CrcContinues | rdcore/support/hash.cpp:11-16 | over a concatenation the CRC goes on from that of the first part |
| Crc16.BurstIsDetected | rdcore/support/hash.cpp:6-19 | messages that differ only within 16 neighbouring bits, at whatever bit those begin, have different CRCs |
| Crc16.CheckValue | rdcore/support/hash.cpp:9-18 | the CRC of "123456789" is 0x29B1, which tells this CRC from those with other start values or generators |
| Crc16.GeneratorIsMissed | rdcore/support/hash.cpp:6-19 | for 17 bits that is false |

## Left out

- The copies of lines and arrows that the blocks' edges keep besides those handed to the graph.
- Nodes that cannot be reached from the root: they keep row 0 and column 0, and nothing is claimed about where they are drawn.
- Widths of `int` and rounding of `float` in the layout: pixels and grid cells are unbounded integers.
- BlockContainer.Container.Mark: does not model ranges that reach out of the initial one, because the source does not clip them and the tiling is lost, nor empty ones, for which the source puts an empty block into an ordered set that cannot tell it from its neighbour.
- BlockContainer.Container.MarkSize: the same for size 0 and for what reaches out of the initial range.
- Crc16.CrcOfPart: does not model an offset and size whose sum wraps around 64 bits, because the source then reads outside of the data.
- Undname.ParsedSymbol.StrPrintf: does not model lengths that add up past 32 bits; the texts of its `%s` arguments are values, read before anything that they could overlap is written, because the result is a new region.
- Undname.ParsedSymbol.StrArrayPush: does not model texts and tables whose sizes pass 32 bits.
- Undname.ParsedSymbol.GetClassString: does not model stacks of names whose lengths add up past 32 bits.
- Undname.ParsedSymbol.UndAlloc: a request of no bytes may return an address outside of all blocks; it is no region.
- DocumentNet.DocumentNet.GenerateBasicBlock: asks for forward links and for no node at RD_NVAL; without the first the walk can go in circles, and `WalkEndsUnlessMarked` shows that the second is needed.
- The trace loop of str_array_push, which computes a character for a message that is switched off.
- PrintBuffer.PrintInfo.PrintComp: components other than texts, templates and argument lists are modelled as things printed one after another; the printing of modifiers is not modelled, nor components that contain themselves, which are values here and cannot.
- PrintBuffer.PrintInfo.PrintTemplate: the Java option, which prints an array in place of a template named JArray, is not modelled.
- The growing of sizes past 64 bits in d_growable_string_resize and the wrapping of the flush count.
- Rdil.FormatTo: null children, on which the source fails; they cannot be built by ILExpressionTree.
- RDIL match: it also goes through the lexer, which is not part of this model.
- RdilShapes.FormatIsUnambiguous: not claimed for statements within statements, where it is false for copies.
- TypeJson.RoundTrip: JSON numbers are 64-bit naturals; conversions of other numbers, and the order of members, belong to the JSON library, which is not part of this model.
- Types are values: that a field's type is shared between the list and the index of a structure, and renaming it from outside, are not modelled. toJson of an array without an item type is undefined in the source.
- The containers inside of net nodes are values changed by the functions that `SortedContainer.Container` is proved to implement.
- linkSysCall, linkBranchIndirect, linkBranchUnresolved, addRef and the queries of DocumentNet: one field or one call of what is modelled.
- The parsers of both demanglers, whole runs of the engine, plugins, loaders, the database, rendering and the user interface.
