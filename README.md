# Hunt the Wumpus maze engine, in Dafny

This project models the engine of a Java Hunt the Wumpus game and proves properties of the model. A maze is a grid of cells. Each cell keeps its four walls and the creatures in it: the wumpus, pits and bats.

The constructors build a fully walled grid. A non-wrapping maze has internal walls only. A wrapping maze also has border walls that join opposite edges.

`removeWalls` runs once. It goes through these phases:

1. Kruskal's algorithm removes walls until a union-find structure (`DisjointSet`) holds one set. The removed walls form a spanning tree of the cells.
2. A requested number of extra internal walls comes down.
3. In a wrapping maze, a requested number of border walls comes down.
4. The wumpus and the configured share of pits and bats go into the rooms. A room is a cell that is not a tunnel, i.e. not a cell with exactly two openings.
5. Every player is placed in a room that cannot kill and meets that room's creatures.

After that, players take turns. A player can move in a direction. A move walks through tunnels until it reaches a room. A player can also shoot an arrow, which flies through a given number of rooms.

A room's creatures act in priority order:
- the wumpus and a pit kill the player;
- a bat may carry the player to a random room.

`cellTraverseHelper` senses hazards in the rooms next to a player, looking through tunnels: from a room, each opening leads through any chain of tunnels to the room a move that way would reach, and that room is the one sensed.

The model keeps the source's shape:
- **Classes, updated in place by methods:** the cells, walls, players and the union-find.
  - Their specifications are ghost functions: `Cell.State()`, `Maze.Board()`, `DisjointSet.root`.
  - Lemmas about those functions carry the source's promises.
- **Datatypes:** the value types (`MazePoint`, `Direction`, `CreatureType`, `MazeCreature`).
- **Functions over a snapshot of every cell's walls:** the recursive walks.
  - `Walk` for `getCellAtDistance`, and `Passed` for the cells it marks visible when a move asks it to (the start cell, every tunnel and every room on the way).
  - `Sense` for `cellTraverseHelper`.

The model's inputs and error handling:
- **Random generators:** a random generator the source draws from is a `Generator` that replays a stream of draws. The movement/bat generator is modelled this way. The wall and adversary draws are modelled as a choice among the admissible candidates.
- **Exceptions:** every Java exception is a `Fault` value, and a call that may throw returns an `Outcome` or a `Result`.

The two maze classes are one class, `Mazes.Maze`, with a `wrapping` flag; `NonWrapping` and `Wrapping` are their constructors.

## Model

| member | source | states |
|---|---|---|
| MazePoints.Equals | src/graph/MazePoint.java:36-46 | `equals` holds exactly for another point with the same coordinates; null or an object of another class is never equal |
| MazePoints.EqualsSymmetric | src/graph/MazePoint.java:36-46 | `equals` is symmetric |
| MazePoints.EqualsTransitive | src/graph/MazePoint.java:36-46 | `equals` is transitive |
| Directions.OrdinalIndexes | src/maze/Direction.java:13-16 | the direction list holds each direction at its ordinal (N, E, S, W) |
| Directions.Movement | src/maze/Direction.java:22-25 | North is row -1, East column +1, South row +1, West column -1 |
| Directions.NextPoint | src/maze/Direction.java:33-40 | the next point differs from the given one by exactly the direction's movement |
| Directions.StepBack | src/maze/Direction.java:33-40 | a step followed by a step in the inverse direction returns to the start |
| Directions.InverseTwoAhead | src/maze/Direction.java:80-85 | the inverse is the direction two places further in the list, cyclically, which is the index arithmetic of `getInverseDirection` |
| Directions.InverseInvolution | src/maze/Direction.java:80-85 | inverting twice gives the direction back, and no direction is its own inverse |
| Directions.InverseMovement | src/maze/Direction.java:80-85 | the inverse direction moves by the negated offset |
| Directions.DirectionStringInjective | src/maze/Direction.java:69-71 | different directions have different one-letter names |
| Directions.FromString | src/maze/Direction.java:48-56 | parsing returns a direction with that name, or IllegalArgument exactly when no direction has it |
| Directions.FindByString | src/maze/Direction.java:48-56 | the loop over the values finds the first direction from a given index whose name matches, or fails when none does |
| Directions.FromStringRoundTrip | src/maze/Direction.java:48-71 | parsing a direction's name gives that direction back |
| Walls.Wall.constructor | src/maze/Wall.java:22-27 | a new wall stands at the given row, column and orientation |
| Walls.Wall.RemoveWall | src/maze/Wall.java:65-70 | removing a standing wall succeeds; removing a removed one is IllegalState; the wall is down afterwards |
| DisjointSets.DisjointSet.constructor | src/disjointset/DisjointSet.java:17-26 | every element starts as its own root with parent entry -1, so there are n sets |
| DisjointSets.DisjointSet.Create | src/disjointset/DisjointSet.java:17-26 | a size of zero or less is IllegalArgument; otherwise a valid forest of n singleton sets |
| DisjointSets.DisjointSet.GetUnsetParentCellCount | src/disjointset/DisjointSet.java:32-40 | the count of negative parent entries is the number of distinct representatives, i.e. the number of sets |
| DisjointSets.RootsAreRepresentatives | src/disjointset/DisjointSet.java:32-40 | in a forest the number of roots equals the number of distinct representatives |
| DisjointSets.DisjointSet.Find | src/disjointset/DisjointSet.java:47-53 | `find` returns the element's root; path compression only redirects non-roots to their root, and the forest and its sets are unchanged |
| DisjointSets.DisjointSet.Root | src/disjointset/DisjointSet.java:47-53 | following parent links from an element ends at its representative |
| DisjointSets.DisjointSet.Combine | src/disjointset/DisjointSet.java:60-72 | for two elements in the same set nothing changes; otherwise the two sets merge into one, under the root the source's weight test picks, with the merged weight, one set fewer, and every other set unchanged |
| DisjointSets.DisjointSet.Link | src/disjointset/DisjointSet.java:60-72 | attaching one root under another relabels exactly the loser's members and sums the weights |
| DisjointSets.AttachKeepsForest | src/disjointset/DisjointSet.java:60-72 | attaching a root under another keeps the parent array a forest with one root fewer |
| DisjointSets.CompressKeepsForest | src/disjointset/DisjointSet.java:47-53 | redirecting an element to its root keeps the forest and the number of roots |
| DisjointSets.MembersRelabel | src/disjointset/DisjointSet.java:60-72 | after a merge the winner's set holds both sets' members and the loser's set is empty |
| DisjointSets.CombineAsWritten | src/disjointset/DisjointSet.java:60-72 | `combine` on the roots returned by its two `find` calls, exactly as written, including the case where the two are the same |
| DisjointSets.CombineAsWrittenSameRootMerges | src/disjointset/DisjointSet.java:60-72 | combining an element with itself, as written, is not a no-op: `[-1, -1]` becomes `[-1, 0]`, so two singletons end up in one set |
| Creatures.Priority | src/mazecreatures/CreatureType.java:94-96 | priorities are 0, 1, 2 (pit, bat, wumpus) |
| Creatures.PriorityIndexes | src/mazecreatures/CreatureType.java:10-12 | the type list holds each type at its priority |
| Creatures.CreatureName | src/mazecreatures/CreatureType.java:70-72 | every type has a non-empty name |
| Creatures.TotalOccurrences | src/mazecreatures/CreatureType.java:80-85 | the wumpus occurs exactly once; asking for a customizable type's count is UnsupportedOperation |
| Creatures.CustomizableCreatures | src/mazecreatures/CreatureType.java:103-111 | the customizable types are pit and bat, in that order |
| Creatures.Customizable | src/mazecreatures/CreatureType.java:103-111 | the filter keeps exactly the customizable types of its input |
| Creatures.MakeCreature | src/mazecreatures/MazeCreature.java:19-22 | each creature is built with its type's action: wumpus, pit or bat action |
| Creatures.CompareTo | src/mazecreatures/MazeCreature.java:40-42 | `compareTo` is negative exactly for lower priority and zero exactly for the same type |
| Creatures.CompareToAntisymmetric | src/mazecreatures/MazeCreature.java:40-42 | `compareTo` is antisymmetric |
| Creatures.ActionOrderIsSortedPermutation | src/maze/Cell.java:131-142 | sort-then-reverse gives a permutation of the creatures in descending priority |
| Creatures.ActionOrderPermutation | src/maze/Cell.java:131-142 | the action order is a permutation of the cell's creatures |
| Creatures.ActionOrderSorted | src/maze/Cell.java:131-142 | the action order is in descending priority |
| Creatures.SortAscendingSorted | src/maze/Cell.java:131-142 | `Collections.sort` by `compareTo` yields ascending priority |
| Creatures.ActionOrderIdempotent | src/maze/Cell.java:131-142 | sorting an already ordered cell again changes nothing |
| Creatures.ActionOrderWellMade | src/maze/Cell.java:131-142 | reordering keeps every creature paired with its type's action |
| Creatures.OfTypeMultiset | src/maze/Cell.java:131-142 | the creatures split into the pits, bats and wumpuses with nothing lost |
| Creatures.ReverseMultiset | src/maze/Cell.java:131-142 | reversing is a permutation |
| Cells.Cell.constructor | src/maze/Cell.java:43-53 | a new cell has all four walls, no creatures and is not visible |
| Cells.Cell.Create | src/maze/Cell.java:43-53 | a negative row or column is IllegalArgument; otherwise a fresh cell at that position |
| Cells.HasTypeMeans | src/maze/Cell.java:77-84 | `hasCreature` holds exactly when some creature in the cell has that type |
| Cells.HasTypePermutation | src/maze/Cell.java:77-84 | reordering a cell's creatures does not change which types it holds |
| Cells.Cell.AddCreature | src/maze/Cell.java:94-105 | null is IllegalArgument; a type already present or a tunnel cell is UnsupportedOperation; otherwise the creature is appended and the modification count rises by one |
| Cells.Cell.SortForActions | src/maze/Cell.java:131-142 | the creatures become a permutation of themselves in descending priority, and the modification count rises by one |
| Cells.RunOrderHead | src/maze/Cell.java:131-142 | a cell with the wumpus runs it first; a cell with a pit but no wumpus or bat runs the pit first |
| Cells.Cell.Suggestions | src/maze/Cell.java:232-235 | the suggested directions are exactly those without a wall, each once, in the order N, E, S, W of `Direction.values()` |
| Cells.OpenAmongInOrder | src/maze/Cell.java:232-235 | filtering `Direction.values()` keeps the declaration order of the directions kept |
| Cells.Cell.TunnelHasTwoOpenings | src/maze/Cell.java:223-235 | a cell has 4 minus its wall count openings, and is a tunnel exactly when it has two |
| Cells.OpenCount | src/maze/Cell.java:232-235 | the directions without a wall number 4 minus the walls |
| Cells.Cell.RemoveWallInDirection | src/maze/Cell.java:158-166 | removing a missing wall, or any wall once creatures are in, is IllegalState; otherwise exactly that wall goes |
| Cells.RemoveFirstElems | src/maze/Cell.java:158-166 | removing a wall from a duplicate-free list removes that wall and keeps the others |
| Cells.Cell.MarkVisible | src/maze/Cell.java:112-114 | the cell becomes visible and nothing else changes |
| Players.MazePlayer.constructor | src/player/MazePlayer.java:29-46 | a new player is alive at its start point with all its arrows |
| Players.MazePlayer.Create | src/player/MazePlayer.java:29-46 | a negative start coordinate or index, or fewer than one arrow, is IllegalArgument |
| Players.MazePlayer.MarkPlayerDead | src/player/MazePlayer.java:59-61 | the player dies and keeps its position and arrows |
| Players.MazePlayer.ReduceArrowCount | src/player/MazePlayer.java:85-94 | the arrow state changes as `Reduce` says, and the position does not change |
| Players.Reduce | src/player/MazePlayer.java:85-94 | a dead player is UnsupportedOperation; otherwise one arrow is spent, and spending the last one kills the player with the arrows-expired fault |
| Players.ArrowsLastExactly | src/player/MazePlayer.java:85-94 | a player with n arrows survives n-1 shots and the n-th kills it |
| Players.DeadStaysDead | src/player/MazePlayer.java:85-94 | shots by a dead player change nothing |
| Players.ReduceKeepsBound | src/player/MazePlayer.java:85-94 | a live player has always spent fewer arrows than it has |
| Players.MazePlayer.SetNewPosition | src/player/MazePlayer.java:108-113 | a live player moves to the point; a dead one is UnsupportedOperation and stays |
| Generators.Generator.NextInt | src/mazecreatures/BatAction.java:25-27 | `nextInt(bound)`: a bound of zero or less is IllegalArgument; otherwise the next draw reduced below the bound |
| MazeLayout.WallCountBlocks | src/maze/AbstractMaze.java:484-488 | the number of internal walls is (rows-1)·cols horizontal plus (cols-1)·rows vertical, laid out in row blocks |
| MazeLayout.SpecAtIndex | src/maze/AbstractMaze.java:106-122 | the k-th wall the nested loops create lies inside the grid, and its position gives back index k |
| MazeLayout.SpecAtInjective | src/maze/AbstractMaze.java:106-122 | no two internal walls stand at the same place |
| MazeLayout.HIndexSpec | src/maze/AbstractMaze.java:106-122 | every horizontal wall position is created, at its index |
| MazeLayout.VIndexSpec | src/maze/AbstractMaze.java:106-122 | every vertical wall position is created, at its index |
| MazeLayout.BorderSpecDistinct | src/maze/WrappingRoomMaze.java:67-77 | border walls are pairwise distinct and differ from every internal wall |
| MazeLayout.NextModLemma | src/maze/AbstractMaze.java:134-161 | the next row or column index is one more, wrapping to 0 after the last |
| MazeLayout.CellIndexInRange | src/maze/AbstractMaze.java:337-359 | the flat cell index `row*cols+col` is below the cell count and decodes back to row and column |
| MazeLayout.CellIndexDecompose | src/maze/AbstractMaze.java:337-359 | every flat index below the cell count is the index of one grid cell |
| MazeLayout.JavaRemFacts | src/maze/AbstractMaze.java:459-481 | Java's `%` lies strictly between -n and n, is non-negative on non-negative operands, and agrees with the mathematical remainder |
| MazeLayout.ModIsRem | src/maze/AbstractMaze.java:459-481 | lifting a negative remainder by n until it is non-negative gives the mathematical remainder |
| MazeLayout.Wrapped | src/maze/AbstractMaze.java:459-481 | a wrapped point is in the grid; the only fault is IllegalArgument |
| MazeLayout.WrappedMeaning | src/maze/AbstractMaze.java:459-481 | a non-wrapping maze accepts exactly the points inside the grid and leaves them alone; a wrapping maze accepts every point and maps it to the cell congruent to it modulo the grid size |
| MazeLayout.WrapPoint | src/maze/AbstractMaze.java:459-481 | the method with its loops computes `Wrapped` |
| MazeLayout.Neighbour | src/maze/Direction.java:33-40 | a step from a cell, wrapped, lands inside the grid |
| MazeLayout.NeighbourWraps | src/maze/AbstractMaze.java:459-481 | a step is `wrapPoint` of `getNextPoint` |
| MazeLayout.NextIndexIsNeighbour | src/maze/AbstractMaze.java:134-161 | the cell south and east of a cell are the next row and column index where the maze wraps or is not at its edge, and off the grid otherwise |
| MazeLayout.OwnerOfSides | src/maze/AbstractMaze.java:163-184 | the two cell sides `removeWallHelper` clears for a wall both belong to that wall |
| MazeLayout.SidesOfOwner | src/maze/AbstractMaze.java:163-184 | a cell side that belongs to a wall is one of the two sides that wall clears |
| MazeLayout.OwnerSymmetric | src/maze/AbstractMaze.java:163-184 | a side has no wall exactly when it faces off the grid, and the facing side of the neighbour belongs to the same wall |
| MazeLayout.EndsInRange | src/maze/AbstractMaze.java:337-359 | the two cells of each internal wall are grid cells |
| MazeLayout.ConnectedSymmetric | src/maze/AbstractMaze.java:324-361 | reachability through removed walls is symmetric |
| MazeLayout.ConnectedTransitive | src/maze/AbstractMaze.java:324-361 | reachability through removed walls is transitive |
| MazeLayout.ConnectedMono | src/maze/AbstractMaze.java:324-361 | removing more walls keeps every connection |
| MazeLayout.ConnectedThroughWall | src/maze/AbstractMaze.java:337-359 | removing the wall between two sets joins every cell of one with every cell of the other |
| MazeLayout.AllWallsJoined | src/maze/AbstractMaze.java:337-359 | a labelling that agrees across every internal wall gives all cells one label |
| Kruskal.OneSet | src/maze/AbstractMaze.java:337-359 | there is at least one set, and exactly one when all cells share a representative |
| Kruskal.SpanningInitial | src/maze/AbstractMaze.java:337-359 | singleton sets and no removed walls satisfy the spanning-forest invariant |
| Kruskal.JoiningWall | src/maze/AbstractMaze.java:337-359 | while more than one set remains, some internal wall separates two sets |
| Kruskal.SpanningStep | src/maze/AbstractMaze.java:337-359 | removing a wall between two sets and merging them keeps the invariant: the wall was not removed before, each set is connected, and removed walls join cells of one set |
| Kruskal.SpanningDone | src/maze/AbstractMaze.java:337-359 | once one set remains every cell reaches every other through removed walls |
| WallGrids.FullGridAgrees | src/maze/AbstractMaze.java:94-122 | the walls of a fresh grid agree with no wall removed |
| WallGrids.OpenWallAgrees | src/maze/AbstractMaze.java:163-184 | opening a standing wall on both its sides keeps the cells' walls in agreement with the wall objects |
| WallGrids.AgreesConsistent | src/maze/AbstractMaze.java:163-184 | cells whose walls agree with the wall objects see each shared wall from both sides |
| Boards.NewBoardGenerating | src/maze/AbstractMaze.java:94-103 | a fresh board has every wall and no creatures, the state the generation phases start from |
| Boards.ClearAtWalls | src/maze/Cell.java:158-166 | clearing a side of a cell changes the board's walls at that side only |
| Boards.OpenBoardWalls | src/maze/AbstractMaze.java:163-184 | opening a wall on the board opens it on the wall grid |
| Boards.OpenBoardGenerating | src/maze/AbstractMaze.java:163-184 | opening a standing wall keeps the board in the generation state with that wall counted as removed |
| Traversal.ExitsMembers | src/maze/AbstractMaze.java:265-297 | the exits of a cell are the open directions other than the one the walk came from |
| Traversal.StepFacts | src/maze/AbstractMaze.java:265-297 | a step goes through an opening, and keeps the direction in a room; a room counts one; the walk stops exactly where the count reaches the distance |
| Traversal.Passed | src/maze/AbstractMaze.java:265-297 | the cells a walk passes: the start cell is among them and all lie on the grid |
| Traversal.PassedStep | src/maze/AbstractMaze.java:265-297 | the cells passed are the start cell, plus those passed from the neighbour exactly when the walk steps on to a point on the grid with fuel left |
| Traversal.PassedHoldsEnd | src/maze/AbstractMaze.java:274-275 | the cell a walk ends at is among the cells it passed, so a marking walk marks the cell it returns |
| Traversal.WalkStep | src/maze/AbstractMaze.java:265-297 | each case of the walk: found, a closed direction (null), a stuck tunnel (IllegalState), a step off the grid, the stack running out, or one step on |
| Traversal.WalkCountsRooms | src/maze/AbstractMaze.java:265-297 | a cell the walk returns is in the grid and lies exactly the requested number of rooms away |
| Traversal.WalkEndsInRoom | src/maze/AbstractMaze.java:265-297 | a walk of one room or more never ends in a tunnel |
| Traversal.WalkNonPositiveFindsNothing | src/maze/AbstractMaze.java:265-297 | a distance below the first cell's count reaches no cell |
| Traversal.TunnelNeverStuck | src/maze/AbstractMaze.java:265-297 | entering a tunnel through an opening always leaves it through the other |
| Traversal.LastRoomNeverClosed | src/maze/AbstractMaze.java:265-297 | a walk of one room never returns null |
| Traversal.WalkFaults | src/maze/AbstractMaze.java:265-297 | the only faults of a walk are IllegalArgument, IllegalState and a stack overflow |
| Traversal.WalkNeverStuck | src/maze/AbstractMaze.java:265-297 | in a maze whose cells agree on their shared walls, a walk that starts in a room or enters a tunnel through an opening can only fail by stack overflow |
| Traversal.Destination | src/maze/AbstractMaze.java:443-457 | the room a move reaches is in the grid and not a tunnel, and its faults are those of the walk |
| Traversal.MoveRefusedMeans | src/maze/AbstractMaze.java:443-457 | from a room, a move is refused (null) exactly when the direction has a wall |
| Traversal.SenseSound | src/maze/AbstractMaze.java:232-263 | in any grid and from any start, when sensing reports a creature, some room (a cell that is not a tunnel) of the grid holds it |
| Traversal.SenseEachSound | src/maze/AbstractMaze.java:244-262 | the loop over the exits reports a creature only when some room of the grid holds it |
| Traversal.SenseAdjacentRooms | src/maze/AbstractMaze.java:227-263 | from a room whose neighbours are rooms, sensing reports exactly whether a neighbour through an opening holds the creature |
| Traversal.SenseEachRooms | src/maze/AbstractMaze.java:243-261 | the loop over open directions reports exactly whether the neighbour through one of them holds the creature |
| Traversal.SenseEachOneWay | src/maze/AbstractMaze.java:244-262 | in a tunnel the loop skips the way back and answers as the one step through the other opening does |
| Traversal.TunnelWayOn | src/maze/AbstractMaze.java:244-262 | a tunnel entered through an opening has exactly the way back and one way on, the one a walk of one room takes |
| Traversal.SenseTunnel | src/maze/AbstractMaze.java:244-262 | in a tunnel entered through an opening, sensing and a walk of one room both go on through the one other opening to the neighbour there, whose facing side is open |
| Traversal.SenseRoom | src/maze/AbstractMaze.java:241-243 | a room reached through a side answers whether it holds the creature, and is where a walk of one room stops |
| Traversal.SenseFollowsWalk | src/maze/AbstractMaze.java:232-263 | in a maze whose cells agree on their shared walls, sensing a cell entered through an opening follows the tunnel chain as `getCellAtDistance` with distance one does: it answers whether the room that walk ends in holds the creature, and fails exactly as the walk fails |
| Traversal.DestinationFromRoom | src/maze/AbstractMaze.java:443-446 | a move out of a room through an opening is the one-room walk from the neighbour on that side |
| Traversal.SenseStepBeyond | src/maze/AbstractMaze.java:250-260 | one round of the loop from a room answers for the room the move that way reaches; that move never returns null and only fails by stack overflow |
| Traversal.SenseEachBeyond | src/maze/AbstractMaze.java:244-262 | the loop over open directions of a room: its only fault is stack overflow, an answer is true exactly when the room a move through one of them reaches holds the creature, and it answers whenever all those moves do |
| Traversal.SenseThroughTunnels | src/maze/AbstractMaze.java:232-263 | in a maze whose cells agree on their shared walls, sensing from a room fails only by stack overflow, answers whenever every move out of the room does, and its answer is true exactly when the room a move through some opening reaches, through any tunnels, holds the creature |
| Encounters.RoomsMembers | src/maze/AbstractMaze.java:364-377 | the non-tunnel cells, listed row by row, are exactly the grid cells that are not tunnels, each once |
| Encounters.HarmlessMembers | src/maze/AbstractMaze.java:186-220 | the start candidates are exactly the listed rooms that cannot kill |
| Encounters.OnlyBatsHarmless | src/maze/Cell.java:107-110 | a cell with only bats holds neither pit nor wumpus |
| Encounters.StockedHolds | src/maze/AbstractMaze.java:379-397 | every cell chosen by `addSingleCreature` holds a creature of the added type |
| Encounters.StockedKeeps | src/maze/AbstractMaze.java:379-397 | adding creatures keeps every creature already there |
| Encounters.EmptyHoldsNothing | src/maze/AbstractMaze.java:94-103 | a board without creatures holds no creature of any type anywhere |
| Encounters.RearrangedHolds | src/maze/Cell.java:131-142 | sorting the creatures of cells changes no cell's creature types |
| Encounters.RearrangedKeeps | src/maze/Cell.java:131-142 | sorting creatures keeps walls, emptiness and which cells can kill |
| Encounters.PreparedKeeps | src/maze/Cell.java:131-142 | marking a cell visible and sorting it keeps the board well formed and its walls |
| Encounters.MarkedSeen | src/maze/Cell.java:112-114 | marking a cell visible changes only visibility, and marks exactly that cell |
| Encounters.MarkedIsSeen | src/maze/Cell.java:112-114 | a board marked at a set of cells changes only visibility, and every marked cell on the grid is visible |
| Encounters.MarkedUnion | src/maze/AbstractMaze.java:268-296 | marking one set of cells and then another marks their union |
| Encounters.RearrangedKeepsSeen | src/maze/AbstractMaze.java:454-456 | entering a room (moving creatures, marking cells) never hides a visible cell |
| Encounters.ShotHitMeans | src/maze/AbstractMaze.java:304-322 | a shot hits exactly when it starts from a room, in an open direction, and the walk of power+1 rooms ends at the wumpus's room; such a room is power+1 rooms away and not a tunnel |
| Encounters.NegativePowerMisses | src/maze/AbstractMaze.java:304-322 | a negative power never hits |
| Encounters.ShotNeverStuck | src/maze/AbstractMaze.java:304-322 | a shot from a room in an open direction fails only by stack overflow |
| Mazes.CheckPercentages | src/maze/AbstractMaze.java:409-418 | the percentages pass exactly when each is between 0 and MAX_PERCENT; otherwise IllegalArgument |
| Mazes.Share | src/maze/AbstractMaze.java:424-428 | `size * percentage / MAX_PERCENT` is the floor of that fraction of the rooms, between 0 and the number of rooms |
| Mazes.TooFewWallsMeans | src/maze/NonWrappingRoomMaze.java:44-47 | the intended wall check refuses exactly the extra counts above (rows-1)·(cols-1), the walls a spanning tree leaves standing (see Findings for the 32-bit overflow) |
| Mazes.TooFewWallsOverflows | src/maze/NonWrappingRoomMaze.java:44-47 | as written on 32-bit ints, the check lets a 2x2 maze ask for Integer.MAX_VALUE extra walls, which the intended check refuses |
| Mazes.TooFewWallsAsWrittenAgrees | src/maze/NonWrappingRoomMaze.java:44-47 | while rows·cols and extra + rows·cols - 1 fit in an int, the check as written and the intended check agree |
| Mazes.NextTurn | src/maze/AbstractMaze.java:299-301 | the next turn index stays below the player count |
| Mazes.NextTurnWithin | src/maze/AbstractMaze.java:299-301 | the turn passes to the next player and from the last back to the first |
| Mazes.TurnsRotate | src/maze/AbstractMaze.java:299-301 | k turn changes advance the index by k modulo the player count |
| Mazes.TurnsCycle | src/maze/AbstractMaze.java:299-301 | after as many turns as there are players the turn is back where it was |
| Mazes.InitCells | src/maze/AbstractMaze.java:94-103 | every grid position gets a fresh cell with four walls at that position |
| Mazes.InitWalls | src/maze/AbstractMaze.java:106-122 | exactly the internal wall count of walls, the k-th standing where the layout puts index k |
| Mazes.InitBorderWalls | src/maze/WrappingRoomMaze.java:67-77 | one standing border wall per row and per column, at the last column and last row |
| Mazes.Maze.constructor | src/maze/AbstractMaze.java:65-87 | a new maze has all walls standing, fresh cells, no players, no phase done, and satisfies the maze invariant |
| Mazes.Maze.NonWrapping | src/maze/NonWrappingRoomMaze.java:34-51 | non-positive sizes, a missing generator, fewer than one player, negative extras or too few walls (the intended check, see Findings) are IllegalArgument, and nothing else is |
| Mazes.Maze.Wrapping | src/maze/WrappingRoomMaze.java:37-51 | as for the non-wrapping maze (with the same intended wall check), plus more border walls requested than exist is IllegalArgument |
| Mazes.Maze.RemovedMeans | src/maze/Wall.java:65-70 | a wall object is down exactly when its index is in the removed set |
| Mazes.Maze.RemoveWallHelper | src/maze/AbstractMaze.java:163-184 | removing a removed wall is IllegalState and changes nothing; otherwise both cells' sides of the wall open and the wall counts as removed |
| Mazes.Maze.ClearSides | src/maze/AbstractMaze.java:163-184 | the cell half: both sides are cleared, or IllegalState when the wall is already down |
| Mazes.Maze.RemoveSpanningTree | src/maze/AbstractMaze.java:337-359 | Kruskal's loop removes exactly cells-1 internal walls and leaves every cell reachable from every other |
| Mazes.Maze.JoinAllSets | src/maze/AbstractMaze.java:337-359 | the loop ends with one set while keeping the spanning-forest invariant and removed walls plus sets equal to the cell count |
| Mazes.Maze.JoinTwoSets | src/maze/AbstractMaze.java:337-359 | one productive round removes one wall and leaves one set fewer, keeping the invariant |
| Mazes.Maze.JoinAcross | src/maze/AbstractMaze.java:342-356 | a wall between two sets is removed and the sets combined: one set fewer, one more removed wall |
| Mazes.Maze.ChooseJoiningWall | src/maze/AbstractMaze.java:337-359 | the random draw of a wall, reduced to the walls that separate two sets |
| Mazes.Maze.WallCells | src/maze/AbstractMaze.java:342-350 | the flat indices computed from a wall's row, column and orientation are its two cells |
| Mazes.Maze.RemoveExtraWalls | src/maze/NonWrappingRoomMaze.java:68-78 | exactly the requested number of further standing walls of the list comes down, none for a count below one, and the other list is untouched |
| Mazes.Maze.RemoveWallPhases | src/maze/NonWrappingRoomMaze.java:54-66 | after the phases, cells-1 plus the extra internal walls are down, the requested border walls are down, and every cell is reachable |
| Mazes.Maze.RemoveAllWalls | src/maze/WrappingRoomMaze.java:54-65 | the phases with their flags: all requested walls removed, no creature or player yet, every cell reachable |
| Mazes.Maze.RemoveWalls | src/maze/AbstractMaze.java:324-361 | a second call is UnsupportedOperation and changes nothing; the first removes the walls as the phases say, and on success the wumpus is in a room and every player is alive, armed, and in a room that cannot kill |
| Mazes.Maze.GetNonTunnelCells | src/maze/AbstractMaze.java:364-377 | the rooms, listed row by row |
| Mazes.Maze.AddAt | src/maze/Cell.java:94-105 | adding to a cell fails exactly when it already holds that type or is a tunnel; otherwise only that cell changes, by one creature |
| Mazes.Maze.AddSingleCreature | src/maze/AbstractMaze.java:379-397 | the chosen cells come from the list and each gets the creature; success places exactly `count` (none for a negative count); too few cells is IllegalArgument; a chosen cell that already had the type is UnsupportedOperation |
| Mazes.Maze.AddWumpus | src/maze/AbstractMaze.java:399-407 | the wumpus goes into some room; with no room at all it is IllegalState and the board is unchanged |
| Mazes.Maze.AddShare | src/maze/AbstractMaze.java:424-428 | every room chosen holds the creature afterwards, and on success exactly `Share(number of rooms, percentage)` rooms were chosen; it cannot fail for a type that is in no room yet, and the wumpus stays |
| Mazes.Maze.AddShares | src/maze/AbstractMaze.java:423-429 | the entries in turn; failures are those of `addSingleCreature`, and the wumpus stays |
| Mazes.Maze.AddCreaturesToCells | src/maze/AbstractMaze.java:409-430 | bad percentages are IllegalArgument before anything changes; no room is IllegalState; success leaves the wumpus in a room and every player placed alive and safe |
| Mazes.Maze.StockAndPlace | src/maze/AbstractMaze.java:423-429 | after the wumpus: the shares, then the players, each alive, fully armed and safe |
| Mazes.Maze.PlacePlayers | src/maze/AbstractMaze.java:186-220 | a non-positive arrow count is IllegalArgument; success seats all players alive and safe, and the wumpus stays |
| Mazes.Maze.InitPlayerPosition | src/maze/AbstractMaze.java:186-220 | no arrows is IllegalArgument; no harmless room is IllegalState; success seats every player alive, with its arrows, in a room that cannot kill, with the turn at the first player |
| Mazes.Maze.PlaceRound | src/maze/AbstractMaze.java:196-218 | one round draws a harmless room, seats a player there and passes the turn |
| Mazes.Maze.PlacePlayer | src/maze/AbstractMaze.java:196-218 | a round fails with IllegalState exactly when no room is harmless; otherwise one more player, alive and safe |
| Mazes.Maze.ChooseStart | src/maze/AbstractMaze.java:196-207 | the start drawn is a room that cannot kill; none exists exactly when the list of harmless rooms is empty |
| Mazes.Maze.AddPlayer | src/maze/AbstractMaze.java:208-212 | the new player is appended, alive, at the room, with all its arrows |
| Mazes.Maze.EnterPlayer | src/maze/AbstractMaze.java:208-217 | a player added in a safe room meets it and, on success, is alive and the turn passes |
| Mazes.Maze.ChangePlayerTurn | src/maze/AbstractMaze.java:299-301 | the turn passes to the next player, wrapping around |
| Mazes.Maze.MeetAndPassTurn | src/maze/AbstractMaze.java:222-225 | the player meets its cell; success passes the turn, a failure does not; the player dies exactly by the wumpus or a pit; the cell's creatures decide as `Met` says: a wumpus kills the player where it stands, a pit with no bat kills it there, without a bat the player ends in that cell, and an empty cell is a pass |
| Mazes.Maze.PrepareCell | src/maze/Cell.java:131-135 | the cell becomes visible and its creatures are put in action order; nothing else changes |
| Mazes.Maze.PerformCellActions | src/maze/Cell.java:131-142 | the cell is marked visible; its creatures act in descending priority (`Met` on the cell's creatures before the call): a wumpus there kills the player with the wumpus message and the player stays in p; a pit with no bat and no wumpus kills it with the pit message and it stays; with no bat the player ends in p; with no creature the outcome is a pass; the player dies exactly by the wumpus or a pit, and then stands where it can be killed; on success the player is alive in a room that cannot kill; faults are a concurrent modification, an exhausted generator, a stack overflow or a kill |
| Mazes.Maze.RunCreatures | src/maze/Cell.java:136-141 | the loop over the cell sorted in descending priority: the first creature is the wumpus when there is one, else a pit when there is no bat, and it acts before anything can move the player, so `Met` holds of the run; the loop stops once the player has left p and checks the cell's modification count |
| Mazes.Maze.ExecuteAction | src/mazecreatures/MazeCreature.java:29-32 | the wumpus kills with its message, a pit kills with its message, and a bat acts as `BatCarry` says; a creature other than a bat never moves the player |
| Mazes.Maze.BatCarry | src/mazecreatures/BatAction.java:22-34 | the bat carries the player (`carried`) exactly when the first draw exists and its value below MaxPercent exceeds BatPickPercentage; otherwise the player keeps its position, no cell changes, and the outcome is a pass after one draw, or DrawsExhausted when there was no draw; the player dies only where it can be killed, and a moved player who passes is in a safe room |
| Mazes.Maze.DropPlayer | src/mazecreatures/BatAction.java:26-32 | `landed` is the room among the non-tunnel rooms (`Rooms`) that the next draw picks (`Drawn`); no draw left is DrawsExhausted with nothing changed; at depth 0 the player is in `landed` and the outcome is a stack overflow; otherwise the landing room's creatures act on the player as `Met` says of that room before the drop |
| Mazes.Drawn | src/mazecreatures/BatAction.java:27-28 | the element `nextInt(|xs|)` picks for a draw is one of `xs` |
| Mazes.DrawnIsRemainder | src/mazecreatures/BatAction.java:27-28 | the picked element is the one at the draw's remainder by the length, the index `nextInt` returns |
| Mazes.Maze.Encounter | src/mazecreatures/WumpusPitAbstractAction.java:14-17 | a player meeting a room's creatures is marked dead exactly when the wumpus or a pit acts, and the maze stays valid; the room's creatures decide the outcome and where the player ends as `Met` says |
| Mazes.Maze.GetCellAtDistance | src/maze/AbstractMaze.java:265-297 | the method's walk returns what `Walk` defines; when asked to mark, exactly the cells `Passed` lists (the start cell, every tunnel and every room on the way, the last cell included) become visible and every other cell and field stays as it was; when not asked, the board is unchanged |
| Mazes.Maze.MarkIfAsked | src/maze/AbstractMaze.java:267-270 | the cell at the point becomes visible when asked and nothing else changes; when not asked, nothing changes |
| Mazes.Maze.StepHere | src/maze/AbstractMaze.java:271-296 | the cell read at the point decides the step `StepAt` names: found, a closed direction (null), a stuck tunnel (IllegalState), or onward in a direction with the distance left |
| Mazes.Maze.Onward | src/maze/AbstractMaze.java:283-296 | a step to the wrapped neighbour: a step off the grid is its fault, no stack left is a stack overflow, otherwise the walk continues from the neighbour |
| Mazes.Maze.MarkSeen | src/maze/Cell.java:112-114 | only the visibility of the cell changes: the board is the old one with exactly that cell marked |
| Mazes.Maze.Trace | src/maze/AbstractMaze.java:315 | the arrow's walk, without marking, answers what `Walk` defines and leaves the board as it was |
| Mazes.Maze.Aim | src/maze/AbstractMaze.java:307-315 | the arrow's flight decides as `Shot` says and leaves the board as it was |
| Mazes.Maze.ChargeMiss | src/maze/AbstractMaze.java:319-321 | a miss charges the player whose turn it is one arrow; the turn passes only when the charge succeeds |
| Mazes.Maze.ShootArrow | src/maze/AbstractMaze.java:304-322 | a fault or a hit ends the shot with the turn unchanged; a miss charges an arrow as `Reduce` says and then passes the turn |
| Mazes.Maze.Advance | src/maze/AbstractMaze.java:446-450 | the move's walk reaches the room `Destination` names; it marks visible exactly the cells `Passed` lists for a walk of two rooms, all of which are then visible, and changes nothing else |
| Mazes.Maze.EnterRoom | src/maze/AbstractMaze.java:451-456 | a dead player is UnsupportedOperation and stays; a live one meets the room q as `Met` says of q's creatures: a wumpus kills it in q, a pit without a bat kills it in q, and with no bat it ends in q; it dies exactly by the wumpus or a pit, and on success is safe and the turn passes |
| Mazes.Maze.MovePlayerInDirection | src/maze/AbstractMaze.java:443-457 | an index past the players is IndexOutOfBounds; a wall is a recoverable refusal and the player stays; a walk fault is passed on; otherwise a live player enters the room reached and its creatures act as `Met` says (a wumpus kills it there, a pit without a bat kills it there, with no bat it ends there); the turn passes exactly on success; whatever the outcome, every cell the walk passed (`Passed`) ends visible |
| Mazes.Maze.MovePlayer | src/maze/AbstractMaze.java:446-456 | the move of the player whose turn it is, with the same outcomes, including `Met` of the room reached, every cell the walk passed ending visible |
| Mazes.Maze.Arrive | src/maze/AbstractMaze.java:448-456 | once the walk has answered: a fault is passed on, a closed direction is a recoverable refusal, a room reached is entered and its creatures act as `Met` says; cells already visible stay visible |

## Left out

- The views, controllers, the text and graphical user interfaces, `MazeImageUtils` and every other file outside the maze engine are not part of this model.
- `java.util.Random`: the bat and movement generator is a stream of draws; a draw value `v` stands for `nextInt(bound)` returning `v % bound`, and an exhausted stream is the fault `DrawsExhausted`. The wall and adversary generators are modelled as a choice among the candidates the source's loops eventually accept, so their rejected draws (walls already removed) are collapsed.
- `wallGenerator` and `adversaryGenerator` draws in `initCells` and `addSingleCreature` are this choice; which cell a given seed picks is not modelled.
- The JVM call stack is a `fuel` (`stackDepth`) bound on the recursive walks; running out is the fault `StackOverflow`, not a crash.
- `incrementKilledPlayersCount`, called when the wumpus or a pit kills, is defined nowhere in the repository; the killed-players counter is left out.
- `getExpectedMovementPosition` and `resultingCellHasCreature` of `AbstractMaze` are helpers for the user interface and are not modelled.
- The percentage map is a sequence of (type, percentage) pairs in the map's iteration order, which the caller chooses; a null map is treated like an empty one.
- Mazes.TooFewWallsMeans: Mazes.Maze.NonWrapping and Mazes.Maze.Wrapping use the intended wall check on unbounded integers; Java's 32-bit sum `extra + (rows * cols - 1)` wraps for extra counts near Integer.MAX_VALUE and then accepts them (see Findings).
- Mazes.Share: `size * percentage` is computed on unbounded integers; Java's int overflow for mazes above about twenty million rooms is not modelled.
- Mazes.Maze.AddCreaturesToCells: does not state how many pits and bats each share places; `AddShare` states the count of one share.
- Mazes.Maze.RemoveAllWalls: the three phase flags are raised together before the phases run, since no phase reads them.
- Mazes.Maze.ChooseJoiningWall: Kruskal's random draws that hit a wall between cells already in one set are skipped; the loop is modelled by its productive rounds only.
- DisjointSets.DisjointSet.Combine: the source attaches the set with the larger weight (the more negative entry) under the other root, and the model follows the code; the corrected member also leaves elements of one set alone instead of corrupting the forest (see Findings).
- Mazes.Maze.BatCarry: when the bat picks the player up, where the player lands and what meets it there is stated on Mazes.Maze.DropPlayer (the room `landed`), not restated on BatCarry.
- Mazes.Maze.RunCreatures: in a room with a bat and a pit but no wumpus, the bat acts first; that the pit then kills a player the bat did not carry off is not stated (`Met` leaves that case open; the bat's draw rule is stated on Mazes.Maze.BatCarry).

## Findings

| source | as written | input that shows it | evidently intended | confidence | as-written member | corrected member |
|---|---|---|---|---|---|---|
| src/maze/NonWrappingRoomMaze.java:44-47 | the right-hand side `extra + (totalRows * totalColumns - 1)` is computed on 32-bit ints and wraps | a 2x2 maze (4 internal walls, 3 of them needed by the spanning tree) with `extraInternalWallsToRemove` = 2147483647: the sum wraps to -2147483646, the check passes, and `removeExtraWalls` would keep drawing walls after the last one is down | refuse any extra count above (rows-1)·(cols-1) | not executed | Mazes.TooFewWallsOverflows | Mazes.TooFewWallsMeans |
| src/disjointset/DisjointSet.java:60-72 | `combine` on two elements whose roots are the same index takes the else branch: the root's entry is set to itself and then adds its own weight | parent array `[-1, -1]`, `combine(1, 1)` gives `[-1, 0]`: element 1 now hangs under 0, the singletons `{0}` and `{1}` are merged, and root 0 still records one member | combining elements of one set changes nothing | not executed | DisjointSets.CombineAsWrittenSameRootMerges | DisjointSets.DisjointSet.Combine |
