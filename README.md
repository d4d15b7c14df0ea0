# Cops and robber: the game controller

This project models the rules engine of a turn-based cops-and-robber board game, the
`Controller` class. The player moves two cops on a square grid of tiles and a computer-played
robber answers each move. The controller does five jobs:

- It builds every tile's adjacency list from a 0/1 adjacency matrix.
- It resets the tiles' search flags (visited, selectable, distance, parent, current).
- It runs a depth-limited breadth-first search that marks the tiles a piece can reach in one
  turn. When a cop moves, the other cop's tile is never entered.
- It picks the robber's destination. The random robber takes any candidate tile. The smart
  robber runs three whole-board searches (from the robber and from each cop) and picks by
  maximin: the candidate farthest from the nearer cop, with ties broken by distance from the
  robber and then by the lowest tile number.
- It runs the turn state machine (Init, CopSelected, TileSelected, RobberTurn, End,
  Restarting) through the click and button handlers.

The Dafny files are:

- `grid.dfy` (module `Grid`): the board geometry and the adjacency relation the matrix
  encodes, with the properties of the lists built from it.
- `search.dfy` (module `Search`): paths on the board and shortest distances. It also holds
  the invariant of the breadth-first search and one lemma for each step of the search. The
  controller's bounded search and its whole-board search share them.
- `policy.dfy` (module `Policy`): the robber's choice of destination over the selectable
  flags and the distance tables.
- `controller.dfy` (module `Game`): class `Controller`. Its fields are the board constants,
  one array per tile flag, the adjacency lists, the pieces' tiles and the game state. Each
  handler is a method over these fields.

Each tile is an index into parallel arrays. A piece is represented by the tile it stands on.
The game's constants (tiles per row, move distance, maximum rounds, starting tiles) are
parameters of the constructor.

## Model

| member | source | states |
|---|---|---|
| Game.Controller.constructor | Assets/Scripts/Controller.cs:24-29 | Start: the pieces stand on their starting tiles, the board's lists are built, every tile's flags are reset, the state is Init, and every array is newly allocated, so the handlers can be called on the new controller |
| Game.Controller.InitAdjacencyLists | Assets/Scripts/Controller.cs:132-181 | every tile's list is exactly the tiles whose matrix entry is 1, in column order (`BoardBuilt`) |
| Game.AdjacencyMatrix | Assets/Scripts/Controller.cs:134-168 | entry (i, j) is 1 exactly when j is the on-board tile above, below, left of or right of i, and 0 otherwise |
| Game.Controller.ResetTiles | Assets/Scripts/Controller.cs:183-189 | afterwards every tile is unvisited, unselectable, at distance 0, without a parent and not highlighted |
| Game.Controller.ClickOnCop | Assets/Scripts/Controller.cs:191-207 | in Init or CopSelected: that cop is selected, only its tile is highlighted, and the flags are a fresh search from its tile that avoids the other cop; in any other state nothing changes |
| Game.Controller.SelectCop | Assets/Scripts/Controller.cs:197-204 | the selection step of `ClickOnCop`, with the same post-state, the pieces untouched and the state CopSelected |
| Game.Controller.ClickOnTile | Assets/Scripts/Controller.cs:209-232 | with a cop selected, a selectable tile receives that cop and is highlighted, the other cop stays, the two cops end on different tiles and the state is TileSelected; an unselectable tile changes nothing but the clicked tile; TileSelected and RobberTurn go back to Init; other states are kept |
| Game.Controller.MoveSelectedCop | Assets/Scripts/Controller.cs:216-223 | the selected cop moves onto the clicked selectable tile, which is never its own tile or the other cop's |
| Game.Controller.FinishTurn | Assets/Scripts/Controller.cs:234-254 | after a cop's move the robber moves by its policy and the state is RobberTurn; after the robber's move the flags are reset, the round count goes up by one (32-bit, wrapping), and the game goes back to Init or ends with "You Lose!" once it passes the maximum; in both branches the cops, the robber mode and the selected cop are kept, and after the robber's move the robber and the clicked tile too; in other states nothing changes |
| Game.Controller.RobberTurn | Assets/Scripts/Controller.cs:256-286 | the flags are a search from the robber's old tile; the robber ends on the maximin pick (smart) or on any candidate (random), and stays put only when there is none; cops, state and round count are kept |
| Game.Controller.EndGame | Assets/Scripts/Controller.cs:288-296 | the state is End and the message is "You Win!" exactly when `end` holds, "You Lose!" otherwise |
| Game.Controller.PlayAgain | Assets/Scripts/Controller.cs:298-312 | the pieces are back on their starting tiles, the flags are reset, the message is cleared, the round count is 0 and the state is Restarting |
| Game.Controller.InitGame | Assets/Scripts/Controller.cs:314-318 | the state becomes Init and nothing else changes |
| Game.Controller.IncreaseRoundCount | Assets/Scripts/Controller.cs:320-324 | the round count goes up by one as a 32-bit signed counter: exactly one more below the 32-bit maximum, wrapping to the 32-bit minimum at it; nothing else changes |
| Game.Wrap32Exact | Assets/Scripts/Controller.cs:322 | 32-bit wrap-around leaves a value unchanged exactly when it is in the 32-bit range, so the counter steps by one everywhere but at the maximum |
| Game.Controller.FindSelectableTiles | Assets/Scripts/Controller.cs:326-366 | the source is highlighted; a tile is visited exactly when it lies within the move distance of the source along paths that avoid the blocked tile; its distance is its shortest-path length; its parent is a neighbour one move nearer; the selectable tiles are the visited ones other than the source |
| Game.Controller.ResetAndFind | Assets/Scripts/Controller.cs:201-202 | a reset followed by a search leaves exactly the search's marks on otherwise reset flags, with only the source highlighted |
| Game.Controller.Spread | Assets/Scripts/Controller.cs:337-365 | the search loop establishes `Marked`: shortest distances within the horizon, the parent tree, and selectable equal to visited minus the source |
| Game.Controller.VisitNeighbours | Assets/Scripts/Controller.cs:350-364 | the inner loop keeps the search invariant and leaves every neighbour of the expanded tile visited or blocked |
| Game.Controller.VisitNeighbour | Assets/Scripts/Controller.cs:352-363 | a neighbour that is unvisited, and is not the other cop's tile during a cop's move, is visited one move further, gets the expanded tile as its parent, is enqueued and becomes selectable; any other neighbour changes neither the flags nor the queue; the search invariant is kept |
| Game.Controller.MarkReached | Assets/Scripts/Controller.cs:357-362 | the four flag writes for a newly reached tile change that tile alone |
| Game.Controller.SelectableMeaning | Assets/Scripts/Controller.cs:343-365 | after a search, a tile is selectable exactly when it is not the source and is reachable within the move distance; its distance lies between 1 and the move distance; the source is never selectable; the blocked tile is never visited |
| Game.Controller.SelectableIsFree | Assets/Scripts/Controller.cs:354-362 | a selectable tile is neither the search's source nor the blocked tile |
| Game.Controller.FindFarthestTileFromCops | Assets/Scripts/Controller.cs:31-112 | the flags are a fresh search from the robber; the result is the maximin pick over the selectable tiles, with the nearer cop's shortest distance and the robber's shortest distance as scores |
| Game.Controller.Distances | Assets/Scripts/Controller.cs:33-54 | the whole-board search marks exactly the tiles reachable from the source and records their shortest distances; unreached tiles keep 0 |
| Game.Controller.ExpandLocal | Assets/Scripts/Controller.cs:45-53 | expanding one dequeued tile keeps the search invariant and leaves all its neighbours seen |
| Game.Controller.VisitLocal | Assets/Scripts/Controller.cs:47-52 | an unseen neighbour is seen one move further than the expanded tile and enqueued; a seen one changes neither the arrays nor the queue; the search invariant is kept |
| Game.Controller.Record | Assets/Scripts/Controller.cs:49-50 | the two writes for a newly seen tile change that tile alone |
| Game.Controller.RobberDistancesFromSearch | Assets/Scripts/Controller.cs:33-54 | a finished whole-board search from the robber has computed the robber's distance table |
| Game.Controller.NearestCopDistances | Assets/Scripts/Controller.cs:56-88 | each entry is the shortest distance from the nearer cop, or the largest 32-bit integer when no cop reaches the tile |
| Game.NearestAddSource | Assets/Scripts/Controller.cs:76 | folding one more cop's distances into the running minimum gives the distance from the enlarged set of cops |
| Game.NothingFromNowhere | Assets/Scripts/Controller.cs:56-60 | with no cop searched yet, no tile is reachable, so every entry starts at the largest 32-bit integer |
| Game.CopTileAtZero | Assets/Scripts/Controller.cs:69-76 | a cop's own tile has cop distance 0 |
| Game.SmartAvoidsCops | Assets/Scripts/Controller.cs:97-111 | when some candidate is at positive distance from both cops, the smart robber never moves onto a cop's tile |
| Policy.FarthestCandidate | Assets/Scripts/Controller.cs:90-111 | the scan returns the candidate no candidate outranks and that outranks every lower-numbered candidate; with no candidate it returns the robber's own tile |
| Policy.MaximinUnique | Assets/Scripts/Controller.cs:97-111 | the smart pick is determined by the flags and the two distance tables |
| Policy.MaximinBeatsWorse | Assets/Scripts/Controller.cs:101-106 | the smart pick is never a tile that some candidate beats on cop distance |
| Policy.SelectableTiles | Assets/Scripts/Controller.cs:270-277 | the list holds exactly the selectable tiles other than the robber's own, in ascending order without repeats |
| Policy.RandomTarget | Assets/Scripts/Controller.cs:279-281 | the pick is a candidate when there is one, and the robber's own tile otherwise |
| Policy.StaysOnlyWhenStuck | Assets/Scripts/Controller.cs:279-281 | under either policy the robber stays put exactly when no tile is a candidate |
| Grid.AdjacentInRange | Assets/Scripts/Controller.cs:149-167 | every matrix neighbour is a tile of the board |
| Grid.AdjacentSymmetric | Assets/Scripts/Controller.cs:149-167 | the matrix is symmetric |
| Grid.NoSelfLoop | Assets/Scripts/Controller.cs:149-167 | the diagonal of the matrix is 0 |
| Grid.AdjacentIffManhattan | Assets/Scripts/Controller.cs:143-167 | two tiles are adjacent exactly when their rows and columns differ by 1 in total |
| Grid.NeighboursExactly | Assets/Scripts/Controller.cs:170-180 | a tile is in another's list exactly when the matrix entry is 1 |
| Grid.NeighboursAscending | Assets/Scripts/Controller.cs:173-178 | every list is strictly ascending |
| Grid.NeighboursAreOrthogonal | Assets/Scripts/Controller.cs:143-180 | every list is: up, left, right, down, each present when it stays on the board |
| Grid.DegreeAtMostFour | Assets/Scripts/Controller.cs:149-167 | no tile has more than four neighbours |
| Grid.CornerDegreeTwo | Assets/Scripts/Controller.cs:149-167 | on a board at least two tiles wide, each corner has exactly two neighbours |
| Grid.NeighboursInRange | Assets/Scripts/Controller.cs:170-180 | every list entry is a tile of the board |
| Grid.IncreasingUnique | Assets/Scripts/Controller.cs:173-178 | two strictly ascending lists with the same members are equal |
| Search.BfsDone | Assets/Scripts/Controller.cs:343-365 | a search whose queue has run dry has visited exactly the tiles inside its horizon, at their shortest distances |
| Search.Complete | Assets/Scripts/Controller.cs:343-365 | with the queue empty, every tile reachable within k moves (k inside the horizon) is visited at distance at most k |
| Search.BfsStart | Assets/Scripts/Controller.cs:339-341 | a queue holding only the source, visited at distance 0, satisfies the search invariant |
| Search.SkipDeep | Assets/Scripts/Controller.cs:347-348 | dropping a tile at the move distance keeps the invariant |
| Search.BeginExpand | Assets/Scripts/Controller.cs:345-350 | dequeuing a tile inside the horizon starts its expansion |
| Search.Discover | Assets/Scripts/Controller.cs:354-360 | visiting an unvisited, unblocked neighbour one move further and enqueuing it keeps the invariant and raises the visited count by one |
| Search.DiscoverSound | Assets/Scripts/Controller.cs:357-358 | the new distance is the length of a path to the new tile, within the horizon |
| Search.DiscoverClosed | Assets/Scripts/Controller.cs:357-360 | visiting a new tile keeps every finished tile's neighbours visited |
| Search.Pass | Assets/Scripts/Controller.cs:354-355 | a visited or blocked neighbour leaves the search state unchanged and the invariant kept |
| Search.EndExpand | Assets/Scripts/Controller.cs:350-364 | after all neighbours are examined, the outer invariant holds again |
| Search.ParentTreeGrow | Assets/Scripts/Controller.cs:359 | recording the expanded tile as the new tile's parent keeps every visited tile linked to a neighbour one move nearer |
| Search.BlockedNeverReached | Assets/Scripts/Controller.cs:354-355 | a blocked tile is reachable only when it is itself the source |
| Search.ShortestIsLeast | Assets/Scripts/Controller.cs:343-365 | a shortest-path length is at most the length of any path |
| Search.ShortestIsDist | Assets/Scripts/Controller.cs:343-365 | shortest-path lengths are unique |
| Search.SourceDistZero | Assets/Scripts/Controller.cs:339-340 | the source is at distance 0 |
| Search.WithinMonotone | Assets/Scripts/Controller.cs:343-365 | a tile reachable within k moves is reachable within any larger budget |
| Search.WithinUnion | Assets/Scripts/Controller.cs:62-88 | the paths from two sets of sources together are the paths from either set |
| Search.DistUnion | Assets/Scripts/Controller.cs:76 | the shortest distance from two sets of sources together is the smaller of the two |
| Search.CountMark | Assets/Scripts/Controller.cs:357 | marking an unvisited tile raises the visited count by exactly one, which bounds the search's running time |

## Left out

- The Unity scene is not part of this model. That covers finding the tile objects
  (`InitTiles`, lines 114-126), the piece animations (`MoveToTile`), the "Rounds:"
  text, the end-of-game text and the play-again button. The starting positions that
  `InitTiles` sets (lines 127-129) are modelled by the constructor.
- `CopMove` and `RobberMove` are not part of this model. `PlayAgain` (lines 300-302) puts
  the pieces back only through their `Restart(tile)` calls; the model takes `Restart(tile)` to
  set the piece's current tile to `tile`, as lines 219 and 285 do after `MoveToTile`.
- `finalMessage` is a three-valued `Message`; the text strings are not kept.
- The `Tile` class is not part of this model. `Tile.Reset` is taken to clear the visited and
  selectable flags, set the distance to 0, clear the parent (written `NoTile`, -1) and clear
  the highlight. A tile's `numTile` (read at lines 50, 76, 219 and 285) is taken to be its
  index in the tile array, so tile `i` is simply the number `i`. The flags of every tile are
  taken to start in that reset state when the scene loads: `Start` (lines 24-29) does not call
  `ResetTiles`, and the constructor's reset flags stand for the tiles' initial field values.
- `Random.Range` is a nondeterministic choice of a list index (`:|`). No distribution is
  modelled.
- The search queues hold tile numbers, not tile objects. The search keeps its flags in arrays
  indexed by tile number.
- Game.Controller.NearestCopDistances: the source folds a cop's distance into the running
  minimum as each tile is dequeued. The model runs that cop's whole-board search first and
  then folds the distances of every reached tile in tile order. Each reached tile is dequeued
  exactly once, so the minimum ends the same; the order of the writes is not modelled.
- Game.Controller.RobberTurn requires the flags to be reset on entry. Its only caller,
  `FinishTurn`, resets them just before. Called from any other state, the source would search
  on stale flags, and that case is not modelled.
- The round count is a 32-bit signed counter and wraps around (`Wrap32`): with a maximum
  round count equal to the 32-bit maximum, the increment wraps to the 32-bit minimum, the test
  `roundCount <= MaxRounds` (line 247) keeps holding and the game never ends; the model keeps
  that behaviour. The distances are unbounded integers: they stay below the number of tiles,
  which the constructor bounds by 2^31 - 1.
- Game.Controller.ClickOnTile and Game.Controller.ClickOnCop require `Consistent()`. This
  means the flags are the selected cop's search whenever the state is CopSelected, which every
  handler preserves. The handlers are not modelled as called in an arbitrary order from
  arbitrary flag states.
- The handlers take their tile or cop number as given. Out-of-range numbers come only from the
  scene's wiring, which is not part of this model.
