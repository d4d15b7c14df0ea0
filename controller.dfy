/** The game controller: the board, the per-tile search flags, the pieces'
    positions and the turn state machine. Pieces are represented only by the
    tile they stand on; what is drawn on screen is not part of this model. */
module Game {
  import Grid
  import Policy
  import opened Search

  /** The largest 32-bit signed integer: the "no cop reaches this tile" distance. */
  const IntMax: int := 0x7fff_ffff

  /** The smallest 32-bit signed integer. */
  const IntMin: int := -0x8000_0000

  /** Two's-complement wrap-around of a 32-bit signed integer: the value in
      `IntMin..IntMax` that is congruent to `x` modulo 2^32. */
  function Wrap32(x: int): (r: int)
    ensures IntMin <= r <= IntMax && (x - r) % 0x1_0000_0000 == 0
  {
    (x - IntMin) % 0x1_0000_0000 + IntMin
  }

  /** Wrapping changes a value exactly when it lies outside the 32-bit range. */
  lemma Wrap32Exact(x: int)
    ensures Wrap32(x) == x <==> IntMin <= x <= IntMax
  {
  }

  /** The parent of a tile the search has not reached. */
  const NoTile: int := -1

  datatype State = Init | CopSelected | TileSelected | RobberTurn | End | Restarting

  /** The end-of-game message shown to the player, who plays the cops. */
  datatype Message = NoMessage | YouWin | YouLose

  /** The tiles a search may not enter: the other cop's tile when a cop moves. */
  function Blocked(cop: bool, other: int): set<int>
  {
    if cop then {other} else {}
  }

  /** Exactly the visited tiles other than the source are selectable. */
  ghost predicate SelectableIsVisited(vis: seq<bool>, sel: seq<bool>, src: int)
  {
    |sel| == |vis| && forall v :: 0 <= v < |vis| ==> (sel[v] <==> vis[v] && v != src)
  }

  /** Tiles the search did not reach keep the distance and parent they had before it. */
  ghost predicate KeptWhereUnvisited(vis: seq<bool>, dist: seq<int>, par: seq<int>, dist0: seq<int>, par0: seq<int>)
  {
    |dist| == |vis| && |par| == |vis| && |dist0| == |vis| && |par0| == |vis| &&
    forall v :: 0 <= v < |vis| && !vis[v] ==> dist[v] == dist0[v] && par[v] == par0[v]
  }

  /** Reaching a new tile `w` other than the source makes it, and only it, newly selectable. */
  lemma SelectableGrow(vis: seq<bool>, sel: seq<bool>, src: int, w: int)
    requires SelectableIsVisited(vis, sel, src) && 0 <= w < |vis| && !vis[w] && w != src
    ensures SelectableIsVisited(vis[w := true], sel[w := true], src)
  {
  }

  /** Reaching a new tile `w` changes the distance and parent of `w` alone. */
  lemma KeptGrow(vis: seq<bool>, dist: seq<int>, par: seq<int>, dist0: seq<int>, par0: seq<int>, w: int, d: int, p: int)
    requires KeptWhereUnvisited(vis, dist, par, dist0, par0) && 0 <= w < |vis|
    ensures KeptWhereUnvisited(vis[w := true], dist[w := d], par[w := p], dist0, par0)
  {
  }

  /** Distance from the nearer of two cops to each tile; tiles no cop reaches keep `IntMax`. */
  ghost function CopDistances(g: seq<seq<int>>, cop0: int, cop1: int): (r: seq<int>)
    ensures |r| == |g|
  {
    seq(|g|, v => Nearest(g, {cop0, cop1}, IntMax, v))
  }

  /** Distance from the robber's tile to each tile; tiles it does not reach keep 0. */
  ghost function RobberDistances(g: seq<seq<int>>, from: int): (r: seq<int>)
    ensures |r| == |g|
  {
    seq(|g|, v => Nearest(g, {from}, 0, v))
  }

  /** The length of a shortest path from `srcs` to `v`, or `none` when there is no path. */
  ghost function Nearest(g: seq<seq<int>>, srcs: set<int>, none: int, v: int): int
  {
    if Reachable(g, srcs, {}, v) then Dist(g, srcs, {}, v) else none
  }

  /** Nothing is reachable from no source. */
  lemma {:induction false} NothingFromNowhere(g: seq<seq<int>>, k: nat, v: int)
    ensures !Within(g, {}, {}, k, v)
  {
    if k > 0 {
      NothingFromNowhere(g, k - 1, v);
      var k' := k - 1;
      forall u | 0 <= u < |g|
        ensures !Within(g, {}, {}, k', u)
      {
        NothingFromNowhere(g, k', u);
      }
    }
  }

  /** Folding one more cop's search into the running minimum. */
  lemma NearestAddSource(g: seq<seq<int>>, srcs: set<int>, c: int, v: int, reached: bool, d: int)
    requires |g| <= IntMax
    requires reached <==> Reachable(g, {c}, {}, v)
    requires reached ==> 0 <= d < |g| && d == Dist(g, {c}, {}, v)
    requires Nearest(g, srcs, IntMax, v) <= IntMax
    ensures Nearest(g, srcs + {c}, IntMax, v) ==
      if reached then Min(Nearest(g, srcs, IntMax, v), d) else Nearest(g, srcs, IntMax, v)
    ensures Nearest(g, srcs + {c}, IntMax, v) <= IntMax
  {
    DistUnion(g, srcs, {c}, {}, v);
  }

  /** A cop's own tile is at distance 0 from the cops. */
  lemma CopTileAtZero(g: seq<seq<int>>, cop0: int, cop1: int, t: int)
    requires 0 <= t < |g| && (t == cop0 || t == cop1)
    ensures CopDistances(g, cop0, cop1)[t] == 0
  {
    SourceDistZero(g, {cop0, cop1}, {}, t);
  }

  /** When some candidate is farther than 0 from both cops, the smart robber never
      moves onto a cop's tile. */
  lemma SmartAvoidsCops(g: seq<seq<int>>, sel: seq<bool>, from: int, cop0: int, cop1: int, best: int, j: int)
    requires |sel| == |g| && 0 <= cop0 < |g| && 0 <= cop1 < |g|
    requires Policy.IsMaximin(sel, from, CopDistances(g, cop0, cop1), RobberDistances(g, from), best)
    requires Policy.IsCandidate(sel, from, j) && CopDistances(g, cop0, cop1)[j] > 0
    ensures best != cop0 && best != cop1
  {
    CopTileAtZero(g, cop0, cop1, cop0);
    CopTileAtZero(g, cop0, cop1, cop1);
    Policy.MaximinBeatsWorse(sel, from, CopDistances(g, cop0, cop1), RobberDistances(g, from), best, j, cop0);
    Policy.MaximinBeatsWorse(sel, from, CopDistances(g, cop0, cop1), RobberDistances(g, from), best, j, cop1);
  }

  /** The adjacency matrix of an `n` by `n` board: entry (i, j) is 1 when `j` is the
      tile above, below, left of or right of `i`, and 0 everywhere else. */
  method AdjacencyMatrix(n: nat) returns (matriu: array2<int>)
    requires n >= 1
    ensures fresh(matriu) && matriu.Length0 == n * n && matriu.Length1 == n * n
    ensures forall a, b :: 0 <= a < n * n && 0 <= b < n * n ==>
      matriu[a, b] == if Grid.Adjacent(n, a, b) then 1 else 0
  {
    var size := n * n;
    matriu := new int[size, size];
    for i := 0 to size
      invariant forall a, b :: 0 <= a < i && 0 <= b < size ==> matriu[a, b] == 0
    {
      for j := 0 to size
        invariant forall a, b :: 0 <= a < i && 0 <= b < size ==> matriu[a, b] == 0
        invariant forall b :: 0 <= b < j ==> matriu[i, b] == 0
      {
        matriu[i, j] := 0;
      }
    }

    for i := 0 to size
      invariant forall a, b :: 0 <= a < i && 0 <= b < size ==>
        matriu[a, b] == if Grid.Adjacent(n, a, b) then 1 else 0
      invariant forall a, b :: i <= a < size && 0 <= b < size ==> matriu[a, b] == 0
    {
      Grid.RowColOfShift(n, i);
      var row := i / n;
      var col := i % n;
      if row > 0 {
        matriu[i, i - n] := 1;
      }
      if row < n - 1 {
        matriu[i, i + n] := 1;
      }
      if col > 0 {
        matriu[i, i - 1] := 1;
      }
      if col < n - 1 {
        matriu[i, i + 1] := 1;
      }
    }
  }

  class Controller {
    /** Board and game constants, fixed for the whole game. */
    const tilesPerRow: nat
    const numTiles: nat
    /** How many moves a piece may make in one turn. */
    const moveDistance: nat
    const maxRounds: int
    const initialCop0: int
    const initialCop1: int
    const initialRobber: int

    /** Each tile's adjacency list. */
    const adjacency: array<seq<int>>
    /** Each tile's search flags. */
    const visited: array<bool>
    const selectable: array<bool>
    const distance: array<int>
    const parent: array<int>
    const current: array<bool>

    /** The tiles the two cops and the robber stand on. */
    const cops: array<int>
    var robber: int

    var smartRobberAI: bool
    var roundCount: int
    var state: State
    var clickedTile: int
    var clickedCop: int
    var finalMessage: Message

    predicate IsTile(t: int)
    {
      0 <= t < numTiles
    }

    /** Sizes of the arrays, and which arrays are distinct objects. */
    ghost predicate Shape()
    {
      tilesPerRow >= 1 && numTiles == tilesPerRow * tilesPerRow && numTiles <= IntMax &&
      adjacency.Length == numTiles && visited.Length == numTiles && selectable.Length == numTiles &&
      distance.Length == numTiles && parent.Length == numTiles && current.Length == numTiles &&
      cops.Length == 2 &&
      visited != selectable && visited != current && selectable != current &&
      distance != parent && cops != distance && cops != parent &&
      IsTile(initialCop0) && IsTile(initialCop1) && IsTile(initialRobber)
    }

    /** Every adjacency list is the grid's list of orthogonal neighbours. */
    ghost predicate BoardBuilt()
      reads adjacency
    {
      Shape() && forall i :: 0 <= i < numTiles ==> adjacency[i] == Grid.Neighbours(tilesPerRow, i)
    }

    /** The pieces stand on tiles of the board and the selected cop is one of the two. */
    ghost predicate Pieces()
      reads this, cops
    {
      Shape() && IsTile(cops[0]) && IsTile(cops[1]) && IsTile(robber) &&
      (clickedCop == 0 || clickedCop == 1)
    }

    ghost predicate Valid()
      reads this, adjacency, cops
    {
      BoardBuilt() && Pieces()
    }

    /** The flags of every tile are in the state a tile reset leaves them in. */
    ghost predicate TilesReset()
      reads visited, selectable, distance, parent, current
    {
      Shape() &&
      forall i :: 0 <= i < numTiles ==>
        !visited[i] && !selectable[i] && distance[i] == 0 && parent[i] == NoTile && !current[i]
    }

    /** The flags as a move-distance search from `src`, never entering `blocked`, leaves them. */
    ghost predicate Marked(src: int, blocked: set<int>)
      reads adjacency, visited, selectable, distance, parent
    {
      Shape() && IsTile(src) &&
      Searched(adjacency[..], src, blocked, UpTo(moveDistance), visited[..], distance[..]) &&
      SelectableIsVisited(visited[..], selectable[..], src) &&
      ParentTree(adjacency[..], src, UpTo(moveDistance), visited[..], distance[..], parent[..])
    }

    /** `Marked` after a reset: tiles the search did not reach keep their reset flags,
        and only the source is highlighted. */
    ghost predicate MarkedAfterReset(src: int, blocked: set<int>)
      reads adjacency, visited, selectable, distance, parent, current
    {
      Marked(src, blocked) &&
      (forall v :: 0 <= v < numTiles && !visited[v] ==> distance[v] == 0 && parent[v] == NoTile) &&
      (forall v :: 0 <= v < numTiles ==> (current[v] <==> v == src))
    }

    /** While a cop is selected, the flags are that cop's search, with the other cop's tile blocked. */
    ghost predicate Consistent()
      reads this, adjacency, cops, visited, selectable, distance, parent
    {
      Valid() &&
      (state == CopSelected ==> Marked(cops[clickedCop], {cops[(clickedCop + 1) % 2]}))
    }

    /** The robber's move: the smart pick, or in random mode any candidate (staying put
        when there is none). */
    ghost predicate RobberPolicy(from: int, to: int)
      reads this, adjacency, cops, selectable
      requires Valid() && selectable.Length == numTiles
    {
      if smartRobberAI then
        Policy.IsMaximin(selectable[..], from, CopDistances(adjacency[..], cops[0], cops[1]),
                         RobberDistances(adjacency[..], from), to)
      else
        Policy.RandomChoice(selectable[..], from, to)
    }

    lemma BoardWellFormed()
      requires BoardBuilt()
      ensures WellFormed(adjacency[..])
    {
      forall u, k | 0 <= u < numTiles && 0 <= k < |adjacency[u]|
        ensures 0 <= adjacency[u][k] < numTiles
      {
        Grid.NeighboursInRange(tilesPerRow, u);
        assert adjacency[u][k] in adjacency[u];
      }
    }

    /** What the flags of a finished search mean: selectable tiles lie between one and
        the move distance away, the source is not selectable, and a blocked tile other
        than the source is neither visited nor selectable. */
    lemma SelectableMeaning(src: int, blocked: set<int>)
      requires Marked(src, blocked)
      ensures forall v :: 0 <= v < numTiles ==>
        (selectable[v] <==> v != src && Within(adjacency[..], {src}, blocked, moveDistance, v))
      ensures forall v :: 0 <= v < numTiles && selectable[v] ==> 1 <= distance[v] <= moveDistance
      ensures !selectable[src]
      ensures forall b :: b in blocked && b != src && IsTile(b) ==> !visited[b] && !selectable[b]
    {
      var g := adjacency[..];
      forall v | 0 <= v < numTiles && selectable[v]
        ensures 1 <= distance[v] <= moveDistance
      {
        var d := distance[v];
        ShortestIsLeast(g, {src}, blocked, d, moveDistance, v);
      }
      forall b | b in blocked && b != src && IsTile(b)
        ensures !visited[b]
      {
        if visited[b] {
          BlockedNeverReached(g, {src}, blocked, moveDistance, b);
        }
      }
    }

    /** A selectable tile is neither the tile the search started from nor a blocked one. */
    lemma SelectableIsFree(src: int, blocked: set<int>, t: int)
      requires Marked(src, blocked) && IsTile(t) && selectable[t]
      ensures t != src && t !in blocked
    {
    }

    constructor (tilesPerRow: nat, moveDistance: nat, maxRounds: int,
                 initialCop0: int, initialCop1: int, initialRobber: int, smartRobberAI: bool)
      requires tilesPerRow >= 1 && tilesPerRow * tilesPerRow <= IntMax && IntMin <= maxRounds <= IntMax
      requires 0 <= initialCop0 < tilesPerRow * tilesPerRow
      requires 0 <= initialCop1 < tilesPerRow * tilesPerRow
      requires 0 <= initialRobber < tilesPerRow * tilesPerRow
      ensures Valid() && Consistent() && TilesReset()
      ensures this.tilesPerRow == tilesPerRow && this.moveDistance == moveDistance && this.maxRounds == maxRounds
      ensures this.initialCop0 == initialCop0 && this.initialCop1 == initialCop1 && this.initialRobber == initialRobber
      ensures cops[0] == initialCop0 && cops[1] == initialCop1 && robber == initialRobber
      ensures state == Init && roundCount == 0 && clickedTile == NoTile && clickedCop == 0
      ensures this.smartRobberAI == smartRobberAI && finalMessage == NoMessage
      ensures fresh(adjacency) && fresh(visited) && fresh(selectable) && fresh(distance)
      ensures fresh(parent) && fresh(current) && fresh(cops)
    {
      var n := tilesPerRow * tilesPerRow;
      this.tilesPerRow := tilesPerRow;
      this.numTiles := n;
      this.moveDistance := moveDistance;
      this.maxRounds := maxRounds;
      this.initialCop0 := initialCop0;
      this.initialCop1 := initialCop1;
      this.initialRobber := initialRobber;
      this.smartRobberAI := smartRobberAI;
      adjacency := new seq<int>[n](_ => []);
      visited := new bool[n](_ => false);
      selectable := new bool[n](_ => false);
      distance := new int[n](_ => 0);
      parent := new int[n](_ => NoTile);
      current := new bool[n](_ => false);
      cops := new int[2](i => if i == 0 then initialCop0 else initialCop1);
      robber := initialRobber;
      roundCount := 0;
      clickedTile := NoTile;
      clickedCop := 0;
      finalMessage := NoMessage;
      state := Init;
      new;
      InitAdjacencyLists();
    }

    /** Builds the 0/1 adjacency matrix of the grid, then each tile's list from its row. */
    method InitAdjacencyLists()
      requires Shape()
      modifies adjacency
      ensures BoardBuilt()
    {
      var n := tilesPerRow;
      var matriu := AdjacencyMatrix(n);
      for i := 0 to numTiles
        modifies adjacency
        invariant forall a :: 0 <= a < i ==> adjacency[a] == Grid.Neighbours(n, a)
      {
        adjacency[i] := [];
        for j := 0 to numTiles
          modifies adjacency
          invariant adjacency[i] == Grid.NeighboursBelow(n, i, j)
          invariant forall a :: 0 <= a < i ==> adjacency[a] == Grid.Neighbours(n, a)
        {
          if matriu[i, j] == 1 {
            adjacency[i] := adjacency[i] + [j];
          }
        }
      }
    }

    /** Resets the search flags of every tile. */
    method ResetTiles()
      requires Shape()
      modifies visited, selectable, distance, parent, current
      ensures TilesReset()
    {
      for i := 0 to numTiles
        invariant forall j :: 0 <= j < i ==>
          !visited[j] && !selectable[j] && distance[j] == 0 && parent[j] == NoTile && !current[j]
      {
        visited[i] := false;
        selectable[i] := false;
        distance[i] := 0;
        parent[i] := NoTile;
        current[i] := false;
      }
    }

    /** Breadth-first search from the selected cop's tile (`cop`) or the robber's tile,
        expanding only tiles nearer than the move distance; when a cop moves, the other
        cop's tile is never entered. Every tile reached is marked selectable. */
    method FindSelectableTiles(cop: bool)
      requires Pieces() && WellFormed(adjacency[..])
      requires forall v :: 0 <= v < numTiles ==> !visited[v] && !selectable[v]
      modifies visited, selectable, distance, parent, current
      ensures Marked(Source(cop), Blocked(cop, cops[(clickedCop + 1) % 2]))
      ensures current[..] == old(current[..])[Source(cop) := true]
      ensures KeptWhereUnvisited(visited[..], distance[..], parent[..], old(distance[..]), old(parent[..]))
      ensures old(ResetExcept(Source(cop))) ==> MarkedAfterReset(Source(cop), Blocked(cop, cops[(clickedCop + 1) % 2]))
    {
      var indexcurrentTile := if cop then cops[clickedCop] else robber;
      current[indexcurrentTile] := true;
      Spread(indexcurrentTile, cop, cops[(clickedCop + 1) % 2]);
    }

    /** A reset of every tile's flags followed by a search (the two steps always run
        together before a cop is selected and before the smart robber picks). */
    method ResetAndFind(cop: bool, ghost src: int, ghost blocked: set<int>)
      requires Pieces() && WellFormed(adjacency[..]) && src == Source(cop) && blocked == Blocked(cop, cops[(clickedCop + 1) % 2])
      modifies visited, selectable, distance, parent, current
      ensures MarkedAfterReset(src, blocked)
    {
      ResetTiles();
      FindSelectableTiles(cop);
    }

    /** The tile a search starts from: the selected cop's (`cop`) or the robber's. */
    ghost function Source(cop: bool): int
      reads this, cops
      requires Pieces()
    {
      if cop then cops[clickedCop] else robber
    }

    /** The flags a reset leaves, except that `src` may already be highlighted. */
    ghost predicate ResetExcept(src: int)
      reads visited, selectable, distance, parent, current
    {
      Shape() &&
      forall v :: 0 <= v < numTiles ==>
        !visited[v] && !selectable[v] && distance[v] == 0 && parent[v] == NoTile && (current[v] ==> v == src)
    }

    /** The proof's copies of the search flags agree with the arrays. */
    ghost predicate Flags(vis: seq<bool>, dist: seq<int>, par: seq<int>, sel: seq<bool>)
      reads visited, distance, parent, selectable
    {
      visited[..] == vis && distance[..] == dist && parent[..] == par && selectable[..] == sel
    }

    /** The search loop of `FindSelectableTiles` from tile `src`; when `cop` holds, tile
        `other` (the other cop's) is never entered. */
    method Spread(src: int, cop: bool, other: int)
      requires Shape() && WellFormed(adjacency[..]) && IsTile(src)
      requires forall v :: 0 <= v < numTiles ==> !visited[v] && !selectable[v]
      modifies visited, selectable, distance, parent
      ensures Marked(src, Blocked(cop, other))
      ensures KeptWhereUnvisited(visited[..], distance[..], parent[..], old(distance[..]), old(parent[..]))
    {
      ghost var blocked := Blocked(cop, other);
      ghost var g := adjacency[..];
      ghost var depth := UpTo(moveDistance);
      ghost var dist0, par0 := distance[..], parent[..];

      visited[src] := true;
      distance[src] := 0;
      var nodes := [src];

      // Ghost copies of the flags, which the proof reasons about instead of the arrays.
      ghost var vis, dist, par, sel := visited[..], distance[..], parent[..], selectable[..];
      BfsStart(g, src, blocked, depth, vis, dist);

      while nodes != []
        invariant Flags(vis, dist, par, sel)
        invariant BfsInv(g, src, blocked, depth, vis, dist, nodes)
        invariant ParentTree(g, src, depth, vis, dist, par)
        invariant SelectableIsVisited(vis, sel, src)
        invariant KeptWhereUnvisited(vis, dist, par, dist0, par0)
        decreases numTiles - Count(vis) + |nodes|
      {
        ghost var queued := nodes;
        var u := nodes[0];
        nodes := nodes[1..];
        if distance[u] >= moveDistance {
          SkipDeep(g, src, blocked, depth, vis, dist, queued);
          continue;
        }
        BeginExpand(g, src, blocked, depth, vis, dist, queued);
        nodes, vis, dist, par, sel := VisitNeighbours(src, cop, other, u, nodes, vis, dist, par, sel, dist0, par0);
        EndExpand(g, src, blocked, depth, vis, dist, nodes, u);
      }
      BfsDone(g, src, blocked, depth, vis, dist);
    }

    /** The inner loop of the search: the neighbours of `u`, in list order. */
    method VisitNeighbours(src: int, cop: bool, other: int, u: int, nodes: seq<int>,
                           ghost vis: seq<bool>, ghost dist: seq<int>, ghost par: seq<int>, ghost sel: seq<bool>,
                           ghost dist0: seq<int>, ghost par0: seq<int>)
      returns (nodes': seq<int>, ghost vis': seq<bool>, ghost dist': seq<int>, ghost par': seq<int>, ghost sel': seq<bool>)
      requires Shape() && WellFormed(adjacency[..]) && IsTile(src)
      requires Flags(vis, dist, par, sel)
      requires Expanding(adjacency[..], src, Blocked(cop, other), UpTo(moveDistance), vis, dist, nodes, u, 0)
      requires ParentTree(adjacency[..], src, UpTo(moveDistance), vis, dist, par)
      requires SelectableIsVisited(vis, sel, src) && KeptWhereUnvisited(vis, dist, par, dist0, par0)
      modifies visited, selectable, distance, parent
      ensures Flags(vis', dist', par', sel')
      ensures Expanding(adjacency[..], src, Blocked(cop, other), UpTo(moveDistance), vis', dist', nodes', u, |adjacency[u]|)
      ensures Count(vis') - |nodes'| == Count(vis) - |nodes|
      ensures ParentTree(adjacency[..], src, UpTo(moveDistance), vis', dist', par')
      ensures SelectableIsVisited(vis', sel', src) && KeptWhereUnvisited(vis', dist', par', dist0, par0)
    {
      nodes', vis', dist', par', sel' := nodes, vis, dist, par, sel;
      for k := 0 to |adjacency[u]|
        invariant Flags(vis', dist', par', sel')
        invariant Expanding(adjacency[..], src, Blocked(cop, other), UpTo(moveDistance), vis', dist', nodes', u, k)
        invariant Count(vis') - |nodes'| == Count(vis) - |nodes|
        invariant ParentTree(adjacency[..], src, UpTo(moveDistance), vis', dist', par')
        invariant SelectableIsVisited(vis', sel', src) && KeptWhereUnvisited(vis', dist', par', dist0, par0)
      {
        nodes', vis', dist', par', sel' := VisitNeighbour(src, cop, other, u, k, nodes', vis', dist', par', sel', dist0, par0);
      }
    }

    /** One step of the inner loop: the `k`-th neighbour of `u` is reached when it is
        not visited yet and is not the other cop's tile during a cop's move. */
    method VisitNeighbour(src: int, cop: bool, other: int, u: int, k: int, nodes: seq<int>,
                          ghost vis: seq<bool>, ghost dist: seq<int>, ghost par: seq<int>, ghost sel: seq<bool>,
                          ghost dist0: seq<int>, ghost par0: seq<int>)
      returns (nodes': seq<int>, ghost vis': seq<bool>, ghost dist': seq<int>, ghost par': seq<int>, ghost sel': seq<bool>)
      requires Shape() && WellFormed(adjacency[..]) && IsTile(src)
      requires Flags(vis, dist, par, sel)
      requires Expanding(adjacency[..], src, Blocked(cop, other), UpTo(moveDistance), vis, dist, nodes, u, k)
      requires k < |adjacency[u]|
      requires ParentTree(adjacency[..], src, UpTo(moveDistance), vis, dist, par)
      requires SelectableIsVisited(vis, sel, src) && KeptWhereUnvisited(vis, dist, par, dist0, par0)
      modifies visited, selectable, distance, parent
      ensures Flags(vis', dist', par', sel')
      ensures Expanding(adjacency[..], src, Blocked(cop, other), UpTo(moveDistance), vis', dist', nodes', u, k + 1)
      ensures Count(vis') - |nodes'| == Count(vis) - |nodes|
      ensures ParentTree(adjacency[..], src, UpTo(moveDistance), vis', dist', par')
      ensures SelectableIsVisited(vis', sel', src) && KeptWhereUnvisited(vis', dist', par', dist0, par0)
      ensures var w := adjacency[u][k];
        if !vis[w] && (w != other || !cop) then
          vis' == vis[w := true] && dist' == dist[w := dist[u] + 1] && par' == par[w := u] &&
          sel' == sel[w := true] && nodes' == nodes + [w]
        else
          vis' == vis && dist' == dist && par' == par && sel' == sel && nodes' == nodes
    {
      ghost var g := adjacency[..];
      ghost var blocked := Blocked(cop, other);
      ghost var depth := UpTo(moveDistance);
      var neighborIndex := adjacency[u][k];
      if !visited[neighborIndex] && (neighborIndex != other || !cop) {
        Discover(g, src, blocked, depth, vis, dist, nodes, u, k);
        ParentTreeGrow(g, src, depth, vis, dist, par, u, neighborIndex);
        SelectableGrow(vis, sel, src, neighborIndex);
        KeptGrow(vis, dist, par, dist0, par0, neighborIndex, dist[u] + 1, u);
        MarkReached(u, neighborIndex);
        vis', dist', par', sel' := vis[neighborIndex := true], dist[neighborIndex := dist[u] + 1],
          par[neighborIndex := u], sel[neighborIndex := true];
        nodes' := nodes + [neighborIndex];
      } else {
        Pass(g, src, blocked, depth, vis, dist, nodes, u, k);
        nodes', vis', dist', par', sel' := nodes, vis, dist, par, sel;
      }
    }

    /** The search reaches tile `w` from tile `u`: `w` is visited one move further than
        `u`, records `u` as its parent and becomes selectable. */
    method MarkReached(u: int, w: int)
      requires Shape() && IsTile(u) && IsTile(w)
      modifies visited, selectable, distance, parent
      ensures visited[..] == old(visited[..])[w := true]
      ensures distance[..] == old(distance[..])[w := old(distance[u]) + 1]
      ensures parent[..] == old(parent[..])[w := u]
      ensures selectable[..] == old(selectable[..])[w := true]
    {
      visited[w] := true;
      distance[w] := distance[u] + 1;
      parent[w] := u;
      selectable[w] := true;
    }

    /** Breadth-first search over the whole board from `src`, on local arrays: which
        tiles are reached and how far each is (0 for a tile not reached). */
    method Distances(src: int) returns (reached: seq<bool>, dist: seq<int>)
      requires Shape() && WellFormed(adjacency[..]) && IsTile(src)
      ensures Searched(adjacency[..], src, {}, Unbounded, reached, dist)
      ensures forall v :: 0 <= v < numTiles && !reached[v] ==> dist[v] == 0
    {
      ghost var g := adjacency[..];
      var seen := new bool[numTiles](_ => false);
      var steps := new int[numTiles](_ => 0);
      seen[src] := true;
      steps[src] := 0;
      var queue := [src];
      BfsStart(g, src, {}, Unbounded, seen[..], steps[..]);

      while queue != []
        invariant BfsInv(g, src, {}, Unbounded, seen[..], steps[..], queue)
        invariant forall v :: 0 <= v < numTiles && !seen[v] ==> steps[v] == 0
        decreases numTiles - Count(seen[..]) + |queue|
      {
        ghost var queued := queue;
        var u := queue[0];
        queue := queue[1..];
        BeginExpand(g, src, {}, Unbounded, seen[..], steps[..], queued);
        queue := ExpandLocal(src, u, seen, steps, queue);
        EndExpand(g, src, {}, Unbounded, seen[..], steps[..], queue, u);
      }
      BfsDone(g, src, {}, Unbounded, seen[..], steps[..]);
      reached, dist := seen[..], steps[..];
    }

    /** One step of the whole-board search: every unseen neighbour of `u` is marked one
        step further than `u` and enqueued. */
    method ExpandLocal(src: int, u: int, seen: array<bool>, steps: array<int>, queue: seq<int>) returns (queue': seq<int>)
      requires Shape() && WellFormed(adjacency[..]) && seen.Length == numTiles && steps.Length == numTiles
      requires Expanding(adjacency[..], src, {}, Unbounded, seen[..], steps[..], queue, u, 0)
      requires forall v :: 0 <= v < numTiles && !seen[v] ==> steps[v] == 0
      modifies seen, steps
      ensures Expanding(adjacency[..], src, {}, Unbounded, seen[..], steps[..], queue', u, |adjacency[u]|)
      ensures forall v :: 0 <= v < numTiles && !seen[v] ==> steps[v] == 0
      ensures Count(seen[..]) - |queue'| == old(Count(seen[..])) - |queue|
    {
      ghost var g := adjacency[..];
      queue' := queue;
      for k := 0 to |adjacency[u]|
        invariant Expanding(g, src, {}, Unbounded, seen[..], steps[..], queue', u, k)
        invariant Count(seen[..]) - |queue'| == old(Count(seen[..])) - |queue|
        invariant forall v :: 0 <= v < numTiles && !seen[v] ==> steps[v] == 0
      {
        queue' := VisitLocal(src, u, k, seen, steps, queue');
      }
    }

    /** The `k`-th neighbour of `u` in the whole-board search: marked and enqueued when unseen. */
    method VisitLocal(src: int, u: int, k: int, seen: array<bool>, steps: array<int>, queue: seq<int>) returns (queue': seq<int>)
      requires Shape() && WellFormed(adjacency[..]) && seen.Length == numTiles && steps.Length == numTiles
      requires Expanding(adjacency[..], src, {}, Unbounded, seen[..], steps[..], queue, u, k) && k < |adjacency[u]|
      requires forall v :: 0 <= v < numTiles && !seen[v] ==> steps[v] == 0
      modifies seen, steps
      ensures Expanding(adjacency[..], src, {}, Unbounded, seen[..], steps[..], queue', u, k + 1)
      ensures forall v :: 0 <= v < numTiles && !seen[v] ==> steps[v] == 0
      ensures Count(seen[..]) - |queue'| == old(Count(seen[..])) - |queue|
      ensures var w := adjacency[u][k];
        if !old(seen[w]) then
          seen[..] == old(seen[..])[w := true] && steps[..] == old(steps[..])[w := old(steps[u]) + 1] &&
          queue' == queue + [w]
        else
          seen[..] == old(seen[..]) && steps[..] == old(steps[..]) && queue' == queue
    {
      ghost var g, vis, dist := adjacency[..], seen[..], steps[..];
      var neighborIndex := adjacency[u][k];
      if !seen[neighborIndex] {
        Discover(g, src, {}, Unbounded, vis, dist, queue, u, k);
        Record(seen, steps, u, neighborIndex);
        assert seen[..] == vis[neighborIndex := true] && steps[..] == dist[neighborIndex := dist[u] + 1];
        queue' := queue + [neighborIndex];
      } else {
        Pass(g, src, {}, Unbounded, vis, dist, queue, u, k);
        queue' := queue;
      }
    }

    /** Marks `w` seen, one step further than `u`, in a search's local arrays. */
    method Record(seen: array<bool>, steps: array<int>, u: int, w: int)
      requires seen.Length == steps.Length && 0 <= u < steps.Length && 0 <= w < steps.Length
      modifies seen, steps
      ensures seen[..] == old(seen[..])[w := true]
      ensures steps[..] == old(steps[..])[w := old(steps[u]) + 1]
    {
      seen[w] := true;
      steps[w] := steps[u] + 1;
    }

    /** The smart robber: distances from the robber and from the nearer cop over the
        whole board, then the maximin pick among the tiles selectable from the robber. */
    method FindFarthestTileFromCops(robberPosition: int) returns (best: int)
      requires Valid() && IsTile(robberPosition)
      modifies visited, selectable, distance, parent, current
      ensures MarkedAfterReset(robber, {})
      ensures Policy.IsMaximin(selectable[..], robberPosition,
                               CopDistances(adjacency[..], cops[0], cops[1]),
                               RobberDistances(adjacency[..], robberPosition), best)
    {
      BoardWellFormed();
      var reachedFromRobber, distancesFromRobber := Distances(robberPosition);
      RobberDistancesFromSearch(robberPosition, reachedFromRobber, distancesFromRobber);
      var minDistancesToCops := NearestCopDistances();

      ResetAndFind(false, robber, {});

      best := Policy.FarthestCandidate(selectable[..], robberPosition, minDistancesToCops, distancesFromRobber);
    }

    /** A finished whole-board search from `src` has computed `RobberDistances` from `src`. */
    lemma RobberDistancesFromSearch(src: int, reached: seq<bool>, dist: seq<int>)
      requires Searched(adjacency[..], src, {}, Unbounded, reached, dist)
      requires forall v :: 0 <= v < |reached| && !reached[v] ==> dist[v] == 0
      ensures dist == RobberDistances(adjacency[..], src)
      ensures forall v :: 0 <= v < |dist| ==> dist[v] >= 0
    {
    }

    /** For each tile, the distance from the nearer cop: one whole-board search per cop,
        folded into a running minimum that starts at `IntMax`. */
    method NearestCopDistances() returns (minD: seq<int>)
      requires Shape() && WellFormed(adjacency[..]) && IsTile(cops[0]) && IsTile(cops[1])
      ensures minD == CopDistances(adjacency[..], cops[0], cops[1])
      ensures forall v :: 0 <= v < |minD| ==> 0 <= minD[v] <= IntMax
    {
      ghost var g := adjacency[..];
      var minDistancesToCops := new int[numTiles];
      for i := 0 to numTiles
        invariant forall v :: 0 <= v < i ==> minDistancesToCops[v] == IntMax
      {
        minDistancesToCops[i] := IntMax;
      }
      forall v | 0 <= v < numTiles
        ensures minDistancesToCops[v] == Nearest(g, {}, IntMax, v)
      {
        forall k: nat
          ensures !Within(g, {}, {}, k, v)
        {
          NothingFromNowhere(g, k, v);
        }
      }
      ghost var covered: set<int> := {};

      for c := 0 to 2
        invariant covered == if c == 0 then {} else if c == 1 then {cops[0]} else {cops[0], cops[1]}
        invariant forall v :: 0 <= v < numTiles ==>
          minDistancesToCops[v] == Nearest(g, covered, IntMax, v) && 0 <= minDistancesToCops[v] <= IntMax
      {
        var reachedFromCop, distancesFromCop := Distances(cops[c]);
        for i := 0 to numTiles
          invariant forall v :: 0 <= v < i ==>
            minDistancesToCops[v] == Nearest(g, covered + {cops[c]}, IntMax, v) &&
            0 <= minDistancesToCops[v] <= IntMax
          invariant forall v :: i <= v < numTiles ==>
            minDistancesToCops[v] == Nearest(g, covered, IntMax, v) &&
            0 <= minDistancesToCops[v] <= IntMax
        {
          NearestAddSource(g, covered, cops[c], i, reachedFromCop[i], distancesFromCop[i]);
          if reachedFromCop[i] {
            minDistancesToCops[i] := Min(minDistancesToCops[i], distancesFromCop[i]);
          }
        }
        covered := covered + {cops[c]};
      }
      minD := minDistancesToCops[..];
    }

    /** The robber's turn: search from its tile, pick a destination (smart or random)
        and move there. */
    method RobberTurn()
      requires Valid() && TilesReset()
      modifies this, visited, selectable, distance, parent, current
      ensures Valid()
      ensures MarkedAfterReset(old(robber), {})
      ensures RobberPolicy(old(robber), robber)
      ensures clickedTile == old(robber)
      ensures state == old(state) && roundCount == old(roundCount) && clickedCop == old(clickedCop)
      ensures smartRobberAI == old(smartRobberAI) && finalMessage == old(finalMessage)
    {
      BoardWellFormed();
      clickedTile := robber;
      current[clickedTile] := true;
      FindSelectableTiles(false);

      var targetTile;
      if smartRobberAI {
        targetTile := FindFarthestTileFromCops(clickedTile);
      } else {
        targetTile := Policy.RandomTarget(selectable[..], clickedTile);
      }
      robber := targetTile;
    }

    /** Clicking cop `copId`: before a move is chosen, it becomes the selected cop;
        in any other state the click is ignored. */
    method ClickOnCop(copId: int)
      requires Consistent() && (copId == 0 || copId == 1)
      modifies this, visited, selectable, distance, parent, current
      ensures Consistent()
      ensures old(state) == Init || old(state) == CopSelected ==>
        state == CopSelected && clickedCop == copId && clickedTile == cops[copId] &&
        MarkedAfterReset(cops[copId], {cops[(copId + 1) % 2]}) &&
        robber == old(robber) && roundCount == old(roundCount) &&
        smartRobberAI == old(smartRobberAI) && finalMessage == old(finalMessage)
      ensures old(state) != Init && old(state) != CopSelected ==>
        unchanged(this) && unchanged(visited, selectable, distance, parent, current)
    {
      match state {
        case Init | CopSelected =>
          SelectCop(copId);
        case _ =>
      }
    }

    /** Selects cop `copId`: highlights its tile, resets the flags and marks the tiles
        it can move to, with the other cop's tile blocked. */
    method SelectCop(copId: int)
      requires Valid() && (copId == 0 || copId == 1)
      modifies this, visited, selectable, distance, parent, current
      ensures Valid()
      ensures state == CopSelected && clickedCop == copId && clickedTile == cops[copId]
      ensures MarkedAfterReset(cops[copId], {cops[(copId + 1) % 2]})
      ensures robber == old(robber) && roundCount == old(roundCount)
      ensures smartRobberAI == old(smartRobberAI) && finalMessage == old(finalMessage)
    {
      BoardWellFormed();
      clickedCop := copId;
      clickedTile := cops[copId];
      current[clickedTile] := true;
      ResetAndFind(true, cops[copId], {cops[(copId + 1) % 2]});
      state := CopSelected;
    }

    /** Clicking tile `t`: with a cop selected, a selectable tile receives the cop;
        after a move, a click acknowledges it. */
    method ClickOnTile(t: int)
      requires Consistent() && IsTile(t)
      modifies this, cops, current
      ensures Consistent()
      ensures clickedTile == t
      ensures robber == old(robber) && roundCount == old(roundCount) && clickedCop == old(clickedCop)
      ensures smartRobberAI == old(smartRobberAI) && finalMessage == old(finalMessage)
      ensures old(state) == CopSelected && old(selectable[t]) ==>
        state == TileSelected && cops[clickedCop] == t &&
        cops[(clickedCop + 1) % 2] == old(cops[(clickedCop + 1) % 2]) &&
        cops[0] != cops[1] && current[..] == old(current[..])[t := true]
      ensures old(state) == CopSelected && !old(selectable[t]) ==>
        state == CopSelected && unchanged(cops, current)
      ensures old(state) == TileSelected || old(state) == State.RobberTurn ==>
        state == Init && unchanged(cops, current)
      ensures old(state) == Init || old(state) == End || old(state) == Restarting ==>
        state == old(state) && unchanged(cops, current)
    {
      clickedTile := t;
      match state {
        case CopSelected =>
          if selectable[clickedTile] {
            MoveSelectedCop();
          }
        case TileSelected =>
          state := Init;
        case RobberTurn =>
          state := Init;
        case _ =>
      }
    }

    /** The selected cop moves onto the clicked tile, which it may reach, and the tile
        is highlighted. */
    method MoveSelectedCop()
      requires Consistent() && state == CopSelected && IsTile(clickedTile) && selectable[clickedTile]
      modifies this, cops, current
      ensures Valid() && state == TileSelected
      ensures cops[clickedCop] == clickedTile && cops[(clickedCop + 1) % 2] == old(cops[(clickedCop + 1) % 2])
      ensures cops[0] != cops[1]
      ensures current[..] == old(current[..])[clickedTile := true]
      ensures clickedTile == old(clickedTile) && clickedCop == old(clickedCop) && robber == old(robber)
      ensures roundCount == old(roundCount) && smartRobberAI == old(smartRobberAI) && finalMessage == old(finalMessage)
    {
      SelectableIsFree(cops[clickedCop], {cops[(clickedCop + 1) % 2]}, clickedTile);
      cops[clickedCop] := clickedTile;
      current[clickedTile] := true;
      state := TileSelected;
    }

    /** The "finish turn" button: after a cop's move the robber plays; after the
        robber's move the round is counted and the game goes on or ends. */
    method FinishTurn()
      requires Consistent()
      modifies this, visited, selectable, distance, parent, current
      ensures Consistent()
      ensures cops[0] == old(cops[0]) && cops[1] == old(cops[1])
      ensures smartRobberAI == old(smartRobberAI) && clickedCop == old(clickedCop)
      ensures old(state) == TileSelected ==>
        state == State.RobberTurn && roundCount == old(roundCount) &&
        MarkedAfterReset(old(robber), {}) && RobberPolicy(old(robber), robber) &&
        clickedTile == old(robber) && finalMessage == old(finalMessage)
      ensures old(state) == State.RobberTurn ==>
        TilesReset() && robber == old(robber) && clickedTile == old(clickedTile) &&
        roundCount == Wrap32(old(roundCount) + 1) &&
        (roundCount <= maxRounds ==> state == Init && finalMessage == old(finalMessage)) &&
        (roundCount > maxRounds ==> state == End && finalMessage == YouLose)
      ensures old(state) != TileSelected && old(state) != State.RobberTurn ==>
        unchanged(this) && unchanged(visited, selectable, distance, parent, current)
    {
      match state {
        case TileSelected =>
          ResetTiles();
          state := State.RobberTurn;
          RobberTurn();
        case RobberTurn =>
          ResetTiles();
          IncreaseRoundCount();
          if roundCount <= maxRounds {
            state := Init;
          } else {
            EndGame(false);
          }
        case _ =>
      }
    }

    /** Ends the game with the player's win (`end`) or loss. */
    method EndGame(end: bool)
      modifies this
      ensures state == End && finalMessage == (if end then YouWin else YouLose)
      ensures robber == old(robber) && roundCount == old(roundCount) && clickedTile == old(clickedTile)
      ensures clickedCop == old(clickedCop) && smartRobberAI == old(smartRobberAI)
    {
      if end {
        finalMessage := YouWin;
      } else {
        finalMessage := YouLose;
      }
      state := End;
    }

    /** Puts the pieces back on their starting tiles and starts over from round 0. */
    method PlayAgain()
      requires Consistent()
      modifies this, cops, visited, selectable, distance, parent, current
      ensures Consistent() && TilesReset()
      ensures cops[0] == initialCop0 && cops[1] == initialCop1 && robber == initialRobber
      ensures roundCount == 0 && state == Restarting && finalMessage == NoMessage
      ensures clickedTile == old(clickedTile) && clickedCop == old(clickedCop) && smartRobberAI == old(smartRobberAI)
    {
      cops[0] := initialCop0;
      cops[1] := initialCop1;
      robber := initialRobber;
      ResetTiles();
      finalMessage := NoMessage;
      roundCount := 0;
      state := Restarting;
    }

    /** The restart animation has finished: a new game begins. */
    method InitGame()
      requires Consistent()
      modifies this
      ensures Consistent() && state == Init
      ensures robber == old(robber) && roundCount == old(roundCount) && clickedTile == old(clickedTile)
      ensures clickedCop == old(clickedCop) && smartRobberAI == old(smartRobberAI) && finalMessage == old(finalMessage)
    {
      state := Init;
    }

    /** Counts one more round, as a 32-bit signed counter that wraps around. */
    method IncreaseRoundCount()
      modifies this
      ensures roundCount == Wrap32(old(roundCount) + 1)
      ensures IntMin <= old(roundCount) < IntMax ==> roundCount == old(roundCount) + 1
      ensures state == old(state) && robber == old(robber) && clickedTile == old(clickedTile)
      ensures clickedCop == old(clickedCop) && smartRobberAI == old(smartRobberAI) && finalMessage == old(finalMessage)
    {
      roundCount := Wrap32(roundCount + 1);
      Wrap32Exact(old(roundCount) + 1);
    }
  }
}
