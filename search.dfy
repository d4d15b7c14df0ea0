/** Paths on a board given by adjacency lists, and the breadth-first search that
    measures them. The search itself runs in the controller, over its tile flags
    or over local arrays; this module states what a search state means and
    proves, step by step, that each move of the search keeps that meaning. */
module Search {

  /** Every entry of every adjacency list names a tile. */
  ghost predicate WellFormed(g: seq<seq<int>>)
  {
    forall u, k :: 0 <= u < |g| && 0 <= k < |g[u]| ==> 0 <= g[u][k] < |g|
  }

  /** `v` is one of `srcs`, or can be reached from one of them in at most `k`
      moves along `g` without ever stepping onto a tile of `blocked`. */
  ghost predicate Within(g: seq<seq<int>>, srcs: set<int>, blocked: set<int>, k: nat, v: int)
    decreases k
  {
    if k == 0 then
      v in srcs
    else
      Within(g, srcs, blocked, k - 1, v) ||
      (v !in blocked && exists u :: Edge(g, u, v) && Within(g, srcs, blocked, k - 1, u))
  }

  ghost predicate Edge(g: seq<seq<int>>, u: int, v: int)
  {
    0 <= u < |g| && v in g[u]
  }

  ghost predicate Reachable(g: seq<seq<int>>, srcs: set<int>, blocked: set<int>, v: int)
  {
    exists k: nat :: Within(g, srcs, blocked, k, v)
  }

  /** `d` is the length of a shortest path to `v`. */
  ghost predicate IsShortest(g: seq<seq<int>>, srcs: set<int>, blocked: set<int>, d: nat, v: int)
  {
    Within(g, srcs, blocked, d, v) && (d > 0 ==> !Within(g, srcs, blocked, d - 1, v))
  }

  ghost function Least(g: seq<seq<int>>, srcs: set<int>, blocked: set<int>, k: nat, v: int): (d: nat)
    requires Within(g, srcs, blocked, k, v)
    ensures d <= k && IsShortest(g, srcs, blocked, d, v)
    decreases k
  {
    if k == 0 || !Within(g, srcs, blocked, k - 1, v) then k else Least(g, srcs, blocked, k - 1, v)
  }

  /** The shortest-path length from `srcs` to a reachable tile `v`. */
  ghost function Dist(g: seq<seq<int>>, srcs: set<int>, blocked: set<int>, v: int): (d: nat)
    requires Reachable(g, srcs, blocked, v)
    ensures IsShortest(g, srcs, blocked, d, v)
  {
    var k: nat :| Within(g, srcs, blocked, k, v);
    Least(g, srcs, blocked, k, v)
  }

  // ---------------------------------------------------------------------------
  // Facts about paths

  /** Reaching a tile within `k` moves means reaching it within any larger budget. */
  lemma {:induction false} WithinMonotone(g: seq<seq<int>>, srcs: set<int>, blocked: set<int>, k: nat, m: nat, v: int)
    requires k <= m && Within(g, srcs, blocked, k, v)
    ensures Within(g, srcs, blocked, m, v)
    decreases m
  {
    if k < m {
      WithinMonotone(g, srcs, blocked, k, m - 1, v);
    }
  }

  /** A shortest-path length is below every other path length. */
  lemma ShortestIsLeast(g: seq<seq<int>>, srcs: set<int>, blocked: set<int>, d: nat, k: nat, v: int)
    requires IsShortest(g, srcs, blocked, d, v) && Within(g, srcs, blocked, k, v)
    ensures d <= k
  {
    if k < d {
      WithinMonotone(g, srcs, blocked, k, d - 1, v);
    }
  }

  /** Shortest-path lengths are unique, so `Dist` is the one recorded. */
  lemma ShortestIsDist(g: seq<seq<int>>, srcs: set<int>, blocked: set<int>, d: nat, v: int)
    requires IsShortest(g, srcs, blocked, d, v)
    ensures Reachable(g, srcs, blocked, v) && Dist(g, srcs, blocked, v) == d
  {
    var e := Dist(g, srcs, blocked, v);
    ShortestIsLeast(g, srcs, blocked, d, e, v);
    ShortestIsLeast(g, srcs, blocked, e, d, v);
  }

  /** A source is at distance zero from the sources. */
  lemma SourceDistZero(g: seq<seq<int>>, srcs: set<int>, blocked: set<int>, v: int)
    requires v in srcs
    ensures Reachable(g, srcs, blocked, v) && Dist(g, srcs, blocked, v) == 0
  {
    assert Within(g, srcs, blocked, 0, v);
    ShortestIsDist(g, srcs, blocked, 0, v);
  }

  /** A blocked tile is never entered: it is reachable only when it is itself a source. */
  lemma {:induction false} BlockedNeverReached(g: seq<seq<int>>, srcs: set<int>, blocked: set<int>, k: nat, v: int)
    requires Within(g, srcs, blocked, k, v) && v in blocked
    ensures v in srcs
  {
    if k > 0 {
      BlockedNeverReached(g, srcs, blocked, k - 1, v);
    }
  }

  /** Paths from a union of sources are the paths from either part. */
  lemma {:induction false} WithinUnion(g: seq<seq<int>>, a: set<int>, b: set<int>, blocked: set<int>, k: nat, v: int)
    ensures Within(g, a + b, blocked, k, v) <==> Within(g, a, blocked, k, v) || Within(g, b, blocked, k, v)
  {
    if k > 0 {
      var ab, k' := a + b, k - 1;
      WithinUnion(g, a, b, blocked, k', v);
      forall u | 0 <= u < |g|
        ensures Within(g, ab, blocked, k', u) <==> Within(g, a, blocked, k', u) || Within(g, b, blocked, k', u)
      {
        WithinUnion(g, a, b, blocked, k', u);
      }
    }
  }

  /** The shortest distance from a union of sources is the smaller of the two distances,
      and a tile reached from neither part is reached from neither. */
  lemma DistUnion(g: seq<seq<int>>, a: set<int>, b: set<int>, blocked: set<int>, v: int)
    ensures Reachable(g, a + b, blocked, v) <==> Reachable(g, a, blocked, v) || Reachable(g, b, blocked, v)
    ensures Reachable(g, a, blocked, v) && Reachable(g, b, blocked, v) ==>
      Dist(g, a + b, blocked, v) == Min(Dist(g, a, blocked, v), Dist(g, b, blocked, v))
    ensures Reachable(g, a, blocked, v) && !Reachable(g, b, blocked, v) ==>
      Dist(g, a + b, blocked, v) == Dist(g, a, blocked, v)
    ensures !Reachable(g, a, blocked, v) && Reachable(g, b, blocked, v) ==>
      Dist(g, a + b, blocked, v) == Dist(g, b, blocked, v)
  {
    forall k: nat
      ensures Within(g, a + b, blocked, k, v) <==> Within(g, a, blocked, k, v) || Within(g, b, blocked, k, v)
    {
      WithinUnion(g, a, b, blocked, k, v);
    }
    if Reachable(g, a, blocked, v) || Reachable(g, b, blocked, v) {
      var d := Dist(g, a + b, blocked, v);
      var da := if Reachable(g, a, blocked, v) then Dist(g, a, blocked, v) else d;
      var db := if Reachable(g, b, blocked, v) then Dist(g, b, blocked, v) else d;
      ShortestIsLeast(g, a + b, blocked, d, da, v);
      ShortestIsLeast(g, a + b, blocked, d, db, v);
      if Within(g, a, blocked, d, v) {
        ShortestIsLeast(g, a, blocked, da, d, v);
      } else {
        ShortestIsLeast(g, b, blocked, db, d, v);
      }
    }
  }

  function Min(x: int, y: int): int { if x <= y then x else y }

  // ---------------------------------------------------------------------------
  // The state of a breadth-first search

  /** How deep a search goes: all the way, or expanding only tiles nearer than `limit`. */
  datatype Depth = Unbounded | UpTo(limit: nat)

  /** A dequeued tile at distance `d` has its neighbours examined. */
  predicate Expands(depth: Depth, d: int)
  {
    depth.Unbounded? || d < depth.limit
  }

  /** Distance `k` is inside the search's horizon. */
  predicate Allows(depth: Depth, k: int)
  {
    depth.Unbounded? || k <= depth.limit
  }

  /** What a finished search from `src` marks: every tile inside the horizon. */
  ghost predicate InReach(g: seq<seq<int>>, src: int, blocked: set<int>, depth: Depth, v: int)
  {
    match depth
    case Unbounded => Reachable(g, {src}, blocked, v)
    case UpTo(limit) => Within(g, {src}, blocked, limit, v)
  }

  /** The number of visited tiles. */
  function Count(s: seq<bool>): (c: nat)
    ensures c <= |s|
  {
    if s == [] then 0 else (if s[0] then 1 else 0) + Count(s[1..])
  }

  lemma {:induction false} CountMark(s: seq<bool>, w: int)
    requires 0 <= w < |s| && !s[w]
    ensures Count(s[w := true]) == Count(s) + 1
  {
    if w > 0 {
      assert s[w := true][1..] == s[1..][w - 1 := true];
      CountMark(s[1..], w - 1);
    } else {
      assert s[w := true][1..] == s[1..];
    }
  }

  lemma {:induction false} CountPositive(s: seq<bool>, w: int)
    requires 0 <= w < |s| && s[w]
    ensures Count(s) >= 1
  {
    if w > 0 {
      CountPositive(s[1..], w - 1);
    }
  }

  /** The first `k` neighbours of `u` are visited at most one move further than `u`,
      unless blocked. */
  ghost predicate Settled(g: seq<seq<int>>, blocked: set<int>, vis: seq<bool>, dist: seq<int>, u: int, k: int)
    requires 0 <= u < |g| && |vis| == |dist| == |g|
  {
    k <= |g[u]| &&
    forall j :: 0 <= j < k ==>
      g[u][j] in blocked || (0 <= g[u][j] < |g| && vis[g[u][j]] && dist[g[u][j]] <= dist[u] + 1)
  }

  /** The recorded distance of every visited tile is the length of some path to it,
      inside the horizon and below the number of visited tiles. */
  ghost predicate Sound(g: seq<seq<int>>, src: int, blocked: set<int>, depth: Depth, vis: seq<bool>, dist: seq<int>)
  {
    WellFormed(g) && |vis| == |g| && |dist| == |g| && 0 <= src < |g| && vis[src] && dist[src] == 0 &&
    forall v :: 0 <= v < |g| && vis[v] ==>
      0 <= dist[v] < Count(vis) && Allows(depth, dist[v]) && Within(g, {src}, blocked, dist[v], v)
  }

  /** The queue holds visited tiles in nondecreasing distance, all at `lo` or `lo + 1`. */
  ghost predicate Queued(vis: seq<bool>, dist: seq<int>, q: seq<int>, lo: int)
  {
    |vis| == |dist| &&
    (forall i :: 0 <= i < |q| ==> 0 <= q[i] < |vis| && vis[q[i]] && lo <= dist[q[i]] <= lo + 1) &&
    (forall i, j :: 0 <= i <= j < |q| ==> dist[q[i]] <= dist[q[j]])
  }

  /** Every visited tile that has left the queue and lies inside the horizon has all its
      neighbours visited, except the tiles in `except`. */
  ghost predicate Closed(g: seq<seq<int>>, blocked: set<int>, depth: Depth, vis: seq<bool>, dist: seq<int>, q: seq<int>, except: set<int>)
    requires |vis| == |dist| == |g|
  {
    forall x :: 0 <= x < |g| && vis[x] && x !in q && x !in except && Expands(depth, dist[x]) ==>
      Settled(g, blocked, vis, dist, x, |g[x]|)
  }

  /** The loop invariant of the search's outer loop, between two dequeues. */
  ghost predicate BfsInv(g: seq<seq<int>>, src: int, blocked: set<int>, depth: Depth, vis: seq<bool>, dist: seq<int>, q: seq<int>)
  {
    Sound(g, src, blocked, depth, vis, dist) &&
    (q != [] ==>
      0 <= q[0] < |g| &&
      Queued(vis, dist, q, dist[q[0]]) &&
      forall v :: 0 <= v < |g| && vis[v] ==> dist[v] <= dist[q[0]] + 1) &&
    Closed(g, blocked, depth, vis, dist, q, {})
  }

  /** The loop invariant of the inner loop, while the neighbours of `u` are examined. */
  ghost predicate Expanding(g: seq<seq<int>>, src: int, blocked: set<int>, depth: Depth, vis: seq<bool>, dist: seq<int>, q: seq<int>, u: int, k: int)
  {
    Sound(g, src, blocked, depth, vis, dist) &&
    0 <= u < |g| && vis[u] && Expands(depth, dist[u]) && 0 <= k &&
    Queued(vis, dist, q, dist[u]) &&
    (forall v :: 0 <= v < |g| && vis[v] ==> dist[v] <= dist[u] + 1) &&
    Closed(g, blocked, depth, vis, dist, q, {u}) &&
    Settled(g, blocked, vis, dist, u, k)
  }

  /** What a finished search has computed. */
  ghost predicate Searched(g: seq<seq<int>>, src: int, blocked: set<int>, depth: Depth, vis: seq<bool>, dist: seq<int>)
  {
    |vis| == |g| && |dist| == |g| &&
    forall v :: 0 <= v < |g| ==>
      (vis[v] <==> InReach(g, src, blocked, depth, v)) &&
      (vis[v] ==> Reachable(g, {src}, blocked, v) && 0 <= dist[v] < |g| && dist[v] == Dist(g, {src}, blocked, v))
  }

  /** Tile `v` records the tile it was found from: a visited tile inside the horizon,
      one move nearer, that lists `v` as a neighbour. */
  ghost predicate Linked(g: seq<seq<int>>, depth: Depth, vis: seq<bool>, dist: seq<int>, par: seq<int>, v: int)
    requires 0 <= v < |g| && |vis| == |g| && |dist| == |g| && |par| == |g|
  {
    var p := par[v];
    0 <= p < |g| && vis[p] && Expands(depth, dist[p]) && dist[v] == dist[p] + 1 && v in g[p]
  }

  /** Every visited tile other than the source is linked to its parent. */
  ghost predicate ParentTree(g: seq<seq<int>>, src: int, depth: Depth, vis: seq<bool>, dist: seq<int>, par: seq<int>)
  {
    |vis| == |g| && |dist| == |g| && |par| == |g| &&
    forall v {:trigger Linked(g, depth, vis, dist, par, v)} :: 0 <= v < |g| && vis[v] && v != src ==>
      Linked(g, depth, vis, dist, par, v)
  }

  /** Discovering `w` from `u` extends the parent links. */
  lemma ParentTreeGrow(g: seq<seq<int>>, src: int, depth: Depth, vis: seq<bool>, dist: seq<int>, par: seq<int>, u: int, w: int)
    requires ParentTree(g, src, depth, vis, dist, par)
    requires 0 <= u < |g| && vis[u] && Expands(depth, dist[u]) && 0 <= w < |g| && !vis[w] && w in g[u]
    ensures ParentTree(g, src, depth, vis[w := true], dist[w := dist[u] + 1], par[w := u])
  {
    var vis', dist', par' := vis[w := true], dist[w := dist[u] + 1], par[w := u];
    forall v | 0 <= v < |g| && vis'[v] && v != src
      ensures Linked(g, depth, vis', dist', par', v)
    {
      if v != w {
        assert Linked(g, depth, vis, dist, par, v);
      }
    }
  }

  // ---------------------------------------------------------------------------
  // Each step of the search keeps its invariant

  /** The source alone is visited, at distance 0, and is the whole queue. */
  lemma BfsStart(g: seq<seq<int>>, src: int, blocked: set<int>, depth: Depth, vis: seq<bool>, dist: seq<int>)
    requires WellFormed(g) && |vis| == |g| && |dist| == |g| && 0 <= src < |g| && dist[src] == 0
    requires forall v :: 0 <= v < |g| ==> (vis[v] <==> v == src)
    ensures BfsInv(g, src, blocked, depth, vis, dist, [src])
  {
    CountPositive(vis, src);
    assert Within(g, {src}, blocked, 0, src);
  }

  /** The dequeued tile lies at the horizon: it is dropped and nothing else changes. */
  lemma SkipDeep(g: seq<seq<int>>, src: int, blocked: set<int>, depth: Depth, vis: seq<bool>, dist: seq<int>, q: seq<int>)
    requires BfsInv(g, src, blocked, depth, vis, dist, q) && q != [] && !Expands(depth, dist[q[0]])
    ensures BfsInv(g, src, blocked, depth, vis, dist, q[1..])
  {
    forall x | 0 <= x < |g| && vis[x] && x !in q[1..] && Expands(depth, dist[x])
      ensures Settled(g, blocked, vis, dist, x, |g[x]|)
    {
      assert x != q[0];
    }
    if q[1..] != [] {
      assert dist[q[0]] <= dist[q[1]];
    }
  }

  /** The dequeued tile lies inside the horizon: its neighbours are about to be examined. */
  lemma BeginExpand(g: seq<seq<int>>, src: int, blocked: set<int>, depth: Depth, vis: seq<bool>, dist: seq<int>, q: seq<int>)
    requires BfsInv(g, src, blocked, depth, vis, dist, q) && q != [] && Expands(depth, dist[q[0]])
    ensures Expanding(g, src, blocked, depth, vis, dist, q[1..], q[0], 0)
  {
    forall x | 0 <= x < |g| && vis[x] && x !in q[1..] && x != q[0] && Expands(depth, dist[x])
      ensures Settled(g, blocked, vis, dist, x, |g[x]|)
    {
      assert x !in q;
    }
  }

  /** Neighbour `w` of `u` is new: it is visited one move further than `u` and enqueued. */
  lemma Discover(g: seq<seq<int>>, src: int, blocked: set<int>, depth: Depth, vis: seq<bool>, dist: seq<int>, q: seq<int>, u: int, k: int)
    requires Expanding(g, src, blocked, depth, vis, dist, q, u, k) && k < |g[u]|
    requires g[u][k] !in blocked && !vis[g[u][k]]
    ensures Count(vis[g[u][k] := true]) == Count(vis) + 1
    ensures Expanding(g, src, blocked, depth, vis[g[u][k] := true], dist[g[u][k] := dist[u] + 1], q + [g[u][k]], u, k + 1)
  {
    var w := g[u][k];
    var vis', dist', q' := vis[w := true], dist[w := dist[u] + 1], q + [w];
    CountMark(vis, w);
    DiscoverSound(g, src, blocked, depth, vis, dist, u, w);
    assert Queued(vis', dist', q', dist'[u]);
    DiscoverClosed(g, blocked, depth, vis, dist, q, u, w);
    assert Settled(g, blocked, vis, dist, u, k);
  }

  /** Recording `w` one move further than the expanded tile `u` keeps the distances sound. */
  lemma DiscoverSound(g: seq<seq<int>>, src: int, blocked: set<int>, depth: Depth, vis: seq<bool>, dist: seq<int>, u: int, w: int)
    requires Sound(g, src, blocked, depth, vis, dist)
    requires 0 <= u < |g| && vis[u] && Expands(depth, dist[u]) && w in g[u] && w !in blocked
    requires 0 <= w < |g| && !vis[w] && Count(vis[w := true]) == Count(vis) + 1
    requires forall v :: 0 <= v < |g| && vis[v] ==> dist[v] <= dist[u] + 1
    ensures Sound(g, src, blocked, depth, vis[w := true], dist[w := dist[u] + 1])
  {
    var vis', dist' := vis[w := true], dist[w := dist[u] + 1];
    assert Within(g, {src}, blocked, dist[u] + 1, w) by {
      assert Edge(g, u, w);
    }
    CountPositive(vis, u);
    forall v | 0 <= v < |g| && vis'[v]
      ensures 0 <= dist'[v] < Count(vis') && Allows(depth, dist'[v]) && Within(g, {src}, blocked, dist'[v], v)
    {
      if v != w {
        assert vis[v];
      }
    }
  }

  /** Visiting the new tile `w` leaves every closed tile closed. */
  lemma DiscoverClosed(g: seq<seq<int>>, blocked: set<int>, depth: Depth, vis: seq<bool>, dist: seq<int>, q: seq<int>, u: int, w: int)
    requires |vis| == |g| && |dist| == |g| && 0 <= u < |g| && 0 <= w < |g| && !vis[w]
    requires Closed(g, blocked, depth, vis, dist, q, {u})
    ensures Closed(g, blocked, depth, vis[w := true], dist[w := dist[u] + 1], q + [w], {u})
  {
    var vis', dist', q' := vis[w := true], dist[w := dist[u] + 1], q + [w];
    forall x | 0 <= x < |g| && vis'[x] && x !in q' && x != u && Expands(depth, dist'[x])
      ensures Settled(g, blocked, vis', dist', x, |g[x]|)
    {
      assert x != w && vis[x] && x !in q;
      assert Settled(g, blocked, vis, dist, x, |g[x]|);
    }
  }

  /** Neighbour `u[k]` is blocked or already visited: nothing changes. */
  lemma Pass(g: seq<seq<int>>, src: int, blocked: set<int>, depth: Depth, vis: seq<bool>, dist: seq<int>, q: seq<int>, u: int, k: int)
    requires Expanding(g, src, blocked, depth, vis, dist, q, u, k) && k < |g[u]|
    requires g[u][k] in blocked || vis[g[u][k]]
    ensures Expanding(g, src, blocked, depth, vis, dist, q, u, k + 1)
  {
  }

  /** All neighbours of `u` are examined: `u` is closed. */
  lemma EndExpand(g: seq<seq<int>>, src: int, blocked: set<int>, depth: Depth, vis: seq<bool>, dist: seq<int>, q: seq<int>, u: int)
    requires 0 <= u < |g| && Expanding(g, src, blocked, depth, vis, dist, q, u, |g[u]|)
    ensures BfsInv(g, src, blocked, depth, vis, dist, q)
  {
    if q != [] {
      assert dist[u] <= dist[q[0]];
    }
  }

  /** Once the queue is empty every tile inside the horizon is visited, no further than
      the length of any path to it. */
  lemma {:induction false} Complete(g: seq<seq<int>>, src: int, blocked: set<int>, depth: Depth, vis: seq<bool>, dist: seq<int>, k: nat, v: int)
    requires BfsInv(g, src, blocked, depth, vis, dist, [])
    requires Within(g, {src}, blocked, k, v) && Allows(depth, k)
    ensures 0 <= v < |g| && vis[v] && dist[v] <= k
  {
    if k == 0 {
    } else if Within(g, {src}, blocked, k - 1, v) {
      Complete(g, src, blocked, depth, vis, dist, k - 1, v);
    } else {
      var u :| 0 <= u < |g| && v in g[u] && Within(g, {src}, blocked, k - 1, u);
      Complete(g, src, blocked, depth, vis, dist, k - 1, u);
      assert Settled(g, blocked, vis, dist, u, |g[u]|);
      var j :| 0 <= j < |g[u]| && g[u][j] == v;
    }
  }

  /** A search whose queue has run dry has computed shortest distances over the horizon. */
  lemma BfsDone(g: seq<seq<int>>, src: int, blocked: set<int>, depth: Depth, vis: seq<bool>, dist: seq<int>)
    requires BfsInv(g, src, blocked, depth, vis, dist, [])
    ensures Searched(g, src, blocked, depth, vis, dist)
  {
    forall v | 0 <= v < |g|
      ensures vis[v] <==> InReach(g, src, blocked, depth, v)
      ensures vis[v] ==> Reachable(g, {src}, blocked, v) && 0 <= dist[v] < |g| && dist[v] == Dist(g, {src}, blocked, v)
    {
      if vis[v] {
        if dist[v] > 0 && Within(g, {src}, blocked, dist[v] - 1, v) {
          Complete(g, src, blocked, depth, vis, dist, dist[v] - 1, v);
        }
        ShortestIsDist(g, {src}, blocked, dist[v], v);
        if depth.UpTo? {
          WithinMonotone(g, {src}, blocked, dist[v], depth.limit, v);
        }
      }
      if InReach(g, src, blocked, depth, v) {
        if depth.UpTo? {
          Complete(g, src, blocked, depth, vis, dist, depth.limit, v);
        } else {
          var k: nat :| Within(g, {src}, blocked, k, v);
          Complete(g, src, blocked, depth, vis, dist, k, v);
        }
      }
    }
  }
}
