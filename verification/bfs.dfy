/** `solve_bfs`: breadth-first search from the start over passage cells, recording each
    cell's discoverer in `parent`, followed by `reconstruct_and_mark` on the goal. */
module Bfs {
  import opened Grid
  import opened Paths
  import opened Counting
  import opened Frontier
  import opened Search

  /** Direction `k` from cell `u` leads to no undiscovered passage and to nothing more
      than one step further from the start than `u`. */
  ghost predicate SettledDir(g: Grid, parent: seq<int>, dist: seq<nat>, u: int, k: int)
    requires g.Valid() && |parent| == |g.cells| && |dist| == |g.cells| && 0 <= u < |g.cells| && 0 <= k < 4
  {
    var n := Nbr(g.At(u), k);
    g.Inside(n) && g.Get(n) == Passage ==> parent[g.Index(n)] != UNSET && dist[g.Index(n)] <= dist[u] + 1
  }

  /** Every open side neighbour of `u` is discovered, at most one step further out. */
  ghost predicate Settled(g: Grid, parent: seq<int>, dist: seq<nat>, u: int)
    requires g.Valid() && |parent| == |g.cells| && |dist| == |g.cells| && 0 <= u < |g.cells|
  {
    forall k :: 0 <= k < 4 ==> SettledDir(g, parent, dist, u, k)
  }

  /** The breadth-first frontier condition for layer `d`: no discovered cell is more than
      one layer beyond `d`, and every discovered cell before layer `d` is settled. */
  ghost predicate Layers(g: Grid, parent: seq<int>, dist: seq<nat>, d: int)
    requires g.Valid() && |parent| == |g.cells| && |dist| == |g.cells|
  {
    forall i :: 0 <= i < |g.cells| && parent[i] != UNSET ==>
      dist[i] <= d + 1 && (dist[i] < d ==> Settled(g, parent, dist, i))
  }

  /** Under the frontier condition, a passage path from the start of `|p| - 1` steps ends
      at a discovered cell whose distance is at most that, or at an undiscovered cell
      beyond layer `d`. */
  lemma {:induction false} Nearest(g: Grid, parent: seq<int>, dist: seq<nat>, d: int, s: int, p: seq<RC>)
    requires g.Valid() && |parent| == |g.cells| && |dist| == |g.cells|
    requires 0 <= s < |g.cells| && parent[s] != UNSET && dist[s] == 0
    requires Layers(g, parent, dist, d)
    requires PassagePath(g, p) && p[0] == g.At(s)
    ensures parent[g.Index(p[|p| - 1])] != UNSET ==> dist[g.Index(p[|p| - 1])] <= |p| - 1
    ensures parent[g.Index(p[|p| - 1])] == UNSET ==> |p| - 1 >= d + 1
    decreases |p|
  {
    if |p| == 1 {
      g.IndexAt(s);
    } else {
      var p' := p[..|p| - 1];
      assert PassagePath(g, p');
      Nearest(g, parent, dist, d, s, p');
      var z, y := p'[|p'| - 1], p[|p| - 1];
      var zi, yi := g.Index(z), g.Index(y);
      if parent[zi] != UNSET && dist[zi] < d {
        assert Settled(g, parent, dist, zi);
        assert Adjacent(z, y);
        var k := DirTo(z, y);
        assert SettledDir(g, parent, dist, zi, k);
      }
    }
  }

  /** With the frontier condition, the walk from a discovered goal is no longer than any
      passage path from the start to it. */
  lemma Shortest(g: Grid, parent: seq<int>, dist: seq<nat>, d: int, start: RC, goal: RC)
    requires g.Valid() && g.Inside(start) && g.Inside(goal)
    requires Tree(g, parent, dist, g.Index(start)) && Layers(g, parent, dist, d)
    requires parent[g.Index(goal)] != UNSET
    ensures Walk(parent, g.Index(goal), |parent|).Some?
    ensures forall p :: PassagePath(g, p) && p[0] == start && p[|p| - 1] == goal ==>
              |Walk(parent, g.Index(goal), |parent|).value| <= |p|
  {
    var s, gi := g.Index(start), g.Index(goal);
    var w := TreeWalk(g, parent, dist, s, gi);
    if gi != s {
      assert Linked(g, parent, dist, gi);
    }
    WalkMoreFuel(parent, gi, dist[gi] + 1, |parent|);
    assert |w| <= dist[gi] + 1;
    NearestGoal(g, parent, dist, d, start, goal);
  }

  lemma NearestGoal(g: Grid, parent: seq<int>, dist: seq<nat>, d: int, start: RC, goal: RC)
    requires g.Valid() && g.Inside(start) && g.Inside(goal) && |parent| == |g.cells| && |dist| == |g.cells|
    requires parent[g.Index(start)] != UNSET && dist[g.Index(start)] == 0
    requires Layers(g, parent, dist, d) && parent[g.Index(goal)] != UNSET
    ensures forall p :: PassagePath(g, p) && p[0] == start && p[|p| - 1] == goal ==>
              dist[g.Index(goal)] <= |p| - 1
  {
    var s := g.Index(start);
    forall p | PassagePath(g, p) && p[0] == start && p[|p| - 1] == goal
      ensures dist[g.Index(goal)] <= |p| - 1
    {
      Nearest(g, parent, dist, d, s, p);
    }
  }

  /** The queue holds the discovered cells not yet popped, oldest first, in a buffer of
      `rows * cols + 5` slots. */
  ghost predicate Queued(g: Grid, q: Queue, order: seq<int>, head: int)
    requires g.Valid()
  {
    && 0 <= head <= |order|
    && (forall k :: 0 <= k < |order| ==> 0 <= order[k] < |g.cells|)
    && q.cap == |g.cells| + 5
    && q.Holds(Coords(g, order[head..]))
  }

  /** Popped cells carry VISIT, queued cells FRONT, undiscovered cells nothing. */
  ghost predicate Marked(g: Grid, gm: Grid, order: seq<int>, head: int)
    requires g.Valid()
  {
    && gm.Valid() && gm.rows == g.rows && gm.cols == g.cols && gm.cells == g.cells
    && (forall k :: 0 <= k < |order| ==> 0 <= order[k] < |g.cells|)
    && (forall k :: 0 <= k < |order| ==> gm.marks[order[k]] == if k < head then VISIT else FRONT)
    && (forall i :: 0 <= i < |g.cells| && i !in order ==> gm.marks[i] == NONE)
  }

  /** Distances never fall along the discovery order; the queued cells are on layer `d`
      or `d + 1`; nothing lies beyond `d + 1`; the first `settled` cells are settled. */
  ghost predicate Layered(g: Grid, parent: seq<int>, dist: seq<nat>, order: seq<int>, head: int, d: int, settled: int)
    requires g.Valid() && |parent| == |g.cells| && |dist| == |g.cells|
  {
    && 0 <= head <= |order| && 0 <= settled <= |order|
    && (forall k :: 0 <= k < |order| ==> 0 <= order[k] < |g.cells|)
    && (forall j, k :: 0 <= j < k < |order| ==> dist[order[j]] <= dist[order[k]])
    && (forall k :: head <= k < |order| ==> d <= dist[order[k]])
    && (forall k :: 0 <= k < |order| ==> dist[order[k]] <= d + 1 && dist[order[k]] <= k)
    && (forall k :: 0 <= k < settled ==> Settled(g, parent, dist, order[k]))
  }

  /** What holds at the head of the search loop. */
  ghost predicate Inv(g: Grid, start: RC, goal: RC, gm: Grid, parent: seq<int>, q: Queue,
                      order: seq<int>, head: int, dist: seq<nat>, d: int)
    requires g.Valid() && g.Inside(start) && g.Inside(goal)
  {
    && |parent| == |g.cells| && |dist| == |g.cells|
    && Discovery(parent, order)
    && Tree(g, parent, dist, g.Index(start))
    && Queued(g, q, order, head)
    && Marked(g, gm, order, head)
    && Layered(g, parent, dist, order, head, d, head)
    && (forall k :: 0 <= k < head ==> order[k] != g.Index(goal))
  }

  /** At the head of the search loop the ring buffer is sound: `queue_empty` reports
      exactly whether unpopped discovered cells remain, and at least five slots stay free,
      so no push overwrites an unread entry. */
  lemma QueueSound(g: Grid, start: RC, goal: RC, gm: Grid, parent: seq<int>, q: Queue,
                   order: seq<int>, head: int, dist: seq<nat>, d: int)
    requires g.Valid() && g.Inside(start) && g.Inside(goal)
    requires Inv(g, start, goal, gm, parent, q, order, head, dist, d)
    ensures QueueEmpty(q) <==> head == |order|
    ensures (|order| - head) + 5 <= q.cap && |order| <= |g.cells|
  {
    QueueEmptyHolds(q, Coords(g, order[head..]));
    DiscoveryBound(parent, order);
  }

  /** What holds while the neighbours of the popped cell `cur`, at `order[head - 1]`, are scanned:
      directions below `k` are settled. */
  ghost predicate Scanning(g: Grid, start: RC, goal: RC, gm: Grid, parent: seq<int>, q: Queue,
                           order: seq<int>, head: int, dist: seq<nat>, d: int, cur: int, k: int)
    requires g.Valid() && g.Inside(start) && g.Inside(goal)
  {
    && |parent| == |g.cells| && |dist| == |g.cells|
    && Discovery(parent, order)
    && Tree(g, parent, dist, g.Index(start))
    && Queued(g, q, order, head)
    && Marked(g, gm, order, head)
    && 0 < head <= |order| && order[head - 1] == cur && dist[cur] == d
    && Layered(g, parent, dist, order, head, d, head - 1)
    && 0 <= k <= 4
    && (forall j :: 0 <= j < k ==> SettledDir(g, parent, dist, cur, j))
    && (forall j :: 0 <= j < head ==> order[j] != g.Index(goal))
  }

  /** A new cell is pushed at the back of the queue; the buffer keeps a free slot. */
  lemma DiscoverCore(g: Grid, start: RC, gm: Grid, parent: seq<int>, q: Queue,
                     order: seq<int>, head: int, dist: seq<nat>, d: int, cur: int, k: int)
    requires g.Valid() && g.Inside(start) && |parent| == |g.cells| && |dist| == |g.cells| && 0 <= k < 4
    requires Discovery(parent, order) && Tree(g, parent, dist, g.Index(start))
    requires Queued(g, q, order, head) && Marked(g, gm, order, head)
    requires 0 <= cur < |g.cells| && parent[cur] != UNSET && dist[cur] == d && d + 1 <= head
    requires g.Inside(Nbr(g.At(cur), k)) && g.Get(Nbr(g.At(cur), k)) == Passage
    requires parent[g.Index(Nbr(g.At(cur), k))] == UNSET
    requires |order| < |g.cells|
    ensures var n := Nbr(g.At(cur), k);
            var ni := g.Index(n);
            && Tree(g, parent[ni := cur], dist[ni := d + 1], g.Index(start))
            && Queued(g, QueuePush(q, n), order + [ni], head)
            && Marked(g, gm.MarkOr(n, FRONT), order + [ni], head)
  {
    var n := Nbr(g.At(cur), k);
    var ni := g.Index(n);
    assert ni !in order;
    GrowTree(g, parent, dist, g.Index(start), cur, k, d, head);
    GrowQueued(g, q, order, head, n);
    GrowMarked(g, gm, order, head, n);
  }

  /** Discovery from `cur` one layer out keeps the parent map a tree ranked by distance. */
  lemma GrowTree(g: Grid, parent: seq<int>, dist: seq<nat>, s: int, cur: int, k: int, d: int, head: int)
    requires g.Valid() && Tree(g, parent, dist, s) && 0 <= k < 4
    requires 0 <= cur < |g.cells| && parent[cur] != UNSET && dist[cur] == d && d + 1 <= head <= |g.cells| - 1
    requires g.Inside(Nbr(g.At(cur), k)) && g.Get(Nbr(g.At(cur), k)) == Passage
    requires parent[g.Index(Nbr(g.At(cur), k))] == UNSET
    ensures Tree(g, parent[g.Index(Nbr(g.At(cur), k)) := cur], dist[g.Index(Nbr(g.At(cur), k)) := d + 1], s)
  {
    NbrAdjacent(g.At(cur), k);
    TreeGrow(g, parent, dist, s, g.Index(Nbr(g.At(cur), k)), cur, d + 1);
  }

  lemma GrowQueued(g: Grid, q: Queue, order: seq<int>, head: int, n: RC)
    requires g.Valid() && g.Inside(n) && Queued(g, q, order, head) && |order| < |g.cells|
    ensures Queued(g, QueuePush(q, n), order + [g.Index(n)], head)
  {
    var ni := g.Index(n);
    var o' := order + [ni];
    var s := Coords(g, order[head..]);
    QueuePushHolds(q, s, n);
    assert o'[head..] == order[head..] + [ni];
    assert Coords(g, o'[head..]) == s + [n];
  }

  /** A newly discovered cell is marked FRONT at the back of the order. */
  lemma GrowMarked(g: Grid, gm: Grid, order: seq<int>, head: int, n: RC)
    requires g.Valid() && g.Inside(n) && Marked(g, gm, order, head) && g.Index(n) !in order
    requires head <= |order|
    ensures Marked(g, gm.MarkOr(n, FRONT), order + [g.Index(n)], head)
  {
    var ni := g.Index(n);
    var gm' := gm.MarkOr(n, FRONT);
    MarksElsewhere(gm, gm', n);
    assert gm.marks[ni] == NONE;
    assert gm'.marks[ni] == FRONT;
    var o' := order + [ni];
    forall k | 0 <= k < |o'|
      ensures gm'.marks[o'[k]] == if k < head then VISIT else FRONT
    {
      if k < |order| {
        assert o'[k] == order[k];
      }
    }
  }

  /** Discovering an undiscovered cell leaves a settled cell settled. */
  lemma SettledGrow(g: Grid, parent: seq<int>, dist: seq<nat>, u: int, i: int, p: int, r: nat)
    requires g.Valid() && |parent| == |g.cells| && |dist| == |g.cells| && 0 <= u < |g.cells|
    requires 0 <= i < |g.cells| && parent[i] == UNSET && u != i && p != UNSET
    requires Settled(g, parent, dist, u)
    ensures Settled(g, parent[i := p], dist[i := r], u)
  {
    var parent', dist' := parent[i := p], dist[i := r];
    forall k | 0 <= k < 4
      ensures SettledDir(g, parent', dist', u, k)
    {
      assert SettledDir(g, parent, dist, u, k);
    }
  }

  lemma SettledDirGrow(g: Grid, parent: seq<int>, dist: seq<nat>, u: int, k: int, i: int, p: int, r: nat)
    requires g.Valid() && |parent| == |g.cells| && |dist| == |g.cells| && 0 <= u < |g.cells| && 0 <= k < 4
    requires 0 <= i < |g.cells| && parent[i] == UNSET && u != i && p != UNSET
    requires SettledDir(g, parent, dist, u, k)
    ensures SettledDir(g, parent[i := p], dist[i := r], u, k)
  {
  }

  /** Appending a cell on layer `d + 1` keeps the layering. */
  lemma GrowLayered(g: Grid, parent: seq<int>, dist: seq<nat>, order: seq<int>, head: int, d: int,
                    settled: int, i: int, p: int)
    requires g.Valid() && |parent| == |g.cells| && |dist| == |g.cells|
    requires Layered(g, parent, dist, order, head, d, settled) && Discovery(parent, order)
    requires 0 <= i < |g.cells| && parent[i] == UNSET && p != UNSET && 0 <= d + 1 <= |order|
    ensures Layered(g, parent[i := p], dist[i := d + 1], order + [i], head, d, settled)
  {
    var parent', dist', o' := parent[i := p], dist[i := d + 1], order + [i];
    assert i !in order;
    forall k | 0 <= k < |order|
      ensures o'[k] == order[k] && dist'[o'[k]] == dist[order[k]]
    {
    }
    forall k | 0 <= k < settled
      ensures Settled(g, parent', dist', o'[k])
    {
      SettledGrow(g, parent, dist, order[k], i, p, d + 1);
    }
  }

  /** Scanning direction `k` of `cur` discovers its undiscovered passage neighbour. */
  lemma DiscoverStep(g: Grid, start: RC, goal: RC, gm: Grid, parent: seq<int>, q: Queue,
                     order: seq<int>, head: int, dist: seq<nat>, d: int, cur: int, k: int)
    requires g.Valid() && g.Inside(start) && g.Inside(goal)
    requires Scanning(g, start, goal, gm, parent, q, order, head, dist, d, cur, k) && k < 4
    requires g.Inside(Nbr(g.At(cur), k)) && g.Get(Nbr(g.At(cur), k)) == Passage
    requires parent[g.Index(Nbr(g.At(cur), k))] == UNSET
    ensures var n := Nbr(g.At(cur), k);
            var ni := g.Index(n);
            Scanning(g, start, goal, gm.MarkOr(n, FRONT), parent[ni := cur], QueuePush(q, n),
                     order + [ni], head, dist[ni := d + 1], d, cur, k + 1)
  {
    var n := Nbr(g.At(cur), k);
    var ni := g.Index(n);
    assert cur in order;
    DiscoverKeeps(parent, order, ni, cur);
    assert d + 1 <= head by {
      assert dist[order[head - 1]] <= head - 1;
    }
    DiscoverCore(g, start, gm, parent, q, order, head, dist, d, cur, k);
    DiscoverLayer(g, goal, parent, order, head, dist, d, cur, k);
  }

  lemma DiscoverLayer(g: Grid, goal: RC, parent: seq<int>, order: seq<int>, head: int,
                      dist: seq<nat>, d: int, cur: int, k: int)
    requires g.Valid() && g.Inside(goal) && |parent| == |g.cells| && |dist| == |g.cells| && 0 <= k < 4
    requires Discovery(parent, order)
    requires 0 < head <= |order| && order[head - 1] == cur && dist[cur] == d && d + 1 <= head
    requires Layered(g, parent, dist, order, head, d, head - 1)
    requires forall j :: 0 <= j < k ==> SettledDir(g, parent, dist, cur, j)
    requires forall j :: 0 <= j < head ==> order[j] != g.Index(goal)
    requires g.Inside(Nbr(g.At(cur), k)) && g.Get(Nbr(g.At(cur), k)) == Passage
    requires parent[g.Index(Nbr(g.At(cur), k))] == UNSET
    ensures var n := Nbr(g.At(cur), k);
            var ni := g.Index(n);
            var parent', dist', o' := parent[ni := cur], dist[ni := d + 1], order + [ni];
            && Layered(g, parent', dist', o', head, d, head - 1)
            && o'[head - 1] == cur && dist'[cur] == d
            && (forall j :: 0 <= j < k + 1 ==> SettledDir(g, parent', dist', cur, j))
            && (forall j :: 0 <= j < head ==> o'[j] != g.Index(goal))
  {
    var n := Nbr(g.At(cur), k);
    var ni := g.Index(n);
    var parent', dist', o' := parent[ni := cur], dist[ni := d + 1], order + [ni];
    assert cur in order;
    GrowLayered(g, parent, dist, order, head, d, head - 1, ni, cur);
    forall j | 0 <= j < k + 1
      ensures SettledDir(g, parent', dist', cur, j)
    {
      if j < k {
        SettledDirGrow(g, parent, dist, cur, j, ni, cur, d + 1);
      }
    }
    forall j | 0 <= j < head
      ensures o'[j] != g.Index(goal)
    {
      assert o'[j] == order[j];
    }
  }

  /** Scanning direction `k` of `cur` finds nothing to discover. */
  lemma SkipStep(g: Grid, start: RC, goal: RC, gm: Grid, parent: seq<int>, q: Queue,
                 order: seq<int>, head: int, dist: seq<nat>, d: int, cur: int, k: int)
    requires g.Valid() && g.Inside(start) && g.Inside(goal)
    requires Scanning(g, start, goal, gm, parent, q, order, head, dist, d, cur, k) && k < 4
    requires !(g.Inside(Nbr(g.At(cur), k)) && g.Get(Nbr(g.At(cur), k)) == Passage
               && parent[g.Index(Nbr(g.At(cur), k))] == UNSET)
    ensures Scanning(g, start, goal, gm, parent, q, order, head, dist, d, cur, k + 1)
  {
    var n := Nbr(g.At(cur), k);
    if g.Inside(n) && g.Get(n) == Passage {
      var ni := g.Index(n);
      assert ni in order;
      var j :| 0 <= j < |order| && order[j] == ni;
      assert dist[order[j]] <= d + 1;
    }
    assert SettledDir(g, parent, dist, cur, k);
  }

  /** After all four directions the popped cell is settled and the loop invariant is back. */
  lemma ScanDone(g: Grid, start: RC, goal: RC, gm: Grid, parent: seq<int>, q: Queue,
                 order: seq<int>, head: int, dist: seq<nat>, d: int, cur: int)
    requires g.Valid() && g.Inside(start) && g.Inside(goal)
    requires Scanning(g, start, goal, gm, parent, q, order, head, dist, d, cur, 4)
    ensures Inv(g, start, goal, gm, parent, q, order, head, dist, d)
    ensures Expanded(g, parent, g.At(cur))
  {
    assert Settled(g, parent, dist, cur);
    SettledExpanded(g, parent, dist, cur);
    forall k | 0 <= k < head
      ensures Settled(g, parent, dist, order[k])
    {
    }
  }

  /** The frontier condition follows from the layering. */
  lemma LayersHold(g: Grid, parent: seq<int>, dist: seq<nat>, order: seq<int>, head: int, d: int)
    requires g.Valid() && |parent| == |g.cells| && |dist| == |g.cells|
    requires Discovery(parent, order) && Layered(g, parent, dist, order, head, d, head)
    ensures Layers(g, parent, dist, d)
  {
    forall i | 0 <= i < |g.cells| && parent[i] != UNSET
      ensures dist[i] <= d + 1 && (dist[i] < d ==> Settled(g, parent, dist, i))
    {
      var k :| 0 <= k < |order| && order[k] == i;
    }
  }

  /** The loop's marks are the shading a finished search leaves. */
  lemma MarkedShaded(g: Grid, gm: Grid, parent: seq<int>, order: seq<int>, head: int)
    requires g.Valid() && |parent| == |g.cells| && Discovery(parent, order) && Marked(g, gm, order, head)
    ensures |parent| == |gm.cells| && Shaded(gm, parent)
  {
    forall i | 0 <= i < |gm.cells| && parent[i] != UNSET
      ensures gm.marks[i] in {VISIT, FRONT}
    {
      var k :| 0 <= k < |order| && order[k] == i;
    }
  }

  /** What the breadth-first loop leaves: a finished search whose route to a found goal is
      a shortest one. */
  ghost predicate Solved(g: Grid, start: RC, goal: RC, gm: Grid, parent: seq<int>)
    requires g.Valid() && g.Inside(start) && g.Inside(goal)
  {
    && Searched(g, start, goal, gm, parent)
    && (parent[g.Index(goal)] != UNSET ==>
          forall p :: PassagePath(g, p) && p[0] == start && p[|p| - 1] == goal ==>
            |Walk(parent, g.Index(goal), |parent|).value| <= |p|)
  }

  /** Popping the goal ends the search with the goal found along a shortest route. */
  lemma FoundGoal(g: Grid, start: RC, goal: RC, gm: Grid, parent: seq<int>, q: Queue,
                  order: seq<int>, head: int, dist: seq<nat>, d: int, gm': Grid)
    requires g.Valid() && g.Inside(start) && g.Inside(goal)
    requires Inv(g, start, goal, gm, parent, q, order, head, dist, d)
    requires head < |order| && order[head] == g.Index(goal)
    requires Marked(g, gm', order, head + 1)
    ensures Solved(g, start, goal, gm', parent)
  {
    assert order[head] in order;
    AnsweredFound(g, start, goal, parent, dist);
    LayersHold(g, parent, dist, order, head, d);
    Shortest(g, parent, dist, d, start, goal);
    MarkedShaded(g, gm', parent, order, head + 1);
  }

  /** Every settled cell is expanded. */
  lemma SettledExpanded(g: Grid, parent: seq<int>, dist: seq<nat>, u: int)
    requires g.Valid() && |parent| == |g.cells| && |dist| == |g.cells| && 0 <= u < |g.cells|
    requires Settled(g, parent, dist, u)
    ensures Expanded(g, parent, g.At(u))
  {
    forall k | 0 <= k < 4 && g.Inside(Nbr(g.At(u), k)) && g.Get(Nbr(g.At(u), k)) == Passage
      ensures parent[g.Index(Nbr(g.At(u), k))] != UNSET
    {
      assert SettledDir(g, parent, dist, u, k);
    }
  }

  /** An empty queue ends the search with every discovered cell expanded and the goal
      never discovered. */
  lemma Exhausted(g: Grid, start: RC, goal: RC, gm: Grid, parent: seq<int>, q: Queue,
                  order: seq<int>, head: int, dist: seq<nat>, d: int)
    requires g.Valid() && g.Inside(start) && g.Inside(goal)
    requires Inv(g, start, goal, gm, parent, q, order, head, dist, d) && head == |order|
    ensures Solved(g, start, goal, gm, parent)
  {
    forall i | 0 <= i < |g.cells| && parent[i] != UNSET
      ensures Expanded(g, parent, g.At(i))
    {
      var k :| 0 <= k < |order| && order[k] == i;
      SettledExpanded(g, parent, dist, i);
    }
    AnsweredExhausted(g, start, goal, parent, dist);
    MarkedShaded(g, gm, parent, order, head);
    assert g.Index(goal) !in order;
  }

  /** Popping the oldest queued cell hands it out, marks it VISIT, and leaves the rest queued. */
  lemma PopCore(g: Grid, gm: Grid, q: Queue, order: seq<int>, head: int)
    requires g.Valid() && Queued(g, q, order, head) && Marked(g, gm, order, head) && head < |order|
    requires Distinct(order)
    ensures QueuePop(q).1 == g.At(order[head])
    ensures Queued(g, QueuePop(q).0, order, head + 1)
    ensures Marked(g, Retire(gm, g.At(order[head])), order, head + 1)
  {
    PopQueued(g, q, order, head);
    PopMarked(g, gm, order, head);
  }

  lemma PopQueued(g: Grid, q: Queue, order: seq<int>, head: int)
    requires g.Valid() && Queued(g, q, order, head) && head < |order|
    ensures QueuePop(q).1 == g.At(order[head])
    ensures Queued(g, QueuePop(q).0, order, head + 1)
  {
    var s := Coords(g, order[head..]);
    QueuePopHolds(q, s);
    assert s[1..] == Coords(g, order[head + 1..]);
  }

  lemma PopMarked(g: Grid, gm: Grid, order: seq<int>, head: int)
    requires g.Valid() && Marked(g, gm, order, head) && Distinct(order) && 0 <= head < |order|
    ensures Marked(g, Retire(gm, g.At(order[head])), order, head + 1)
  {
    var ci := order[head];
    var p := g.At(ci);
    g.IndexAt(ci);
    var gm' := Retire(gm, p);
    MarksElsewhere(gm, gm', p);
    assert gm.MarkGet(p) == FRONT;
    assert gm'.marks[ci] == VISIT;
    forall k | 0 <= k < |order|
      ensures gm'.marks[order[k]] == if k < head + 1 then VISIT else FRONT
    {
      if k != head {
        assert order[k] != ci;
      }
    }
  }

  /** The popped cell's layer becomes the current layer. */
  lemma PopLayer(g: Grid, parent: seq<int>, dist: seq<nat>, order: seq<int>, head: int, d: int)
    requires g.Valid() && |parent| == |g.cells| && |dist| == |g.cells|
    requires Layered(g, parent, dist, order, head, d, head) && head < |order|
    ensures Layered(g, parent, dist, order, head + 1, dist[order[head]], head)
  {
  }

  /** One pop: either the goal (the search ends) or a cell whose scan begins. */
  lemma PopStep(g: Grid, start: RC, goal: RC, gm: Grid, parent: seq<int>, q: Queue,
                order: seq<int>, head: int, dist: seq<nat>, d: int)
    requires g.Valid() && g.Inside(start) && g.Inside(goal)
    requires Inv(g, start, goal, gm, parent, q, order, head, dist, d) && head < |order|
    ensures QueuePop(q).1 == g.At(order[head])
    ensures order[head] == g.Index(goal) ==>
              Solved(g, start, goal, Retire(gm, g.At(order[head])), parent)
    ensures order[head] != g.Index(goal) ==>
              Scanning(g, start, goal, Retire(gm, g.At(order[head])), parent, QueuePop(q).0,
                       order, head + 1, dist, dist[order[head]], order[head], 0)
  {
    PopCore(g, gm, q, order, head);
    if order[head] == g.Index(goal) {
      FoundGoal(g, start, goal, gm, parent, q, order, head, dist, d, Retire(gm, g.At(order[head])));
    } else {
      PopLayer(g, parent, dist, order, head, d);
    }
  }

  /** The state `solve_bfs` builds before its loop satisfies the invariant. */
  lemma StartInv(g: Grid, start: RC, goal: RC, parent0: seq<int>)
    requires g.Valid() && g.Inside(start) && g.Inside(goal) && g.Get(start) == Passage
    requires |parent0| == |g.cells| && forall i :: 0 <= i < |g.cells| ==> parent0[i] == UNSET
    ensures var s := g.Index(start);
            Inv(g, start, goal, g.ClearMarks().MarkOr(start, FRONT), parent0[s := ROOT],
                QueuePush(QueueCreate(|g.cells| + 5), start), [s], 0, seq(|g.cells|, _ => 0), 0)
  {
    var s := g.Index(start);
    var parent := parent0[s := ROOT];
    StartTree(g, parent, s);
    QueuePushHolds(QueueCreate(|g.cells| + 5), [], start);
    assert Coords(g, [s][0..]) == [start];
    var gm := g.ClearMarks();
    var gm' := gm.MarkOr(start, FRONT);
    MarksElsewhere(gm, gm', start);
    assert gm'.marks[s] == FRONT by {
      assert gm.MarkGet(start) == NONE;
    }
    forall i | 0 <= i < |g.cells| && i != s
      ensures gm.marks[i] == NONE
    {
      g.IndexAt(i);
      assert gm.MarkGet(g.At(i)) == NONE;
    }
  }

  /** The set-up of `solve_bfs`: clear parents and marks, enqueue the start with
      itself as root, and mark it as frontier. */
  method Begin(g: Grid, start: RC, goal: RC)
    returns (gm: Grid, parent: seq<int>, q: Queue,
             ghost order: seq<int>, ghost head: int, ghost dist: seq<nat>, ghost d: int)
    requires g.Valid() && g.Inside(start) && g.Inside(goal) && g.Get(start) == Passage
    ensures Inv(g, start, goal, gm, parent, q, order, head, dist, d)
    ensures q.cap == |g.cells| + 5 && parent[g.Index(start)] == ROOT
    ensures forall i :: 0 <= i < |parent| && i != g.Index(start) ==> parent[i] == UNSET
  {
    var n := g.rows * g.cols;
    parent := ParentInit(n);
    gm := g.ClearMarks();
    q := QueueCreate(n + 5);
    q := QueuePush(q, start);
    var s := g.Index(start);
    StartInv(g, start, goal, parent);
    parent := parent[s := ROOT];
    gm := gm.MarkOr(start, FRONT);
    order, head, dist, d := [s], 0, seq(n, _ => 0), 0;
  }

  /** `solve_bfs` followed by `reconstruct_and_mark`: the parent map is a tree of routes
      home, the goal is found exactly when reachable, the goal's route is a shortest
      passage path, and the marks show discovered cells and the route. */
  method SolveBfs(g: Grid, start: RC, goal: RC) returns (g': Grid, parent: seq<int>)
    requires g.Valid() && g.Inside(start) && g.Inside(goal) && g.Get(start) == Passage
    ensures g'.Valid() && g'.rows == g.rows && g'.cols == g.cols && g'.cells == g.cells
    ensures Answered(g, start, goal, parent)
    ensures parent[g.Index(goal)] != UNSET ==>
              forall p :: PassagePath(g, p) && p[0] == start && p[|p| - 1] == goal ==>
                |Walk(parent, g.Index(goal), |parent|).value| <= |p|
    ensures Painted(g', goal, parent)
  {
    var gm;
    gm, parent := Explore(g, start, goal);
    g' := Finish(g, start, goal, gm, parent);
  }

  /** The search loop of `solve_bfs`: pop the oldest queued cell, mark it visited, stop if
      it is the goal, otherwise discover its undiscovered passage neighbours. */
  method Explore(g: Grid, start: RC, goal: RC) returns (gm: Grid, parent: seq<int>)
    requires g.Valid() && g.Inside(start) && g.Inside(goal) && g.Get(start) == Passage
    ensures Solved(g, start, goal, gm, parent)
  {
    var q;
    ghost var order, head, dist, d;
    gm, parent, q, order, head, dist, d := Begin(g, start, goal);
    while !QueueEmpty(q)
      invariant Inv(g, start, goal, gm, parent, q, order, head, dist, d)
      decreases |g.cells| - head
    {
      QueueSound(g, start, goal, gm, parent, q, order, head, dist, d);
      var found;
      gm, parent, q, found, order, head, dist, d := Round(g, start, goal, gm, parent, q, order, head, dist, d);
      if found {
        return;
      }
    }
    QueueEmptyHolds(q, Coords(g, order[head..]));
    Exhausted(g, start, goal, gm, parent, q, order, head, dist, d);
  }

  /** One round of the search loop: pop the oldest queued cell and mark it visited; stop if
      it is the goal, otherwise scan its neighbours. */
  method Round(g: Grid, start: RC, goal: RC, gm: Grid, parent: seq<int>, q: Queue,
               ghost order: seq<int>, ghost head: int, ghost dist: seq<nat>, ghost d: int)
    returns (gm': Grid, parent': seq<int>, q': Queue, found: bool,
             ghost order': seq<int>, ghost head': int, ghost dist': seq<nat>, ghost d': int)
    requires g.Valid() && g.Inside(start) && g.Inside(goal)
    requires Inv(g, start, goal, gm, parent, q, order, head, dist, d) && !QueueEmpty(q)
    ensures found ==> Solved(g, start, goal, gm', parent')
    ensures !found ==> Inv(g, start, goal, gm', parent', q', order', head', dist', d') && head' == head + 1
  {
    QueueEmptyHolds(q, Coords(g, order[head..]));
    PopStep(g, start, goal, gm, parent, q, order, head, dist, d);
    ghost var ci := order[head];
    var cur;
    q', cur := QueuePop(q).0, QueuePop(q).1;
    gm' := Retire(gm, cur);
    parent' := parent;
    order', head', dist', d' := order, head, dist, d;
    g.IndexAt(ci);
    found := cur == goal;
    if !found {
      head', d' := head + 1, dist[ci];
      gm', parent', q', order', dist' := Expand(g, start, goal, gm', parent', q', cur, order, head', dist, d', ci);
    }
  }

  /** The neighbour scan of one popped cell `cur`: each undiscovered passage side neighbour
      gets `cur` as parent, joins the back of the queue, and is marked FRONT. */
  method Expand(g: Grid, start: RC, goal: RC, gm: Grid, parent: seq<int>, q: Queue, cur: RC,
                ghost order: seq<int>, ghost head: int, ghost dist: seq<nat>, ghost d: int, ghost ci: int)
      returns (gm': Grid, parent': seq<int>, q': Queue, ghost order': seq<int>, ghost dist': seq<nat>)
    requires g.Valid() && g.Inside(start) && g.Inside(goal)
    requires Scanning(g, start, goal, gm, parent, q, order, head, dist, d, ci, 0) && cur == g.At(ci)
    ensures Inv(g, start, goal, gm', parent', q', order', head, dist', d)
    ensures Keeps(parent, parent') && Expanded(g, parent', cur)
  {
    gm', parent', q', order', dist' := gm, parent, q, order, dist;
    g.IndexAt(ci);
    var k := 0;
    while k < 4
      invariant Scanning(g, start, goal, gm', parent', q', order', head, dist', d, ci, k)
      invariant Keeps(parent, parent')
    {
      var nb := Nbr(cur, k);
      if g.Inside(nb) && g.Get(nb) == Passage && parent'[g.Index(nb)] == UNSET {
        DiscoverStep(g, start, goal, gm', parent', q', order', head, dist', d, ci, k);
        var ni := g.Index(nb);
        KeepsSet(parent, parent', ni, g.Index(cur));
        parent' := parent'[ni := g.Index(cur)];
        q' := QueuePush(q', nb);
        gm' := gm'.MarkOr(nb, FRONT);
        order', dist' := order' + [ni], dist'[ni := d + 1];
      } else {
        SkipStep(g, start, goal, gm', parent', q', order', head, dist', d, ci, k);
      }
      k := k + 1;
    }
    ScanDone(g, start, goal, gm', parent', q', order', head, dist', d, ci);
  }
}
