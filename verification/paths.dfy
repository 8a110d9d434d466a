/** The parent map both solvers build, the walk `reconstruct_and_mark` takes
    through it, and the facts that make that walk a route back to the start. */
module Paths {
  import opened Grid
  import opened Options

  /** Parent-map sentinels: the start cell carries ROOT, an undiscovered cell UNSET.
      Every other entry is the flat index of the discovering cell. */
  const UNSET: int := -1
  const ROOT: int := -2

  /** The cells the walk of `reconstruct_and_mark` visits from `cur`: it follows parent
      links until it meets a sentinel. `None` when it does not meet one within `fuel`
      steps or leaves the map (the C loop would then run on or read out of bounds). */
  function Walk(parent: seq<int>, cur: int, fuel: nat): (w: Option<seq<int>>)
    ensures w.Some? ==> |w.value| <= fuel
    ensures w.Some? ==> (|w.value| == 0 <==> cur == ROOT || cur == UNSET)
    ensures w.Some? && |w.value| > 0 ==> w.value[0] == cur
    ensures w.Some? ==> forall k :: 0 <= k < |w.value| ==> 0 <= w.value[k] < |parent|
    ensures w.Some? ==> forall k :: 0 < k < |w.value| ==> w.value[k] == parent[w.value[k - 1]]
    ensures w.Some? && |w.value| > 0 ==> parent[w.value[|w.value| - 1]] in {ROOT, UNSET}
    decreases fuel
  {
    if cur == ROOT || cur == UNSET then Some([])
    else if fuel == 0 || !(0 <= cur < |parent|) then None
    else match Walk(parent, parent[cur], fuel - 1)
      case None => None
      case Some(rest) => Some([cur] + rest)
  }

  /** Once the walk ends within some fuel, more fuel changes nothing. */
  lemma {:induction false} WalkMoreFuel(parent: seq<int>, cur: int, f: nat, f': nat)
    requires Walk(parent, cur, f).Some? && f <= f'
    ensures Walk(parent, cur, f') == Walk(parent, cur, f)
    decreases f
  {
    if cur != ROOT && cur != UNSET {
      WalkMoreFuel(parent, parent[cur], f - 1, f' - 1);
    }
  }

  /** A discovered cell `i` other than the start points at a discovered side neighbour
      that is a passage and was discovered before it (smaller rank). */
  ghost predicate Linked(g: Grid, parent: seq<int>, rank: seq<nat>, i: int)
    requires g.Valid() && |parent| == |g.cells| && |rank| == |g.cells| && 0 <= i < |g.cells|
  {
    var p := parent[i];
    && 0 <= p < |g.cells| && parent[p] != UNSET
    && g.cells[i] == Passage
    && Adjacent(g.At(p), g.At(i))
    && rank[p] < rank[i] < |g.cells|
  }

  /** The parent map is a tree rooted at the start cell `s`: `s` alone carries ROOT and
      every other discovered cell is linked to an earlier-discovered neighbour. */
  ghost predicate Tree(g: Grid, parent: seq<int>, rank: seq<nat>, s: int)
    requires g.Valid()
  {
    && |parent| == |g.cells| && |rank| == |g.cells|
    && 0 <= s < |g.cells| && parent[s] == ROOT && rank[s] == 0 && g.cells[s] == Passage
    && forall i {:trigger Linked(g, parent, rank, i)} :: 0 <= i < |g.cells| && i != s && parent[i] != UNSET ==> Linked(g, parent, rank, i)
  }

  /** `w` leads from its first cell back to the start `s` through passages, each step
      to a side neighbour, never repeating a cell. */
  ghost predicate RouteHome(g: Grid, w: seq<int>, s: int)
    requires g.Valid()
  {
    && |w| > 0 && w[|w| - 1] == s
    && (forall k :: 0 <= k < |w| ==> 0 <= w[k] < |g.cells| && g.cells[w[k]] == Passage)
    && (forall k :: 0 < k < |w| ==> Adjacent(g.At(w[k - 1]), g.At(w[k])))
    && (forall j, k :: 0 <= j < k < |w| ==> w[j] != w[k])
  }

  /** In a tree, the walk from any discovered cell reaches ROOT at the start within
      `rank + 1` steps and traces a route home; ranks fall strictly along it. */
  lemma {:induction false} TreeWalk(g: Grid, parent: seq<int>, rank: seq<nat>, s: int, i: int)
      returns (w: seq<int>)
    requires g.Valid() && Tree(g, parent, rank, s)
    requires 0 <= i < |g.cells| && parent[i] != UNSET
    ensures Walk(parent, i, rank[i] + 1) == Some(w)
    ensures RouteHome(g, w, s)
    ensures forall k :: 0 < k < |w| ==> rank[w[k]] < rank[i]
    decreases rank[i]
  {
    if i == s {
      w := [s];
      WalkCons(parent, s, 0, []);
      assert [s] + [] == w;
    } else {
      assert Linked(g, parent, rank, i);
      var rest := TreeWalk(g, parent, rank, s, parent[i]);
      w := [i] + rest;
      TreeWalkStep(g, parent, rank, s, i, rest);
    }
  }

  /** The inductive step of `TreeWalk`: a linked cell in front of its parent's route home. */
  lemma TreeWalkStep(g: Grid, parent: seq<int>, rank: seq<nat>, s: int, i: int, rest: seq<int>)
    requires g.Valid() && |parent| == |g.cells| && |rank| == |g.cells| && 0 <= i < |g.cells|
    requires Linked(g, parent, rank, i)
    requires Walk(parent, parent[i], rank[parent[i]] + 1) == Some(rest)
    requires RouteHome(g, rest, s)
    requires forall k :: 0 < k < |rest| ==> rank[rest[k]] < rank[parent[i]]
    ensures Walk(parent, i, rank[i] + 1) == Some([i] + rest)
    ensures RouteHome(g, [i] + rest, s)
    ensures forall k :: 0 < k < |[i] + rest| ==> rank[([i] + rest)[k]] < rank[i]
  {
    var p := parent[i];
    WalkMoreFuel(parent, p, rank[p] + 1, rank[i]);
    WalkCons(parent, i, rank[i], rest);
    RankFalls(rank, i, rest);
    RouteHomeCons(g, i, rest, s);
  }

  /** One step of the walk: a cell in range followed by the walk from its parent. */
  lemma WalkCons(parent: seq<int>, i: int, fuel: nat, rest: seq<int>)
    requires 0 <= i < |parent| && Walk(parent, parent[i], fuel) == Some(rest)
    ensures Walk(parent, i, fuel + 1) == Some([i] + rest)
  {
  }

  lemma RankFalls(rank: seq<nat>, i: int, rest: seq<int>)
    requires 0 <= i < |rank| && |rest| > 0
    requires forall k :: 0 <= k < |rest| ==> 0 <= rest[k] < |rank|
    requires rank[rest[0]] < rank[i]
    requires forall k :: 0 < k < |rest| ==> rank[rest[k]] < rank[rest[0]]
    ensures i !in rest
    ensures forall k :: 0 < k < |[i] + rest| ==> rank[([i] + rest)[k]] < rank[i]
  {
    var w := [i] + rest;
    forall k | 0 < k < |w|
      ensures rank[w[k]] < rank[i]
    {
      assert w[k] == rest[k - 1];
    }
    forall k | 0 <= k < |rest|
      ensures rest[k] != i
    {
      assert w[k + 1] == rest[k];
    }
  }

  /** A passage side neighbour of a route's first cell, not already on the route,
      extends the route home by one cell. */
  lemma RouteHomeCons(g: Grid, i: int, rest: seq<int>, s: int)
    requires g.Valid() && RouteHome(g, rest, s)
    requires 0 <= i < |g.cells| && g.cells[i] == Passage && i !in rest
    requires Adjacent(g.At(rest[0]), g.At(i))
    ensures RouteHome(g, [i] + rest, s)
  {
    var w := [i] + rest;
    forall k | 0 <= k < |w|
      ensures 0 <= w[k] < |g.cells| && g.cells[w[k]] == Passage
    {
      if k > 0 {
        assert w[k] == rest[k - 1];
      }
    }
    forall k | 0 < k < |w|
      ensures Adjacent(g.At(w[k - 1]), g.At(w[k]))
    {
      if k > 1 {
        assert w[k - 1] == rest[k - 2] && w[k] == rest[k - 1];
      }
    }
    forall j, k | 0 <= j < k < |w|
      ensures w[j] != w[k]
    {
      if j > 0 {
        assert w[j] == rest[j - 1] && w[k] == rest[k - 1];
      } else {
        assert w[k] == rest[k - 1];
      }
    }
  }

  /** A discovered cell's walk with the whole map as fuel: the route `reconstruct_and_mark` marks. */
  lemma TreeWalkFull(g: Grid, parent: seq<int>, rank: seq<nat>, s: int, i: int)
    requires g.Valid() && Tree(g, parent, rank, s)
    requires 0 <= i < |g.cells| && parent[i] != UNSET
    ensures Walk(parent, i, |parent|).Some? && RouteHome(g, Walk(parent, i, |parent|).value, s)
  {
    var w := TreeWalk(g, parent, rank, s, i);
    if i != s {
      assert Linked(g, parent, rank, i);
    }
    WalkMoreFuel(parent, i, rank[i] + 1, |parent|);
  }

  /** The coordinates of a sequence of flat indices. */
  ghost function Coords(g: Grid, w: seq<int>): (p: seq<RC>)
    requires g.Valid() && forall k :: 0 <= k < |w| ==> 0 <= w[k] < |g.cells|
    ensures |p| == |w| && forall k :: 0 <= k < |w| ==> p[k] == g.At(w[k])
  {
    seq(|w|, k requires 0 <= k < |w| => g.At(w[k]))
  }

  /** A route home, read backwards, is a passage path from the start to the cell. */
  lemma RouteHomeReaches(g: Grid, w: seq<int>, s: int)
    requires g.Valid() && RouteHome(g, w, s)
    ensures Reachable(g, g.At(s), g.At(w[0]))
  {
    var p := Reversed(g, w);
    ReversedOpen(g, w, s);
    ReversedAdjacent(g, w, s);
    assert PassagePath(g, p);
  }

  /** The coordinates of `w`, last first. */
  ghost function Reversed(g: Grid, w: seq<int>): (p: seq<RC>)
    requires g.Valid() && forall k :: 0 <= k < |w| ==> 0 <= w[k] < |g.cells|
    ensures |p| == |w| && forall k :: 0 <= k < |w| ==> p[k] == g.At(w[|w| - 1 - k])
  {
    seq(|w|, k requires 0 <= k < |w| => g.At(w[|w| - 1 - k]))
  }

  lemma ReversedOpen(g: Grid, w: seq<int>, s: int)
    requires g.Valid() && RouteHome(g, w, s)
    ensures forall k :: 0 <= k < |w| ==> g.Inside(Reversed(g, w)[k]) && g.Get(Reversed(g, w)[k]) == Passage
  {
    var p := Reversed(g, w);
    forall k | 0 <= k < |p|
      ensures g.Inside(p[k]) && g.Get(p[k]) == Passage
    {
      var j := |w| - 1 - k;
      g.IndexAt(w[j]);
    }
  }

  lemma ReversedAdjacent(g: Grid, w: seq<int>, s: int)
    requires g.Valid() && RouteHome(g, w, s)
    ensures forall k :: 0 < k < |w| ==> Adjacent(Reversed(g, w)[k - 1], Reversed(g, w)[k])
  {
    var p := Reversed(g, w);
    forall k | 0 < k < |p|
      ensures Adjacent(p[k - 1], p[k])
    {
      var j := |w| - 1 - k;
      assert Adjacent(g.At(w[j]), g.At(w[j + 1]));
    }
  }

  /** `parent'` extends `parent`: an entry once set is never overwritten. */
  ghost predicate Keeps(parent: seq<int>, parent': seq<int>) {
    |parent'| == |parent| && forall i :: 0 <= i < |parent| && parent[i] != UNSET ==> parent'[i] == parent[i]
  }

  /** Setting an undiscovered entry keeps every entry already set. */
  lemma KeepsSet(parent: seq<int>, parent': seq<int>, i: int, v: int)
    requires Keeps(parent, parent') && 0 <= i < |parent'| && parent'[i] == UNSET
    ensures Keeps(parent, parent'[i := v])
  {
  }

  /** Every open side neighbour of `u` has been discovered. */
  ghost predicate Expanded(g: Grid, parent: seq<int>, u: RC)
    requires g.Valid() && |parent| == |g.cells| && g.Inside(u)
  {
    forall k :: 0 <= k < 4 && g.Inside(Nbr(u, k)) && g.Get(Nbr(u, k)) == Passage ==>
      parent[g.Index(Nbr(u, k))] != UNSET
  }

  /** If every discovered cell has been expanded, the discovered cells are closed under
      passage steps: every passage path from the discovered start ends at a discovered cell. */
  lemma {:induction false} ClosedReach(g: Grid, parent: seq<int>, s: RC, p: seq<RC>)
    requires g.Valid() && |parent| == |g.cells| && g.Inside(s) && parent[g.Index(s)] != UNSET
    requires forall i :: 0 <= i < |g.cells| && parent[i] != UNSET ==> Expanded(g, parent, g.At(i))
    requires PassagePath(g, p) && p[0] == s
    ensures parent[g.Index(p[|p| - 1])] != UNSET
    decreases |p|
  {
    if |p| > 1 {
      var p' := p[..|p| - 1];
      assert PassagePath(g, p');
      ClosedReach(g, parent, s, p');
      var y, x := p'[|p'| - 1], p[|p| - 1];
      assert Adjacent(y, x);
      var k := DirTo(y, x);
      assert Expanded(g, parent, g.At(g.Index(y)));
    }
  }

  /** With no path to the goal, nothing undiscovered is reachable: the contrapositive of
      `ClosedReach` for the goal. */
  lemma ClosedUnreachable(g: Grid, parent: seq<int>, s: RC, goal: RC)
    requires g.Valid() && |parent| == |g.cells| && g.Inside(s) && g.Inside(goal)
    requires parent[g.Index(s)] != UNSET && parent[g.Index(goal)] == UNSET
    requires forall i :: 0 <= i < |g.cells| && parent[i] != UNSET ==> Expanded(g, parent, g.At(i))
    ensures !Reachable(g, s, goal)
  {
    if Reachable(g, s, goal) {
      var p :| PassagePath(g, p) && p[0] == s && p[|p| - 1] == goal;
      ClosedReach(g, parent, s, p);
    }
  }

  /** One step of the walk: a cell that is not a sentinel is listed first, followed by
      the walk from its parent with one step less, so a walked prefix `done` grows by it. */
  lemma WalkStep(parent: seq<int>, cur: int, fuel: nat, done: seq<int>, w: seq<int>)
    requires Walk(parent, cur, fuel).Some? && cur != ROOT && cur != UNSET
    requires done + Walk(parent, cur, fuel).value == w
    ensures fuel > 0 && 0 <= cur < |parent| && Walk(parent, parent[cur], fuel - 1).Some?
    ensures Walk(parent, cur, fuel).value == [cur] + Walk(parent, parent[cur], fuel - 1).value
    ensures (done + [cur]) + Walk(parent, parent[cur], fuel - 1).value == w
  {
    var rest := Walk(parent, parent[cur], fuel - 1).value;
    assert (done + [cur]) + rest == done + ([cur] + rest);
  }

  /** Raising PATH on cell `cur` extends the painted prefix `done` by `cur`. */
  lemma PaintOne(g: Grid, g1: Grid, cur: int, done: seq<int>)
    requires g.Valid() && g1.Valid() && g1.rows == g.rows && g1.cols == g.cols && 0 <= cur < |g1.marks|
    requires forall i :: 0 <= i < |g.marks| ==>
               g1.marks[i] == if i in done then g.marks[i] | PATH else g.marks[i]
    ensures forall i :: 0 <= i < |g.marks| ==>
              g1.MarkOr(g1.At(cur), PATH).marks[i] == if i in done + [cur] then g.marks[i] | PATH else g.marks[i]
  {
    var g2 := g1.MarkOr(g1.At(cur), PATH);
    g1.IndexAt(cur);
    assert g2.marks == g1.marks[cur := g1.marks[cur] | PATH];
    forall i | 0 <= i < |g.marks|
      ensures g2.marks[i] == if i in done + [cur] then g.marks[i] | PATH else g.marks[i]
    {
      if i == cur {
        assert g2.marks[i] == g1.marks[i] | PATH;
      } else {
        assert g2.marks[i] == g1.marks[i];
        assert i in done + [cur] <==> i in done;
      }
    }
  }

  /** `reconstruct_and_mark`: when the goal was never discovered the marks stay as they
      are; otherwise PATH is raised on exactly the cells of the walk from the goal back
      to the root, and no other bit or cell changes. */
  method ReconstructAndMark(g: Grid, parent: seq<int>, goal: RC) returns (g': Grid)
    requires g.Valid() && g.Inside(goal) && |parent| == |g.cells|
    requires parent[g.Index(goal)] == UNSET || Walk(parent, g.Index(goal), |parent|).Some?
    ensures g'.Valid() && g'.rows == g.rows && g'.cols == g.cols && g'.cells == g.cells
    ensures parent[g.Index(goal)] == UNSET ==> g'.marks == g.marks
    ensures parent[g.Index(goal)] != UNSET ==>
              forall i :: 0 <= i < |g.marks| ==>
                g'.marks[i] == if i in Walk(parent, g.Index(goal), |parent|).value
                               then g.marks[i] | PATH else g.marks[i]
  {
    var idx := g.Index(goal);
    g' := g;
    if parent[idx] == UNSET {
      return;
    }
    var cur := idx;
    ghost var fuel: nat := |parent|;
    ghost var w := Walk(parent, idx, fuel).value;
    ghost var done: seq<int> := [];
    while cur != ROOT && cur != UNSET
      invariant g'.Valid() && g'.rows == g.rows && g'.cols == g.cols && g'.cells == g.cells
      invariant Walk(parent, cur, fuel).Some? && done + Walk(parent, cur, fuel).value == w
      invariant forall i :: 0 <= i < |g.marks| ==>
                  g'.marks[i] == if i in done then g.marks[i] | PATH else g.marks[i]
      decreases fuel
    {
      WalkStep(parent, cur, fuel, done, w);
      PaintOne(g, g', cur, done);
      g' := g'.MarkOr(g'.At(cur), PATH);
      done := done + [cur];
      cur := parent[cur];
      fuel := fuel - 1;
    }
    assert done == w;
  }
}
