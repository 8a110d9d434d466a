/** What the two solvers share: the parent map's initial state, the bookkeeping that
    ties discovered cells to their discovery order, and the answer a finished search
    gives about the goal. */
module Search {
  import opened Grid
  import opened Paths
  import opened Counting

  /** The `parent[i] = -1` loop every solver starts with. */
  method ParentInit(n: nat) returns (parent: seq<int>)
    ensures |parent| == n && forall i :: 0 <= i < n ==> parent[i] == UNSET
  {
    parent := [];
    while |parent| < n
      invariant |parent| <= n && forall i :: 0 <= i < |parent| ==> parent[i] == UNSET
    {
      parent := parent + [UNSET];
    }
  }

  /** The discovered cells (those whose parent entry is set) are exactly the entries of
      `order`, each once. */
  ghost predicate Discovery(parent: seq<int>, order: seq<int>) {
    && Distinct(order)
    && (forall k :: 0 <= k < |order| ==> 0 <= order[k] < |parent|)
    && (forall i :: 0 <= i < |parent| ==> (parent[i] != UNSET <==> i in order))
  }

  /** At most one entry per cell is ever discovered. */
  lemma DiscoveryBound(parent: seq<int>, order: seq<int>)
    requires Discovery(parent, order)
    ensures |order| <= |parent|
  {
    DistinctBound(order, |parent|);
  }

  /** Discovering the undiscovered cell `i` with parent `p` appends it to the order. */
  lemma DiscoverKeeps(parent: seq<int>, order: seq<int>, i: int, p: int)
    requires Discovery(parent, order) && 0 <= i < |parent| && parent[i] == UNSET && p != UNSET
    ensures Discovery(parent[i := p], order + [i])
    ensures |order| < |parent|
  {
    var o' := order + [i];
    assert i !in order;
    forall j, k | 0 <= j < k < |o'|
      ensures o'[j] != o'[k]
    {
      if k < |order| {
        assert o'[j] == order[j] && o'[k] == order[k];
      } else {
        assert o'[j] == order[j];
      }
    }
    assert Distinct(o');
    DiscoveryBound(parent[i := p], o');
  }

  /** What a finished search states about the goal: the start is the root, every
      discovered cell's parent chain is a route back to the start, and the goal was
      discovered exactly when it is reachable from the start. */
  ghost predicate Answered(g: Grid, start: RC, goal: RC, parent: seq<int>)
    requires g.Valid() && g.Inside(start) && g.Inside(goal)
  {
    && |parent| == |g.cells|
    && parent[g.Index(start)] == ROOT
    && (forall i :: 0 <= i < |g.cells| && parent[i] != UNSET ==>
          Walk(parent, i, |parent|).Some? && RouteHome(g, Walk(parent, i, |parent|).value, g.Index(start)))
    && (parent[g.Index(goal)] != UNSET <==> Reachable(g, start, goal))
  }

  /** Every discovered cell of a tree has a route home. */
  lemma TreeRoutes(g: Grid, parent: seq<int>, rank: seq<nat>, s: int)
    requires g.Valid() && Tree(g, parent, rank, s)
    ensures forall i :: 0 <= i < |g.cells| && parent[i] != UNSET ==>
              Walk(parent, i, |parent|).Some? && RouteHome(g, Walk(parent, i, |parent|).value, s)
  {
    forall i | 0 <= i < |g.cells| && parent[i] != UNSET
      ensures Walk(parent, i, |parent|).Some? && RouteHome(g, Walk(parent, i, |parent|).value, s)
    {
      TreeWalkFull(g, parent, rank, s, i);
    }
  }

  /** A search that stopped on the goal has answered: the goal's route proves it reachable. */
  lemma AnsweredFound(g: Grid, start: RC, goal: RC, parent: seq<int>, rank: seq<nat>)
    requires g.Valid() && g.Inside(start) && g.Inside(goal)
    requires Tree(g, parent, rank, g.Index(start)) && parent[g.Index(goal)] != UNSET
    ensures Answered(g, start, goal, parent)
  {
    var s := g.Index(start);
    TreeRoutes(g, parent, rank, s);
    var gi := g.Index(goal);
    RouteHomeReaches(g, Walk(parent, gi, |parent|).value, s);
  }

  /** A search that ran out of frontier has answered: every discovered cell was expanded,
      so an undiscovered goal is unreachable. */
  lemma AnsweredExhausted(g: Grid, start: RC, goal: RC, parent: seq<int>, rank: seq<nat>)
    requires g.Valid() && g.Inside(start) && g.Inside(goal)
    requires Tree(g, parent, rank, g.Index(start))
    requires forall i :: 0 <= i < |g.cells| && parent[i] != UNSET ==> Expanded(g, parent, g.At(i))
    ensures Answered(g, start, goal, parent)
  {
    var s := g.Index(start);
    TreeRoutes(g, parent, rank, s);
    var gi := g.Index(goal);
    if parent[gi] != UNSET {
      RouteHomeReaches(g, Walk(parent, gi, |parent|).value, s);
    } else {
      ClosedUnreachable(g, parent, start, goal);
    }
  }

  /** The mark update on a popped cell: clear FRONT, then raise VISIT unless it is already
      set. A frontier cell becomes a visited cell. */
  function Retire(g: Grid, p: RC): (g': Grid)
    requires g.Valid() && g.Inside(p)
    ensures g'.Valid() && g'.rows == g.rows && g'.cols == g.cols && g'.cells == g.cells
    ensures g'.MarkGet(p) == (g.MarkGet(p) & !FRONT) | VISIT
    ensures g.MarkGet(p) == FRONT ==> g'.MarkGet(p) == VISIT
    ensures forall q :: g.Inside(q) && q != p ==> g'.MarkGet(q) == g.MarkGet(q)
  {
    var g1 := g.MarkAndNot(p, FRONT);
    if g1.MarkGet(p) & VISIT == 0 then g1.MarkOr(p, VISIT) else g1
  }

  /** The marks a search leaves before the goal's route is painted: nothing on undiscovered
      cells, VISIT or FRONT on discovered ones. */
  ghost predicate Shaded(g: Grid, parent: seq<int>)
    requires g.Valid() && |parent| == |g.cells|
  {
    forall i :: 0 <= i < |g.cells| ==>
      if parent[i] == UNSET then g.marks[i] == NONE else g.marks[i] in {VISIT, FRONT}
  }

  /** After `reconstruct_and_mark`, the marks tell discovered cells from undiscovered ones,
      and PATH sits exactly on the goal's route. */
  ghost predicate Painted(g: Grid, goal: RC, parent: seq<int>)
    requires g.Valid() && g.Inside(goal) && |parent| == |g.cells|
    requires parent[g.Index(goal)] != UNSET ==> Walk(parent, g.Index(goal), |parent|).Some?
  {
    forall i :: 0 <= i < |g.cells| ==>
      && (g.marks[i] & !PATH == NONE <==> parent[i] == UNSET)
      && (g.marks[i] & PATH != NONE <==>
            parent[g.Index(goal)] != UNSET && i in Walk(parent, g.Index(goal), |parent|).value)
  }

  /** Painting the route over shaded marks gives painted marks. */
  lemma PaintRoute(gm: Grid, g': Grid, goal: RC, parent: seq<int>)
    requires gm.Valid() && gm.Inside(goal) && |parent| == |gm.cells| && Shaded(gm, parent)
    requires g'.Valid() && g'.rows == gm.rows && g'.cols == gm.cols
    requires parent[gm.Index(goal)] != UNSET ==> Walk(parent, gm.Index(goal), |parent|).Some?
    requires parent[gm.Index(goal)] == UNSET ==> g'.marks == gm.marks
    requires parent[gm.Index(goal)] != UNSET ==>
               forall i :: 0 <= i < |gm.marks| ==>
                 g'.marks[i] == if i in Walk(parent, gm.Index(goal), |parent|).value
                                then gm.marks[i] | PATH else gm.marks[i]
    ensures Painted(g', goal, parent)
  {
    var gi := gm.Index(goal);
    assert g'.Index(goal) == gi;
    var found := parent[gi] != UNSET;
    var w := if found then Walk(parent, gi, |parent|).value else [];
    forall i | 0 <= i < |g'.cells|
      ensures g'.marks[i] & !PATH == NONE <==> parent[i] == UNSET
      ensures g'.marks[i] & PATH != NONE <==> found && i in w
    {
      PaintCell(gm.marks[i], g'.marks[i], parent[i] != UNSET, found && i in w);
    }
  }

  /** One cell of the painting: a shaded mark does not use the PATH bit, so raising it is
      visible and keeps the other bits. */
  lemma PaintCell(m: Mark, m': Mark, discovered: bool, onRoute: bool)
    requires if discovered then m in {VISIT, FRONT} else m == NONE
    requires m' == if onRoute then m | PATH else m
    ensures m' & !PATH == NONE <==> !discovered
    ensures m' & PATH != NONE <==> onRoute
  {
  }


  /** What either solver leaves before `reconstruct_and_mark`: the cells are untouched,
      the parent map answers the search, and the marks are shaded. */
  ghost predicate Searched(g: Grid, start: RC, goal: RC, gm: Grid, parent: seq<int>)
    requires g.Valid() && g.Inside(start) && g.Inside(goal)
  {
    && gm.Valid() && gm.rows == g.rows && gm.cols == g.cols && gm.cells == g.cells
    && Answered(g, start, goal, parent)
    && Shaded(gm, parent)
  }

  /** The `reconstruct_and_mark` call that ends both solvers: the marks end up painted. */
  method Finish(g: Grid, start: RC, goal: RC, gm: Grid, parent: seq<int>) returns (g': Grid)
    requires g.Valid() && g.Inside(start) && g.Inside(goal) && Searched(g, start, goal, gm, parent)
    ensures g'.Valid() && g'.rows == g.rows && g'.cols == g.cols && g'.cells == g.cells
    ensures Painted(g', goal, parent)
  {
    g' := ReconstructAndMark(gm, parent, goal);
    PaintRoute(gm, g', goal, parent);
  }

  /** The start state of both solvers: the start cell is the only discovered cell. */
  lemma StartTree(g: Grid, parent: seq<int>, s: int)
    requires g.Valid() && |parent| == |g.cells| && 0 <= s < |g.cells| && g.cells[s] == Passage
    requires parent[s] == ROOT && forall i :: 0 <= i < |g.cells| && i != s ==> parent[i] == UNSET
    ensures Tree(g, parent, seq(|g.cells|, _ => 0), s)
    ensures Discovery(parent, [s])
  {
  }

  /** Discovering the undiscovered passage `i` from the discovered side neighbour `p` at a
      rank above `p`'s keeps the parent map a tree. */
  lemma TreeGrow(g: Grid, parent: seq<int>, rank: seq<nat>, s: int, i: int, p: int, r: nat)
    requires g.Valid() && Tree(g, parent, rank, s)
    requires 0 <= i < |g.cells| && parent[i] == UNSET && g.cells[i] == Passage
    requires 0 <= p < |g.cells| && parent[p] != UNSET && Adjacent(g.At(p), g.At(i))
    requires rank[p] < r < |g.cells|
    ensures Tree(g, parent[i := p], rank[i := r], s)
  {
    var parent', rank' := parent[i := p], rank[i := r];
    forall j | 0 <= j < |g.cells| && j != s && parent'[j] != UNSET
      ensures Linked(g, parent', rank', j)
    {
      if j != i {
        assert Linked(g, parent, rank, j);
      }
    }
  }
}
