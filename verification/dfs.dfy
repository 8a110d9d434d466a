/** `solve_dfs`: iterative depth-first search from the start over passage cells with a
    stack, trying the four directions of each popped cell in a shuffled order, followed
    by `reconstruct_and_mark` on the goal. A cell is pushed only while its mark is clear,
    so every cell enters the stack at most once. */
module Dfs {
  import opened Grid
  import opened Paths
  import opened Counting
  import opened Frontier
  import opened Search
  import opened Shuffle

  /** The stack holds the frontier cells `front`, bottom to top, each once and each
      already discovered, in a buffer of `rows * cols + 5` slots. */
  ghost predicate Stacked(g: Grid, st: Stack, order: seq<int>, front: seq<int>)
    requires g.Valid()
  {
    && st.Valid() && st.cap == |g.cells| + 5
    && Distinct(front)
    && (forall k :: 0 <= k < |front| ==> 0 <= front[k] < |g.cells| && front[k] in order)
    && st.Contents() == Coords(g, front)
  }

  /** Cells on the stack carry FRONT, discovered cells off it VISIT, undiscovered cells
      nothing. */
  ghost predicate Marked(g: Grid, gm: Grid, order: seq<int>, front: seq<int>)
    requires g.Valid()
  {
    && gm.Valid() && gm.rows == g.rows && gm.cols == g.cols && gm.cells == g.cells
    && forall i :: 0 <= i < |g.cells| ==>
         gm.marks[i] == if i !in order then NONE else if i in front then FRONT else VISIT
  }

  /** A discovered cell's rank is its position in the discovery order. */
  ghost predicate Ranked(g: Grid, order: seq<int>, rank: seq<nat>) {
    && |rank| == |g.cells|
    && forall k :: 0 <= k < |order| ==> 0 <= order[k] < |g.cells| && rank[order[k]] == k
  }

  /** The open side neighbour of `u` in direction `k`, if any, is discovered. */
  ghost predicate DirDone(g: Grid, parent: seq<int>, u: RC, k: int)
    requires g.Valid() && |parent| == |g.cells| && g.Inside(u) && 0 <= k < 4
  {
    g.Inside(Nbr(u, k)) && g.Get(Nbr(u, k)) == Passage ==> parent[g.Index(Nbr(u, k))] != UNSET
  }

  /** Every discovered cell that has left the stack, other than `skip`, is expanded. */
  ghost predicate Closed(g: Grid, parent: seq<int>, order: seq<int>, front: seq<int>, skip: int)
    requires g.Valid() && |parent| == |g.cells|
    requires forall k :: 0 <= k < |order| ==> 0 <= order[k] < |g.cells|
  {
    forall k :: 0 <= k < |order| && order[k] !in front && order[k] != skip ==>
      Expanded(g, parent, g.At(order[k]))
  }

  /** The search bookkeeping, with `skip` the one popped cell whose scan may be unfinished. */
  ghost predicate State(g: Grid, start: RC, gm: Grid, parent: seq<int>, st: Stack,
                        order: seq<int>, front: seq<int>, rank: seq<nat>, skip: int)
    requires g.Valid() && g.Inside(start)
  {
    && |parent| == |g.cells|
    && Discovery(parent, order)
    && Ranked(g, order, rank)
    && Tree(g, parent, rank, g.Index(start))
    && Stacked(g, st, order, front)
    && Marked(g, gm, order, front)
    && Closed(g, parent, order, front, skip)
  }

  /** What holds at the head of the search loop: every popped cell is expanded. */
  ghost predicate Inv(g: Grid, start: RC, gm: Grid, parent: seq<int>, st: Stack,
                      order: seq<int>, front: seq<int>, rank: seq<nat>)
    requires g.Valid() && g.Inside(start)
  {
    State(g, start, gm, parent, st, order, front, rank, UNSET)
  }

  /** What holds while the popped cell `ci` is scanned in the shuffled direction order
      `dirs`: the directions before position `i` are done. */
  ghost predicate Scanning(g: Grid, start: RC, gm: Grid, parent: seq<int>, st: Stack,
                           order: seq<int>, front: seq<int>, rank: seq<nat>, ci: int,
                           dirs: seq<int>, i: int)
    requires g.Valid() && g.Inside(start)
  {
    && State(g, start, gm, parent, st, order, front, rank, ci)
    && 0 <= ci < |g.cells| && ci in order && ci !in front
    && |dirs| == 4 && (forall j :: 0 <= j < 4 ==> 0 <= dirs[j] < 4)
    && (forall k :: 0 <= k < 4 ==> k in dirs)
    && 0 <= i <= 4
    && forall j :: 0 <= j < i ==> DirDone(g, parent, g.At(ci), dirs[j])
  }

  /** What the loop's termination rests on: a pop removes a stack entry, and a push
      discovers a cell as it adds one. */
  ghost function Measure(g: Grid, order: seq<int>, front: seq<int>): int {
    2 * (|g.cells| - |order|) + |front|
  }

  /** A shuffle of the four directions lists each direction once. */
  lemma Directions(dirs: seq<int>)
    requires multiset(dirs) == multiset([0, 1, 2, 3])
    ensures |dirs| == 4
    ensures forall j :: 0 <= j < 4 ==> 0 <= dirs[j] < 4
    ensures forall k :: 0 <= k < 4 ==> k in dirs
  {
    assert |dirs| == |multiset(dirs)|;
    forall j | 0 <= j < 4
      ensures 0 <= dirs[j] < 4
    {
      ShuffleKeepsMembers([0, 1, 2, 3], dirs, dirs[j]);
    }
    forall k | 0 <= k < 4
      ensures k in dirs
    {
      ShuffleKeepsMembers([0, 1, 2, 3], dirs, k);
      assert [0, 1, 2, 3][k] == k;
    }
  }

  /** A clear mark means an undiscovered cell, so the solver's `parent == -1` test on a
      cell it is about to push always succeeds and no parent entry is overwritten. */
  lemma Unmarked(g: Grid, gm: Grid, parent: seq<int>, order: seq<int>, front: seq<int>, i: int)
    requires g.Valid() && |parent| == |g.cells| && Discovery(parent, order)
    requires Marked(g, gm, order, front) && 0 <= i < |g.cells|
    ensures gm.marks[i] == NONE <==> parent[i] == UNSET
  {
  }

  /** The stack never holds more entries than there are discovered cells, so a push never
      meets a full stack. */
  lemma StackRoom(g: Grid, parent: seq<int>, st: Stack, order: seq<int>, front: seq<int>)
    requires g.Valid() && |parent| == |g.cells| && Discovery(parent, order)
    requires Stacked(g, st, order, front)
    ensures |st.Contents()| <= |order| <= |g.cells| < st.cap
  {
    DistinctWithin(front, order);
    DiscoveryBound(parent, order);
  }

  /** Discovering more cells leaves an expanded cell expanded and a done direction done. */
  lemma ExpandedGrow(g: Grid, parent: seq<int>, u: RC, i: int, p: int)
    requires g.Valid() && |parent| == |g.cells| && g.Inside(u) && 0 <= i < |parent| && p != UNSET
    ensures Expanded(g, parent, u) ==> Expanded(g, parent[i := p], u)
    ensures forall k :: 0 <= k < 4 && DirDone(g, parent, u, k) ==> DirDone(g, parent[i := p], u, k)
  {
    var parent' := parent[i := p];
    if Expanded(g, parent, u) {
      forall k | 0 <= k < 4 && g.Inside(Nbr(u, k)) && g.Get(Nbr(u, k)) == Passage
        ensures parent'[g.Index(Nbr(u, k))] != UNSET
      {
      }
    }
  }

  /** Discovery of `ni` from `ci`: the parent map stays a tree ranked by discovery order. */
  lemma DiscoverTree(g: Grid, parent: seq<int>, rank: seq<nat>, order: seq<int>, s: int, ci: int, ni: int)
    requires g.Valid() && |parent| == |g.cells| && Discovery(parent, order)
    requires Ranked(g, order, rank) && Tree(g, parent, rank, s)
    requires 0 <= ci < |g.cells| && ci in order
    requires 0 <= ni < |g.cells| && parent[ni] == UNSET && g.cells[ni] == Passage
    requires Adjacent(g.At(ci), g.At(ni))
    ensures Discovery(parent[ni := ci], order + [ni])
    ensures Ranked(g, order + [ni], rank[ni := |order|])
    ensures Tree(g, parent[ni := ci], rank[ni := |order|], s)
  {
    DiscoverKeeps(parent, order, ni, ci);
    assert ni !in order;
    TreeGrow(g, parent, rank, s, ni, ci, |order|);
  }

  /** Discovery of the cell `n` at `ni`: it goes on top of a stack with room to spare. */
  lemma DiscoverStack(g: Grid, parent: seq<int>, st: Stack, order: seq<int>, front: seq<int>, n: RC, ni: int)
    requires g.Valid() && |parent| == |g.cells| && Discovery(parent, order)
    requires Stacked(g, st, order, front)
    requires g.Inside(n) && ni == g.Index(n) && parent[ni] == UNSET
    ensures |st.Contents()| < st.cap
    ensures Stacked(g, StackPush(st, n), order + [ni], front + [ni])
  {
    StackRoom(g, parent, st, order, front);
    assert ni !in order;
    var front' := front + [ni];
    assert Distinct(front') by {
      forall j, k | 0 <= j < k < |front'|
        ensures front'[j] != front'[k]
      {
        if k < |front| {
          assert front'[j] == front[j] && front'[k] == front[k];
        } else {
          assert front'[j] == front[j];
        }
      }
    }
    assert Coords(g, front') == Coords(g, front) + [n];
  }

  /** Discovery of the cell `n` at `ni`: its mark turns from nothing to FRONT. */
  lemma DiscoverMarked(g: Grid, gm: Grid, order: seq<int>, front: seq<int>, n: RC, ni: int)
    requires g.Valid() && Marked(g, gm, order, front)
    requires g.Inside(n) && ni == g.Index(n) && ni !in order
    requires forall k :: 0 <= k < |front| ==> front[k] in order
    ensures Marked(g, gm.MarkOr(n, FRONT), order + [ni], front + [ni])
  {
    var gm' := gm.MarkOr(n, FRONT);
    MarksElsewhere(gm, gm', n);
    assert gm.MarkGet(n) == NONE;
    assert ni !in front;
  }

  /** Discovery of `ni` in direction `dirs[i]` of the popped cell: that direction is done
      and every earlier fact about expanded cells survives. */
  lemma DiscoverClosed(g: Grid, parent: seq<int>, order: seq<int>, front: seq<int>, ci: int,
                       dirs: seq<int>, i: int, ni: int)
    requires g.Valid() && |parent| == |g.cells| && 0 <= ci < |g.cells|
    requires forall k :: 0 <= k < |order| ==> 0 <= order[k] < |g.cells|
    requires Closed(g, parent, order, front, ci)
    requires |dirs| == 4 && (forall j :: 0 <= j < 4 ==> 0 <= dirs[j] < 4) && 0 <= i < 4
    requires forall j :: 0 <= j < i ==> DirDone(g, parent, g.At(ci), dirs[j])
    requires g.Inside(Nbr(g.At(ci), dirs[i])) && ni == g.Index(Nbr(g.At(ci), dirs[i]))
    ensures Closed(g, parent[ni := ci], order + [ni], front + [ni], ci)
    ensures forall j :: 0 <= j < i + 1 ==> DirDone(g, parent[ni := ci], g.At(ci), dirs[j])
  {
    var parent', order', front' := parent[ni := ci], order + [ni], front + [ni];
    ExpandedGrow(g, parent, g.At(ci), ni, ci);
    forall k | 0 <= k < |order'| && order'[k] !in front' && order'[k] != ci
      ensures Expanded(g, parent', g.At(order'[k]))
    {
      assert k < |order| && order'[k] == order[k];
      ExpandedGrow(g, parent, g.At(order[k]), ni, ci);
    }
  }

  /** One direction whose neighbour is an open cell with a clear mark: the neighbour is
      discovered, gets the popped cell as parent, is pushed and marked FRONT. */
  lemma DiscoverStep(g: Grid, start: RC, gm: Grid, parent: seq<int>, st: Stack, order: seq<int>,
                     front: seq<int>, rank: seq<nat>, ci: int, dirs: seq<int>, i: int, n: RC)
    requires g.Valid() && g.Inside(start)
    requires Scanning(g, start, gm, parent, st, order, front, rank, ci, dirs, i) && i < 4
    requires n == Nbr(g.At(ci), dirs[i]) && g.Inside(n) && g.Get(n) == Passage && gm.MarkGet(n) == NONE
    ensures parent[g.Index(n)] == UNSET && |st.Contents()| < st.cap
    ensures Scanning(g, start, gm.MarkOr(n, FRONT), parent[g.Index(n) := ci], StackPush(st, n),
                     order + [g.Index(n)], front + [g.Index(n)], rank[g.Index(n) := |order|], ci, dirs, i + 1)
  {
    var ni := g.Index(n);
    Unmarked(g, gm, parent, order, front, ni);
    NbrAdjacent(g.At(ci), dirs[i]);
    DiscoverTree(g, parent, rank, order, g.Index(start), ci, ni);
    DiscoverStack(g, parent, st, order, front, n, ni);
    DiscoverMarked(g, gm, order, front, n, ni);
    DiscoverClosed(g, parent, order, front, ci, dirs, i, ni);
  }

  /** One direction whose neighbour is off the grid, a wall, or already marked: nothing
      changes, and that direction is done. */
  lemma SkipStep(g: Grid, start: RC, gm: Grid, parent: seq<int>, st: Stack, order: seq<int>,
                 front: seq<int>, rank: seq<nat>, ci: int, dirs: seq<int>, i: int, n: RC)
    requires g.Valid() && g.Inside(start)
    requires Scanning(g, start, gm, parent, st, order, front, rank, ci, dirs, i) && i < 4
    requires n == Nbr(g.At(ci), dirs[i])
    requires !(g.Inside(n) && g.Get(n) == Passage && gm.MarkGet(n) == NONE)
    ensures Scanning(g, start, gm, parent, st, order, front, rank, ci, dirs, i + 1)
  {
    if g.Inside(n) && g.Get(n) == Passage {
      Unmarked(g, gm, parent, order, front, g.Index(n));
    }
  }

  /** After all four directions the popped cell is expanded, so the loop invariant holds
      again. */
  lemma ScanDone(g: Grid, start: RC, gm: Grid, parent: seq<int>, st: Stack, order: seq<int>,
                 front: seq<int>, rank: seq<nat>, ci: int, dirs: seq<int>)
    requires g.Valid() && g.Inside(start)
    requires Scanning(g, start, gm, parent, st, order, front, rank, ci, dirs, 4)
    ensures Inv(g, start, gm, parent, st, order, front, rank)
    ensures Expanded(g, parent, g.At(ci))
  {
    var u := g.At(ci);
    forall k | 0 <= k < 4 && g.Inside(Nbr(u, k)) && g.Get(Nbr(u, k)) == Passage
      ensures parent[g.Index(Nbr(u, k))] != UNSET
    {
      assert k in dirs;
      var j :| 0 <= j < 4 && dirs[j] == k;
      assert DirDone(g, parent, u, dirs[j]);
    }
    assert Expanded(g, parent, u);
  }

  /** The marks of a search state are shaded. */
  lemma MarkedShaded(g: Grid, gm: Grid, parent: seq<int>, order: seq<int>, front: seq<int>)
    requires g.Valid() && |parent| == |g.cells| && Discovery(parent, order)
    requires Marked(g, gm, order, front)
    ensures Shaded(gm, parent)
  {
  }

  /** Popping the top cell `ci`: it leaves the stack, its mark turns to VISIT, and its scan
      is pending. */
  lemma PopCore(g: Grid, start: RC, gm: Grid, parent: seq<int>, st: Stack, order: seq<int>,
                front: seq<int>, rank: seq<nat>)
    requires g.Valid() && g.Inside(start)
    requires Inv(g, start, gm, parent, st, order, front, rank) && |front| > 0
    ensures st.top > 0 && StackPop(st).1 == g.At(front[|front| - 1])
    ensures front[|front| - 1] !in front[..|front| - 1]
    ensures State(g, start, Retire(gm, g.At(front[|front| - 1])), parent, StackPop(st).0,
                  order, front[..|front| - 1], rank, front[|front| - 1])
  {
    var ci := front[|front| - 1];
    var front' := front[..|front| - 1];
    PopStacked(g, st, order, front);
    PopMarked(g, gm, order, front, ci);
    PopClosed(g, parent, order, front, ci);
  }

  lemma PopStacked(g: Grid, st: Stack, order: seq<int>, front: seq<int>)
    requires g.Valid() && Stacked(g, st, order, front) && |front| > 0
    ensures st.top > 0 && StackPop(st).1 == g.At(front[|front| - 1])
    ensures front == front[..|front| - 1] + [front[|front| - 1]]
    ensures front[|front| - 1] !in front[..|front| - 1]
    ensures Stacked(g, StackPop(st).0, order, front[..|front| - 1])
  {
    var ci := front[|front| - 1];
    var front' := front[..|front| - 1];
    assert front == front' + [ci];
    assert st.Contents() == StackPop(st).0.Contents() + [StackPop(st).1];
    assert Coords(g, front) == Coords(g, front') + [g.At(ci)];
    forall k | 0 <= k < |front'|
      ensures front'[k] != ci
    {
      assert front[k] != front[|front| - 1];
    }
  }

  lemma PopClosed(g: Grid, parent: seq<int>, order: seq<int>, front: seq<int>, ci: int)
    requires g.Valid() && |parent| == |g.cells| && |front| > 0 && ci == front[|front| - 1]
    requires forall k :: 0 <= k < |order| ==> 0 <= order[k] < |g.cells|
    requires front == front[..|front| - 1] + [ci]
    requires Closed(g, parent, order, front, UNSET)
    ensures Closed(g, parent, order, front[..|front| - 1], ci)
  {
    var front' := front[..|front| - 1];
    forall k | 0 <= k < |order| && order[k] !in front' && order[k] != ci
      ensures Expanded(g, parent, g.At(order[k]))
    {
      assert order[k] !in front;
    }
  }

  lemma PopMarked(g: Grid, gm: Grid, order: seq<int>, front: seq<int>, ci: int)
    requires g.Valid() && Marked(g, gm, order, front) && |front| > 0 && ci == front[|front| - 1]
    requires 0 <= ci < |g.cells| && ci in order && ci !in front[..|front| - 1]
    requires front == front[..|front| - 1] + [ci]
    ensures Marked(g, Retire(gm, g.At(ci)), order, front[..|front| - 1])
  {
    var p := g.At(ci);
    g.IndexAt(ci);
    var gm' := Retire(gm, p);
    MarksElsewhere(gm, gm', p);
    assert gm.MarkGet(p) == FRONT;
  }

  /** A pop of the goal ends the search with the goal found. */
  lemma FoundGoal(g: Grid, start: RC, goal: RC, gm: Grid, parent: seq<int>, st: Stack,
                  order: seq<int>, front: seq<int>, rank: seq<nat>, ci: int)
    requires g.Valid() && g.Inside(start) && g.Inside(goal)
    requires State(g, start, gm, parent, st, order, front, rank, ci)
    requires 0 <= ci < |g.cells| && ci in order && g.At(ci) == goal
    ensures Searched(g, start, goal, gm, parent)
  {
    g.IndexAt(ci);
    AnsweredFound(g, start, goal, parent, rank);
    MarkedShaded(g, gm, parent, order, front);
  }

  /** The loop body's pop: the popped entry is the top frontier cell; popping the goal
      finishes the search, any other cell starts a scan. */
  lemma PopStep(g: Grid, start: RC, goal: RC, gm: Grid, parent: seq<int>, st: Stack,
                order: seq<int>, front: seq<int>, rank: seq<nat>)
    requires g.Valid() && g.Inside(start) && g.Inside(goal)
    requires Inv(g, start, gm, parent, st, order, front, rank) && !StackEmpty(st)
    ensures |front| > 0 && st.top > 0 && StackPop(st).1 == g.At(front[|front| - 1])
    ensures var ci := front[|front| - 1];
            && State(g, start, Retire(gm, g.At(ci)), parent, StackPop(st).0,
                     order, front[..|front| - 1], rank, ci)
            && 0 <= ci < |g.cells| && ci in order && ci !in front[..|front| - 1]
    ensures g.At(front[|front| - 1]) == goal ==>
              Searched(g, start, goal, Retire(gm, g.At(front[|front| - 1])), parent)
  {
    PopCore(g, start, gm, parent, st, order, front, rank);
    var ci := front[|front| - 1];
    if g.At(ci) == goal {
      FoundGoal(g, start, goal, Retire(gm, g.At(ci)), parent, StackPop(st).0,
                order, front[..|front| - 1], rank, ci);
    }
  }

  /** An empty stack ends the search: every discovered cell was expanded. */
  lemma Exhausted(g: Grid, start: RC, goal: RC, gm: Grid, parent: seq<int>, st: Stack,
                  order: seq<int>, front: seq<int>, rank: seq<nat>)
    requires g.Valid() && g.Inside(start) && g.Inside(goal)
    requires Inv(g, start, gm, parent, st, order, front, rank) && StackEmpty(st)
    ensures Searched(g, start, goal, gm, parent)
  {
    assert front == [];
    forall i | 0 <= i < |g.cells| && parent[i] != UNSET
      ensures Expanded(g, parent, g.At(i))
    {
      var k :| 0 <= k < |order| && order[k] == i;
    }
    AnsweredExhausted(g, start, goal, parent, rank);
    MarkedShaded(g, gm, parent, order, front);
  }

  /** The start state: the start cell alone is discovered, on the stack and marked FRONT. */
  lemma StartInv(g: Grid, start: RC, parent0: seq<int>)
    requires g.Valid() && g.Inside(start) && g.Get(start) == Passage
    requires |parent0| == |g.cells| && forall i :: 0 <= i < |g.cells| ==> parent0[i] == UNSET
    ensures var s := g.Index(start);
            Inv(g, start, g.ClearMarks().MarkOr(start, FRONT), parent0[s := ROOT],
                StackPush(StackCreate(|g.cells| + 5), start), [s], [s], seq(|g.cells|, _ => 0))
  {
    var s := g.Index(start);
    var parent := parent0[s := ROOT];
    StartTree(g, parent, s);
    assert Coords(g, [s]) == [start];
    var gm := g.ClearMarks();
    var gm' := gm.MarkOr(start, FRONT);
    MarksElsewhere(gm, gm', start);
    assert gm'.marks[s] == FRONT by {
      assert gm.MarkGet(start) == NONE;
    }
    forall i | 0 <= i < |g.cells| && i != s
      ensures gm.marks[i] == NONE
    {
      g.IndexAt(i);
      assert gm.MarkGet(g.At(i)) == NONE;
    }
  }

  /** `solve_dfs` followed by `reconstruct_and_mark`: whatever the draws, the parent map is
      a tree of routes home, the goal is found exactly when reachable, and the marks show
      discovered cells and the goal's route. */
  method SolveDfs(g: Grid, start: RC, goal: RC, rand: nat -> nat, pos: nat)
    returns (g': Grid, parent: seq<int>, next: nat)
    requires g.Valid() && g.Inside(start) && g.Inside(goal) && g.Get(start) == Passage
    ensures g'.Valid() && g'.rows == g.rows && g'.cols == g.cols && g'.cells == g.cells
    ensures Answered(g, start, goal, parent)
    ensures Painted(g', goal, parent)
    ensures pos <= next
  {
    var gm;
    gm, parent, next := Explore(g, start, goal, rand, pos);
    g' := Finish(g, start, goal, gm, parent);
  }

  /** The set-up of `solve_dfs`: clear parents and marks, push the start with itself as
      root, and mark it as frontier. */
  method Begin(g: Grid, start: RC)
    returns (gm: Grid, parent: seq<int>, st: Stack,
             ghost order: seq<int>, ghost front: seq<int>, ghost rank: seq<nat>)
    requires g.Valid() && g.Inside(start) && g.Get(start) == Passage
    ensures Inv(g, start, gm, parent, st, order, front, rank)
    ensures st.cap == |g.cells| + 5 && st.Contents() == [start]
    ensures parent[g.Index(start)] == ROOT
    ensures forall i :: 0 <= i < |parent| && i != g.Index(start) ==> parent[i] == UNSET
  {
    var n := g.rows * g.cols;
    parent := ParentInit(n);
    gm := g.ClearMarks();
    st := StackCreate(n + 5);
    st := StackPush(st, start);
    var s := g.Index(start);
    StartInv(g, start, parent);
    parent := parent[s := ROOT];
    gm := gm.MarkOr(start, FRONT);
    order, front, rank := [s], [s], seq(n, _ => 0);
  }

  /** The search loop of `solve_dfs`. */
  method Explore(g: Grid, start: RC, goal: RC, rand: nat -> nat, pos: nat)
    returns (gm: Grid, parent: seq<int>, next: nat)
    requires g.Valid() && g.Inside(start) && g.Inside(goal) && g.Get(start) == Passage
    ensures Searched(g, start, goal, gm, parent)
    ensures pos <= next
  {
    var st;
    ghost var order, front, rank;
    gm, parent, st, order, front, rank := Begin(g, start);
    next := pos;
    while !StackEmpty(st)
      invariant Inv(g, start, gm, parent, st, order, front, rank)
      invariant pos <= next
      decreases Measure(g, order, front)
    {
      DiscoveryBound(parent, order);
      var found;
      gm, parent, st, next, found, order, front, rank :=
        Round(g, start, goal, gm, parent, st, rand, next, order, front, rank);
      if found {
        return;
      }
    }
    Exhausted(g, start, goal, gm, parent, st, order, front, rank);
  }

  /** One round of the search loop: pop the top cell and mark it visited; stop if it is the
      goal, otherwise shuffle the four directions and scan them. */
  method Round(g: Grid, start: RC, goal: RC, gm: Grid, parent: seq<int>, st: Stack,
               rand: nat -> nat, next: nat, ghost order: seq<int>, ghost front: seq<int>, ghost rank: seq<nat>)
    returns (gm': Grid, parent': seq<int>, st': Stack, next': nat, found: bool,
             ghost order': seq<int>, ghost front': seq<int>, ghost rank': seq<nat>)
    requires g.Valid() && g.Inside(start) && g.Inside(goal)
    requires Inv(g, start, gm, parent, st, order, front, rank) && !StackEmpty(st)
    ensures found ==> Searched(g, start, goal, gm', parent') && next' == next
    ensures !found ==> Inv(g, start, gm', parent', st', order', front', rank')
    ensures !found ==> next' == next + 3
    ensures !found ==> 0 <= Measure(g, order', front') < Measure(g, order, front)
  {
    PopStep(g, start, goal, gm, parent, st, order, front, rank);
    ghost var ci := front[|front| - 1];
    var cur;
    st', cur := StackPop(st).0, StackPop(st).1;
    gm' := Retire(gm, cur);
    parent', next' := parent, next;
    order', front', rank' := order, front[..|front| - 1], rank;
    found := cur == goal;
    if !found {
      var dirs;
      dirs, next' := ShuffleInts([0, 1, 2, 3], rand, next);
      Directions(dirs);
      gm', parent', st', order', front', rank' :=
        Expand(g, start, gm', parent', st', cur, dirs, order', front', rank', ci);
    }
  }

  /** The neighbour scan of one popped cell, in the shuffled direction order `dirs`. */
  method Expand(g: Grid, start: RC, gm: Grid, parent: seq<int>, st: Stack, cur: RC, dirs: seq<int>,
                ghost order: seq<int>, ghost front: seq<int>, ghost rank: seq<nat>, ghost ci: int)
    returns (gm': Grid, parent': seq<int>, st': Stack,
             ghost order': seq<int>, ghost front': seq<int>, ghost rank': seq<nat>)
    requires g.Valid() && g.Inside(start)
    requires Scanning(g, start, gm, parent, st, order, front, rank, ci, dirs, 0) && cur == g.At(ci)
    ensures Inv(g, start, gm', parent', st', order', front', rank')
    ensures |order| <= |order'| <= |g.cells| && |front'| - |front| == |order'| - |order|
    ensures Keeps(parent, parent') && Expanded(g, parent', cur)
  {
    gm', parent', st', order', front', rank' := gm, parent, st, order, front, rank;
    g.IndexAt(ci);
    var i := 0;
    while i < 4
      invariant Scanning(g, start, gm', parent', st', order', front', rank', ci, dirs, i)
      invariant |order| <= |order'| && |front'| - |front| == |order'| - |order|
      invariant Keeps(parent, parent')
    {
      var n := Nbr(cur, dirs[i]);
      if g.Inside(n) && g.Get(n) == Passage && gm'.MarkGet(n) == NONE {
        var ni := g.Index(n);
        DiscoverStep(g, start, gm', parent', st', order', front', rank', ci, dirs, i, n);
        if parent'[ni] == UNSET {
          KeepsSet(parent, parent', ni, g.Index(cur));
          parent' := parent'[ni := g.Index(cur)];
        }
        st' := StackPush(st', n);
        gm' := gm'.MarkOr(n, FRONT);
        order', front', rank' := order' + [ni], front' + [ni], rank'[ni := |order'|];
      } else {
        SkipStep(g, start, gm', parent', st', order', front', rank', ci, dirs, i, n);
      }
      i := i + 1;
    }
    ScanDone(g, start, gm', parent', st', order', front', rank', ci, dirs);
    DiscoveryBound(parent', order');
  }
}
