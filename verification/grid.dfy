/** The grid shared by the maze generator and the two solvers: a wall/passage
    plane and a mark plane, both stored flat in row-major order and addressed
    by `r * cols + c`. */
module Grid {

  /** One cell of the wall plane. The C code stores 1 for a wall and 0 for a passage. */
  datatype Cell = Wall | Passage

  /** The per-cell mark byte and its flag bits. */
  type Mark = bv8
  const NONE: Mark := 0
  const VISIT: Mark := 1
  const FRONT: Mark := 2
  const PATH: Mark := 4

  /** A (row, column) coordinate. */
  datatype RC = RC(r: int, c: int)

  /** Row/column offsets of the four orthogonal neighbours, in the solvers' scan order:
      up, down, left, right. */
  const Nbrs4: seq<(int, int)> := [(-1, 0), (1, 0), (0, -1), (0, 1)]

  /** The neighbour of `p` in direction `k`. */
  function Nbr(p: RC, k: int): (n: RC)
    requires 0 <= k < 4
  {
    RC(p.r + Nbrs4[k].0, p.c + Nbrs4[k].1)
  }

  /** `a` and `b` share a side. */
  predicate Adjacent(a: RC, b: RC) {
    || (a.r == b.r && (a.c - b.c == 1 || b.c - a.c == 1))
    || (a.c == b.c && (a.r - b.r == 1 || b.r - a.r == 1))
  }

  /** Adjacency is exactly "is one of the four neighbours"; the direction is the witness,
      and the only one. */
  function DirTo(a: RC, b: RC): (k: int)
    requires Adjacent(a, b)
    ensures 0 <= k < 4 && Nbr(a, k) == b
    ensures forall k' :: 0 <= k' < 4 && Nbr(a, k') == b ==> k' == k
  {
    if b.r == a.r - 1 then 0
    else if b.r == a.r + 1 then 1
    else if b.c == a.c - 1 then 2
    else 3
  }

  lemma NbrAdjacent(p: RC, k: int)
    requires 0 <= k < 4
    ensures Adjacent(p, Nbr(p, k)) && Adjacent(Nbr(p, k), p)
  {
  }

  /** Division facts for the flat index: `r * cols + c` splits back into `r` and `c`. */
  lemma DivModUnique(a: int, b: int, q: int, m: int)
    requires b > 0 && 0 <= m < b && a == q * b + m
    ensures a / b == q && a % b == m
  {
    var q', m' := a / b, a % b;
    assert a == q' * b + m';
    assert (q - q') * b == m' - m;
    if q > q' {
      MulAtLeast(q - q', b);
    } else if q < q' {
      MulAtLeast(q' - q, b);
    }
  }

  lemma MulAtLeast(x: int, b: int)
    requires x >= 1 && b > 0
    ensures x * b >= b
  {
  }

  lemma FlatIndex(rows: int, cols: int, r: int, c: int)
    requires 0 <= r < rows && 0 <= c < cols
    ensures 0 <= r * cols + c < rows * cols
    ensures (r * cols + c) / cols == r && (r * cols + c) % cols == c
  {
    assert r * cols <= (rows - 1) * cols by {
      MulMono(r, rows - 1, cols);
    }
    assert (rows - 1) * cols + cols == rows * cols;
    assert 0 <= r * cols;
    DivModUnique(r * cols + c, cols, r, c);
  }

  lemma MulMono(x: int, y: int, b: int)
    requires 0 <= x <= y && b >= 0
    ensures x * b <= y * b
  {
  }

  datatype Grid = Grid(rows: int, cols: int, cells: seq<Cell>, marks: seq<Mark>) {

    /** Both planes hold exactly one entry per cell. */
    predicate Valid() {
      rows > 0 && cols > 0 && |cells| == rows * cols && |marks| == rows * cols
    }

    /** `is_inside`: the coordinate names a cell of the grid. */
    predicate Inside(p: RC) {
      0 <= p.r < rows && 0 <= p.c < cols
    }

    /** The flat index `r * cols + c` of an inside coordinate. */
    function Index(p: RC): (i: int)
      requires Valid() && Inside(p)
      ensures 0 <= i < |cells| && i < |marks|
      ensures At(i) == p
    {
      FlatIndex(rows, cols, p.r, p.c);
      p.r * cols + p.c
    }

    /** The coordinate of a flat index: row `i / cols`, column `i % cols`. */
    function At(i: int): (p: RC)
      requires Valid() && 0 <= i < rows * cols
      ensures Inside(p) && p.r * cols + p.c == i
    {
      var p := RC(i / cols, i % cols);
      assert p.r < rows by {
        if p.r >= rows {
          MulMono(rows, p.r, cols);
        }
      }
      p
    }

    /** The coordinate of a flat index indexes back to it. */
    lemma IndexAt(i: int)
      requires Valid() && 0 <= i < rows * cols
      ensures Index(At(i)) == i
    {
    }

    /** `grid_get`. */
    function Get(p: RC): (v: Cell)
      requires Valid() && Inside(p)
    {
      cells[Index(p)]
    }

    /** `grid_set`: stores `v` at `p` and nowhere else. */
    function Set(p: RC, v: Cell): (g: Grid)
      requires Valid() && Inside(p)
      ensures g.Valid() && g.rows == rows && g.cols == cols && g.marks == marks
      ensures g.Get(p) == v
      ensures forall q :: Inside(q) && q != p ==> g.Get(q) == Get(q)
    {
      this.(cells := cells[Index(p) := v])
    }

    /** `mark_get`. */
    function MarkGet(p: RC): (m: Mark)
      requires Valid() && Inside(p)
    {
      marks[Index(p)]
    }

    /** `mark_or`: raises the bits of `v` at `p`; every other bit and cell keeps its value. */
    function MarkOr(p: RC, v: Mark): (g: Grid)
      requires Valid() && Inside(p)
      ensures g.Valid() && g.rows == rows && g.cols == cols && g.cells == cells
      ensures g.MarkGet(p) & v == v && g.MarkGet(p) & !v == MarkGet(p) & !v
      ensures forall q :: Inside(q) && q != p ==> g.MarkGet(q) == MarkGet(q)
    {
      this.(marks := marks[Index(p) := marks[Index(p)] | v])
    }

    /** `mark_andnot`: clears the bits of `v` at `p`; every other bit and cell keeps its value. */
    function MarkAndNot(p: RC, v: Mark): (g: Grid)
      requires Valid() && Inside(p)
      ensures g.Valid() && g.rows == rows && g.cols == cols && g.cells == cells
      ensures g.MarkGet(p) & v == 0 && g.MarkGet(p) & !v == MarkGet(p) & !v
      ensures forall q :: Inside(q) && q != p ==> g.MarkGet(q) == MarkGet(q)
    {
      this.(marks := marks[Index(p) := marks[Index(p)] & !v])
    }

    /** `mark_set`: overwrites the mark byte at `p` and nowhere else. */
    function MarkSet(p: RC, v: Mark): (g: Grid)
      requires Valid() && Inside(p)
      ensures g.Valid() && g.rows == rows && g.cols == cols && g.cells == cells
      ensures g.MarkGet(p) == v
      ensures forall q :: Inside(q) && q != p ==> g.MarkGet(q) == MarkGet(q)
    {
      this.(marks := marks[Index(p) := v])
    }

    /** The `memset(g->marks, M_NONE, rows*cols)` every solver starts with. */
    function ClearMarks(): (g: Grid)
      requires Valid()
      ensures g.Valid() && g.rows == rows && g.cols == cols && g.cells == cells
      ensures forall q :: Inside(q) ==> g.MarkGet(q) == NONE
    {
      this.(marks := seq(rows * cols, _ => NONE))
    }
  }

  /** `grid_init`: every cell a wall, every mark clear. */
  function GridInit(rows: int, cols: int): (g: Grid)
    requires rows > 0 && cols > 0
    ensures g.Valid() && g.rows == rows && g.cols == cols
    ensures forall p :: g.Inside(p) ==> g.Get(p) == Wall && g.MarkGet(p) == NONE
  {
    MulMono(1, rows, cols);
    Grid(rows, cols, seq(rows * cols, _ => Wall), seq(rows * cols, _ => NONE))
  }

  /** A mark update that leaves every other coordinate alone leaves every other flat
      entry alone. */
  lemma MarksElsewhere(g: Grid, g': Grid, p: RC)
    requires g.Valid() && g'.Valid() && g'.rows == g.rows && g'.cols == g.cols && g.Inside(p)
    requires forall q :: g.Inside(q) && q != p ==> g'.MarkGet(q) == g.MarkGet(q)
    ensures forall i :: 0 <= i < |g.marks| && i != g.Index(p) ==> g'.marks[i] == g.marks[i]
  {
    forall i | 0 <= i < |g.marks| && i != g.Index(p)
      ensures g'.marks[i] == g.marks[i]
    {
      var q := g.At(i);
      g.IndexAt(i);
      assert g'.MarkGet(q) == g.MarkGet(q);
    }
  }

  /** A walk through passage cells, each step to a side neighbour. */
  ghost predicate PassagePath(g: Grid, p: seq<RC>)
    requires g.Valid()
  {
    && |p| > 0
    && (forall k :: 0 <= k < |p| ==> g.Inside(p[k]) && g.Get(p[k]) == Passage)
    && (forall k :: 0 < k < |p| ==> Adjacent(p[k - 1], p[k]))
  }

  /** `b` can be reached from `a` through passage cells. */
  ghost predicate Reachable(g: Grid, a: RC, b: RC)
    requires g.Valid()
  {
    exists p :: PassagePath(g, p) && p[0] == a && p[|p| - 1] == b
  }
}
