/** `generate_maze`: the iterative randomized backtracker. Rooms sit at odd
    (row, column); the cells between two rooms are the walls it may carve.
    One call of `Step` is one iteration of the carving loop. */
module MazeGen {
  import opened Grid
  import opened Counting

  /** Offsets from a room to the rooms two cells away: up, down, left, right. */
  const Dirs2: seq<(int, int)> := [(-2, 0), (2, 0), (0, -2), (0, 2)]

  /** The room two cells from `p` in direction `k`. */
  function Jump(p: RC, k: int): (n: RC)
    requires 0 <= k < 4
  {
    RC(p.r + Dirs2[k].0, p.c + Dirs2[k].1)
  }

  /** The wall cell between `p` and `Jump(p, k)`. */
  function Between(p: RC, k: int): (w: RC)
    requires 0 <= k < 4
  {
    RC(p.r + Dirs2[k].0 / 2, p.c + Dirs2[k].1 / 2)
  }

  /** The shape the input layer guarantees: both dimensions odd (and at least 3 here;
      the caller clamps them to at least 11). */
  predicate Shape(rows: int, cols: int) {
    rows >= 3 && cols >= 3 && rows % 2 == 1 && cols % 2 == 1
  }

  /** Strictly inside the border: the test a candidate room must pass. */
  predicate Interior(g: Grid, p: RC) {
    0 < p.r < g.rows - 1 && 0 < p.c < g.cols - 1
  }

  /** A room: odd row and odd column inside the border. */
  predicate IsRoom(g: Grid, p: RC) {
    Interior(g, p) && p.r % 2 == 1 && p.c % 2 == 1
  }

  predicate OnBorder(g: Grid, p: RC) {
    p.r == 0 || p.r == g.rows - 1 || p.c == 0 || p.c == g.cols - 1
  }

  /** The number of rooms, `(rows/2)*(cols/2)`: the size of the carving stack. */
  function MaxCells(rows: int, cols: int): (n: int) {
    (rows / 2) * (cols / 2)
  }

  /** The two cells a wall position lies between: its left and right neighbours in an
      odd row, its upper and lower neighbours otherwise. */
  function Ends(q: RC): (e: (RC, RC)) {
    if q.r % 2 == 1 then (RC(q.r, q.c - 1), RC(q.r, q.c + 1))
    else (RC(q.r - 1, q.c), RC(q.r + 1, q.c))
  }

  /** `q` is a wall position strictly inside the border with exactly one odd coordinate,
      so it lies directly between the two rooms `Ends(q)`. */
  predicate Connector(g: Grid, q: RC) {
    Interior(g, q) && (q.r % 2 == 1 <==> q.c % 2 == 0)
  }

  /** The carved walls: passage cells that are not rooms. */
  ghost function Carved(g: Grid): set<RC>
    requires g.Valid()
  {
    set r, c | 0 <= r < g.rows && 0 <= c < g.cols && !IsRoom(g, RC(r, c)) && g.Get(RC(r, c)) == Passage
      :: RC(r, c)
  }

  /** Every room, as the image of the room grid `(i, j) -> (2i+1, 2j+1)`. */
  ghost function RoomGrid(h: int, w: int): set<RC> {
    set i, j | 0 <= i < h && 0 <= j < w :: RC(2 * i + 1, 2 * j + 1)
  }

  ghost function RoomRow(i: int, w: int): set<RC> {
    set j | 0 <= j < w :: RC(2 * i + 1, 2 * j + 1)
  }

  lemma {:induction false} RoomRowSize(i: int, w: nat)
    ensures |RoomRow(i, w)| == w
  {
    if w > 0 {
      RoomRowSize(i, w - 1);
      assert RoomRow(i, w) == RoomRow(i, w - 1) + {RC(2 * i + 1, 2 * (w - 1) + 1)};
    }
  }

  /** There are `h * w` rooms in an `h` by `w` room grid. */
  lemma {:induction false} RoomGridSize(h: nat, w: nat)
    ensures |RoomGrid(h, w)| == h * w
  {
    if h > 0 {
      var h' := h - 1;
      RoomGridSize(h', w);
      RoomRowSize(h', w);
      RoomGridSplit(h', w);
      MulSucc(h', w);
    }
  }

  lemma MulSucc(h: int, w: int)
    ensures h * w + w == (h + 1) * w
  {
  }

  lemma RoomGridSplit(h: nat, w: nat)
    ensures RoomGrid(h + 1, w) == RoomGrid(h, w) + RoomRow(h, w)
    ensures |RoomGrid(h + 1, w)| == |RoomGrid(h, w)| + |RoomRow(h, w)|
  {
    var a, b := RoomGrid(h, w), RoomRow(h, w);
    RoomGridSub(h, w);
    RoomGridSuper(h, w);
    RoomRowApart(h, w);
    DisjointUnionSize(a, b);
  }

  lemma RoomGridSub(h: nat, w: nat)
    ensures RoomGrid(h + 1, w) <= RoomGrid(h, w) + RoomRow(h, w)
  {
    var all, a, b := RoomGrid(h + 1, w), RoomGrid(h, w), RoomRow(h, w);
    forall x | x in all
      ensures x in a + b
    {
      var i, j :| 0 <= i < h + 1 && 0 <= j < w && x == RC(2 * i + 1, 2 * j + 1);
      if i < h {
        assert x in a;
      } else {
        assert x in b;
      }
    }
  }

  lemma RoomGridSuper(h: nat, w: nat)
    ensures RoomGrid(h, w) + RoomRow(h, w) <= RoomGrid(h + 1, w)
  {
    var all, a, b := RoomGrid(h + 1, w), RoomGrid(h, w), RoomRow(h, w);
    forall x | x in a
      ensures x in all
    {
      var i, j :| 0 <= i < h && 0 <= j < w && x == RC(2 * i + 1, 2 * j + 1);
    }
    forall x | x in b
      ensures x in all
    {
      var j :| 0 <= j < w && x == RC(2 * h + 1, 2 * j + 1);
    }
  }

  lemma RoomRowApart(h: nat, w: nat)
    ensures RoomGrid(h, w) !! RoomRow(h, w)
  {
    var a, b := RoomGrid(h, w), RoomRow(h, w);
    forall x | x in a
      ensures x !in b
    {
      var i, j :| 0 <= i < h && 0 <= j < w && x == RC(2 * i + 1, 2 * j + 1);
    }
  }

  /** The rooms of a well-shaped grid are exactly the room grid. */
  lemma RoomsAreRoomGrid(g: Grid, p: RC)
    requires Shape(g.rows, g.cols)
    ensures IsRoom(g, p) <==> p in RoomGrid(g.rows / 2, g.cols / 2)
  {
    if IsRoom(g, p) {
      var i, j := p.r / 2, p.c / 2;
      assert p == RC(2 * i + 1, 2 * j + 1);
    }
  }

  /** At most `MaxCells` rooms can be visited, and fewer while a room is unvisited. */
  lemma VisitedBound(g: Grid, vis: set<RC>)
    requires Shape(g.rows, g.cols)
    requires forall q :: q in vis ==> IsRoom(g, q)
    ensures |vis| <= MaxCells(g.rows, g.cols)
    ensures (exists q :: IsRoom(g, q) && q !in vis) ==> |vis| < MaxCells(g.rows, g.cols)
  {
    var all := RoomGrid(g.rows / 2, g.cols / 2);
    RoomGridSize(g.rows / 2, g.cols / 2);
    forall q | q in vis
      ensures q in all
    {
      RoomsAreRoomGrid(g, q);
    }
    assert vis <= all;
    SubsetSize(vis, all);
    if exists q :: IsRoom(g, q) && q !in vis {
      var q :| IsRoom(g, q) && q !in vis;
      RoomsAreRoomGrid(g, q);
      assert vis < all;
    }
  }

  /** The candidate directions at `cur`, in scan order: rooms inside the border not yet visited. */
  function Choices(g: Grid, vis: set<RC>, cur: RC, i: int): (ch: seq<int>)
    requires 0 <= i <= 4
    ensures forall k :: k in ch <==> i <= k < 4 && Interior(g, Jump(cur, k)) && Jump(cur, k) !in vis
    ensures |ch| <= 4 - i
    decreases 4 - i
  {
    if i == 4 then []
    else
      var rest := Choices(g, vis, cur, i + 1);
      var n := Jump(cur, i);
      if Interior(g, n) && n !in vis then [i] + rest else rest
  }

  /** The carving state: the grid, the visited rooms (the C `vis` array), the stack of
      rooms, and the position in the random stream. */
  datatype Carver = Carver(g: Grid, vis: set<RC>, stack: seq<RC>, pos: nat)

  /** One iteration of the carving loop: from the room on top of the stack, pick an
      unvisited neighbouring room with `rand() % choices`, open the wall between, mark
      the room visited and push it; with no candidate, pop. A push consumes one draw,
      a pop none; a pop happens only when every neighbouring room is visited. */
  function Step(s: Carver, rand: nat -> nat): (s': Carver)
    requires s.g.Valid() && |s.stack| > 0 && IsRoom(s.g, s.stack[|s.stack| - 1])
    ensures s'.g.Valid() && s'.g.rows == s.g.rows && s'.g.cols == s.g.cols && s'.g.marks == s.g.marks
    ensures |s'.stack| == |s.stack| + 1 || |s'.stack| + 1 == |s.stack|
    ensures |s'.stack| == |s.stack| + 1 ==>
              && s'.pos == s.pos + 1
              && s'.stack[..|s.stack|] == s.stack
              && IsRoom(s.g, s'.stack[|s.stack|]) && s'.stack[|s.stack|] !in s.vis
              && s'.vis == s.vis + {s'.stack[|s.stack|]}
    ensures |s'.stack| + 1 == |s.stack| ==>
              && s'.pos == s.pos && s'.g == s.g && s'.vis == s.vis
              && s'.stack == s.stack[..|s'.stack|]
              && Closed(s.g, s.vis, s.stack[|s'.stack|])
  {
    var cur := s.stack[|s.stack| - 1];
    var ch := Choices(s.g, s.vis, cur, 0);
    if |ch| > 0 then
      var pick := ch[rand(s.pos) % |ch|];
      assert pick in ch;
      BetweenJoins(s.g, cur, pick);
      Push(s, cur, pick)
    else
      ChoicesNone(s.g, s.vis, cur);
      Carver(s.g, s.vis, s.stack[..|s.stack| - 1], s.pos)
  }

  /** No candidate direction means every neighbouring room inside the border is visited. */
  lemma ChoicesNone(g: Grid, vis: set<RC>, cur: RC)
    requires |Choices(g, vis, cur, 0)| == 0
    ensures Closed(g, vis, cur)
  {
    var ch := Choices(g, vis, cur, 0);
    forall k | 0 <= k < 4 && Interior(g, Jump(cur, k))
      ensures Jump(cur, k) in vis
    {
      assert k !in ch;
    }
  }

  /** The cell between a room and a neighbouring room inside the border is a wall
      position lying between exactly those two rooms. */
  lemma BetweenJoins(g: Grid, cur: RC, k: int)
    requires 0 <= k < 4 && IsRoom(g, cur) && Interior(g, Jump(cur, k))
    ensures IsRoom(g, Jump(cur, k))
    ensures g.Inside(Between(cur, k)) && !IsRoom(g, Between(cur, k)) && Connector(g, Between(cur, k))
    ensures Ends(Between(cur, k)) in {(cur, Jump(cur, k)), (Jump(cur, k), cur)}
    ensures Adjacent(cur, Between(cur, k)) && Adjacent(Between(cur, k), Jump(cur, k))
  {
  }

  /** A visited room off the stack has no unvisited neighbouring room. */
  ghost predicate Closed(g: Grid, vis: set<RC>, q: RC) {
    forall k :: 0 <= k < 4 && Interior(g, Jump(q, k)) ==> Jump(q, k) in vis
  }

  /** The grid shape and the visited set: rooms only, the first room among them. */
  ghost predicate Frame(s: Carver) {
    && s.g.Valid() && Shape(s.g.rows, s.g.cols)
    && RC(1, 1) in s.vis
    && (forall q :: q in s.vis ==> IsRoom(s.g, q))
  }

  /** The stack holds distinct visited rooms. */
  ghost predicate StackOk(s: Carver) {
    && (forall k :: 0 <= k < |s.stack| ==> s.stack[k] in s.vis)
    && (forall j, k :: 0 <= j < k < |s.stack| ==> s.stack[j] != s.stack[k])
    && |s.stack| <= |s.vis|
  }

  /** Every room is open, and every other open cell lies between two visited rooms. */
  ghost predicate Layout(s: Carver)
    requires s.g.Valid()
  {
    && (forall q :: IsRoom(s.g, q) ==> s.g.Get(q) == Passage)
    && (forall q :: s.g.Inside(q) && !IsRoom(s.g, q) && s.g.Get(q) == Passage ==>
          Connector(s.g, q) && Ends(q).0 in s.vis && Ends(q).1 in s.vis)
  }

  /** One carved wall per visited room after the first. */
  ghost predicate Counted(s: Carver)
    requires s.g.Valid()
  {
    |Carved(s.g)| + 1 == |s.vis|
  }

  /** Every visited room is reachable from the first room. */
  ghost predicate Connected(s: Carver)
    requires s.g.Valid()
  {
    forall q :: q in s.vis ==> Reachable(s.g, RC(1, 1), q)
  }

  /** Every visited room off the stack has no unvisited neighbouring room. */
  ghost predicate Finished(s: Carver) {
    forall q :: q in s.vis && q !in s.stack ==> Closed(s.g, s.vis, q)
  }

  /** Carved wall `q` is the only way between the two rooms it joins: every passage path
      from one to the other runs through it. */
  ghost predicate Bridge(g: Grid, q: RC)
    requires g.Valid()
  {
    forall p :: PassagePath(g, p) && p[0] == Ends(q).0 && p[|p| - 1] == Ends(q).1 ==> q in p
  }

  /** No cycle: every carved wall is a bridge. */
  ghost predicate Bridged(s: Carver)
    requires s.g.Valid()
  {
    forall q :: s.g.Inside(q) && !IsRoom(s.g, q) && s.g.Get(q) == Passage ==> Bridge(s.g, q)
  }

  /** What holds at the head of every carving iteration. */
  ghost predicate Inv(s: Carver) {
    Frame(s) && StackOk(s) && Layout(s) && Counted(s) && Connected(s) && Finished(s) && Bridged(s)
  }

  /** Membership in `Carved`, cell by cell. */
  lemma InCarved(g: Grid, q: RC)
    requires g.Valid()
    ensures q in Carved(g) <==> g.Inside(q) && !IsRoom(g, q) && g.Get(q) == Passage
  {
    if g.Inside(q) && !IsRoom(g, q) && g.Get(q) == Passage {
      assert q == RC(q.r, q.c);
    }
  }

  /** Opening a wall cell that is not a room carves exactly that cell. */
  lemma CarvedAfterOpen(g: Grid, w: RC)
    requires g.Valid() && g.Inside(w) && !IsRoom(g, w) && g.Get(w) == Wall
    ensures w !in Carved(g)
    ensures Carved(g.Set(w, Passage)) == Carved(g) + {w}
  {
    var g' := g.Set(w, Passage);
    InCarved(g, w);
    forall q | q in Carved(g')
      ensures q in Carved(g) + {w}
    {
      InCarved(g', q);
      InCarved(g, q);
    }
    forall q | q in Carved(g) + {w}
      ensures q in Carved(g')
    {
      InCarved(g', q);
      InCarved(g, q);
    }
  }

  /** Opening a cell keeps every passage path a passage path. */
  lemma OpenKeepsPath(g: Grid, w: RC, p: seq<RC>)
    requires g.Valid() && g.Inside(w) && PassagePath(g, p)
    ensures PassagePath(g.Set(w, Passage), p)
  {
    var g' := g.Set(w, Passage);
    forall k | 0 <= k < |p|
      ensures g'.Inside(p[k]) && g'.Get(p[k]) == Passage
    {
    }
  }

  lemma OpenKeepsReach(g: Grid, w: RC, a: RC, b: RC)
    requires g.Valid() && g.Inside(w) && Reachable(g, a, b)
    ensures Reachable(g.Set(w, Passage), a, b)
  {
    var p :| PassagePath(g, p) && p[0] == a && p[|p| - 1] == b;
    OpenKeepsPath(g, w, p);
  }

  /** Two more open steps extend a reachable cell's path. */
  lemma ReachExtend(g: Grid, a: RC, cur: RC, w: RC, n: RC)
    requires g.Valid() && Reachable(g, a, cur)
    requires g.Inside(w) && g.Get(w) == Passage && g.Inside(n) && g.Get(n) == Passage
    requires Adjacent(cur, w) && Adjacent(w, n)
    ensures Reachable(g, a, n)
  {
    var p :| PassagePath(g, p) && p[0] == a && p[|p| - 1] == cur;
    var p' := p + [w, n];
    forall k | 0 <= k < |p'|
      ensures g.Inside(p'[k]) && g.Get(p'[k]) == Passage
    {
      if k < |p| {
        assert p'[k] == p[k];
      }
    }
    forall k | 0 < k < |p'|
      ensures Adjacent(p'[k - 1], p'[k])
    {
      if k < |p| {
        assert p'[k - 1] == p[k - 1] && p'[k] == p[k];
      }
    }
    assert PassagePath(g, p');
  }

  /** The measure the carving loop decreases: each push visits a new room and each pop
      shrinks the stack. */
  function Measure(s: Carver): (m: int) {
    2 * (MaxCells(s.g.rows, s.g.cols) - |s.vis|) + |s.stack|
  }

  /** The state after carving from `cur` towards direction `k`. */
  function Push(s: Carver, cur: RC, k: int): (s': Carver)
    requires s.g.Valid() && 0 <= k < 4 && s.g.Inside(Between(cur, k))
  {
    Carver(s.g.Set(Between(cur, k), Passage), s.vis + {Jump(cur, k)}, s.stack + [Jump(cur, k)], s.pos + 1)
  }

  /** A push keeps the invariant. */
  lemma PushKeepsInv(s: Carver, cur: RC, k: int)
    requires Inv(s) && |s.stack| > 0 && cur == s.stack[|s.stack| - 1]
    requires 0 <= k < 4 && Interior(s.g, Jump(cur, k)) && Jump(cur, k) !in s.vis
    ensures s.g.Inside(Between(cur, k)) && Inv(Push(s, cur, k))
  {
    assert cur in s.vis;
    BetweenJoins(s.g, cur, k);
    PushKeepsFrame(s, cur, k);
    PushKeepsStack(s, cur, k);
    PushKeepsLayout(s, cur, k);
    PushOpensWall(s, cur, k);
    PushKeepsCounted(s, cur, k);
    PushKeepsConnected(s, cur, k);
    PushKeepsFinished(s, cur, k);
    PushKeepsBridged(s, cur, k);
  }

  lemma PushKeepsFrame(s: Carver, cur: RC, k: int)
    requires Frame(s) && 0 <= k < 4 && IsRoom(s.g, cur) && Interior(s.g, Jump(cur, k))
    ensures s.g.Inside(Between(cur, k)) && Frame(Push(s, cur, k))
  {
    BetweenJoins(s.g, cur, k);
  }

  lemma PushKeepsStack(s: Carver, cur: RC, k: int)
    requires s.g.Valid() && StackOk(s) && 0 <= k < 4 && s.g.Inside(Between(cur, k)) && Jump(cur, k) !in s.vis
    ensures StackOk(Push(s, cur, k))
  {
    var s' := Push(s, cur, k);
    forall j, l | 0 <= j < l < |s'.stack|
      ensures s'.stack[j] != s'.stack[l]
    {
      if l < |s.stack| {
        assert s'.stack[j] == s.stack[j] && s'.stack[l] == s.stack[l];
      } else {
        assert s'.stack[j] == s.stack[j];
      }
    }
    forall j | 0 <= j < |s'.stack|
      ensures s'.stack[j] in s'.vis
    {
      if j < |s.stack| {
        assert s'.stack[j] == s.stack[j];
      }
    }
  }

  /** The wall a push opens was still closed: an open non-room cell has both its rooms
      visited, and the room beyond this one is not. */
  lemma PushOpensWall(s: Carver, cur: RC, k: int)
    requires Frame(s) && Layout(s) && 0 <= k < 4 && IsRoom(s.g, cur) && Interior(s.g, Jump(cur, k))
    requires Jump(cur, k) !in s.vis
    ensures s.g.Inside(Between(cur, k)) && s.g.Get(Between(cur, k)) == Wall
  {
    BetweenJoins(s.g, cur, k);
  }

  lemma PushKeepsLayout(s: Carver, cur: RC, k: int)
    requires Frame(s) && Layout(s) && 0 <= k < 4 && cur in s.vis && Interior(s.g, Jump(cur, k))
    ensures s.g.Inside(Between(cur, k)) && Layout(Push(s, cur, k))
  {
    var g, n, w := s.g, Jump(cur, k), Between(cur, k);
    BetweenJoins(g, cur, k);
    var s' := Push(s, cur, k);
    var g' := s'.g;
    forall q | IsRoom(g', q)
      ensures g'.Get(q) == Passage
    {
      assert IsRoom(g, q);
    }
    forall q | g'.Inside(q) && !IsRoom(g', q) && g'.Get(q) == Passage
      ensures Connector(g', q) && Ends(q).0 in s'.vis && Ends(q).1 in s'.vis
    {
      if q != w {
        assert g.Get(q) == Passage;
      }
    }
  }

  lemma PushKeepsCounted(s: Carver, cur: RC, k: int)
    requires s.g.Valid() && Counted(s) && 0 <= k < 4 && Jump(cur, k) !in s.vis
    requires s.g.Inside(Between(cur, k)) && !IsRoom(s.g, Between(cur, k))
    requires s.g.Get(Between(cur, k)) == Wall
    ensures Counted(Push(s, cur, k))
  {
    CarvedAfterOpen(s.g, Between(cur, k));
  }

  lemma PushKeepsConnected(s: Carver, cur: RC, k: int)
    requires Frame(s) && Layout(s) && Connected(s) && 0 <= k < 4 && cur in s.vis
    requires Interior(s.g, Jump(cur, k))
    ensures s.g.Inside(Between(cur, k)) && Connected(Push(s, cur, k))
  {
    var g, n, w := s.g, Jump(cur, k), Between(cur, k);
    BetweenJoins(g, cur, k);
    var s' := Push(s, cur, k);
    var g' := s'.g;
    assert Reachable(g, RC(1, 1), cur);
    assert g'.Get(n) == Passage by {
      assert IsRoom(g, n);
    }
    forall q | q in s'.vis
      ensures Reachable(g', RC(1, 1), q)
    {
      if q == n {
        OpenKeepsReach(g, w, RC(1, 1), cur);
        ReachExtend(g', RC(1, 1), cur, w, n);
      } else {
        OpenKeepsReach(g, w, RC(1, 1), q);
      }
    }
  }

  lemma PushKeepsFinished(s: Carver, cur: RC, k: int)
    requires s.g.Valid() && Finished(s) && 0 <= k < 4 && s.g.Inside(Between(cur, k))
    ensures Finished(Push(s, cur, k))
  {
    var s' := Push(s, cur, k);
    forall q | q in s'.vis && q !in s'.stack
      ensures Closed(s'.g, s'.vis, q)
    {
      assert q !in s.stack;
      assert Closed(s.g, s.vis, q);
    }
  }

  /** Just after opening wall `w` from room `cur` towards the unvisited room `n`, the
      only open cells beside `w` are `cur` and `n`, and the only open cell beside `n` is `w`. */
  ghost predicate Exits(g: Grid, w: RC, n: RC, cur: RC)
    requires g.Valid()
  {
    && cur != w && cur != n && w != n
    && (forall x :: g.Inside(x) && g.Get(x) == Passage && Adjacent(w, x) ==> x == cur || x == n)
    && (forall x :: g.Inside(x) && g.Get(x) == Passage && Adjacent(n, x) ==> x == w)
  }

  lemma PathSuffix(g: Grid, p: seq<RC>, i: int)
    requires g.Valid() && PassagePath(g, p) && 0 <= i < |p|
    ensures PassagePath(g, p[i..])
  {
    var t := p[i..];
    forall k | 0 < k < |t|
      ensures Adjacent(t[k - 1], t[k])
    {
      assert t[k - 1] == p[i + k - 1] && t[k] == p[i + k];
    }
  }

  /** A path that starts at `w` or `n` and ends elsewhere first steps out through `cur`. */
  lemma {:induction false} Leave(g: Grid, w: RC, n: RC, cur: RC, p: seq<RC>) returns (j: int)
    requires g.Valid() && PassagePath(g, p) && Exits(g, w, n, cur)
    requires (p[0] == w || p[0] == n) && p[|p| - 1] != w && p[|p| - 1] != n
    ensures 0 < j < |p| && p[j] == cur
    decreases |p|
  {
    assert Adjacent(p[0], p[1]);
    if p[1] != w && p[1] != n {
      assert p[0] == w;
      j := 1;
    } else {
      PathSuffix(g, p, 1);
      var j' := Leave(g, w, n, cur, p[1..]);
      j := j' + 1;
    }
  }

  /** A passage path after opening `w` whose ends lie outside `{w, n}` can be cut down
      to a path that existed before: every excursion through `w` leaves from `cur` and
      comes back to it. */
  lemma {:induction false} Splice(g: Grid, w: RC, n: RC, cur: RC, p: seq<RC>) returns (p': seq<RC>)
    requires g.Valid() && g.Inside(w) && PassagePath(g.Set(w, Passage), p)
    requires Exits(g.Set(w, Passage), w, n, cur)
    requires p[0] != w && p[0] != n && p[|p| - 1] != w && p[|p| - 1] != n
    ensures PassagePath(g, p') && p'[0] == p[0] && p'[|p'| - 1] == p[|p| - 1]
    ensures forall x :: x in p' ==> x in p
    decreases |p|
  {
    var g' := g.Set(w, Passage);
    if |p| == 1 {
      assert g'.Get(p[0]) == Passage;
      p' := p;
    } else if p[1] != w && p[1] != n {
      PathSuffix(g', p, 1);
      var r := Splice(g, w, n, cur, p[1..]);
      SpliceCons(g, w, p, r);
      p' := [p[0]] + r;
    } else {
      var j := Detour(g', w, n, cur, p);
      p' := Splice(g, w, n, cur, p[j..]);
      forall x | x in p'
        ensures x in p
      {
        assert x in p[j..];
      }
    }
  }

  /** The first cell of a path after opening `w`, put in front of a path that existed
      before and starts at the second cell, gives a path that existed before. */
  lemma SpliceCons(g: Grid, w: RC, p: seq<RC>, r: seq<RC>)
    requires g.Valid() && g.Inside(w) && PassagePath(g.Set(w, Passage), p) && |p| > 1 && p[0] != w
    requires PassagePath(g, r) && r[0] == p[1] && forall x :: x in r ==> x in p[1..]
    ensures PassagePath(g, [p[0]] + r) && forall x :: x in [p[0]] + r ==> x in p
  {
    var g' := g.Set(w, Passage);
    var p' := [p[0]] + r;
    assert g.Get(p[0]) == Passage by {
      assert g'.Get(p[0]) == Passage;
    }
    assert Adjacent(p[0], p[1]);
    forall k | 0 < k < |p'|
      ensures Adjacent(p'[k - 1], p'[k])
    {
      if k > 1 {
        assert p'[k - 1] == r[k - 2] && p'[k] == r[k - 1];
      }
    }
    forall k | 0 <= k < |p'|
      ensures g.Inside(p'[k]) && g.Get(p'[k]) == Passage
    {
      if k > 0 {
        assert p'[k] == r[k - 1];
      }
    }
    forall x | x in p'
      ensures x in p
    {
      if x != p[0] {
        assert x in r;
        assert x in p[1..];
      }
    }
  }

  /** A path whose second cell is `w` or `n` starts at `cur`, steps into `w` and later
      comes back to `cur`: the rest of the path from there is again a path. */
  lemma Detour(g: Grid, w: RC, n: RC, cur: RC, p: seq<RC>) returns (j: int)
    requires g.Valid() && PassagePath(g, p) && Exits(g, w, n, cur)
    requires p[0] != w && p[0] != n && p[|p| - 1] != w && p[|p| - 1] != n
    requires |p| > 1 && (p[1] == w || p[1] == n)
    ensures 1 < j < |p| && p[j] == p[0] && PassagePath(g, p[j..])
  {
    assert Adjacent(p[0], p[1]);
    assert p[1] == w;
    assert p[0] == cur;
    PathSuffix(g, p, 1);
    var j' := Leave(g, w, n, cur, p[1..]);
    j := 1 + j';
    PathSuffix(g, p, j);
  }

  /** Opening the wall towards an unvisited room leaves `w` and `n` with no other open
      neighbours: the other two cells beside a wall position are never open, and an open
      cell beside an unvisited room would lie between it and a visited one. */
  lemma PushExits(s: Carver, cur: RC, k: int)
    requires Frame(s) && Layout(s) && 0 <= k < 4 && cur in s.vis && Interior(s.g, Jump(cur, k))
    requires Jump(cur, k) !in s.vis
    ensures s.g.Inside(Between(cur, k))
    ensures Exits(s.g.Set(Between(cur, k), Passage), Between(cur, k), Jump(cur, k), cur)
  {
    var g, n, w := s.g, Jump(cur, k), Between(cur, k);
    BetweenJoins(g, cur, k);
    var g' := g.Set(w, Passage);
    forall x | g'.Inside(x) && g'.Get(x) == Passage && Adjacent(w, x)
      ensures x == cur || x == n
    {
      if x != cur && x != n {
        assert x != w;
        assert g.Get(x) == Passage;
        BesideWall(g, cur, k, x);
      }
    }
    forall x | g'.Inside(x) && g'.Get(x) == Passage && Adjacent(n, x)
      ensures x == w
    {
      if x != w {
        assert g.Get(x) == Passage;
        BesideRoom(g, n, x);
      }
    }
  }

  /** The cells beside a wall position other than the two rooms it joins are neither
      rooms nor wall positions. */
  lemma BesideWall(g: Grid, cur: RC, k: int, x: RC)
    requires 0 <= k < 4 && IsRoom(g, cur) && Adjacent(Between(cur, k), x)
    requires x != cur && x != Jump(cur, k)
    ensures !IsRoom(g, x) && !Connector(g, x)
  {
  }

  /** A cell beside a room is a wall position between that room and another. */
  lemma BesideRoom(g: Grid, n: RC, x: RC)
    requires IsRoom(g, n) && Adjacent(n, x)
    ensures !IsRoom(g, x) && (Ends(x).0 == n || Ends(x).1 == n)
  {
  }

  /** The wall just opened is the only way between its two rooms, since its new room
      has no other open neighbour. */
  lemma NewBridge(g: Grid, w: RC, n: RC, cur: RC, p: seq<RC>)
    requires g.Valid() && PassagePath(g, p) && Exits(g, w, n, cur)
    requires (p[0] == cur && p[|p| - 1] == n) || (p[0] == n && p[|p| - 1] == cur)
    ensures w in p
  {
    if p[0] == n {
      assert Adjacent(n, p[1]);
      assert p[1] == w;
    } else {
      var m := |p| - 2;
      assert Adjacent(p[m], p[m + 1]);
      assert Adjacent(n, p[m]);
      assert p[m] == w;
    }
  }

  /** A push keeps every carved wall a bridge: paths through the new wall only make a
      round trip from `cur`, so cutting it out leaves a path that existed before. */
  lemma PushKeepsBridged(s: Carver, cur: RC, k: int)
    requires Frame(s) && Layout(s) && Bridged(s) && 0 <= k < 4 && cur in s.vis
    requires Interior(s.g, Jump(cur, k)) && Jump(cur, k) !in s.vis
    ensures s.g.Inside(Between(cur, k)) && Bridged(Push(s, cur, k))
  {
    var g, n, w := s.g, Jump(cur, k), Between(cur, k);
    BetweenJoins(g, cur, k);
    PushExits(s, cur, k);
    var g' := g.Set(w, Passage);
    assert Push(s, cur, k).g == g';
    forall q | g'.Inside(q) && !IsRoom(g', q) && g'.Get(q) == Passage
      ensures Bridge(g', q)
    {
      forall p | PassagePath(g', p) && p[0] == Ends(q).0 && p[|p| - 1] == Ends(q).1
        ensures q in p
      {
        if q == w {
          NewBridge(g', w, n, cur, p);
        } else {
          assert g.Get(q) == Passage;
          var a, b := Ends(q).0, Ends(q).1;
          assert a in s.vis && b in s.vis;
          assert IsRoom(g, a) && IsRoom(g, b);
          var p' := Splice(g, w, n, cur, p);
          assert Bridge(g, q);
          assert q in p';
        }
      }
    }
  }

  /** A pop keeps the invariant: the popped room has no unvisited neighbouring room. */
  lemma PopKeepsInv(s: Carver)
    requires Inv(s) && |s.stack| > 0
    requires Closed(s.g, s.vis, s.stack[|s.stack| - 1])
    ensures Inv(Carver(s.g, s.vis, s.stack[..|s.stack| - 1], s.pos))
  {
    var s' := Carver(s.g, s.vis, s.stack[..|s.stack| - 1], s.pos);
    PopKeepsStack(s);
    PopKeepsFinished(s);
    assert Frame(s') && Layout(s') && Counted(s') && Connected(s') && Bridged(s');
  }

  lemma PopKeepsStack(s: Carver)
    requires StackOk(s) && |s.stack| > 0
    ensures StackOk(Carver(s.g, s.vis, s.stack[..|s.stack| - 1], s.pos))
  {
  }

  lemma PopKeepsFinished(s: Carver)
    requires Finished(s) && |s.stack| > 0
    requires Closed(s.g, s.vis, s.stack[|s.stack| - 1])
    ensures Finished(Carver(s.g, s.vis, s.stack[..|s.stack| - 1], s.pos))
  {
    var cur := s.stack[|s.stack| - 1];
    var rest := s.stack[..|s.stack| - 1];
    assert s.stack == rest + [cur];
    forall q | q in s.vis && q !in rest
      ensures Closed(s.g, s.vis, q)
    {
      if q != cur {
        assert q !in s.stack;
      }
    }
  }

  /** One carving iteration keeps the invariant, decreases the measure, and never lets
      the stack outgrow its `MaxCells` slots. */
  lemma StepKeepsInv(s: Carver, rand: nat -> nat)
    requires Inv(s) && |s.stack| > 0
    ensures IsRoom(s.g, s.stack[|s.stack| - 1])
    ensures Inv(Step(s, rand))
    ensures 0 <= Measure(Step(s, rand)) < Measure(s)
    ensures |Step(s, rand).stack| <= MaxCells(s.g.rows, s.g.cols)
    ensures Step(s, rand).pos + |s.vis| == s.pos + |Step(s, rand).vis|
  {
    var cur := s.stack[|s.stack| - 1];
    assert cur in s.vis;
    StepInv(s, rand);
    var s' := Step(s, rand);
    StepMeasure(s, s');
  }

  lemma StepInv(s: Carver, rand: nat -> nat)
    requires Inv(s) && |s.stack| > 0 && IsRoom(s.g, s.stack[|s.stack| - 1])
    ensures Inv(Step(s, rand))
  {
    var cur := s.stack[|s.stack| - 1];
    assert cur in s.vis;
    var ch := Choices(s.g, s.vis, cur, 0);
    if |ch| > 0 {
      var pick := ch[rand(s.pos) % |ch|];
      assert pick in ch;
      PushKeepsInv(s, cur, pick);
      assert Step(s, rand) == Push(s, cur, pick);
    } else {
      ChoicesNone(s.g, s.vis, cur);
      PopKeepsInv(s);
    }
  }

  lemma StepMeasure(s: Carver, s': Carver)
    requires Frame(s) && Frame(s') && s'.g.rows == s.g.rows && s'.g.cols == s.g.cols
    requires StackOk(s')
    requires || (|s'.stack| == |s.stack| + 1 && s'.vis == s.vis + {s'.stack[|s.stack|]} && s'.stack[|s.stack|] !in s.vis)
             || (|s'.stack| + 1 == |s.stack| && s'.vis == s.vis)
    ensures 0 <= Measure(s') < Measure(s)
    ensures |s'.stack| <= MaxCells(s.g.rows, s.g.cols)
    ensures |s'.vis| == |s.vis| + (if |s'.stack| > |s.stack| then 1 else 0)
  {
    VisitedBound(s'.g, s'.vis);
  }

  /** When every visited room is closed, flood from the first room reaches every room:
      room `(2i+1, 2j+1)` is entered from its left neighbour, or from above in column 0. */
  lemma {:induction false} RoomVisited(g: Grid, vis: set<RC>, i: int, j: int)
    requires Shape(g.rows, g.cols) && RC(1, 1) in vis
    requires forall q :: q in vis ==> Closed(g, vis, q)
    requires 0 <= i < g.rows / 2 && 0 <= j < g.cols / 2
    ensures RC(2 * i + 1, 2 * j + 1) in vis
    decreases i + j
  {
    if j > 0 {
      RoomVisited(g, vis, i, j - 1);
      var q := RC(2 * i + 1, 2 * (j - 1) + 1);
      assert Closed(g, vis, q);
      assert Jump(q, 3) == RC(2 * i + 1, 2 * j + 1);
    } else if i > 0 {
      RoomVisited(g, vis, i - 1, j);
      var q := RC(2 * (i - 1) + 1, 2 * j + 1);
      assert Closed(g, vis, q);
      assert Jump(q, 1) == RC(2 * i + 1, 2 * j + 1);
    }
  }

  /** With the stack empty, every room has been visited, so exactly `MaxCells - 1` walls
      were carved and every room is reachable from the first. */
  lemma CarveDone(s: Carver)
    requires Inv(s) && |s.stack| == 0
    ensures forall q :: IsRoom(s.g, q) <==> q in s.vis
    ensures |Carved(s.g)| == MaxCells(s.g.rows, s.g.cols) - 1
    ensures forall q :: IsRoom(s.g, q) ==> Reachable(s.g, RC(1, 1), q)
  {
    var g := s.g;
    var all := RoomGrid(g.rows / 2, g.cols / 2);
    forall q | q in s.vis
      ensures Closed(g, s.vis, q)
    {
      assert q !in s.stack;
    }
    forall q | IsRoom(g, q)
      ensures q in s.vis
    {
      RoomVisited(g, s.vis, q.r / 2, q.c / 2);
      assert q == RC(2 * (q.r / 2) + 1, 2 * (q.c / 2) + 1);
    }
    forall q
      ensures q in s.vis <==> q in all
    {
      RoomsAreRoomGrid(g, q);
    }
    assert s.vis == all;
    RoomGridSize(g.rows / 2, g.cols / 2);
  }

  /** The grid after the two fill loops: rooms open, everything else wall. */
  ghost predicate RoomsOnly(g: Grid)
    requires g.Valid()
  {
    forall q :: g.Inside(q) ==> g.Get(q) == if IsRoom(g, q) then Passage else Wall
  }

  /** The carving loop starts in a state satisfying the invariant. */
  lemma InitInv(g: Grid, pos: nat)
    requires g.Valid() && Shape(g.rows, g.cols) && RoomsOnly(g)
    ensures Inv(Carver(g, {RC(1, 1)}, [RC(1, 1)], pos))
  {
    var s := Carver(g, {RC(1, 1)}, [RC(1, 1)], pos);
    assert IsRoom(g, RC(1, 1));
    forall q | q in Carved(g)
      ensures false
    {
      InCarved(g, q);
    }
    assert Carved(g) == {};
    assert PassagePath(g, [RC(1, 1)]);
  }

  /** The first fill loop of `generate_maze`: every cell becomes wall. */
  method FillWalls(g: Grid) returns (h: Grid)
    requires g.Valid()
    ensures h.Valid() && h.rows == g.rows && h.cols == g.cols && h.marks == g.marks
    ensures forall q :: h.Inside(q) ==> h.Get(q) == Wall
  {
    h := g;
    var r := 0;
    while r < g.rows
      invariant 0 <= r <= g.rows
      invariant h.Valid() && h.rows == g.rows && h.cols == g.cols && h.marks == g.marks
      invariant forall q :: h.Inside(q) && q.r < r ==> h.Get(q) == Wall
    {
      var c := 0;
      while c < g.cols
        invariant 0 <= c <= g.cols
        invariant h.Valid() && h.rows == g.rows && h.cols == g.cols && h.marks == g.marks
        invariant forall q :: h.Inside(q) && (q.r < r || (q.r == r && q.c < c)) ==> h.Get(q) == Wall
      {
        h := h.Set(RC(r, c), Wall);
        c := c + 1;
      }
      r := r + 1;
    }
  }

  /** The rooms strictly before `(r, c)` in row-major order are open; every other cell is wall. */
  ghost predicate OpenedUpTo(h: Grid, r: int, c: int)
    requires h.Valid()
  {
    forall q :: h.Inside(q) ==>
      h.Get(q) == if IsRoom(h, q) && (q.r < r || (q.r == r && q.c < c)) then Passage else Wall
  }

  lemma OpenStep(h: Grid, r: int, c: int)
    requires h.Valid() && Shape(h.rows, h.cols)
    requires 1 <= r < h.rows && r % 2 == 1 && 1 <= c < h.cols && c % 2 == 1
    requires OpenedUpTo(h, r, c)
    ensures OpenedUpTo(h.Set(RC(r, c), Passage), r, c + 2)
  {
    var h' := h.Set(RC(r, c), Passage);
    assert IsRoom(h, RC(r, c));
    forall q | h'.Inside(q)
      ensures h'.Get(q) == if IsRoom(h', q) && (q.r < r || (q.r == r && q.c < c + 2)) then Passage else Wall
    {
      if q != RC(r, c) {
        assert h'.Get(q) == h.Get(q);
        if q.r == r && q.c == c + 1 {
          assert !IsRoom(h, q);
        }
      }
    }
  }

  lemma OpenRowDone(h: Grid, r: int, c: int)
    requires h.Valid() && Shape(h.rows, h.cols)
    requires r % 2 == 1 && c >= h.cols
    requires OpenedUpTo(h, r, c)
    ensures OpenedUpTo(h, r + 2, 1)
  {
    forall q | h.Inside(q)
      ensures h.Get(q) == if IsRoom(h, q) && (q.r < r + 2 || (q.r == r + 2 && q.c < 1)) then Passage else Wall
    {
      if q.r == r + 1 {
        assert !IsRoom(h, q);
      }
    }
  }

  /** The second fill loop: every odd row and odd column, stepping by two, becomes passage.
      On an odd-sized all-wall grid that opens exactly the rooms. */
  method OpenRooms(g: Grid) returns (h: Grid)
    requires g.Valid() && Shape(g.rows, g.cols)
    requires forall q :: g.Inside(q) ==> g.Get(q) == Wall
    ensures h.Valid() && h.rows == g.rows && h.cols == g.cols && h.marks == g.marks
    ensures RoomsOnly(h)
  {
    h := g;
    var r := 1;
    while r < g.rows
      invariant 1 <= r <= g.rows && r % 2 == 1
      invariant h.Valid() && h.rows == g.rows && h.cols == g.cols && h.marks == g.marks
      invariant OpenedUpTo(h, r, 1)
    {
      h := OpenRow(h, r);
      OddStep(r, g.rows);
      r := r + 2;
    }
    OpenAll(h, r);
  }

  /** One pass of the inner fill loop: the rooms of row `r` become passage. */
  method OpenRow(h: Grid, r: int) returns (h': Grid)
    requires h.Valid() && Shape(h.rows, h.cols)
    requires 1 <= r < h.rows && r % 2 == 1 && OpenedUpTo(h, r, 1)
    ensures h'.Valid() && h'.rows == h.rows && h'.cols == h.cols && h'.marks == h.marks
    ensures OpenedUpTo(h', r + 2, 1)
  {
    h' := h;
    var c := 1;
    while c < h.cols
      invariant 1 <= c <= h.cols && c % 2 == 1
      invariant h'.Valid() && h'.rows == h.rows && h'.cols == h.cols && h'.marks == h.marks
      invariant OpenedUpTo(h', r, c)
    {
      OpenStep(h', r, c);
      h' := h'.Set(RC(r, c), Passage);
      OddStep(c, h.cols);
      c := c + 2;
    }
    OpenRowDone(h', r, c);
  }

  /** Stepping by two from one odd number below another odd bound stays within it. */
  lemma OddStep(c: int, n: int)
    requires c % 2 == 1 && n % 2 == 1 && c < n
    ensures c + 2 <= n && (c + 2) % 2 == 1
  {
    DivModUnique(c, 2, c / 2, 1);
    DivModUnique(n, 2, n / 2, 1);
    DivModUnique(c + 2, 2, c / 2 + 1, 1);
  }

  lemma OpenAll(h: Grid, r: int)
    requires h.Valid() && r >= h.rows && OpenedUpTo(h, r, 1)
    ensures RoomsOnly(h)
  {
    forall q | h.Inside(q)
      ensures h.Get(q) == if IsRoom(h, q) then Passage else Wall
    {
      assert q.r < r;
    }
  }


  /** The carving loop of `generate_maze`, from room (1, 1) until the stack empties. */
  method Carve(g: Grid, rand: nat -> nat, pos: nat) returns (g': Grid, next: nat)
    requires g.Valid() && Shape(g.rows, g.cols) && RoomsOnly(g)
    ensures g'.Valid() && g'.rows == g.rows && g'.cols == g.cols && g'.marks == g.marks
    ensures forall q :: IsRoom(g', q) ==> g'.Get(q) == Passage
    ensures forall q :: g'.Inside(q) && !IsRoom(g', q) && g'.Get(q) == Passage ==> Connector(g', q)
    ensures |Carved(g')| == MaxCells(g.rows, g.cols) - 1
    ensures forall q :: IsRoom(g', q) ==> Reachable(g', RC(1, 1), q)
    ensures forall q :: g'.Inside(q) && !IsRoom(g', q) && g'.Get(q) == Passage ==> Bridge(g', q)
    ensures next == pos + MaxCells(g.rows, g.cols) - 1
  {
    InitInv(g, pos);
    var s := Carver(g, {RC(1, 1)}, [RC(1, 1)], pos);
    while |s.stack| > 0
      invariant Inv(s) && s.g.rows == g.rows && s.g.cols == g.cols && s.g.marks == g.marks
      invariant |s.stack| <= MaxCells(g.rows, g.cols)
      invariant s.pos + 1 == pos + |s.vis|
      decreases Measure(s)
    {
      StepKeepsInv(s, rand);
      s := Step(s, rand);
    }
    CarveDone(s);
    g', next := s.g, s.pos;
  }

  /** `generate_maze`: fill every cell with wall, open every room, then carve from room
      (1, 1). The result is a perfect maze: the border is intact, every room is open,
      every other open cell lies between two rooms, exactly one wall per room after the
      first is carved, and every room is reachable from (1, 1). Each push draws once from
      the stream, so `MaxCells - 1` draws are consumed. No cycle: every carved wall is
      the only way between the two rooms it joins. */
  method GenerateMaze(g: Grid, rand: nat -> nat, pos: nat) returns (g': Grid, next: nat)
    requires g.Valid() && Shape(g.rows, g.cols)
    ensures g'.Valid() && g'.rows == g.rows && g'.cols == g.cols && g'.marks == g.marks
    ensures forall q :: g'.Inside(q) && OnBorder(g', q) ==> g'.Get(q) == Wall
    ensures forall q :: IsRoom(g', q) ==> g'.Get(q) == Passage
    ensures forall q :: g'.Inside(q) && !IsRoom(g', q) && g'.Get(q) == Passage ==> Connector(g', q)
    ensures |Carved(g')| == MaxCells(g.rows, g.cols) - 1
    ensures forall q :: IsRoom(g', q) ==> Reachable(g', RC(1, 1), q)
    ensures forall q :: g'.Inside(q) && !IsRoom(g', q) && g'.Get(q) == Passage ==> Bridge(g', q)
    ensures next == pos + MaxCells(g.rows, g.cols) - 1
  {
    var h := FillWalls(g);
    h := OpenRooms(h);
    g', next := Carve(h, rand, pos);
  }
}
