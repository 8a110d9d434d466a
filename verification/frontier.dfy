/** The solvers' frontier containers: `Stack` (a fixed array with a top index that
    silently drops pushes when full) and `Queue` (a ring buffer with head and tail). */
module Frontier {
  import opened Grid

  /** `Stack`: `data` is the malloc'ed array of `cap` slots, `top` the fill level. */
  datatype Stack = Stack(data: seq<RC>, top: int, cap: int) {

    predicate Valid() {
      0 <= top <= cap && cap == |data|
    }

    /** The entries from bottom to top. */
    function Contents(): seq<RC>
      requires Valid()
    {
      data[..top]
    }
  }

  /** `stack_create`. The slots hold no entry yet; their initial value is never read. */
  function StackCreate(cap: nat): (s: Stack)
    ensures s.Valid() && s.cap == cap && s.Contents() == []
  {
    Stack(seq(cap, _ => RC(0, 0)), 0, cap)
  }

  /** `stack_push`: appends `v` when there is room and otherwise drops it without a trace. */
  function StackPush(s: Stack, v: RC): (s': Stack)
    requires s.Valid()
    ensures s'.Valid() && s'.cap == s.cap
    ensures |s.Contents()| < s.cap ==> s'.Contents() == s.Contents() + [v]
    ensures |s.Contents()| == s.cap ==> s'.Contents() == s.Contents()
  {
    if s.top < s.cap then Stack(s.data[s.top := v], s.top + 1, s.cap) else s
  }

  /** `stack_pop`: removes and returns the top entry. */
  function StackPop(s: Stack): (res: (Stack, RC))
    requires s.Valid() && s.top > 0
    ensures res.0.Valid() && res.0.cap == s.cap
    ensures s.Contents() == res.0.Contents() + [res.1]
  {
    (Stack(s.data, s.top - 1, s.cap), s.data[s.top - 1])
  }

  /** `stack_empty`. */
  function StackEmpty(s: Stack): (b: bool)
    requires s.Valid()
    ensures b <==> s.Contents() == []
  {
    s.top == 0
  }

  /** A pop undoes a push that found room. */
  lemma StackPushPop(s: Stack, v: RC)
    requires s.Valid() && s.top < s.cap
    ensures StackPush(s, v).top > 0
    ensures StackPop(StackPush(s, v)).1 == v
    ensures StackPop(StackPush(s, v)).0.Contents() == s.Contents()
  {
    var s' := StackPush(s, v);
    var (t, x) := StackPop(s');
    assert s'.Contents() == s.Contents() + [v];
    assert s'.Contents() == t.Contents() + [x];
    assert x == s'.Contents()[|s'.Contents()| - 1];
    assert t.Contents() == s'.Contents()[..|s'.Contents()| - 1];
  }

  /** `Queue`: the ring buffer of `cap` slots; `head` is the next slot to read and
      `tail` the next slot to write. */
  datatype Queue = Queue(data: seq<RC>, head: int, tail: int, cap: int) {

    predicate Valid() {
      0 < cap && cap == |data| && 0 <= head < cap && 0 <= tail < cap
    }

    /** The buffer holds exactly `s`, oldest first: the entries sit in the slots from
        `head` onward (wrapping), `tail` is the slot just past them, and there is at
        least one free slot, so no unread entry has been overwritten. */
    ghost predicate Holds(s: seq<RC>) {
      && Valid()
      && |s| < cap
      && tail == (head + |s|) % cap
      && forall k :: 0 <= k < |s| ==> data[(head + k) % cap] == s[k]
    }
  }

  /** `queue_create`. */
  function QueueCreate(cap: int): (q: Queue)
    requires cap > 0
    ensures q.cap == cap && q.Holds([])
  {
    Queue(seq(cap, _ => RC(0, 0)), 0, 0, cap)
  }

  /** `queue_push`: writes `v` at `tail` and advances `tail`, wrapping to 0 at `cap`. */
  function QueuePush(q: Queue, v: RC): (q': Queue)
    requires q.Valid()
    ensures q'.Valid() && q'.cap == q.cap && q'.head == q.head
  {
    var t := q.tail + 1;
    Queue(q.data[q.tail := v], q.head, if t >= q.cap then 0 else t, q.cap)
  }

  /** `queue_pop`: reads the entry at `head` and advances `head`, wrapping to 0 at `cap`. */
  function QueuePop(q: Queue): (res: (Queue, RC))
    requires q.Valid()
    ensures res.0.Valid() && res.0.cap == q.cap && res.0.tail == q.tail && res.0.data == q.data
  {
    var h := q.head + 1;
    (Queue(q.data, if h >= q.cap then 0 else h, q.tail, q.cap), q.data[q.head])
  }

  /** `queue_empty`. */
  function QueueEmpty(q: Queue): (b: bool) {
    q.head == q.tail
  }

  lemma ModStep(a: int, cap: int)
    requires cap > 0 && 0 <= a
    ensures (a + 1) % cap == if a % cap + 1 >= cap then 0 else a % cap + 1
  {
    var q, m := a / cap, a % cap;
    assert a == q * cap + m;
    if m + 1 < cap {
      DivModUnique(a + 1, cap, q, m + 1);
    } else {
      assert a + 1 == (q + 1) * cap + 0;
      DivModUnique(a + 1, cap, q + 1, 0);
    }
  }

  /** While a slot stays free, a push appends to the queue's contents. */
  lemma QueuePushHolds(q: Queue, s: seq<RC>, v: RC)
    requires q.Holds(s) && |s| + 1 < q.cap
    ensures QueuePush(q, v).Holds(s + [v])
  {
    var q' := QueuePush(q, v);
    var s' := s + [v];
    ModStep(q.head + |s|, q.cap);
    forall k | 0 <= k < |s'|
      ensures q'.data[(q.head + k) % q.cap] == s'[k]
    {
      if k < |s| {
        ModDistinct(q.head, k, |s|, q.cap);
      }
    }
  }

  /** Slots `head + j` and `head + k` differ while `j` and `k` are distinct positions
      within one lap of the buffer. */
  lemma ModDistinct(h: int, j: int, k: int, cap: int)
    requires 0 <= h < cap && 0 <= j < k < cap
    ensures (h + j) % cap != (h + k) % cap
  {
    var a, b := h + j, h + k;
    if a < cap {
      DivModUnique(a, cap, 0, a);
    } else {
      DivModUnique(a, cap, 1, a - cap);
    }
    if b < cap {
      DivModUnique(b, cap, 0, b);
    } else {
      DivModUnique(b, cap, 1, b - cap);
    }
  }

  /** A pop returns the oldest entry and leaves the rest in order. */
  lemma QueuePopHolds(q: Queue, s: seq<RC>)
    requires q.Holds(s) && |s| > 0
    ensures QueuePop(q).1 == s[0]
    ensures QueuePop(q).0.Holds(s[1..])
  {
    var h' := if q.head + 1 >= q.cap then 0 else q.head + 1;
    var q' := QueuePop(q).0;
    assert q' == Queue(q.data, h', q.tail, q.cap);
    DivModUnique(q.head + 0, q.cap, 0, q.head);
    assert q.data[(q.head + 0) % q.cap] == s[0];
    var rest := s[1..];
    forall k | 0 <= k < |rest|
      ensures q.data[(h' + k) % q.cap] == rest[k]
    {
      ModShift(q.head, k, q.cap);
      assert q.data[(q.head + (k + 1)) % q.cap] == s[k + 1];
    }
    ModShift(q.head, |s| - 1, q.cap);
  }

  lemma ModShift(h: int, k: int, cap: int)
    requires 0 <= h < cap && 0 <= k
    ensures ((if h + 1 >= cap then 0 else h + 1) + k) % cap == (h + (k + 1)) % cap
  {
    if h + 1 >= cap {
      var q, m := k / cap, k % cap;
      assert k == q * cap + m;
      assert h + (k + 1) == (q + 1) * cap + m;
      DivModUnique(h + (k + 1), cap, q + 1, m);
    }
  }

  /** `queue_empty` is exact while the queue keeps a free slot. */
  lemma QueueEmptyHolds(q: Queue, s: seq<RC>)
    requires q.Holds(s)
    ensures QueueEmpty(q) <==> |s| == 0
  {
    if |s| > 0 {
      DivModUnique(q.head + 0, q.cap, 0, q.head);
      ModDistinct(q.head, 0, |s|, q.cap);
    }
  }

  /** Why the solvers size the buffer above the number of cells: a push into the last
      free slot makes a non-empty queue report empty. */
  lemma QueueFullLooksEmpty(q: Queue, s: seq<RC>, v: RC)
    requires q.Holds(s) && |s| + 1 == q.cap
    ensures QueueEmpty(QueuePush(q, v))
  {
    ModStep(q.head + |s|, q.cap);
    DivModUnique(q.head + |s| + 1, q.cap, 1, q.head);
  }
}
