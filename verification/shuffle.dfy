/** `shuffle_ints`: an in-place Fisher-Yates shuffle driven by `rand()`.
    The C library generator is replaced by an explicit stream `rand` read at
    position `pos`, so every property holds for every sequence of draws. */
module Shuffle {

  /** Walks `i` from `|arr| - 1` down to 1, swapping `arr[i]` with `arr[rand() % (i + 1)]`.
      Returns the shuffled sequence and the stream position after the last draw. */
  method ShuffleInts(arr: seq<int>, rand: nat -> nat, pos: nat) returns (res: seq<int>, next: nat)
    ensures multiset(res) == multiset(arr)
    ensures next == pos + (if |arr| > 0 then |arr| - 1 else 0)
  {
    res := arr;
    next := pos;
    var i := |arr| - 1;
    while i > 0
      invariant if |arr| == 0 then i == -1 else 0 <= i < |arr|
      invariant |res| == |arr|
      invariant multiset(res) == multiset(arr)
      invariant next == pos + (|arr| - 1 - i)
      decreases i
    {
      var j := rand(next) % (i + 1);
      var t := res[i];
      res := res[i := res[j]];
      res := res[j := t];
      i := i - 1;
      next := next + 1;
    }
  }

  /** Every element of the input survives the shuffle, so a shuffled list of directions
      still names each direction. */
  lemma ShuffleKeepsMembers(arr: seq<int>, res: seq<int>, x: int)
    requires multiset(res) == multiset(arr)
    ensures x in arr <==> x in res
  {
    assert x in arr <==> x in multiset(arr);
    assert x in res <==> x in multiset(res);
  }
}
