/**
 Population tallies of a grid (`type_count`), identical in both step variants.
 */
module Counting {
  import opened Grid

  /** The number of entries of s equal to v. */
  function Count(s: seq<int>, v: int): (c: nat)
    ensures c <= |s|
    decreases |s|
  {
    if |s| == 0 then 0
    else Count(s[..|s| - 1], v) + (if s[|s| - 1] == v then 1 else 0)
  }

  /** The positions of s holding v. */
  ghost function Positions(s: seq<int>, v: int): set<int> {
    set x | 0 <= x < |s| && s[x] == v
  }

  /** The tally agrees with the size of the set of positions holding v. */
  lemma {:induction false} CountIsCardinality(s: seq<int>, v: int)
    ensures Count(s, v) == |Positions(s, v)|
    decreases |s|
  {
    if |s| > 0 {
      var n := |s| - 1;
      CountIsCardinality(s[..n], v);
      assert Positions(s, v) == Positions(s[..n], v) + (if s[n] == v then {n} else {});
    }
  }

  /** Overwriting one entry moves at most one unit between two tallies. */
  lemma {:induction false} CountUpdate(s: seq<int>, x: int, w: int, v: int)
    requires 0 <= x < |s|
    ensures Count(s[x := w], v) == Count(s, v) - (if s[x] == v then 1 else 0) + (if w == v then 1 else 0)
    decreases |s|
  {
    var n := |s| - 1;
    if x < n {
      CountUpdate(s[..n], x, w, v);
      assert s[x := w][..n] == s[..n][x := w];
    } else {
      assert s[x := w][..n] == s[..n];
    }
  }

  /** Every cell holds exactly one of the four states, so the four tallies add up to the cell count. */
  lemma {:induction false} CountsPartition(s: seq<int>)
    requires forall x :: 0 <= x < |s| ==> IsState(s[x])
    ensures Count(s, NORMAL) + Count(s, CANCER) + Count(s, EFFECTOR) + Count(s, DEAD) == |s|
    decreases |s|
  {
    if |s| > 0 {
      CountsPartition(s[..|s| - 1]);
    }
  }

  /** A value that occurs nowhere has tally zero; a value that fills s has tally |s|. */
  lemma {:induction false} CountUniform(s: seq<int>, v: int, w: int)
    requires forall x :: 0 <= x < |s| ==> s[x] == w
    ensures Count(s, v) == (if v == w then |s| else 0)
    decreases |s|
  {
    if |s| > 0 {
      CountUniform(s[..|s| - 1], v, w);
    }
  }

  /** The four per-state tallies, indexed by state. */
  function TypeCounts(g: seq<int>): seq<int> {
    [Count(g, NORMAL), Count(g, CANCER), Count(g, EFFECTOR), Count(g, DEAD)]
  }

  /** `type_count`: tally each state over a row-major sweep. The sweep indexes
      the output by the cell's value, so every cell must hold a persisted state. */
  method TypeCount(g: seq<int>, N: int) returns (counts: seq<int>)
    requires ValidGrid(g, N)
    ensures |counts| == 4
    ensures forall s :: 0 <= s < 4 ==> counts[s] == Count(g, s)
    ensures counts[NORMAL] + counts[CANCER] + counts[EFFECTOR] + counts[DEAD] == N * N
  {
    var output := new int[4];
    var k := 0;
    while k < 4
      invariant 0 <= k <= 4
      invariant forall s :: 0 <= s < k ==> output[s] == 0
    {
      output[k] := 0;
      k := k + 1;
    }
    var id := 0;
    var i := 0;
    while i < N
      invariant 0 <= i <= N && id == N * i && id <= N * N
      invariant forall s :: 0 <= s < 4 ==> output[s] == Count(g[..id], s)
    {
      MulMono(N, i + 1, N);
      assert N * (i + 1) == N * i + N;
      var j := 0;
      while j < N
        invariant 0 <= j <= N && id == N * i + j && id <= N * N
        invariant forall s :: 0 <= s < 4 ==> output[s] == Count(g[..id], s)
      {
        IndexDecode(N, i, j);
        assert g[..id + 1][..id] == g[..id];
        assert forall s :: Count(g[..id + 1], s) == Count(g[..id], s) + (if g[id] == s then 1 else 0);
        output[g[id]] := output[g[id]] + 1;
        id := id + 1;
        j := j + 1;
      }
      assert N * (i + 1) == N * i + N;
      i := i + 1;
    }
    assert g[..id] == g;
    CountsPartition(g);
    counts := output[..];
  }
}
