/**
 The automaton's grid: a side-N square stored row-major in a flat integer
 buffer, cell (i, j) at index N * i + j, and the von Neumann neighbour
 addressing shared by both step variants (`within`, `order_neighbours`).
 */
module Grid {
  import opened Results

  /** The four persisted cell states. */
  const NORMAL: int := 0
  const CANCER: int := 1
  const EFFECTOR: int := 2
  const DEAD: int := 3

  predicate IsState(v: int) {
    NORMAL <= v <= DEAD
  }

  /** A side-N grid whose every cell holds one of the four persisted states. */
  predicate ValidGrid(g: seq<int>, N: int) {
    N >= 1 && |g| == N * N && forall x :: 0 <= x < |g| ==> IsState(g[x])
  }

  /** `within`: (i, j) lies on the grid. */
  predicate Within(N: int, i: int, j: int) {
    0 <= i < N && 0 <= j < N
  }

  /** The coordinates one cell away from (i, j) in direction k:
      0 East (j + 1), 1 South (i + 1), 2 West (j - 1), 3 North (i - 1). */
  function Toward(i: int, j: int, k: int): (int, int)
    requires 0 <= k < 4
  {
    if k == 0 then (i, j + 1)
    else if k == 1 then (i + 1, j)
    else if k == 2 then (i, j - 1)
    else (i - 1, j)
  }

  /** The direction that leads back. */
  function Opposite(k: int): (r: int)
    requires 0 <= k < 4
    ensures 0 <= r < 4
  {
    (k + 2) % 4
  }

  /** Multiplication by a non-negative factor is monotone. */
  lemma {:induction false} MulMono(N: int, a: int, b: int)
    requires N >= 0
    ensures a <= b ==> N * a <= N * b
    decreases N
  {
    if N > 0 {
      MulMono(N - 1, a, b);
      assert N * a == (N - 1) * a + a;
      assert N * b == (N - 1) * b + b;
    }
  }

  /** Euclidean division by N recovers the quotient and remainder of n = N * q + r. */
  lemma DivModUnique(n: int, N: int, q: int, r: int)
    requires N > 0 && 0 <= r < N && n == N * q + r
    ensures n / N == q && n % N == r
  {
    var q', r' := n / N, n % N;
    assert n == N * q' + r' && 0 <= r' < N;
    MulMono(N, q + 1, q');
    MulMono(N, q' + 1, q);
    assert N * (q + 1) == N * q + N;
    assert N * (q' + 1) == N * q' + N;
  }

  /** Row i of the grid starts at N * i, and the next row N cells later, still within the grid. */
  lemma RowBounds(N: int, i: int)
    requires 0 <= i < N
    ensures N * (i + 1) == N * i + N && N * i + N <= N * N
  {
    MulMono(N, i + 1, N);
  }

  /** Row-major addressing is a bijection between on-grid coordinates and [0, N * N). */
  lemma IndexDecode(N: int, x: int, y: int)
    requires Within(N, x, y)
    ensures 0 <= N * x + y < N * N
    ensures (N * x + y) / N == x && (N * x + y) % N == y
  {
    MulMono(N, 0, x);
    MulMono(N, x, N - 1);
    assert N * (N - 1) + N == N * N;
    DivModUnique(N * x + y, N, x, y);
  }

  /** Every index of the buffer is the row-major image of an on-grid cell. */
  lemma CellOf(N: int, id: int)
    requires N >= 1 && 0 <= id < N * N
    ensures Within(N, id / N, id % N)
    ensures N * (id / N) + id % N == id
  {
    var q, r := id / N, id % N;
    assert id == N * q + r && 0 <= r < N;
    MulMono(N, N, q);
    MulMono(N, q + 1, 0);
    assert N * (q + 1) == N * q + N;
  }

  /** `order_neighbours`: the buffer index of the k-th neighbour of (i, j),
      or None (the source's NULL) when that cell is off the grid. The index
      decodes back to the neighbour's coordinates. */
  function Neighbour(N: int, i: int, j: int, k: int): (r: Option<nat>)
    requires 0 <= k < 4
    ensures r.Some? <==> Within(N, Toward(i, j, k).0, Toward(i, j, k).1)
    ensures r.Some? ==> r.value < N * N
    ensures r.Some? ==> (r.value / N, r.value % N) == Toward(i, j, k)
  {
    var (x, y) := Toward(i, j, k);
    if Within(N, x, y) then
      IndexDecode(N, x, y);
      Some(N * x + y)
    else
      None
  }

  /** Cell x is one of the (up to four) von Neumann neighbours of (i, j). */
  predicate IsNeighbour(N: int, i: int, j: int, x: int) {
    exists d :: 0 <= d < 4 && Neighbour(N, i, j, d) == Some(x)
  }

  /** Some neighbour of cell x holds `v` in grid g. */
  ghost predicate HasNeighbourHolding(g: seq<int>, N: int, x: int, v: int)
    requires N >= 1 && |g| == N * N
  {
    exists d :: 0 <= d < 4 && Neighbour(N, x / N, x % N, d).Some? && g[Neighbour(N, x / N, x % N, d).value] == v
  }

  /** The neighbour relation is symmetric: stepping back the opposite way returns to (i, j). */
  lemma NeighbourSymmetric(N: int, i: int, j: int, k: int)
    requires Within(N, i, j) && 0 <= k < 4
    requires Neighbour(N, i, j, k).Some?
    ensures Neighbour(N, Neighbour(N, i, j, k).value / N, Neighbour(N, i, j, k).value % N, Opposite(k))
            == Some(N * i + j)
  {
    var x := Neighbour(N, i, j, k).value;
    assert Toward(x / N, x % N, Opposite(k)) == (i, j);
  }

  /** Distinct directions name distinct cells, and none of them is (i, j) itself. */
  lemma NeighboursDistinct(N: int, i: int, j: int, k: int, k': int)
    requires Within(N, i, j) && 0 <= k < 4 && 0 <= k' < 4
    requires Neighbour(N, i, j, k).Some?
    ensures Neighbour(N, i, j, k).value != N * i + j
    ensures k != k' ==> Neighbour(N, i, j, k) != Neighbour(N, i, j, k')
  {
    IndexDecode(N, i, j);
  }

  /** The cells among directions 0 .. k-1 of (i, j) that hold `v`. */
  ghost function DirectionsHolding(g: seq<int>, N: int, i: int, j: int, k: int, v: int): set<int>
    requires |g| == N * N && 0 <= k <= 4
  {
    set d | 0 <= d < k && Neighbour(N, i, j, d).Some? && g[Neighbour(N, i, j, d).value] == v
  }

  /** The number of neighbours among directions 0 .. k-1 that hold `v`
      (the `neigh_n` / `neigh_c` tallies of the source). */
  function CountUpTo(g: seq<int>, N: int, i: int, j: int, k: int, v: int): (c: nat)
    requires |g| == N * N && 0 <= k <= 4
    ensures c <= k
    decreases k
  {
    if k == 0 then 0
    else
      var prev := CountUpTo(g, N, i, j, k - 1, v);
      if Neighbour(N, i, j, k - 1).Some? && g[Neighbour(N, i, j, k - 1).value] == v then prev + 1 else prev
  }

  /** Scanning one more direction adds it to the holding set exactly when its neighbour holds `v`. */
  lemma DirectionsHoldingStep(g: seq<int>, N: int, i: int, j: int, k: int, v: int)
    requires |g| == N * N && 0 < k <= 4
    ensures k - 1 !in DirectionsHolding(g, N, i, j, k - 1, v)
    ensures DirectionsHolding(g, N, i, j, k, v) ==
              DirectionsHolding(g, N, i, j, k - 1, v) +
              (if Neighbour(N, i, j, k - 1).Some? && g[Neighbour(N, i, j, k - 1).value] == v then {k - 1} else {})
  {
  }

  /** The tally counts exactly the scanned directions whose neighbour holds `v`. */
  lemma {:induction false} CountUpToCardinality(g: seq<int>, N: int, i: int, j: int, k: int, v: int)
    requires |g| == N * N && 0 <= k <= 4
    ensures CountUpTo(g, N, i, j, k, v) == |DirectionsHolding(g, N, i, j, k, v)|
    decreases k
  {
    if k > 0 {
      CountUpToCardinality(g, N, i, j, k - 1, v);
      DirectionsHoldingStep(g, N, i, j, k, v);
    }
  }

  /** The indices of the Normal neighbours among directions 0 .. k-1, in
      East, South, West, North order (the source's `norm_neighbours`). */
  function NormalsUpTo(g: seq<int>, N: int, i: int, j: int, k: int): (r: seq<nat>)
    requires |g| == N * N && 0 <= k <= 4
    ensures |r| == CountUpTo(g, N, i, j, k, NORMAL)
    ensures forall t :: 0 <= t < |r| ==> r[t] < |g| && g[r[t]] == NORMAL
    decreases k
  {
    if k == 0 then []
    else
      var prev := NormalsUpTo(g, N, i, j, k - 1);
      match Neighbour(N, i, j, k - 1)
      case Some(x) => if g[x] == NORMAL then prev + [x] else prev
      case None => prev
  }

  /** Cell x is a Normal neighbour of (i, j) reached by one of the directions 0 .. k-1. */
  predicate NormalNeighbourBefore(g: seq<int>, N: int, i: int, j: int, k: int, x: int)
    requires |g| == N * N
  {
    exists d :: 0 <= d < k && d < 4 && Neighbour(N, i, j, d) == Some(x) && g[x] == NORMAL
  }

  /** The Normal-neighbour list holds exactly the Normal cells found among the directions scanned. */
  lemma {:induction false} NormalsMembership(g: seq<int>, N: int, i: int, j: int, k: int, x: int)
    requires |g| == N * N && 0 <= k <= 4
    ensures x in NormalsUpTo(g, N, i, j, k) <==> NormalNeighbourBefore(g, N, i, j, k, x)
    decreases k
  {
    if k > 0 {
      NormalsMembership(g, N, i, j, k - 1, x);
      var nb := Neighbour(N, i, j, k - 1);
      if NormalNeighbourBefore(g, N, i, j, k, x) {
        var d :| 0 <= d < k && d < 4 && Neighbour(N, i, j, d) == Some(x) && g[x] == NORMAL;
        if d < k - 1 {
          assert NormalNeighbourBefore(g, N, i, j, k - 1, x);
        }
      }
      if NormalNeighbourBefore(g, N, i, j, k - 1, x) {
        var d :| 0 <= d < k - 1 && d < 4 && Neighbour(N, i, j, d) == Some(x) && g[x] == NORMAL;
        assert NormalNeighbourBefore(g, N, i, j, k, x);
      }
    }
  }

  /** All Normal neighbours of (i, j), in direction order. */
  function NormalNeighbours(g: seq<int>, N: int, i: int, j: int): seq<nat>
    requires |g| == N * N
  {
    NormalsUpTo(g, N, i, j, 4)
  }

  /** The place of a Normal neighbour in the E/S/W/N list of Normal neighbours. */
  lemma NormalPlace(g: seq<int>, N: int, i: int, j: int, x: int) returns (t: int)
    requires |g| == N * N && 0 <= x < |g| && g[x] == NORMAL && IsNeighbour(N, i, j, x)
    ensures 0 <= t < |NormalNeighbours(g, N, i, j)| && NormalNeighbours(g, N, i, j)[t] == x
  {
    NormalsMembership(g, N, i, j, 4, x);
    var normals := NormalNeighbours(g, N, i, j);
    t :| 0 <= t < |normals| && normals[t] == x;
  }

  /** The Normal-neighbour list grows only by appending: the list over the
      first k directions is a prefix of the list over the first k' directions. */
  lemma {:induction false} NormalsPrefix(g: seq<int>, N: int, i: int, j: int, k: int, k': int)
    requires |g| == N * N && 0 <= k <= k' <= 4
    ensures NormalsUpTo(g, N, i, j, k) <= NormalsUpTo(g, N, i, j, k')
    decreases k' - k
  {
    if k < k' {
      NormalsPrefix(g, N, i, j, k, k' - 1);
    }
  }

  /** Two different values are never held by the same neighbour, so their tallies add up to at most k. */
  lemma {:induction false} CountsDisjoint(g: seq<int>, N: int, i: int, j: int, k: int, v: int, w: int)
    requires |g| == N * N && 0 <= k <= 4 && v != w
    ensures CountUpTo(g, N, i, j, k, v) + CountUpTo(g, N, i, j, k, w) <= k
    decreases k
  {
    if k > 0 {
      CountsDisjoint(g, N, i, j, k - 1, v, w);
    }
  }
}
