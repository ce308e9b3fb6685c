/**
 The single-pass step rule of `c_automata.c`.

 One row-major pass visits every cell with one draw per cell. A Cancer cell
 calls `proliferate`, which may mark one Normal neighbour with the sentinel
 TEMP_CANCER; a second sweep turns every sentinel into Cancer. A cell that is
 marked before its own visit matches none of the transition branches, so a
 newly invaded cell neither mutates nor proliferates in the step that
 created it.
 */
module CAutomata {
  import opened Results
  import opened Draws
  import opened Grid

  /** Marks a Normal cell chosen for invasion until the end of the step. */
  const TEMP_CANCER: int := 111

  /** The transition probabilities {k0 mutation, k1 proliferation, k2 effection, k3 death, k4 rebirth}. */
  predicate ValidProbs(probs: seq<real>) {
    |probs| == 5
  }

  /** A value `proliferate` counts as a Cancer neighbour. */
  predicate CancerLike(v: int) {
    v == CANCER || v == TEMP_CANCER
  }

  /** The number of neighbours of (i, j) that hold Cancer or the sentinel (`neigh_c`). */
  function CancerNeighbours(g: seq<int>, N: int, i: int, j: int): (c: nat)
    requires |g| == N * N
    ensures c <= 4
  {
    CountsDisjoint(g, N, i, j, 4, CANCER, TEMP_CANCER);
    CountUpTo(g, N, i, j, 4, CANCER) + CountUpTo(g, N, i, j, 4, TEMP_CANCER)
  }

  /** The competition-adjusted proliferation rate k1' = k1 * (1 - c / 4) for c Cancer neighbours. */
  function AdjustedRate(k1: real, c: nat): real {
    k1 * (1.0 - c as real / 4.0)
  }

  /** The rate `proliferate` compares its draw against at (i, j). */
  function CompetitionRate(g: seq<int>, N: int, i: int, j: int, k1: real): real
    requires |g| == N * N
  {
    AdjustedRate(k1, CancerNeighbours(g, N, i, j))
  }

  /** The adjusted rate falls from k1 with no Cancer neighbour to 0 with four,
      and never leaves [0, k1] for a non-negative k1. */
  lemma RateBounds(k1: real, c: nat, c': nat)
    requires 0.0 <= k1 && c <= c' <= 4
    ensures 0.0 <= AdjustedRate(k1, c') <= AdjustedRate(k1, c) <= k1
    ensures AdjustedRate(k1, 0) == k1 && AdjustedRate(k1, 4) == 0.0
  {
    var f, f' := 1.0 - c as real / 4.0, 1.0 - c' as real / 4.0;
    assert AdjustedRate(k1, c) == k1 * f && AdjustedRate(k1, c') == k1 * f';
    assert 0.0 <= f' <= f <= 1.0;
    assert 0.0 <= k1 * f' by {
      NonNegProduct(k1, f');
    }
    assert k1 * f' <= k1 * f by {
      NonNegProduct(k1, f - f');
      assert k1 * f - k1 * f' == k1 * (f - f');
    }
    assert k1 * f <= k1 by {
      NonNegProduct(k1, 1.0 - f);
      assert k1 - k1 * f == k1 * (1.0 - f);
    }
    assert AdjustedRate(k1, 0) == k1 * 1.0;
    assert AdjustedRate(k1, 4) == k1 * 0.0;
  }

  /** The product of two non-negative reals is non-negative. */
  lemma NonNegProduct(x: real, y: real)
    requires 0.0 <= x && 0.0 <= y
    ensures 0.0 <= x * y
  {
  }

  /** How `proliferate` sees a neighbour's value: Normal, Cancer-like, or neither. */
  function NeighbourClass(v: int): int {
    if v == NORMAL then 0 else if CancerLike(v) then 1 else 2
  }

  /** Only the class of each neighbour matters: two grids whose cells agree
      class by class have the same Normal-neighbour list and the same
      Cancer-like tally over the scanned directions, so Effector and Dead
      neighbours (and Cancer versus the sentinel) are interchangeable. */
  lemma {:induction false} ClassesDecide(g: seq<int>, g': seq<int>, N: int, i: int, j: int, k: int)
    requires |g| == N * N && |g'| == N * N && 0 <= k <= 4
    requires forall x :: 0 <= x < |g| ==> NeighbourClass(g[x]) == NeighbourClass(g'[x])
    ensures NormalsUpTo(g, N, i, j, k) == NormalsUpTo(g', N, i, j, k)
    ensures CountUpTo(g, N, i, j, k, CANCER) + CountUpTo(g, N, i, j, k, TEMP_CANCER)
            == CountUpTo(g', N, i, j, k, CANCER) + CountUpTo(g', N, i, j, k, TEMP_CANCER)
    decreases k
  {
    if k > 0 {
      ClassesDecide(g, g', N, i, j, k - 1);
      var p := Neighbour(N, i, j, k - 1);
      if p.Some? {
        var x := p.value;
        assert NeighbourClass(g[x]) == NeighbourClass(g'[x]);
        assert (g[x] == NORMAL) == (g'[x] == NORMAL);
        assert CancerLike(g[x]) == CancerLike(g'[x]);
      }
      assert CountUpTo(g, N, i, j, k, CANCER) + CountUpTo(g, N, i, j, k, TEMP_CANCER)
          == CountUpTo(g, N, i, j, k - 1, CANCER) + CountUpTo(g, N, i, j, k - 1, TEMP_CANCER)
             + (if p.Some? && CancerLike(g[p.value]) then 1 else 0);
      assert CountUpTo(g', N, i, j, k, CANCER) + CountUpTo(g', N, i, j, k, TEMP_CANCER)
          == CountUpTo(g', N, i, j, k - 1, CANCER) + CountUpTo(g', N, i, j, k - 1, TEMP_CANCER)
             + (if p.Some? && CancerLike(g'[p.value]) then 1 else 0);
    }
  }

  /** Hence the adjusted rate depends only on the classes of the neighbours. */
  lemma RateDependsOnClasses(g: seq<int>, g': seq<int>, N: int, i: int, j: int, k1: real)
    requires |g| == N * N && |g'| == N * N
    requires forall x :: 0 <= x < |g| ==> NeighbourClass(g[x]) == NeighbourClass(g'[x])
    ensures CompetitionRate(g, N, i, j, k1) == CompetitionRate(g', N, i, j, k1)
    ensures NormalNeighbours(g, N, i, j) == NormalNeighbours(g', N, i, j)
  {
    ClassesDecide(g, g', N, i, j, 4);
  }

  /** `proliferate`: when the proliferation draw beats the adjusted rate and
      some neighbour is Normal, mark the randomly chosen Normal neighbour
      with the sentinel. At most one cell changes: a Normal neighbour, which
      becomes TEMP_CANCER. */
  function Proliferate(g: seq<int>, N: int, i: int, j: int, k1: real, d: CellDraw): (r: seq<int>)
    requires |g| == N * N && Within(N, i, j) && ValidDraw(d)
    ensures |r| == |g|
    ensures forall x :: 0 <= x < |g| && r[x] != g[x] ==>
              g[x] == NORMAL && r[x] == TEMP_CANCER && IsNeighbour(N, i, j, x)
    ensures forall x, y :: 0 <= x < |g| && 0 <= y < |g| && r[x] != g[x] && r[y] != g[y] ==> x == y
    ensures r != g <==> d.rp < CompetitionRate(g, N, i, j, k1) && |NormalNeighbours(g, N, i, j)| > 0
  {
    var normals := NormalNeighbours(g, N, i, j);
    if d.rp < CompetitionRate(g, N, i, j, k1) && |normals| > 0 then
      var rr := RandInt(d.u, 0, |normals| - 1);
      var t := normals[rr];
      NormalsMembership(g, N, i, j, 4, t);
      assert g[t := TEMP_CANCER][t] != g[t];
      g[t := TEMP_CANCER]
    else
      g
  }

  /** One iteration of the row-major pass: apply the transition chain to cell `id`. */
  function Visit(h: seq<int>, N: int, probs: seq<real>, d: CellDraw, id: int): (r: seq<int>)
    requires N >= 1 && |h| == N * N && 0 <= id < N * N && ValidProbs(probs) && ValidDraw(d)
    ensures |r| == |h|
  {
    CellOf(N, id);
    var i, j := id / N, id % N;
    if h[id] == NORMAL && d.r < probs[0] then h[id := CANCER]
    else if h[id] == CANCER then
      var h1 := Proliferate(h, N, i, j, probs[1], d);
      if d.r < probs[2] then h1[id := EFFECTOR] else h1
    else if h[id] == EFFECTOR && d.r < probs[3] then h[id := DEAD]
    else if h[id] == DEAD && d.r < probs[4] then h[id := NORMAL]
    else h
  }

  /** The grid after the first n visits of the pass. */
  function Pass(g: seq<int>, N: int, probs: seq<real>, draws: seq<CellDraw>, n: int): (r: seq<int>)
    requires N >= 1 && |g| == N * N && ValidProbs(probs) && ValidStepDraws(N, draws)
    requires 0 <= n <= N * N
    ensures |r| == |g|
    decreases n
  {
    if n == 0 then g
    else Visit(Pass(g, N, probs, draws, n - 1), N, probs, draws[n - 1], n - 1)
  }

  /** The closing sweep: every sentinel becomes Cancer. */
  function Resolve(h: seq<int>): (r: seq<int>)
    ensures |r| == |h|
    ensures forall x :: 0 <= x < |r| ==> r[x] != TEMP_CANCER
    ensures forall x :: 0 <= x < |h| && h[x] == TEMP_CANCER ==> r[x] == CANCER
    ensures forall x :: 0 <= x < |h| && h[x] != TEMP_CANCER ==> r[x] == h[x]
  {
    seq(|h|, x requires 0 <= x < |h| => if h[x] == TEMP_CANCER then CANCER else h[x])
  }

  /** `step`: the full pass followed by the sentinel sweep. */
  function Step(g: seq<int>, N: int, probs: seq<real>, draws: seq<CellDraw>): (r: seq<int>)
    requires N >= 1 && |g| == N * N && ValidProbs(probs) && ValidStepDraws(N, draws)
    ensures |r| == |g|
  {
    Resolve(Pass(g, N, probs, draws, N * N))
  }

  /** What a cell that started the step holding v, with self-transition draw r,
      may hold once its visit is over (before the sentinel sweep). */
  predicate VisitedFate(v: int, r: real, probs: seq<real>, w: int)
    requires ValidProbs(probs)
  {
    if v == NORMAL then
      (if r < probs[0] then w == CANCER || w == TEMP_CANCER else w == NORMAL || w == TEMP_CANCER)
    else if v == CANCER then w == (if r < probs[2] then EFFECTOR else CANCER)
    else if v == EFFECTOR then w == (if r < probs[3] then DEAD else EFFECTOR)
    else if v == DEAD then
      (if r < probs[4] then w == NORMAL || w == TEMP_CANCER else w == DEAD)
    else w == v
  }

  /** What holds of the grid h after the first n visits of a pass started from g. */
  ghost predicate PassInvariant(g: seq<int>, h: seq<int>, N: int, probs: seq<real>, draws: seq<CellDraw>, n: int)
    requires N >= 1 && |g| == N * N && ValidProbs(probs) && ValidStepDraws(N, draws)
  {
    && |h| == |g|
    && (forall x :: 0 <= x < |g| && n <= x ==> h[x] == g[x] || (g[x] == NORMAL && h[x] == TEMP_CANCER))
    && (forall x :: 0 <= x < |g| && x < n ==> VisitedFate(g[x], draws[x].r, probs, h[x]))
    && (forall x :: 0 <= x < |g| && h[x] == TEMP_CANCER ==> HasNeighbourHolding(g, N, x, CANCER))
  }

  /** A marked cell t is a neighbour of the Cancer cell n that marked it. */
  lemma MarkedHasCancerNeighbour(g: seq<int>, N: int, n: int, t: int)
    requires N >= 1 && |g| == N * N && 0 <= n < N * N && 0 <= t < N * N
    requires g[n] == CANCER
    requires Within(N, n / N, n % N) && N * (n / N) + n % N == n
    requires IsNeighbour(N, n / N, n % N, t)
    ensures HasNeighbourHolding(g, N, t, CANCER)
  {
    var i, j := n / N, n % N;
    var d :| 0 <= d < 4 && Neighbour(N, i, j, d) == Some(t);
    NeighbourSymmetric(N, i, j, d);
    assert Neighbour(N, t / N, t % N, Opposite(d)) == Some(n);
  }

  /** The cells proliferation from the Cancer cell n marks are Normal cells
      other than n, each next to a cell that was Cancer in g. */
  lemma ProliferateMarks(g: seq<int>, h: seq<int>, N: int, n: int, k1: real, d: CellDraw)
    requires N >= 1 && |g| == N * N && |h| == N * N && 0 <= n < N * N && ValidDraw(d)
    requires g[n] == CANCER && Within(N, n / N, n % N) && N * (n / N) + n % N == n
    ensures forall x :: 0 <= x < |h| && Proliferate(h, N, n / N, n % N, k1, d)[x] != h[x] ==>
              x != n && h[x] == NORMAL && Proliferate(h, N, n / N, n % N, k1, d)[x] == TEMP_CANCER &&
              HasNeighbourHolding(g, N, x, CANCER)
  {
    var i, j := n / N, n % N;
    var h1 := Proliferate(h, N, i, j, k1, d);
    forall x | 0 <= x < |h| && h1[x] != h[x]
      ensures x != n && HasNeighbourHolding(g, N, x, CANCER)
    {
      var k :| 0 <= k < 4 && Neighbour(N, i, j, k) == Some(x);
      NeighboursDistinct(N, i, j, k, k);
      MarkedHasCancerNeighbour(g, N, n, x);
    }
  }

  /** Visiting a Cancer cell: proliferation marks at most a Normal neighbour, then the cell may turn Effector. */
  lemma VisitCancerPreserves(g: seq<int>, h: seq<int>, N: int, probs: seq<real>, draws: seq<CellDraw>, n: int)
    requires ValidGrid(g, N) && ValidProbs(probs) && ValidStepDraws(N, draws) && 0 <= n < N * N
    requires PassInvariant(g, h, N, probs, draws, n)
    requires h[n] == CANCER
    ensures PassInvariant(g, Visit(h, N, probs, draws[n], n), N, probs, draws, n + 1)
  {
    CellOf(N, n);
    var i, j := n / N, n % N;
    var d := draws[n];
    var h1 := Proliferate(h, N, i, j, probs[1], d);
    var h' := Visit(h, N, probs, d, n);
    assert h' == if d.r < probs[2] then h1[n := EFFECTOR] else h1[n := CANCER];
    assert g[n] == CANCER;
    ProliferateMarks(g, h, N, n, probs[1], d);
    assert forall x :: 0 <= x < |g| && x != n ==> h'[x] == h1[x];
    assert forall x :: 0 <= x < |g| && n + 1 <= x ==> h'[x] == g[x] || (g[x] == NORMAL && h'[x] == TEMP_CANCER);
    assert forall x :: 0 <= x < |g| && h'[x] == TEMP_CANCER ==> HasNeighbourHolding(g, N, x, CANCER);
    forall x | 0 <= x < |g| && x < n + 1
      ensures VisitedFate(g[x], draws[x].r, probs, h'[x])
    {
      if x != n && h1[x] != h[x] {
        assert h[x] == NORMAL && h'[x] == TEMP_CANCER;
      }
    }
  }

  /** One visit keeps the pass invariant, with one more cell visited. */
  lemma VisitPreserves(g: seq<int>, h: seq<int>, N: int, probs: seq<real>, draws: seq<CellDraw>, n: int)
    requires ValidGrid(g, N) && ValidProbs(probs) && ValidStepDraws(N, draws) && 0 <= n < N * N
    requires PassInvariant(g, h, N, probs, draws, n)
    ensures PassInvariant(g, Visit(h, N, probs, draws[n], n), N, probs, draws, n + 1)
  {
    if h[n] == CANCER {
      VisitCancerPreserves(g, h, N, probs, draws, n);
    } else {
      var h' := Visit(h, N, probs, draws[n], n);
      assert forall x :: 0 <= x < |h| && x != n ==> h'[x] == h[x];
    }
  }

  /** The pass invariant holds after every prefix of the pass. */
  lemma {:induction false} PassInvariantHolds(g: seq<int>, N: int, probs: seq<real>, draws: seq<CellDraw>, n: int)
    requires ValidGrid(g, N) && ValidProbs(probs) && ValidStepDraws(N, draws) && 0 <= n <= N * N
    ensures PassInvariant(g, Pass(g, N, probs, draws, n), N, probs, draws, n)
    decreases n
  {
    if n > 0 {
      PassInvariantHolds(g, N, probs, draws, n - 1);
      VisitPreserves(g, Pass(g, N, probs, draws, n - 1), N, probs, draws, n - 1);
    }
  }

  /** The fate of a cell over one complete step, given its starting state v and its draw r. */
  predicate StepFate(v: int, r: real, probs: seq<real>, w: int)
    requires ValidProbs(probs)
  {
    if v == NORMAL then (if r < probs[0] then w == CANCER else w == NORMAL || w == CANCER)
    else if v == CANCER then w == (if r < probs[2] then EFFECTOR else CANCER)
    else if v == EFFECTOR then w == (if r < probs[3] then DEAD else EFFECTOR)
    else if v == DEAD then (if r < probs[4] then w == NORMAL || w == CANCER else w == DEAD)
    else w == v
  }

  /** Over one step: the sentinel never survives, every cell keeps a persisted
      state, each cell follows its transition (Normal ends Normal or Cancer and
      surely Cancer when it mutates; Cancer ends Cancer or Effector; Effector
      ends Effector or Dead; Dead ends Dead, Normal or Cancer), and a cell that
      becomes Cancer without having been Cancer or having mutated has a
      neighbour that was Cancer when the step began: invasion spreads at most
      one cell per step. */
  lemma StepFates(g: seq<int>, N: int, probs: seq<real>, draws: seq<CellDraw>)
    requires ValidGrid(g, N) && ValidProbs(probs) && ValidStepDraws(N, draws)
    ensures ValidGrid(Step(g, N, probs, draws), N)
    ensures forall x :: 0 <= x < |g| ==> Step(g, N, probs, draws)[x] != TEMP_CANCER
    ensures forall x :: 0 <= x < |g| ==> StepFate(g[x], draws[x].r, probs, Step(g, N, probs, draws)[x])
    ensures forall x :: 0 <= x < |g| && Step(g, N, probs, draws)[x] == CANCER ==>
              || g[x] == CANCER
              || (g[x] == NORMAL && draws[x].r < probs[0])
              || HasNeighbourHolding(g, N, x, CANCER)
  {
    PassInvariantHolds(g, N, probs, draws, N * N);
  }

  /** With every probability zero, a step changes nothing. */
  lemma {:induction false} PassZeroProbs(g: seq<int>, N: int, probs: seq<real>, draws: seq<CellDraw>, n: int)
    requires ValidGrid(g, N) && ValidProbs(probs) && ValidStepDraws(N, draws) && 0 <= n <= N * N
    requires forall k :: 0 <= k < 5 ==> probs[k] == 0.0
    ensures Pass(g, N, probs, draws, n) == g
    decreases n
  {
    if n > 0 {
      PassZeroProbs(g, N, probs, draws, n - 1);
      CellOf(N, n - 1);
      assert ValidDraw(draws[n - 1]);
      assert CompetitionRate(g, N, (n - 1) / N, (n - 1) % N, probs[1]) == 0.0;
    }
  }

  /** Every threshold at zero and every draw non-negative: the grid is a fixed point of `step`. */
  lemma StepZeroProbs(g: seq<int>, N: int, probs: seq<real>, draws: seq<CellDraw>)
    requires ValidGrid(g, N) && ValidProbs(probs) && ValidStepDraws(N, draws)
    requires forall k :: 0 <= k < 5 ==> probs[k] == 0.0
    ensures Step(g, N, probs, draws) == g
  {
    PassZeroProbs(g, N, probs, draws, N * N);
  }

  /** A mutation threshold of at least 1 turns an all-Normal grid all-Cancer in one step. */
  lemma StepAllMutate(g: seq<int>, N: int, probs: seq<real>, draws: seq<CellDraw>)
    requires ValidGrid(g, N) && ValidProbs(probs) && ValidStepDraws(N, draws)
    requires forall x :: 0 <= x < |g| ==> g[x] == NORMAL
    requires probs[0] >= 1.0
    ensures forall x :: 0 <= x < |g| ==> Step(g, N, probs, draws)[x] == CANCER
  {
    StepFates(g, N, probs, draws);
    assert forall x :: 0 <= x < |g| ==> ValidDraw(draws[x]);
  }

  /** Without mutation an all-Normal grid stays all-Normal: nothing can invade it. */
  lemma StepAllNormalFixed(g: seq<int>, N: int, probs: seq<real>, draws: seq<CellDraw>)
    requires ValidGrid(g, N) && ValidProbs(probs) && ValidStepDraws(N, draws)
    requires forall x :: 0 <= x < |g| ==> g[x] == NORMAL
    requires probs[0] <= 0.0
    ensures Step(g, N, probs, draws) == g
  {
    StepFates(g, N, probs, draws);
    var s := Step(g, N, probs, draws);
    forall x | 0 <= x < |g|
      ensures s[x] == g[x]
    {
      assert ValidDraw(draws[x]);
      assert !HasNeighbourHolding(g, N, x, CANCER);
    }
  }

  /** One more scanned direction: a Normal neighbour is appended to the list,
      a Cancer-like one adds one to the tally, anything else changes neither.
      An unfolding of `NormalsUpTo` and `CountUpTo` for the buffer scan's proof. */
  lemma ScanStep(g: seq<int>, N: int, i: int, j: int, k: int)
    requires |g| == N * N && 0 <= k < 4
    ensures Neighbour(N, i, j, k).None? ==>
              NormalsUpTo(g, N, i, j, k + 1) == NormalsUpTo(g, N, i, j, k) &&
              CountUpTo(g, N, i, j, k + 1, CANCER) + CountUpTo(g, N, i, j, k + 1, TEMP_CANCER) ==
              CountUpTo(g, N, i, j, k, CANCER) + CountUpTo(g, N, i, j, k, TEMP_CANCER)
    ensures Neighbour(N, i, j, k).Some? ==>
              var v := g[Neighbour(N, i, j, k).value];
              NormalsUpTo(g, N, i, j, k + 1) ==
                NormalsUpTo(g, N, i, j, k) + (if v == NORMAL then [Neighbour(N, i, j, k).value] else []) &&
              CountUpTo(g, N, i, j, k + 1, CANCER) + CountUpTo(g, N, i, j, k + 1, TEMP_CANCER) ==
                CountUpTo(g, N, i, j, k, CANCER) + CountUpTo(g, N, i, j, k, TEMP_CANCER) + (if CancerLike(v) then 1 else 0)
  {
  }

  /** The neighbour scan of `proliferate` on the buffer: the Normal
      neighbours in direction order and the Cancer-like tally. */
  method ScanNeighbours(a: array<int>, N: int, i: int, j: int) returns (normNeighbours: seq<nat>, neighN: nat, neighC: nat)
    requires a.Length == N * N
    ensures neighN == |normNeighbours|
    ensures normNeighbours == NormalNeighbours(a[..], N, i, j)
    ensures neighC == CancerNeighbours(a[..], N, i, j)
  {
    ghost var g := a[..];
    neighC := 0;
    neighN := 0;
    normNeighbours := [];
    var k := 0;
    while k < 4
      invariant 0 <= k <= 4 && neighN == |normNeighbours|
      invariant neighC == CountUpTo(g, N, i, j, k, CANCER) + CountUpTo(g, N, i, j, k, TEMP_CANCER)
      invariant normNeighbours == NormalsUpTo(g, N, i, j, k)
    {
      ScanStep(g, N, i, j, k);
      var p := Neighbour(N, i, j, k);
      if p.None? {
      } else if a[p.value] == NORMAL {
        normNeighbours := normNeighbours + [p.value];
        neighN := neighN + 1;
      } else if a[p.value] == CANCER || a[p.value] == TEMP_CANCER {
        neighC := neighC + 1;
      }
      k := k + 1;
    }
  }

  /** `Proliferate` read off the scan's two results, the Normal list and the Cancer tally.
      An unfolding of `Proliferate` for the buffer proof, not a specification. */
  lemma ProliferateBy(g: seq<int>, N: int, i: int, j: int, k1: real, d: CellDraw)
    requires |g| == N * N && Within(N, i, j) && ValidDraw(d)
    ensures Proliferate(g, N, i, j, k1, d) ==
              var normals := NormalNeighbours(g, N, i, j);
              if d.rp < AdjustedRate(k1, CancerNeighbours(g, N, i, j)) && |normals| > 0
              then g[normals[RandInt(d.u, 0, |normals| - 1)] := TEMP_CANCER]
              else g
  {
  }

  /** Every Normal neighbour can be the one marked: once the proliferation
      test passes, the integer draw that names its place in the E/S/W/N list
      of Normal neighbours marks it. With the contract of `Proliferate`, a
      cell is marked by some draw exactly when it is a Normal neighbour and
      the test passes. */
  lemma ProliferateReaches(g: seq<int>, N: int, i: int, j: int, k1: real, d: CellDraw, x: int)
    requires |g| == N * N && Within(N, i, j) && ValidDraw(d)
    requires d.rp < CompetitionRate(g, N, i, j, k1)
    requires 0 <= x < |g| && g[x] == NORMAL && IsNeighbour(N, i, j, x)
    ensures exists u :: Unit(u) && Proliferate(g, N, i, j, k1, CellDraw(d.r, d.rp, u))[x] == TEMP_CANCER
  {
    var t := NormalPlace(g, N, i, j, x);
    var n := |NormalNeighbours(g, N, i, j)|;
    ScaledDraw(n, t);
    var u := Scaled(n, t);
    ProliferateMarksChosen(g, N, i, j, k1, CellDraw(d.r, d.rp, u), t);
    assert Unit(u) && Proliferate(g, N, i, j, k1, CellDraw(d.r, d.rp, u))[x] == TEMP_CANCER;
  }

  /** Once the test passes, the draw naming place t of the Normal list marks that neighbour. */
  lemma ProliferateMarksChosen(g: seq<int>, N: int, i: int, j: int, k1: real, d: CellDraw, t: int)
    requires |g| == N * N && Within(N, i, j) && ValidDraw(d)
    requires d.rp < CompetitionRate(g, N, i, j, k1)
    requires 0 <= t < |NormalNeighbours(g, N, i, j)|
    requires RandInt(d.u, 0, |NormalNeighbours(g, N, i, j)| - 1) == t
    ensures Proliferate(g, N, i, j, k1, d) == g[NormalNeighbours(g, N, i, j)[t] := TEMP_CANCER]
    ensures Proliferate(g, N, i, j, k1, d)[NormalNeighbours(g, N, i, j)[t]] == TEMP_CANCER
  {
    ProliferateBy(g, N, i, j, k1, d);
  }

  /** `proliferate` on the grid buffer in place: the source's two-phase
      scan (tally the neighbours, then test the rate and invade). */
  method ProliferateInPlace(a: array<int>, N: int, i: int, j: int, k1: real, d: CellDraw)
    requires a.Length == N * N && Within(N, i, j) && ValidDraw(d)
    modifies a
    ensures a[..] == Proliferate(old(a[..]), N, i, j, k1, d)
  {
    ghost var g := a[..];
    var normNeighbours, neighN, neighC := ScanNeighbours(a, N, i, j);
    ProliferateBy(g, N, i, j, k1, d);
    var r := d.rp;
    var k1Prime := AdjustedRate(k1, neighC);
    if r < k1Prime && neighN > 0 {
      var rr := RandInt(d.u, 0, neighN - 1);
      a[normNeighbours[rr]] := TEMP_CANCER;
    }
  }

  /** The visit of cell id, read with the coordinates (i, j) the loops carry.
      An unfolding of `Visit` for the buffer proof, not a specification. */
  lemma VisitAt(h: seq<int>, N: int, probs: seq<real>, d: CellDraw, i: int, j: int, id: int)
    requires N >= 1 && |h| == N * N && Within(N, i, j) && id == N * i + j && 0 <= id < N * N
    requires ValidProbs(probs) && ValidDraw(d)
    ensures Visit(h, N, probs, d, id) ==
              if h[id] == NORMAL && d.r < probs[0] then h[id := CANCER]
              else if h[id] == CANCER then
                (if d.r < probs[2] then Proliferate(h, N, i, j, probs[1], d)[id := EFFECTOR]
                 else Proliferate(h, N, i, j, probs[1], d))
              else if h[id] == EFFECTOR && d.r < probs[3] then h[id := DEAD]
              else if h[id] == DEAD && d.r < probs[4] then h[id := NORMAL]
              else h
  {
    IndexDecode(N, i, j);
  }

  /** One visit of the row-major pass, on the grid buffer in place. */
  method VisitInPlace(a: array<int>, N: int, i: int, j: int, id: int, probs: seq<real>, d: CellDraw)
    requires N >= 1 && a.Length == N * N && Within(N, i, j) && id == N * i + j && 0 <= id < N * N
    requires ValidProbs(probs) && ValidDraw(d)
    modifies a
    ensures a[..] == Visit(old(a[..]), N, probs, d, id)
  {
    VisitAt(a[..], N, probs, d, i, j, id);
    var r := d.r;
    var v := a[id];
    if v == NORMAL && r < probs[0] {
      a[id] := CANCER;
    } else if v == CANCER {
      ProliferateInPlace(a, N, i, j, probs[1], d);
      if r < probs[2] {
        a[id] := EFFECTOR;
      }
    } else if v == EFFECTOR && r < probs[3] {
      a[id] := DEAD;
    } else if v == DEAD && r < probs[4] {
      a[id] := NORMAL;
    }
  }

  /** The row-major pass of `step`: every cell visited once, in order, each with its own draw. */
  method RunPass(g: seq<int>, N: int, probs: seq<real>, draws: seq<CellDraw>) returns (h: seq<int>)
    requires N >= 1 && |g| == N * N && ValidProbs(probs) && ValidStepDraws(N, draws)
    ensures h == Pass(g, N, probs, draws, N * N)
  {
    var a := new int[N * N](x requires 0 <= x < N * N => g[x]);
    assert a[..] == g;
    var id := 0;
    var i := 0;
    while i < N
      invariant 0 <= i <= N && id == N * i && id <= N * N
      invariant a[..] == Pass(g, N, probs, draws, id)
    {
      MulMono(N, i + 1, N);
      assert N * (i + 1) == N * i + N;
      var j := 0;
      while j < N
        invariant 0 <= j <= N && id == N * i + j && id <= N * N
        invariant a[..] == Pass(g, N, probs, draws, id)
      {
        IndexDecode(N, i, j);
        VisitInPlace(a, N, i, j, id, probs, draws[id]);
        id := id + 1;
        j := j + 1;
      }
      i := i + 1;
    }
    h := a[..];
  }

  /** The closing sweep of `step`: every sentinel in the buffer becomes Cancer. */
  method ResolveSweep(h: seq<int>) returns (s: seq<int>)
    ensures s == Resolve(h)
    ensures forall x :: 0 <= x < |s| ==> s[x] != TEMP_CANCER
  {
    var a := new int[|h|](x requires 0 <= x < |h| => h[x]);
    var id := 0;
    while id < |h|
      invariant 0 <= id <= |h|
      invariant forall x :: 0 <= x < id ==> a[x] == Resolve(h)[x]
      invariant forall x :: id <= x < |h| ==> a[x] == h[x]
    {
      if a[id] == TEMP_CANCER {
        a[id] := CANCER;
      }
      id := id + 1;
    }
    s := a[..];
  }

  /** `step` on a buffer: the row-major pass with one draw per cell, then the
      sweep that resolves every sentinel. It computes exactly `Step`, so the
      sentinel never leaks out and persisted states stay persisted. */
  method RunStep(g: seq<int>, N: int, probs: seq<real>, draws: seq<CellDraw>) returns (s: seq<int>)
    requires N >= 1 && |g| == N * N && ValidProbs(probs) && ValidStepDraws(N, draws)
    ensures s == Step(g, N, probs, draws)
    ensures forall x :: 0 <= x < |s| ==> s[x] != TEMP_CANCER
    ensures ValidGrid(g, N) ==> ValidGrid(s, N)
  {
    var h := RunPass(g, N, probs, draws);
    s := ResolveSweep(h);
    if ValidGrid(g, N) {
      StepFates(g, N, probs, draws);
    }
  }
}
