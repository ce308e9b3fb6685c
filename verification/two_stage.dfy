/**
 The two-stage step rule of `automata.c`.

 Stage 1 applies every self-transition element-wise and marks, in a side
 mask, each Cancer cell that stayed Cancer. Stage 2 sweeps the grid in
 row-major order; each masked cell may invade one Normal neighbour (the r-th
 in East, South, West, North order, counted on the grid as stage 2 has left
 it so far) and has its mask entry cleared. A cell invaded in stage 2 was
 Normal after stage 1 and therefore unmasked, so it cannot invade in turn.
 */
module TwoStage {
  import opened Results
  import opened Draws
  import opened Grid
  import opened CAutomata

  /** The grid and the mask that marks the cells allowed to invade. */
  datatype Automaton = Automaton(cells: seq<int>, mask: seq<int>)

  predicate WellSized(a: Automaton, N: int) {
    N >= 1 && |a.cells| == N * N && |a.mask| == N * N
  }

  /** The mask as `arr_alloc` hands it over: all zero. */
  predicate ClearMask(a: Automaton) {
    forall x :: 0 <= x < |a.mask| ==> a.mask[x] == 0
  }

  /* ----------------------------------------------------------------------
     Stage 1
     ---------------------------------------------------------------------- */

  /** Whether a cell holding v leaves its state under draw r: the four thresholds of the transition chain. */
  predicate Stage1Moves(v: int, r: real, probs: seq<real>)
    requires ValidProbs(probs)
  {
    || (v == NORMAL && r < probs[0])
    || (v == CANCER && r < probs[2])
    || (v == EFFECTOR && r < probs[3])
    || (v == DEAD && r < probs[4])
  }

  /** Stage 1 on one cell holding v with mask entry m and draw r: the new value and mask entry. */
  function Stage1Cell(v: int, m: int, r: real, probs: seq<real>): (o: (int, int))
    requires ValidProbs(probs)
    ensures o.1 != m ==> o.1 == 1 && v == CANCER && o.0 == CANCER
    ensures o.0 != v <==> Stage1Moves(v, r, probs)
  {
    if v == NORMAL && r < probs[0] then (CANCER, m)
    else if v == CANCER then (if r < probs[2] then (EFFECTOR, m) else (CANCER, 1))
    else if v == EFFECTOR && r < probs[3] then (DEAD, m)
    else if v == DEAD && r < probs[4] then (NORMAL, m)
    else (v, m)
  }

  /** Stage 1 over the whole grid, one draw per cell. A mask entry changes
      only to 1, and only at a cell that was Cancer and stays Cancer. */
  function Stage1(a: Automaton, N: int, probs: seq<real>, draws: seq<CellDraw>): (r: Automaton)
    requires WellSized(a, N) && ValidProbs(probs) && ValidStepDraws(N, draws)
    ensures WellSized(r, N)
    ensures forall x :: 0 <= x < N * N && r.mask[x] != a.mask[x] ==>
              r.mask[x] == 1 && a.cells[x] == CANCER && r.cells[x] == CANCER
  {
    var n := N * N;
    Automaton(
      seq(n, x requires 0 <= x < n => Stage1Cell(a.cells[x], a.mask[x], draws[x].r, probs).0),
      seq(n, x requires 0 <= x < n => Stage1Cell(a.cells[x], a.mask[x], draws[x].r, probs).1))
  }

  /** What stage 1 does to a cell holding v with draw r. */
  predicate Stage1Fate(v: int, r: real, probs: seq<real>, w: int)
    requires ValidProbs(probs)
  {
    if v == NORMAL then w == (if r < probs[0] then CANCER else NORMAL)
    else if v == CANCER then w == (if r < probs[2] then EFFECTOR else CANCER)
    else if v == EFFECTOR then w == (if r < probs[3] then DEAD else EFFECTOR)
    else if v == DEAD then w == (if r < probs[4] then NORMAL else DEAD)
    else w == v
  }

  /** From a clear mask, stage 1 applies each cell's transition and masks
      exactly the Cancer cells that did not become Effector; in particular a
      cell that is Normal after stage 1 is unmasked. */
  lemma Stage1Outcome(a: Automaton, N: int, probs: seq<real>, draws: seq<CellDraw>)
    requires WellSized(a, N) && ClearMask(a) && ValidProbs(probs) && ValidStepDraws(N, draws)
    ensures forall x :: 0 <= x < N * N ==> Stage1Fate(a.cells[x], draws[x].r, probs, Stage1(a, N, probs, draws).cells[x])
    ensures forall x :: 0 <= x < N * N ==>
              (Stage1(a, N, probs, draws).mask[x] == 1 <==> a.cells[x] == CANCER && !(draws[x].r < probs[2]))
    ensures forall x :: 0 <= x < N * N ==> Stage1(a, N, probs, draws).mask[x] == 0 || Stage1(a, N, probs, draws).mask[x] == 1
  {
  }

  /* ----------------------------------------------------------------------
     Stage 2
     ---------------------------------------------------------------------- */

  /** The selection scan of stage 2 from direction k on, `l` Normal
      neighbours having been passed: the Normal neighbour reached when the
      running count equals r becomes Cancer and the scan stops. */
  function Invade(g: seq<int>, N: int, i: int, j: int, k: int, l: int, r: int): (res: seq<int>)
    requires |g| == N * N && 0 <= k <= 4
    ensures |res| == |g|
    decreases 4 - k
  {
    if k == 4 then g
    else match Neighbour(N, i, j, k)
      case None => Invade(g, N, i, j, k + 1, l, r)
      case Some(x) =>
        if g[x] == NORMAL then
          (if r == l then g[x := CANCER] else Invade(g, N, i, j, k + 1, l + 1, r))
        else Invade(g, N, i, j, k + 1, l, r)
  }

  /** A Normal neighbour in direction k is entry |NormalsUpTo(k)| of the full list. */
  lemma NormalEntry(g: seq<int>, N: int, i: int, j: int, k: int, x: int)
    requires |g| == N * N && 0 <= k < 4
    requires Neighbour(N, i, j, k) == Some(x) && 0 <= x < |g| && g[x] == NORMAL
    ensures |NormalsUpTo(g, N, i, j, k + 1)| == |NormalsUpTo(g, N, i, j, k)| + 1
    ensures |NormalsUpTo(g, N, i, j, k)| < |NormalNeighbours(g, N, i, j)|
    ensures NormalNeighbours(g, N, i, j)[|NormalsUpTo(g, N, i, j, k)|] == x
  {
    NormalsPrefix(g, N, i, j, k + 1, 4);
    assert NormalsUpTo(g, N, i, j, k + 1) == NormalsUpTo(g, N, i, j, k) + [x];
    assert NormalsUpTo(g, N, i, j, k + 1)[|NormalsUpTo(g, N, i, j, k)|] == x;
  }

  /** A direction without a Normal neighbour leaves the list unchanged.
      An unfolding of `NormalsUpTo` for the selection proof. */
  lemma NoNormalEntry(g: seq<int>, N: int, i: int, j: int, k: int)
    requires |g| == N * N && 0 <= k < 4
    requires Neighbour(N, i, j, k).None? || g[Neighbour(N, i, j, k).value] != NORMAL
    ensures NormalsUpTo(g, N, i, j, k + 1) == NormalsUpTo(g, N, i, j, k)
  {
  }

  /** The scan invades the r-th entry of the Normal-neighbour list, or nothing
      when the list is shorter than that. */
  lemma {:induction false} InvadeSelects(g: seq<int>, N: int, i: int, j: int, k: int, l: int, r: int)
    requires |g| == N * N && 0 <= k <= 4
    requires l == |NormalsUpTo(g, N, i, j, k)| <= r
    ensures Invade(g, N, i, j, k, l, r) ==
              if r < |NormalNeighbours(g, N, i, j)| then g[NormalNeighbours(g, N, i, j)[r] := CANCER] else g
    decreases 4 - k
  {
    if k < 4 {
      var p := Neighbour(N, i, j, k);
      if p.Some? && g[p.value] == NORMAL {
        NormalEntry(g, N, i, j, k, p.value);
        if r != l {
          InvadeSelects(g, N, i, j, k + 1, l + 1, r);
        }
      } else {
        NoNormalEntry(g, N, i, j, k);
        InvadeSelects(g, N, i, j, k + 1, l, r);
      }
    }
  }

  /** The number of neighbours of (i, j) that stage 2 counts as Cancer: those equal to Cancer. */
  function Stage2CancerNeighbours(g: seq<int>, N: int, i: int, j: int): (c: nat)
    requires |g| == N * N
    ensures c <= CancerNeighbours(g, N, i, j) <= 4
  {
    CountUpTo(g, N, i, j, 4, CANCER)
  }

  /** A masked cell's invasion attempt: tally the neighbours, test the draw
      against k1 * (1 - c / 4), and on success invade the Normal neighbour the
      integer draw selects. At most one cell changes, a Normal neighbour that
      becomes Cancer; something changes exactly when the test passes and some
      neighbour is Normal. */
  function Invasion(g: seq<int>, N: int, i: int, j: int, k1: real, d: CellDraw): (r: seq<int>)
    requires |g| == N * N && ValidDraw(d)
    ensures |r| == |g|
    ensures forall x :: 0 <= x < |g| && r[x] != g[x] ==>
              g[x] == NORMAL && r[x] == CANCER && IsNeighbour(N, i, j, x)
    ensures forall x, y :: 0 <= x < |g| && 0 <= y < |g| && r[x] != g[x] && r[y] != g[y] ==> x == y
    ensures r != g <==> d.rp < AdjustedRate(k1, Stage2CancerNeighbours(g, N, i, j)) && |NormalNeighbours(g, N, i, j)| > 0
  {
    var n := CountUpTo(g, N, i, j, 4, NORMAL);
    var c := CountUpTo(g, N, i, j, 4, CANCER);
    if d.rp < AdjustedRate(k1, c) then
      var rr := RandInt(d.u, 0, n - 1);
      InvadeSelects(g, N, i, j, 0, 0, rr);
      var normals := NormalNeighbours(g, N, i, j);
      // With no Normal neighbour, rr is randint(0, -1) = 0 and the scan changes nothing;
      // otherwise the selected entry is a Normal neighbour, which does change.
      assert rr < |normals| ==> IsNeighbour(N, i, j, normals[rr]) && g[normals[rr] := CANCER] != g by {
        if rr < |normals| {
          NormalsMembership(g, N, i, j, 4, normals[rr]);
          assert g[normals[rr] := CANCER][normals[rr]] != g[normals[rr]];
        }
      }
      Invade(g, N, i, j, 0, 0, rr)
    else
      g
  }

  /** Every Normal neighbour can be the one invaded: once the invasion test
      passes, the integer draw that names its place in the E/S/W/N list of
      Normal neighbours selects it. */
  lemma InvasionReaches(g: seq<int>, N: int, i: int, j: int, k1: real, d: CellDraw, x: int)
    requires |g| == N * N && ValidDraw(d)
    requires d.rp < AdjustedRate(k1, Stage2CancerNeighbours(g, N, i, j))
    requires 0 <= x < |g| && g[x] == NORMAL && IsNeighbour(N, i, j, x)
    ensures exists u :: Unit(u) && Invasion(g, N, i, j, k1, CellDraw(d.r, d.rp, u))[x] == CANCER
  {
    var t := NormalPlace(g, N, i, j, x);
    var n := |NormalNeighbours(g, N, i, j)|;
    ScaledDraw(n, t);
    InvadeSelects(g, N, i, j, 0, 0, t);
    assert Invasion(g, N, i, j, k1, CellDraw(d.r, d.rp, Scaled(n, t)))[x] == CANCER;
  }

  /** Stage 2 at cell `id`: a masked cell attempts an invasion and is unmasked. */
  function Stage2Visit(a: Automaton, N: int, probs: seq<real>, d: CellDraw, id: int): (r: Automaton)
    requires WellSized(a, N) && 0 <= id < N * N && ValidProbs(probs) && ValidDraw(d)
    ensures WellSized(r, N)
  {
    if a.mask[id] != 1 then a
    else
      CellOf(N, id);
      Automaton(Invasion(a.cells, N, id / N, id % N, probs[1], d), a.mask[id := 0])
  }

  /** The automaton after the first n visits of stage 2. */
  function Stage2Pass(a: Automaton, N: int, probs: seq<real>, draws: seq<CellDraw>, n: int): (r: Automaton)
    requires WellSized(a, N) && ValidProbs(probs) && ValidStepDraws(N, draws) && 0 <= n <= N * N
    ensures WellSized(r, N)
    decreases n
  {
    if n == 0 then a
    else Stage2Visit(Stage2Pass(a, N, probs, draws, n - 1), N, probs, draws[n - 1], n - 1)
  }

  /** `step` of `automata.c`: stage 1, then the full stage-2 sweep. */
  function TwoStageStep(a: Automaton, N: int, probs: seq<real>, draws: seq<CellDraw>): (r: Automaton)
    requires WellSized(a, N) && ValidProbs(probs) && ValidStepDraws(N, draws)
    ensures WellSized(r, N)
  {
    Stage2Pass(Stage1(a, N, probs, draws), N, probs, draws, N * N)
  }

  /** Some neighbour of cell x is masked in s. */
  ghost predicate HasMaskedNeighbour(s: Automaton, N: int, x: int)
    requires WellSized(s, N)
  {
    exists d :: 0 <= d < 4 && Neighbour(N, x / N, x % N, d).Some? && s.mask[Neighbour(N, x / N, x % N, d).value] == 1
  }

  /** What holds after the first n visits of stage 2 started from s: visited
      entries that were 1 are cleared, the rest of the mask is untouched, and
      every changed cell was Normal, is now Cancer, and neighbours a cell
      that was masked when stage 2 began. */
  ghost predicate Stage2Invariant(s: Automaton, h: Automaton, N: int, n: int)
    requires WellSized(s, N)
  {
    && WellSized(h, N)
    && (forall x :: 0 <= x < N * N ==> h.mask[x] == (if x < n && s.mask[x] == 1 then 0 else s.mask[x]))
    && (forall x :: 0 <= x < N * N && h.cells[x] != s.cells[x] ==>
          s.cells[x] == NORMAL && h.cells[x] == CANCER && HasMaskedNeighbour(s, N, x))
  }

  /** A cell invaded from the masked cell n has n among its neighbours. */
  lemma InvadedHasMaskedNeighbour(s: Automaton, N: int, n: int, t: int)
    requires WellSized(s, N) && 0 <= n < N * N && 0 <= t < N * N
    requires s.mask[n] == 1
    requires Within(N, n / N, n % N) && N * (n / N) + n % N == n
    requires IsNeighbour(N, n / N, n % N, t)
    ensures HasMaskedNeighbour(s, N, t)
  {
    var i, j := n / N, n % N;
    var d :| 0 <= d < 4 && Neighbour(N, i, j, d) == Some(t);
    NeighbourSymmetric(N, i, j, d);
    assert Neighbour(N, t / N, t % N, Opposite(d)) == Some(n);
  }

  /** One stage-2 visit keeps the invariant, with one more cell visited. */
  lemma Stage2VisitPreserves(s: Automaton, h: Automaton, N: int, probs: seq<real>, draws: seq<CellDraw>, n: int)
    requires WellSized(s, N) && ValidProbs(probs) && ValidStepDraws(N, draws) && 0 <= n < N * N
    requires Stage2Invariant(s, h, N, n)
    ensures Stage2Invariant(s, Stage2Visit(h, N, probs, draws[n], n), N, n + 1)
  {
    var h' := Stage2Visit(h, N, probs, draws[n], n);
    if h.mask[n] == 1 {
      CellOf(N, n);
      forall x | 0 <= x < N * N && h'.cells[x] != s.cells[x]
        ensures s.cells[x] == NORMAL && h'.cells[x] == CANCER && HasMaskedNeighbour(s, N, x)
      {
        if h'.cells[x] != h.cells[x] {
          InvadedHasMaskedNeighbour(s, N, n, x);
        }
      }
    }
  }

  /** The stage-2 invariant holds after every prefix of the sweep. */
  lemma {:induction false} Stage2InvariantHolds(s: Automaton, N: int, probs: seq<real>, draws: seq<CellDraw>, n: int)
    requires WellSized(s, N) && ValidProbs(probs) && ValidStepDraws(N, draws) && 0 <= n <= N * N
    ensures Stage2Invariant(s, Stage2Pass(s, N, probs, draws, n), N, n)
    decreases n
  {
    if n > 0 {
      Stage2InvariantHolds(s, N, probs, draws, n - 1);
      Stage2VisitPreserves(s, Stage2Pass(s, N, probs, draws, n - 1), N, probs, draws, n - 1);
    }
  }

  /** Stage 2 clears every mask entry equal to 1 and leaves the others as they were. */
  lemma MaskCleared(a: Automaton, N: int, probs: seq<real>, draws: seq<CellDraw>)
    requires WellSized(a, N) && ValidProbs(probs) && ValidStepDraws(N, draws)
    ensures forall x :: 0 <= x < N * N ==>
              TwoStageStep(a, N, probs, draws).mask[x] ==
                (if Stage1(a, N, probs, draws).mask[x] == 1 then 0 else Stage1(a, N, probs, draws).mask[x])
  {
    Stage2InvariantHolds(Stage1(a, N, probs, draws), N, probs, draws, N * N);
  }

  /** A surviving Cancer cell: Cancer when the step began and not turned Effector by its draw. */
  ghost predicate HasSurvivingCancerNeighbour(g: seq<int>, N: int, probs: seq<real>, draws: seq<CellDraw>, x: int)
    requires N >= 1 && |g| == N * N && ValidProbs(probs) && ValidStepDraws(N, draws)
  {
    exists d :: 0 <= d < 4 && Neighbour(N, x / N, x % N, d).Some? &&
      var y := Neighbour(N, x / N, x % N, d).value;
      g[y] == CANCER && !(draws[y].r < probs[2])
  }

  /** Over one step from a clear mask: the mask ends clear, every cell keeps a
      persisted state and follows the same per-cell fate as the single-pass
      rule, and a cell that becomes Cancer without having been Cancer or
      having mutated neighbours a Cancer cell that survived stage 1, so cells
      invaded in this step do not invade in turn. */
  lemma TwoStageFates(g: seq<int>, N: int, probs: seq<real>, draws: seq<CellDraw>)
    requires ValidGrid(g, N) && ValidProbs(probs) && ValidStepDraws(N, draws)
    ensures var r := TwoStageStep(Automaton(g, seq(N * N, _ => 0)), N, probs, draws);
      && ValidGrid(r.cells, N)
      && ClearMask(r)
      && (forall x :: 0 <= x < N * N ==> StepFate(g[x], draws[x].r, probs, r.cells[x]))
      && (forall x :: 0 <= x < N * N && r.cells[x] == CANCER ==>
            || g[x] == CANCER
            || (g[x] == NORMAL && draws[x].r < probs[0])
            || HasSurvivingCancerNeighbour(g, N, probs, draws, x))
  {
    var a := Automaton(g, seq(N * N, _ => 0));
    var s := Stage1(a, N, probs, draws);
    var r := TwoStageStep(a, N, probs, draws);
    Stage1Outcome(a, N, probs, draws);
    Stage2InvariantHolds(s, N, probs, draws, N * N);
    forall x | 0 <= x < N * N && r.cells[x] != s.cells[x]
      ensures HasSurvivingCancerNeighbour(g, N, probs, draws, x)
    {
      var d :| 0 <= d < 4 && Neighbour(N, x / N, x % N, d).Some? && s.mask[Neighbour(N, x / N, x % N, d).value] == 1;
      var y := Neighbour(N, x / N, x % N, d).value;
      assert g[y] == CANCER && !(draws[y].r < probs[2]);
    }
  }

  /** Every threshold at zero and every draw non-negative: from a clear mask
      the grid is a fixed point of the two-stage step, and the mask ends clear. */
  lemma TwoStageZeroProbs(g: seq<int>, N: int, probs: seq<real>, draws: seq<CellDraw>)
    requires ValidGrid(g, N) && ValidProbs(probs) && ValidStepDraws(N, draws)
    requires forall k :: 0 <= k < 5 ==> probs[k] == 0.0
    ensures TwoStageStep(Automaton(g, seq(N * N, _ => 0)), N, probs, draws) == Automaton(g, seq(N * N, _ => 0))
  {
    var a := Automaton(g, seq(N * N, _ => 0));
    var s := Stage1(a, N, probs, draws);
    Stage1Outcome(a, N, probs, draws);
    assert forall x :: 0 <= x < N * N ==> ValidDraw(draws[x]);
    assert s.cells == g;
    NoInvasionAtZeroRate(s, N, probs, draws, N * N);
    Stage2InvariantHolds(s, N, probs, draws, N * N);
  }

  /** With a zero proliferation threshold no masked cell invades: stage 2 only clears the mask. */
  lemma {:induction false} NoInvasionAtZeroRate(s: Automaton, N: int, probs: seq<real>, draws: seq<CellDraw>, n: int)
    requires WellSized(s, N) && ValidProbs(probs) && ValidStepDraws(N, draws) && 0 <= n <= N * N
    requires probs[1] == 0.0
    ensures Stage2Pass(s, N, probs, draws, n).cells == s.cells
    decreases n
  {
    if n > 0 {
      NoInvasionAtZeroRate(s, N, probs, draws, n - 1);
      assert ValidDraw(draws[n - 1]);
    }
  }

  /* ----------------------------------------------------------------------
     The step on buffers
     ---------------------------------------------------------------------- */

  /** The selection scan of stage 2 on the grid buffer, stopping at the first hit. */
  method InvadeInPlace(a: array<int>, N: int, i: int, j: int, r: int)
    requires a.Length == N * N
    modifies a
    ensures a[..] == Invade(old(a[..]), N, i, j, 0, 0, r)
  {
    ghost var g := a[..];
    var l := 0;
    var k := 0;
    while k < 4
      invariant 0 <= k <= 4 && a[..] == g
      invariant Invade(g, N, i, j, k, l, r) == Invade(g, N, i, j, 0, 0, r)
    {
      var p := Neighbour(N, i, j, k);
      if p.Some? && a[p.value] == NORMAL {
        if r == l {
          a[p.value] := CANCER;
          return;
        }
        l := l + 1;
      }
      k := k + 1;
    }
  }

  /** Stage 2 at the masked cell (i, j) on the buffers: tally the Normal and
      Cancer neighbours, test the draw against the adjusted rate, run the
      selection scan, and clear the mask entry. */
  method Stage2VisitInPlace(a: array<int>, m: array<int>, N: int, i: int, j: int, id: int, probs: seq<real>, d: CellDraw)
    requires a != m && a.Length == N * N && m.Length == N * N && Within(N, i, j)
    requires ValidProbs(probs) && ValidDraw(d)
    requires id == N * i + j && 0 <= id < N * N
    requires m[id] == 1
    modifies a, m
    ensures a[..] == Invasion(old(a[..]), N, i, j, probs[1], d)
    ensures m[..] == old(m[..])[id := 0]
  {
    ghost var g := a[..];
    var neighN := 0;
    var neighC := 0;
    var k := 0;
    while k < 4
      invariant 0 <= k <= 4 && a[..] == g
      invariant neighN == CountUpTo(g, N, i, j, k, NORMAL)
      invariant neighC == CountUpTo(g, N, i, j, k, CANCER)
    {
      var p := Neighbour(N, i, j, k);
      assert CountUpTo(g, N, i, j, k + 1, NORMAL)
        == CountUpTo(g, N, i, j, k, NORMAL) + (if p.Some? && g[p.value] == NORMAL then 1 else 0);
      assert CountUpTo(g, N, i, j, k + 1, CANCER)
        == CountUpTo(g, N, i, j, k, CANCER) + (if p.Some? && g[p.value] == CANCER then 1 else 0);
      if p.None? {
      } else if a[p.value] == NORMAL {
        neighN := neighN + 1;
      } else if a[p.value] == CANCER {
        neighC := neighC + 1;
      }
      k := k + 1;
    }
    var k1Prime := AdjustedRate(probs[1], neighC);
    if d.rp < k1Prime {
      var rr := RandInt(d.u, 0, neighN - 1);
      InvadeInPlace(a, N, i, j, rr);
    }
    assert a[..] == Invasion(g, N, i, j, probs[1], d);
    m[id] := 0;
  }

  /** The stage-2 visit of cell id, read with the coordinates (i, j) the
      loops carry. An unfolding of `Stage2Visit` for the buffer proof. */
  lemma Stage2VisitAt(a: Automaton, N: int, probs: seq<real>, d: CellDraw, i: int, j: int, id: int)
    requires WellSized(a, N) && Within(N, i, j) && id == N * i + j && 0 <= id < N * N
    requires ValidProbs(probs) && ValidDraw(d)
    ensures Stage2Visit(a, N, probs, d, id) ==
              if a.mask[id] != 1 then a
              else Automaton(Invasion(a.cells, N, i, j, probs[1], d), a.mask[id := 0])
  {
    IndexDecode(N, i, j);
  }

  /** Stage 2 at cell (i, j) on the buffers: only a masked cell acts. */
  method Stage2AtInPlace(a: array<int>, m: array<int>, N: int, i: int, j: int, id: int, probs: seq<real>, d: CellDraw)
    requires a != m && a.Length == N * N && m.Length == N * N && Within(N, i, j)
    requires ValidProbs(probs) && ValidDraw(d)
    requires id == N * i + j && 0 <= id < N * N
    modifies a, m
    ensures Automaton(a[..], m[..]) == Stage2Visit(Automaton(old(a[..]), old(m[..])), N, probs, d, id)
  {
    ghost var h := Automaton(a[..], m[..]);
    Stage2VisitAt(h, N, probs, d, i, j, id);
    if m[id] == 1 {
      Stage2VisitInPlace(a, m, N, i, j, id, probs, d);
      assert a[..] == Invasion(h.cells, N, i, j, probs[1], d);
      assert m[..] == h.mask[id := 0];
    }
  }

  /** Stage 1 of `step` on buffers: one element-wise sweep, computing exactly `Stage1`. */
  method RunStage1(g: seq<int>, mask: seq<int>, N: int, probs: seq<real>, draws: seq<CellDraw>)
    returns (s: Automaton)
    requires WellSized(Automaton(g, mask), N) && ValidProbs(probs) && ValidStepDraws(N, draws)
    ensures s == Stage1(Automaton(g, mask), N, probs, draws)
  {
    var a := new int[N * N](x requires 0 <= x < N * N => g[x]);
    var m := new int[N * N](x requires 0 <= x < N * N => mask[x]);
    var id := 0;
    while id < N * N
      invariant 0 <= id <= N * N
      invariant forall x :: 0 <= x < id ==> (a[x], m[x]) == Stage1Cell(g[x], mask[x], draws[x].r, probs)
      invariant forall x :: id <= x < N * N ==> a[x] == g[x] && m[x] == mask[x]
    {
      var r := draws[id].r;
      var v := a[id];
      if v == NORMAL && r < probs[0] {
        a[id] := CANCER;
      } else if v == CANCER {
        if r < probs[2] {
          a[id] := EFFECTOR;
        } else {
          m[id] := 1;
        }
      } else if v == EFFECTOR && r < probs[3] {
        a[id] := DEAD;
      } else if v == DEAD && r < probs[4] {
        a[id] := NORMAL;
      }
      id := id + 1;
    }
    s := Automaton(a[..], m[..]);
  }

  /** Row i of the stage-2 sweep on the buffers. */
  method Stage2RowInPlace(a: array<int>, m: array<int>, s: Automaton, N: int, i: int, start: int,
                          probs: seq<real>, draws: seq<CellDraw>)
    requires a != m && WellSized(s, N) && a.Length == N * N && m.Length == N * N
    requires ValidProbs(probs) && ValidStepDraws(N, draws)
    requires 0 <= i < N && start == N * i && start + N <= N * N
    requires Automaton(a[..], m[..]) == Stage2Pass(s, N, probs, draws, start)
    modifies a, m
    ensures Automaton(a[..], m[..]) == Stage2Pass(s, N, probs, draws, start + N)
  {
    var id := start;
    var j := 0;
    while j < N
      invariant 0 <= j <= N && id == N * i + j && id <= N * N
      invariant Automaton(a[..], m[..]) == Stage2Pass(s, N, probs, draws, id)
    {
      IndexDecode(N, i, j);
      Stage2AtInPlace(a, m, N, i, j, id, probs, draws[id]);
      id := id + 1;
      j := j + 1;
    }
  }

  /** Fresh, distinct buffers holding the grid and the mask. */
  method Buffers(s: Automaton, N: int) returns (a: array<int>, m: array<int>)
    requires WellSized(s, N)
    ensures fresh(a) && fresh(m) && a != m
    ensures a[..] == s.cells && m[..] == s.mask
  {
    a := new int[N * N](x requires 0 <= x < N * N => s.cells[x]);
    m := new int[N * N](x requires 0 <= x < N * N => s.mask[x]);
    assert a[..] == s.cells;
    assert m[..] == s.mask;
  }

  /** The row loop of stage 2 on the buffers: every row in turn, from the
      stage-1 result to the full `Stage2Pass`. */
  method Stage2Rows(a: array<int>, m: array<int>, s: Automaton, N: int, probs: seq<real>, draws: seq<CellDraw>)
    requires a != m && WellSized(s, N) && a.Length == N * N && m.Length == N * N
    requires ValidProbs(probs) && ValidStepDraws(N, draws)
    requires a[..] == s.cells && m[..] == s.mask
    modifies a, m
    ensures Automaton(a[..], m[..]) == Stage2Pass(s, N, probs, draws, N * N)
  {
    var i, id := 0, 0;
    while i < N
      invariant 0 <= i <= N && id == N * i
      invariant Automaton(a[..], m[..]) == Stage2Pass(s, N, probs, draws, id)
    {
      RowBounds(N, i);
      Stage2RowInPlace(a, m, s, N, i, id, probs, draws);
      i, id := i + 1, id + N;
    }
  }

  /** Stage 2 of `step` on buffers: the row-major sweep over the masked
      cells, computing exactly the full `Stage2Pass`. */
  method RunStage2(s: Automaton, N: int, probs: seq<real>, draws: seq<CellDraw>) returns (r: Automaton)
    requires WellSized(s, N) && ValidProbs(probs) && ValidStepDraws(N, draws)
    ensures r == Stage2Pass(s, N, probs, draws, N * N)
  {
    var a, m := Buffers(s, N);
    Stage2Rows(a, m, s, N, probs, draws);
    r := Automaton(a[..], m[..]);
  }

  /** `step` of `automata.c` on buffers: stage 1, then stage 2. From a clear
      mask the mask ends clear and the grid keeps persisted states. */
  method RunTwoStageStep(g: seq<int>, mask: seq<int>, N: int, probs: seq<real>, draws: seq<CellDraw>)
    returns (r: Automaton)
    requires WellSized(Automaton(g, mask), N) && ValidProbs(probs) && ValidStepDraws(N, draws)
    ensures r == TwoStageStep(Automaton(g, mask), N, probs, draws)
    ensures ValidGrid(g, N) && mask == seq(N * N, _ => 0) ==> ValidGrid(r.cells, N) && ClearMask(r)
  {
    var s := RunStage1(g, mask, N, probs, draws);
    r := RunStage2(s, N, probs, draws);
    if ValidGrid(g, N) && mask == seq(N * N, _ => 0) {
      TwoStageFates(g, N, probs, draws);
    }
  }
}
