/**
 The drivers of `c_automata.c` built on `step`: the rejection-sampling
 seeder `init_state`, the evolution loops `iterate` and `iterate_endcount`,
 and the integer histogram behind `pdf`.
 */
module CDrivers {
  import opened Results
  import opened Draws
  import opened Grid
  import opened Counting
  import opened CAutomata

  /* ----------------------------------------------------------------------
     init_state
     ---------------------------------------------------------------------- */

  /** One candidate of the rejection sampler: the draws behind `randint(0, N - 1)` for the row and the column. */
  datatype Pick = Pick(ux: real, uy: real)

  predicate ValidPicks(picks: seq<Pick>) {
    forall t :: 0 <= t < |picks| ==> Unit(picks[t].ux) && Unit(picks[t].uy)
  }

  /** The buffer index a candidate names; always on the grid. */
  function PickIndex(N: int, p: Pick): (idx: nat)
    requires N >= 1 && Unit(p.ux) && Unit(p.uy)
    ensures idx < N * N
  {
    var x := RandInt(p.ux, 0, N - 1);
    var y := RandInt(p.uy, 0, N - 1);
    IndexDecode(N, x, y);
    N * x + y
  }

  /** The set of cells a supply of candidates names. */
  ghost function PickedCells(N: int, picks: seq<Pick>): set<int>
    requires N >= 1 && ValidPicks(picks)
    decreases |picks|
  {
    if |picks| == 0 then {} else {PickIndex(N, picks[0])} + PickedCells(N, picks[1..])
  }

  /** The placement loop of `init_state` from a grid g with `placed` cells
      already set: draw a cell, and if it is not yet Cancer make it Cancer and
      count it, until m cells are placed. The source draws without end; here
      the draws are a finite supply and None means it ran out first. */
  function Place(g: seq<int>, N: int, m: nat, picks: seq<Pick>, placed: nat): (r: Option<seq<int>>)
    requires N >= 1 && |g| == N * N && ValidPicks(picks)
    ensures r.Some? ==> |r.value| == |g|
    decreases |picks|
  {
    if placed >= m then Some(g)
    else if |picks| == 0 then None
    else
      var idx := PickIndex(N, picks[0]);
      if g[idx] != CANCER then Place(g[idx := CANCER], N, m, picks[1..], placed + 1)
      else Place(g, N, m, picks[1..], placed)
  }

  /** The all-Normal grid `init_state` starts from. */
  function AllNormal(N: int): (g: seq<int>)
    requires N >= 1
    ensures ValidGrid(g, N) && forall x :: 0 <= x < |g| ==> g[x] == NORMAL
  {
    seq(N * N, _ => NORMAL)
  }

  /** `init_state`: clear the grid, then place m Cancer cells by rejection sampling. */
  function InitSpec(N: int, m: nat, picks: seq<Pick>): Option<seq<int>>
    requires N >= 1 && ValidPicks(picks)
  {
    Place(AllNormal(N), N, m, picks, 0)
  }

  /** The placement loop ends with exactly m Cancer cells, the rest Normal. */
  lemma {:induction false} PlaceCounts(g: seq<int>, N: int, m: nat, picks: seq<Pick>, placed: nat)
    requires N >= 1 && |g| == N * N && ValidPicks(picks)
    requires forall x :: 0 <= x < |g| ==> g[x] == NORMAL || g[x] == CANCER
    requires Count(g, CANCER) == placed <= m
    ensures Place(g, N, m, picks, placed).Some? ==>
              var r := Place(g, N, m, picks, placed).value;
              && (forall x :: 0 <= x < |r| ==> r[x] == NORMAL || r[x] == CANCER)
              && Count(r, CANCER) == m
              && Count(r, NORMAL) == N * N - m
    decreases |picks|
  {
    if placed >= m {
      CountsPartition(g);
      CountUniform([], CANCER, CANCER);
      assert Count(g, EFFECTOR) == 0 && Count(g, DEAD) == 0 by {
        CountIsCardinality(g, EFFECTOR);
        CountIsCardinality(g, DEAD);
        assert Positions(g, EFFECTOR) == {};
        assert Positions(g, DEAD) == {};
      }
    } else if |picks| > 0 {
      var idx := PickIndex(N, picks[0]);
      if g[idx] != CANCER {
        CountUpdate(g, idx, CANCER, CANCER);
        PlaceCounts(g[idx := CANCER], N, m, picks[1..], placed + 1);
      } else {
        PlaceCounts(g, N, m, picks[1..], placed);
      }
    }
  }

  /** The placement loop finishes exactly when the cells already Cancer and
      the cells the supply names together number at least m. */
  lemma {:induction false} PlaceSucceeds(g: seq<int>, N: int, m: nat, picks: seq<Pick>, placed: nat)
    requires N >= 1 && |g| == N * N && ValidPicks(picks)
    requires |Positions(g, CANCER)| == placed
    ensures Place(g, N, m, picks, placed).Some? <==> |Positions(g, CANCER) + PickedCells(N, picks)| >= m
    decreases |picks|
  {
    var ones := Positions(g, CANCER);
    SubsetCardinality(ones, ones + PickedCells(N, picks));
    if placed < m && |picks| > 0 {
      var idx := PickIndex(N, picks[0]);
      var rest := PickedCells(N, picks[1..]);
      assert PickedCells(N, picks) == {idx} + rest;
      UnionStep(ones, idx, rest);
      if g[idx] != CANCER {
        PositionsMark(g, idx);
        PlaceSucceeds(g[idx := CANCER], N, m, picks[1..], placed + 1);
      } else {
        assert idx in ones;
        PlaceSucceeds(g, N, m, picks[1..], placed);
      }
    }
  }

  /** Adding a cell to the placed set before the rest of the supply, or
      finding it there already, gives the same union. */
  lemma UnionStep<T>(ones: set<T>, idx: T, rest: set<T>)
    ensures (ones + {idx}) + rest == ones + ({idx} + rest)
    ensures idx in ones ==> ones + rest == ones + ({idx} + rest)
  {
  }

  /** Marking a cell Cancer adds exactly that cell to the Cancer positions. */
  lemma PositionsMark(g: seq<int>, idx: nat)
    requires idx < |g|
    ensures Positions(g[idx := CANCER], CANCER) == Positions(g, CANCER) + {idx}
  {
  }

  /** A set of buffer indices below n has at most n members. */
  lemma {:induction false} IndicesBounded(S: set<int>, n: nat)
    requires forall x :: x in S ==> 0 <= x < n
    ensures |S| <= n
    decreases n
  {
    if n > 0 {
      IndicesBounded(S - {n - 1}, n - 1);
    } else {
      assert forall x :: x !in S;
      assert S == {};
    }
  }

  /** A subset is no larger than its superset. */
  lemma {:induction false} SubsetCardinality<T>(A: set<T>, B: set<T>)
    requires A <= B
    ensures |A| <= |B|
    decreases |A|
  {
    if A != {} {
      var x :| x in A;
      SubsetCardinality(A - {x}, B - {x});
    }
  }

  /** `init_state` succeeds exactly when the supply names at least m distinct
      cells, and then leaves exactly m Cancer and N * N - m Normal cells. */
  lemma InitStateOutcome(N: int, m: nat, picks: seq<Pick>)
    requires N >= 1 && ValidPicks(picks)
    ensures InitSpec(N, m, picks).Some? <==> |PickedCells(N, picks)| >= m
    ensures InitSpec(N, m, picks).Some? ==>
              var g := InitSpec(N, m, picks).value;
              && ValidGrid(g, N)
              && Count(g, CANCER) == m
              && Count(g, NORMAL) == N * N - m
  {
    var g := AllNormal(N);
    assert Positions(g, CANCER) == {};
    CountIsCardinality(g, CANCER);
    PlaceSucceeds(g, N, m, picks, 0);
    PlaceCounts(g, N, m, picks, 0);
  }

  /** More Cancer cells than the grid holds can never all be placed: no
      finite supply of draws lets the loop finish (the source loops forever). */
  lemma InitStateOverfull(N: int, m: nat, picks: seq<Pick>)
    requires N >= 1 && ValidPicks(picks)
    requires m > N * N
    ensures InitSpec(N, m, picks) == None
  {
    InitStateOutcome(N, m, picks);
    PickedInGrid(N, picks);
    IndicesBounded(PickedCells(N, picks), N * N);
  }

  /** The candidate whose two `randint(0, N - 1)` draws give the row and the
      column of cell id: the draws id / N and id % N, each divided by N. */
  function CellPick(N: int, id: int): (p: Pick)
    requires N >= 1 && 0 <= id < N * N
    ensures Unit(p.ux) && Unit(p.uy)
  {
    CellOf(N, id);
    Pick(Scaled(N, id / N), Scaled(N, id % N))
  }

  /** The candidate for cell id names cell id. */
  lemma CellPickIndex(N: int, id: int)
    requires N >= 1 && 0 <= id < N * N
    ensures PickIndex(N, CellPick(N, id)) == id
  {
    CellOf(N, id);
    ScaledDraw(N, id / N);
    ScaledDraw(N, id % N);
  }

  /** The candidates for cells k .. N * N - 1 in row-major order. */
  function SweepFrom(N: int, k: nat): (picks: seq<Pick>)
    requires N >= 1
    ensures ValidPicks(picks)
    decreases N * N - k
  {
    if k >= N * N then [] else [CellPick(N, k)] + SweepFrom(N, k + 1)
  }

  /** The indices k .. n - 1. */
  ghost function Span(k: int, n: int): (r: set<int>)
    ensures forall x :: x in r <==> k <= x < n
    decreases n - k
  {
    if k >= n then {} else {k} + Span(k + 1, n)
  }

  /** A row-major sweep from cell k names exactly the cells k .. N * N - 1. */
  lemma {:induction false} SweepFromNames(N: int, k: nat)
    requires N >= 1
    ensures PickedCells(N, SweepFrom(N, k)) == Span(k, N * N)
    decreases N * N - k
  {
    if k < N * N {
      SweepFromNames(N, k + 1);
      CellPickIndex(N, k);
      assert SweepFrom(N, k)[1..] == SweepFrom(N, k + 1);
    }
  }

  /** The span k .. n - 1 has n - k members. */
  lemma {:induction false} SpanCardinality(k: int, n: int)
    requires k <= n
    ensures |Span(k, n)| == n - k
    decreases n - k
  {
    if k < n {
      SpanCardinality(k + 1, n);
      assert k !in Span(k + 1, n);
    }
  }

  /** Drawing every cell once, in row-major order, places any m <= N * N
      Cancer cells. */
  lemma SweepFinishes(N: int, m: nat)
    requires N >= 1 && m <= N * N
    ensures InitSpec(N, m, SweepFrom(N, 0)).Some?
  {
    SweepFromNames(N, 0);
    SpanCardinality(0, N * N);
    InitStateOutcome(N, m, SweepFrom(N, 0));
  }

  /** Some supply of draws lets `init_state` finish exactly when m <= N * N. */
  lemma InitStateFeasible(N: int, m: nat)
    requires N >= 1
    ensures (exists picks :: ValidPicks(picks) && InitSpec(N, m, picks).Some?) <==> m <= N * N
  {
    if m <= N * N {
      SweepFinishes(N, m);
    } else {
      forall picks | ValidPicks(picks)
        ensures InitSpec(N, m, picks) == None
      {
        InitStateOverfull(N, m, picks);
      }
    }
  }

  /** Every named cell is on the grid. */
  lemma {:induction false} PickedInGrid(N: int, picks: seq<Pick>)
    requires N >= 1 && ValidPicks(picks)
    ensures forall x :: x in PickedCells(N, picks) ==> 0 <= x < N * N
    decreases |picks|
  {
    if |picks| > 0 {
      PickedInGrid(N, picks[1..]);
    }
  }

  /** `init_state` on a buffer: zero it, then sample cells until m are Cancer
      (or the supply of draws runs out). */
  method InitState(N: int, m: nat, picks: seq<Pick>) returns (res: Option<seq<int>>)
    requires N >= 1 && ValidPicks(picks)
    ensures res == InitSpec(N, m, picks)
    ensures res.Some? <==> |PickedCells(N, picks)| >= m
    ensures res.Some? ==> ValidGrid(res.value, N) && Count(res.value, CANCER) == m && Count(res.value, NORMAL) == N * N - m
  {
    var a := new int[N * N];
    var i := 0;
    while i < N * N
      invariant 0 <= i <= N * N
      invariant forall x :: 0 <= x < i ==> a[x] == NORMAL
    {
      a[i] := NORMAL;
      i := i + 1;
    }
    assert a[..] == AllNormal(N);
    var placed := 0;
    var t := 0;
    while placed < m && t < |picks|
      invariant 0 <= t <= |picks| && 0 <= placed
      invariant Place(a[..], N, m, picks[t..], placed) == InitSpec(N, m, picks)
    {
      assert picks[t..][0] == picks[t] && picks[t..][1..] == picks[t + 1..];
      var x := RandInt(picks[t].ux, 0, N - 1);
      var y := RandInt(picks[t].uy, 0, N - 1);
      IndexDecode(N, x, y);
      if a[N * x + y] != CANCER {
        a[N * x + y] := CANCER;
        placed := placed + 1;
      }
      t := t + 1;
    }
    if placed < m {
      res := None;
    } else {
      res := Some(a[..]);
    }
    InitStateOutcome(N, m, picks);
  }

  /* ----------------------------------------------------------------------
     iterate, iterate_endcount
     ---------------------------------------------------------------------- */

  /** One draw sequence per step, each with one draw per cell. */
  predicate ValidRunDraws(N: int, ds: seq<seq<CellDraw>>) {
    forall s :: 0 <= s < |ds| ==> ValidStepDraws(N, ds[s])
  }

  /** The grid after n steps. */
  function Run(g: seq<int>, N: int, probs: seq<real>, ds: seq<seq<CellDraw>>, n: nat): (r: seq<int>)
    requires N >= 1 && |g| == N * N && ValidProbs(probs) && ValidRunDraws(N, ds) && n <= |ds|
    ensures |r| == |g|
    decreases n
  {
    if n == 0 then g else Step(Run(g, N, probs, ds, n - 1), N, probs, ds[n - 1])
  }

  /** Steps keep the grid valid: every cell keeps a persisted state, so the tallies stay defined. */
  lemma {:induction false} RunValid(g: seq<int>, N: int, probs: seq<real>, ds: seq<seq<CellDraw>>, n: nat)
    requires ValidGrid(g, N) && ValidProbs(probs) && ValidRunDraws(N, ds) && n <= |ds|
    ensures ValidGrid(Run(g, N, probs, ds, n), N)
    decreases n
  {
    if n > 0 {
      RunValid(g, N, probs, ds, n - 1);
      StepFates(Run(g, N, probs, ds, n - 1), N, probs, ds[n - 1]);
    }
  }

  /** Row t of a flat table with four entries per row. */
  function Row(table: seq<int>, t: nat): seq<int>
    requires 4 * t + 4 <= |table|
  {
    table[4 * t .. 4 * t + 4]
  }

  /** Appending a row of four leaves the earlier rows alone and becomes the next row. */
  lemma RowsAppend(table: seq<int>, row: seq<int>)
    requires |table| % 4 == 0 && |row| == 4
    ensures forall t :: 0 <= t && 4 * t + 4 <= |table| ==> Row(table + row, t) == Row(table, t)
    ensures Row(table + row, |table| / 4) == row
  {
  }

  /** Rows of four laid end to end, as `iterate` fills `out_counts`. */
  function Flatten(rows: seq<seq<int>>): (table: seq<int>)
    requires forall t :: 0 <= t < |rows| ==> |rows[t]| == 4
    ensures |table| == 4 * |rows|
    decreases |rows|
  {
    if |rows| == 0 then [] else Flatten(rows[..|rows| - 1]) + rows[|rows| - 1]
  }

  /** Row t of the flat table is the t-th row. */
  lemma {:induction false} FlattenRows(rows: seq<seq<int>>)
    requires forall t :: 0 <= t < |rows| ==> |rows[t]| == 4
    ensures forall t :: 0 <= t < |rows| ==> Row(Flatten(rows), t) == rows[t]
    decreases |rows|
  {
    if |rows| > 0 {
      var n := |rows| - 1;
      FlattenRows(rows[..n]);
      RowsAppend(Flatten(rows[..n]), rows[n]);
      assert |Flatten(rows[..n])| / 4 == n;
    }
  }

  /** The tallies after each of the first n steps, one row per step. */
  ghost function History(g: seq<int>, N: int, probs: seq<real>, ds: seq<seq<CellDraw>>, n: nat): (rows: seq<seq<int>>)
    requires N >= 1 && |g| == N * N && ValidProbs(probs) && ValidRunDraws(N, ds) && n <= |ds|
    ensures |rows| == n && forall t :: 0 <= t < n ==> |rows[t]| == 4
    decreases n
  {
    if n == 0 then [] else History(g, N, probs, ds, n - 1) + [TypeCounts(Run(g, N, probs, ds, n))]
  }

  /** Row t of the history is the tally after step t + 1, and it sums to the cell count. */
  lemma {:induction false} HistoryRows(g: seq<int>, N: int, probs: seq<real>, ds: seq<seq<CellDraw>>, n: nat)
    requires ValidGrid(g, N) && ValidProbs(probs) && ValidRunDraws(N, ds) && n <= |ds|
    ensures forall t :: 0 <= t < n ==> History(g, N, probs, ds, n)[t] == TypeCounts(Run(g, N, probs, ds, t + 1))
    ensures forall t :: 0 <= t < n ==>
              var row := History(g, N, probs, ds, n)[t];
              row[0] + row[1] + row[2] + row[3] == N * N
    decreases n
  {
    if n > 0 {
      HistoryRows(g, N, probs, ds, n - 1);
      RunValid(g, N, probs, ds, n);
      CountsPartition(Run(g, N, probs, ds, n));
      var prev, last := History(g, N, probs, ds, n - 1), TypeCounts(Run(g, N, probs, ds, n));
      var h := History(g, N, probs, ds, n);
      assert h == prev + [last];
      assert last[0] + last[1] + last[2] + last[3] == N * N;
      forall t | 0 <= t < n
        ensures h[t] == TypeCounts(Run(g, N, probs, ds, t + 1))
        ensures h[t][0] + h[t][1] + h[t][2] + h[t][3] == N * N
      {
        if t < n - 1 {
          assert h[t] == prev[t];
        } else {
          assert h[t] == last;
        }
      }
    }
  }

  /** One more step appends its tallies to the flat history. */
  lemma HistoryExtend(g: seq<int>, N: int, probs: seq<real>, ds: seq<seq<CellDraw>>, i: nat, counts: seq<int>)
    requires ValidGrid(g, N) && ValidProbs(probs) && ValidRunDraws(N, ds) && i < |ds|
    requires counts == TypeCounts(Step(Run(g, N, probs, ds, i), N, probs, ds[i]))
    ensures Step(Run(g, N, probs, ds, i), N, probs, ds[i]) == Run(g, N, probs, ds, i + 1)
    ensures Flatten(History(g, N, probs, ds, i)) + counts == Flatten(History(g, N, probs, ds, i + 1))
  {
    assert History(g, N, probs, ds, i + 1)[..i] == History(g, N, probs, ds, i);
  }

  /** The flat history, read row by row, is the tallies after each step. */
  lemma HistoryTable(g: seq<int>, N: int, probs: seq<real>, ds: seq<seq<CellDraw>>, steps: nat)
    requires ValidGrid(g, N) && ValidProbs(probs) && ValidRunDraws(N, ds) && steps <= |ds|
    ensures |Flatten(History(g, N, probs, ds, steps))| == 4 * steps
    ensures forall t :: 0 <= t < steps ==>
              Row(Flatten(History(g, N, probs, ds, steps)), t) == TypeCounts(Run(g, N, probs, ds, t + 1))
    ensures forall t :: 0 <= t < steps ==>
              var row := Row(Flatten(History(g, N, probs, ds, steps)), t);
              row[0] + row[1] + row[2] + row[3] == N * N
  {
    HistoryRows(g, N, probs, ds, steps);
    FlattenRows(History(g, N, probs, ds, steps));
  }

  /** One round of `iterate`: a step, then the tallies of the new grid. */
  method StepAndCount(g: seq<int>, N: int, probs: seq<real>, draws: seq<CellDraw>) returns (next: seq<int>, counts: seq<int>)
    requires ValidGrid(g, N) && ValidProbs(probs) && ValidStepDraws(N, draws)
    ensures next == Step(g, N, probs, draws) && ValidGrid(next, N)
    ensures counts == TypeCounts(next) && counts[0] + counts[1] + counts[2] + counts[3] == N * N
  {
    next := RunStep(g, N, probs, draws);
    counts := TypeCount(next, N);
  }

  /** `iterate`: run `steps` steps and record the tallies after each; row t
      of the table holds the tallies after t + 1 steps, and every row adds up
      to the cell count. */
  method Iterate(g: seq<int>, N: int, steps: nat, probs: seq<real>, ds: seq<seq<CellDraw>>)
    returns (final: seq<int>, outCounts: seq<int>)
    requires ValidGrid(g, N) && ValidProbs(probs) && ValidRunDraws(N, ds) && |ds| == steps
    ensures final == Run(g, N, probs, ds, steps)
    ensures |outCounts| == 4 * steps
    ensures forall t :: 0 <= t < steps ==> Row(outCounts, t) == TypeCounts(Run(g, N, probs, ds, t + 1))
    ensures forall t :: 0 <= t < steps ==>
              var row := Row(outCounts, t);
              row[0] + row[1] + row[2] + row[3] == N * N
  {
    final := g;
    outCounts := [];
    var i := 0;
    while i < steps
      invariant 0 <= i <= steps
      invariant final == Run(g, N, probs, ds, i) && ValidGrid(final, N)
      invariant outCounts == Flatten(History(g, N, probs, ds, i))
    {
      var counts;
      final, counts := StepAndCount(final, N, probs, ds[i]);
      HistoryExtend(g, N, probs, ds, i, counts);
      outCounts := outCounts + counts;
      i := i + 1;
    }
    HistoryTable(g, N, probs, ds, steps);
  }

  /** `iterate_endcount`: the same evolution, tallied once at the end. */
  method IterateEndcount(g: seq<int>, N: int, steps: nat, probs: seq<real>, ds: seq<seq<CellDraw>>)
    returns (final: seq<int>, counts: seq<int>)
    requires ValidGrid(g, N) && ValidProbs(probs) && ValidRunDraws(N, ds) && |ds| == steps
    ensures final == Run(g, N, probs, ds, steps) && ValidGrid(final, N)
    ensures counts == TypeCounts(final)
    ensures counts[NORMAL] + counts[CANCER] + counts[EFFECTOR] + counts[DEAD] == N * N
  {
    final := g;
    var i := 0;
    while i < steps
      invariant 0 <= i <= steps
      invariant final == Run(g, N, probs, ds, i) && ValidGrid(final, N)
    {
      final := RunStep(final, N, probs, ds[i]);
      i := i + 1;
    }
    counts := TypeCount(final, N);
  }

  /** Without mutation an all-Normal grid stays all-Normal for any number of steps. */
  lemma {:induction false} RunAllNormalFixed(N: int, probs: seq<real>, ds: seq<seq<CellDraw>>, n: nat)
    requires N >= 1 && ValidProbs(probs) && ValidRunDraws(N, ds) && n <= |ds|
    requires probs[0] <= 0.0
    ensures Run(AllNormal(N), N, probs, ds, n) == AllNormal(N)
    decreases n
  {
    if n > 0 {
      RunAllNormalFixed(N, probs, ds, n - 1);
      StepAllNormalFixed(AllNormal(N), N, probs, ds[n - 1]);
    }
  }

  /* ----------------------------------------------------------------------
     pdf (integer histogram)
     ---------------------------------------------------------------------- */

  /** The draws of one realization: the sampler's candidates and one draw sequence per step. */
  datatype RunDraws = RunDraws(picks: seq<Pick>, stepDraws: seq<seq<CellDraw>>)

  predicate ValidRealizations(N: int, steps: nat, runs: seq<RunDraws>) {
    forall t :: 0 <= t < |runs| ==>
      ValidPicks(runs[t].picks) && |runs[t].stepDraws| == steps && ValidRunDraws(N, runs[t].stepDraws)
  }

  datatype PdfError =
    | DrawsExhausted                 // a seeding ran out of candidates (the source would keep sampling)
    | HistogramOverflow(index: int)  // a final count has no bucket in the buffer

  /** The Cancer count at the end of one realization: seed, evolve, tally. */
  function FinalCancer(N: int, cCells: nat, steps: nat, probs: seq<real>, rd: RunDraws): (r: Option<nat>)
    requires N >= 1 && ValidProbs(probs)
    requires ValidPicks(rd.picks) && |rd.stepDraws| == steps && ValidRunDraws(N, rd.stepDraws)
    ensures r.Some? ==> r.value <= N * N
  {
    match InitSpec(N, cCells, rd.picks)
    case None => None
    case Some(g0) => Some(Count(Run(g0, N, probs, rd.stepDraws, steps), CANCER))
  }

  /** The final Cancer counts of all realizations, or None if a seeding ran out of candidates. */
  function FinalCounts(N: int, cCells: nat, steps: nat, probs: seq<real>, runs: seq<RunDraws>): (r: Option<seq<int>>)
    requires N >= 1 && ValidProbs(probs) && ValidRealizations(N, steps, runs)
    ensures r.Some? ==> |r.value| == |runs|
    decreases |runs|
  {
    if |runs| == 0 then Some([])
    else
      var n := |runs| - 1;
      match FinalCounts(N, cCells, steps, probs, runs[..n])
      case None => None
      case Some(fs) =>
        match FinalCancer(N, cCells, steps, probs, runs[n])
        case None => None
        case Some(c) => Some(fs + [c])
  }

  /** Every final count lies between 0 and the cell count. */
  lemma {:induction false} FinalCountsBounded(N: int, cCells: nat, steps: nat, probs: seq<real>, runs: seq<RunDraws>)
    requires N >= 1 && ValidProbs(probs) && ValidRealizations(N, steps, runs)
    ensures FinalCounts(N, cCells, steps, probs, runs).Some? ==>
              forall t :: 0 <= t < |runs| ==> 0 <= FinalCounts(N, cCells, steps, probs, runs).value[t] <= N * N
    decreases |runs|
  {
    if |runs| > 0 {
      FinalCountsBounded(N, cCells, steps, probs, runs[..|runs| - 1]);
    }
  }

  /** Once a seeding runs out of candidates, no later realization recovers the run. */
  lemma {:induction false} FinalCountsFailureSticks(N: int, cCells: nat, steps: nat, probs: seq<real>, runs: seq<RunDraws>, i: nat)
    requires N >= 1 && ValidProbs(probs) && ValidRealizations(N, steps, runs) && i <= |runs|
    requires FinalCounts(N, cCells, steps, probs, runs[..i]).None?
    ensures FinalCounts(N, cCells, steps, probs, runs).None?
    decreases |runs| - i
  {
    if i < |runs| {
      var n := |runs| - 1;
      assert runs[..n][..i] == runs[..i];
      FinalCountsFailureSticks(N, cCells, steps, probs, runs[..n], i);
    } else {
      assert runs[..i] == runs;
    }
  }

  /** The histogram loop of `pdf` over a zeroed buffer of length `len`: each
      final count increments its bucket, and a count with no bucket is an overflow. */
  function Tally(len: nat, fs: seq<int>): (r: Result<seq<int>, PdfError>)
    ensures r.Success? ==> |r.value| == len
    decreases |fs|
  {
    if |fs| == 0 then Success(seq(len, _ => 0))
    else
      var c := fs[|fs| - 1];
      match Tally(len, fs[..|fs| - 1])
      case Failure(e) => Failure(e)
      case Success(h) => if 0 <= c < len then Success(h[c := h[c] + 1]) else Failure(HistogramOverflow(c))
  }

  /** The sum of a histogram's buckets. */
  function Sum(h: seq<int>): int
    decreases |h|
  {
    if |h| == 0 then 0 else Sum(h[..|h| - 1]) + h[|h| - 1]
  }

  /** Incrementing one bucket adds one to the sum. */
  lemma {:induction false} SumIncrement(h: seq<int>, c: int)
    requires 0 <= c < |h|
    ensures Sum(h[c := h[c] + 1]) == Sum(h) + 1
    decreases |h|
  {
    var n := |h| - 1;
    if c < n {
      SumIncrement(h[..n], c);
      assert h[c := h[c] + 1][..n] == h[..n][c := h[..n][c] + 1];
    } else {
      assert h[c := h[c] + 1][..n] == h[..n];
    }
  }

  lemma {:induction false} SumZeros(len: nat)
    ensures Sum(seq(len, _ => 0)) == 0
    decreases len
  {
    if len > 0 {
      assert seq(len, _ => 0)[..len - 1] == seq(len - 1, _ => 0);
      SumZeros(len - 1);
    }
  }

  /** The tally succeeds exactly when every count has a bucket. */
  lemma {:induction false} TallySucceeds(len: nat, fs: seq<int>)
    ensures Tally(len, fs).Success? <==> forall t :: 0 <= t < |fs| ==> 0 <= fs[t] < len
    decreases |fs|
  {
    if |fs| > 0 {
      var n := |fs| - 1;
      TallySucceeds(len, fs[..n]);
      assert forall t :: 0 <= t < n ==> fs[..n][t] == fs[t];
    }
  }

  /** A successful tally holds in bucket k the number of counts equal to k,
      and so receives exactly one increment per count. */
  lemma {:induction false} TallyCounts(len: nat, fs: seq<int>)
    ensures Tally(len, fs).Success? ==>
              && Sum(Tally(len, fs).value) == |fs|
              && forall k :: 0 <= k < len ==> Tally(len, fs).value[k] == Count(fs, k)
    decreases |fs|
  {
    if |fs| == 0 {
      SumZeros(len);
    } else {
      var n := |fs| - 1;
      TallyCounts(len, fs[..n]);
      var c := fs[n];
      if Tally(len, fs).Success? {
        SumIncrement(Tally(len, fs[..n]).value, c);
      }
    }
  }

  /** `pdf`'s histogram with `len` buckets, over all realizations. */
  function HistogramOf(len: nat, N: int, cCells: nat, steps: nat, probs: seq<real>, runs: seq<RunDraws>): Result<seq<int>, PdfError>
    requires N >= 1 && ValidProbs(probs) && ValidRealizations(N, steps, runs)
  {
    match FinalCounts(N, cCells, steps, probs, runs)
    case None => Failure(DrawsExhausted)
    case Some(fs) => Tally(len, fs)
  }

  /** The histogram with one bucket for every possible final count, 0 to N * N. */
  function Histogram(N: int, cCells: nat, steps: nat, probs: seq<real>, runs: seq<RunDraws>): Result<seq<int>, PdfError>
    requires N >= 1 && ValidProbs(probs) && ValidRealizations(N, steps, runs)
  {
    HistogramOf(N * N + 1, N, cCells, steps, probs, runs)
  }

  /** `pdf` as written: the histogram buffer holds N * N buckets, 0 to N * N - 1. */
  function HistogramAsWritten(N: int, cCells: nat, steps: nat, probs: seq<real>, runs: seq<RunDraws>): Result<seq<int>, PdfError>
    requires N >= 1 && ValidProbs(probs) && ValidRealizations(N, steps, runs)
  {
    HistogramOf(N * N, N, cCells, steps, probs, runs)
  }

  /** With N * N + 1 buckets the histogram never overflows: it fails only when
      a seeding runs out of candidates, and otherwise bucket k counts the
      realizations that ended with k Cancer cells. */
  lemma HistogramCorrect(N: int, cCells: nat, steps: nat, probs: seq<real>, runs: seq<RunDraws>)
    requires N >= 1 && ValidProbs(probs) && ValidRealizations(N, steps, runs)
    ensures Histogram(N, cCells, steps, probs, runs).Success? <==> FinalCounts(N, cCells, steps, probs, runs).Some?
    ensures Histogram(N, cCells, steps, probs, runs).Success? ==>
              var h := Histogram(N, cCells, steps, probs, runs).value;
              && |h| == N * N + 1
              && Sum(h) == |runs|
              && forall k :: 0 <= k < |h| ==> h[k] == Count(FinalCounts(N, cCells, steps, probs, runs).value, k)
  {
    FinalCountsBounded(N, cCells, steps, probs, runs);
    var fc := FinalCounts(N, cCells, steps, probs, runs);
    if fc.Some? {
      TallySucceeds(N * N + 1, fc.value);
      TallyCounts(N * N + 1, fc.value);
    }
  }

  /** As written, any realization that ends with every cell Cancer writes one
      past the end of the histogram. */
  lemma PdfAsWrittenOverflows(N: int, cCells: nat, steps: nat, probs: seq<real>, runs: seq<RunDraws>, t: nat)
    requires N >= 1 && ValidProbs(probs) && ValidRealizations(N, steps, runs)
    requires FinalCounts(N, cCells, steps, probs, runs).Some? && t < |runs|
    requires FinalCounts(N, cCells, steps, probs, runs).value[t] == N * N
    ensures HistogramAsWritten(N, cCells, steps, probs, runs).Failure?
  {
    TallySucceeds(N * N, FinalCounts(N, cCells, steps, probs, runs).value);
  }

  /** Seeding the 1 x 1 grid with its one cell makes it Cancer. */
  lemma OneCellSeed()
    ensures InitSpec(1, 1, [Pick(0.0, 0.0)]) == Some([CANCER])
  {
    assert PickIndex(1, Pick(0.0, 0.0)) == 0;
    assert AllNormal(1) == [NORMAL];
    assert [NORMAL][0 := CANCER] == [CANCER];
  }

  /** That realization, run for no steps, ends with one Cancer cell. */
  lemma OneCellFinal(probs: seq<real>)
    requires ValidProbs(probs)
    ensures FinalCancer(1, 1, 0, probs, RunDraws([Pick(0.0, 0.0)], [])) == Some(1)
  {
    OneCellSeed();
    assert Count([CANCER], CANCER) == 1 by {
      assert [CANCER][..0] == [];
    }
    assert Run([CANCER], 1, probs, [], 0) == [CANCER];
  }

  /** A concrete instance: a 1 x 1 grid seeded with its one Cancer cell and run
      for no steps ends with count 1, and the one-bucket buffer overflows. */
  lemma PdfOverflowWitness(probs: seq<real>)
    requires ValidProbs(probs)
    ensures HistogramAsWritten(1, 1, 0, probs, [RunDraws([Pick(0.0, 0.0)], [])]) == Failure(HistogramOverflow(1))
  {
    var runs := [RunDraws([Pick(0.0, 0.0)], [])];
    OneCellFinal(probs);
    assert runs[..0] == [];
    assert FinalCounts(1, 1, 0, probs, runs[..0]) == Some([]);
    assert FinalCounts(1, 1, 0, probs, runs) == Some([] + [1]);
    assert [1][..0] == [];
  }

  /** One realization of `pdf`'s loop: seed the grid, evolve it, and read
      off the final Cancer count, which lies in [0, N * N]. */
  method Realization(N: int, cCells: nat, steps: nat, probs: seq<real>, rd: RunDraws) returns (c: Option<nat>)
    requires N >= 1 && ValidProbs(probs)
    requires ValidPicks(rd.picks) && |rd.stepDraws| == steps && ValidRunDraws(N, rd.stepDraws)
    ensures c == FinalCancer(N, cCells, steps, probs, rd)
    ensures c.Some? <==> |PickedCells(N, rd.picks)| >= cCells
    ensures c.Some? ==> c.value <= N * N
  {
    var arr := InitState(N, cCells, rd.picks);
    if arr.None? {
      return None;
    }
    var final, types := IterateEndcount(arr.value, N, steps, probs, rd.stepDraws);
    c := Some(types[CANCER]);
  }

  /** A realization that ends with count c extends the final counts by c. */
  lemma FinalCountsGrow(N: int, cCells: nat, steps: nat, probs: seq<real>, runs: seq<RunDraws>, i: nat, fs: seq<int>, c: nat)
    requires N >= 1 && ValidProbs(probs) && ValidRealizations(N, steps, runs) && i < |runs|
    requires FinalCounts(N, cCells, steps, probs, runs[..i]) == Some(fs)
    requires FinalCancer(N, cCells, steps, probs, runs[i]) == Some(c)
    ensures FinalCounts(N, cCells, steps, probs, runs[..i + 1]) == Some(fs + [c])
  {
    assert runs[..i + 1][..i] == runs[..i];
  }

  /** A realization whose seeding fails makes the whole batch fail. */
  lemma FinalCountsStop(N: int, cCells: nat, steps: nat, probs: seq<real>, runs: seq<RunDraws>, i: nat)
    requires N >= 1 && ValidProbs(probs) && ValidRealizations(N, steps, runs) && i < |runs|
    requires FinalCancer(N, cCells, steps, probs, runs[i]).None?
    ensures FinalCounts(N, cCells, steps, probs, runs).None?
  {
    assert runs[..i + 1][..i] == runs[..i];
    FinalCountsFailureSticks(N, cCells, steps, probs, runs, i + 1);
  }

  /** One more in-range count increments its bucket. */
  lemma TallyExtend(len: nat, fs: seq<int>, hist: seq<int>, c: int)
    requires 0 <= c < len && Tally(len, fs) == Success(hist)
    ensures Tally(len, fs + [c]) == Success(hist[c := hist[c] + 1])
  {
    assert (fs + [c])[..|fs|] == fs;
  }

  /** One round of `pdf`'s loop: run realization i and bump the bucket of its
      final Cancer count, or report that the seeding ran out of candidates. */
  method PdfRound(N: int, cCells: nat, steps: nat, probs: seq<real>, runs: seq<RunDraws>, i: nat,
                  ghost fs: seq<int>, hist: seq<int>)
    returns (ok: bool, next: seq<int>, ghost fs': seq<int>)
    requires N >= 1 && ValidProbs(probs) && ValidRealizations(N, steps, runs) && i < |runs|
    requires FinalCounts(N, cCells, steps, probs, runs[..i]) == Some(fs)
    requires Tally(N * N + 1, fs) == Success(hist)
    ensures ok ==> FinalCounts(N, cCells, steps, probs, runs[..i + 1]) == Some(fs')
    ensures ok ==> Tally(N * N + 1, fs') == Success(next)
    ensures !ok <==> FinalCancer(N, cCells, steps, probs, runs[i]).None?
    ensures !ok ==> FinalCounts(N, cCells, steps, probs, runs).None?
  {
    var fc := Realization(N, cCells, steps, probs, runs[i]);
    if fc.None? {
      FinalCountsStop(N, cCells, steps, probs, runs, i);
      return false, hist, fs;
    }
    var c := fc.value;
    FinalCountsGrow(N, cCells, steps, probs, runs, i, fs, c);
    TallyExtend(N * N + 1, fs, hist, c);
    return true, hist[c := hist[c] + 1], fs + [c];
  }

  /** `pdf`: per realization, seed, evolve, and increment the bucket of the
      final Cancer count, in a buffer of N * N + 1 buckets. It computes
      `Histogram`, so by `HistogramCorrect` it fails only when a seeding runs
      out of candidates. The division by the number of realizations that
      turns counts into frequencies is not modelled. */
  method Pdf(N: int, cCells: nat, steps: nat, probs: seq<real>, runs: seq<RunDraws>)
    returns (res: Result<seq<int>, PdfError>)
    requires N >= 1 && ValidProbs(probs) && ValidRealizations(N, steps, runs)
    ensures res == Histogram(N, cCells, steps, probs, runs)
    ensures res.Success? <==> FinalCounts(N, cCells, steps, probs, runs).Some?
  {
    var tempOutput := seq(N * N + 1, _ => 0);
    ghost var fs: seq<int> := [];
    assert runs[..0] == [];
    var i := 0;
    while i < |runs|
      invariant 0 <= i <= |runs|
      invariant FinalCounts(N, cCells, steps, probs, runs[..i]) == Some(fs)
      invariant Tally(N * N + 1, fs) == Success(tempOutput)
    {
      var ok;
      ok, tempOutput, fs := PdfRound(N, cCells, steps, probs, runs, i, fs, tempOutput);
      if !ok {
        return Failure(DrawsExhausted);
      }
      i := i + 1;
    }
    assert runs[..i] == runs;
    res := Success(tempOutput);
  }

  /** No initial Cancer cells and no mutation: every realization ends with no
      Cancer cell, so all the mass sits in bucket 0. */
  lemma PdfNoCancer(N: int, steps: nat, probs: seq<real>, runs: seq<RunDraws>)
    requires N >= 1 && ValidProbs(probs) && ValidRealizations(N, steps, runs)
    requires probs[0] <= 0.0
    ensures Histogram(N, 0, steps, probs, runs).Success?
    ensures Histogram(N, 0, steps, probs, runs).value[0] == |runs|
    ensures forall k :: 0 < k <= N * N ==> Histogram(N, 0, steps, probs, runs).value[k] == 0
  {
    NoCancerFinals(N, steps, probs, runs);
    HistogramCorrect(N, 0, steps, probs, runs);
    var fs := FinalCounts(N, 0, steps, probs, runs).value;
    forall k | 0 <= k <= N * N
      ensures Count(fs, k) == (if k == 0 then |runs| else 0)
    {
      CountUniform(fs, k, 0);
    }
  }

  /** Every realization seeded with no Cancer cell and run without mutation ends with zero Cancer cells. */
  lemma {:induction false} NoCancerFinals(N: int, steps: nat, probs: seq<real>, runs: seq<RunDraws>)
    requires N >= 1 && ValidProbs(probs) && ValidRealizations(N, steps, runs)
    requires probs[0] <= 0.0
    ensures FinalCounts(N, 0, steps, probs, runs).Some?
    ensures forall t :: 0 <= t < |runs| ==> FinalCounts(N, 0, steps, probs, runs).value[t] == 0
    decreases |runs|
  {
    if |runs| > 0 {
      var n := |runs| - 1;
      NoCancerFinals(N, steps, probs, runs[..n]);
      RunAllNormalFixed(N, probs, runs[n].stepDraws, steps);
      CountUniform(AllNormal(N), CANCER, NORMAL);
    }
  }
}
