/**
 The random draws that drive the automaton, supplied as data.

 The source obtains uniform reals from `randdouble` and integers from
 `randint(low, high) = floor(randdouble() * (high - low + 1)) + low`.
 Here every real draw is an input assumed to lie in [0, 1), and `RandInt`
 is the source's scaling formula applied to such a draw.
 */
module Draws {

  /** A uniform real draw, as the generator is meant to deliver it. */
  predicate Unit(x: real) {
    0.0 <= x < 1.0
  }

  /** The draws one cell visit may consume:
      `r` for the self-transition test, `rp` for the proliferation test,
      `u` behind the choice of the invaded neighbour. */
  datatype CellDraw = CellDraw(r: real, rp: real, u: real)

  predicate ValidDraw(d: CellDraw) {
    Unit(d.r) && Unit(d.rp) && Unit(d.u)
  }

  /** One draw per cell of a side-N grid, in row-major visiting order. */
  predicate ValidStepDraws(N: int, ds: seq<CellDraw>) {
    |ds| == N * N && forall x :: 0 <= x < |ds| ==> ValidDraw(ds[x])
  }

  /** `randint(low, high)`: scale a unit draw onto the integers of [low, high].
      An empty range (high == low - 1) yields `low`, as the formula does. */
  function RandInt(u: real, low: int, high: int): (r: int)
    requires Unit(u)
    requires low <= high + 1
    ensures low <= high ==> low <= r <= high
    ensures low == high + 1 ==> r == low
  {
    var n := high - low + 1;
    var x := u * n as real;
    assert 0.0 <= x by {
      assert 0.0 <= u && 0.0 <= n as real;
    }
    assert n > 0 ==> x < n as real by {
      if n > 0 {
        assert n as real - x == (1.0 - u) * n as real;
        assert (1.0 - u) * n as real > 0.0;
      }
    }
    x.Floor + low
  }

  /** The unit draw x / N, for 0 <= x < N. */
  function Scaled(N: int, x: int): (u: real)
    requires 0 <= x < N
    ensures Unit(u)
  {
    x as real / N as real
  }

  /** `randint(0, N - 1)` maps the draw x / N back to x. */
  lemma ScaledDraw(N: int, x: int)
    requires 0 <= x < N
    ensures RandInt(Scaled(N, x), 0, N - 1) == x
  {
    assert Scaled(N, x) * N as real == x as real;
  }
}
