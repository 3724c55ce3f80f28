/** The sample grid of `createDistribution`: n×n points of the square
    [-1, 1) × [-1, 1), one per cell, either at the cell centre or jittered
    inside the cell by two random draws. */
module Sampling {
  import opened Numerics

  datatype Sample = Sample(s: real, t: real)

  /** The sample levels for which `createDistribution` terminates: the grid
      step 2/n must be a positive number that `greaterEpsilon` can tell from
      zero. For n <= 0 the source's loops never stop. */
  predicate SampleLevelOk(n: int)
  {
    1 <= n && Epsilon < 2.0 / (n as real)
  }

  /** `step` in the source: the side of one cell. */
  function Step(n: int): real
    requires 1 <= n
  {
    2.0 / (n as real)
  }

  /** An n×n grid has at least one sample. */
  lemma SampleCountPositive(n: int)
    requires 1 <= n
    ensures 1 <= n * n
  {
    assert n <= n * n;
  }

  /** The loop counter `i` (or `j`) after `k` increments: it starts at -1 and
      `step` is added once per iteration. */
  function CellLo(n: int, k: nat): real
    requires 1 <= n
  {
    if k == 0 then -1.0 else CellLo(n, k - 1) + Step(n)
  }

  /** The counter in closed form: -1 + k * step. */
  lemma {:induction false} CellLoClosedForm(n: int, k: nat)
    requires 1 <= n
    ensures CellLo(n, k) == -1.0 + (k as real) * Step(n)
  {
    if k > 0 {
      CellLoClosedForm(n, k - 1);
      assert (k as real) * Step(n) == ((k - 1) as real) * Step(n) + Step(n);
    }
  }

  /** The fraction of a cell a coordinate is offset by: the draw with jitter,
      one half (the cell centre) without. */
  function Offset(jitter: bool, draws: nat -> real, c: nat): real
  {
    if jitter then draws(c) else 0.5
  }

  /** The coordinate of a sample in cell `k` offset by the fraction `u`. */
  function Coordinate(n: int, k: nat, u: real): real
    requires 1 <= n
  {
    CellLo(n, k) + Step(n) * u
  }

  /** The coordinate from the loop counter `c` at its k-th value and the cell side `step`. */
  lemma CoordinateOfCounter(n: int, k: nat, c: real, step: real, u: real)
    requires 1 <= n && c == CellLo(n, k) && step == Step(n)
    ensures Coordinate(n, k, u) == c + step * u
  {
  }

  /** The sample of cell (k, l), pushed as sample number `idx`: with jitter it
      uses draws `2·idx` (for s) and `2·idx + 1` (for t), the order in which
      the source calls `Math.random`. */
  function Cell(n: int, jitter: bool, draws: nat -> real, k: nat, l: nat, idx: nat): Sample
    requires 1 <= n
  {
    Sample(Coordinate(n, k, Offset(jitter, draws, 2 * idx)), Coordinate(n, l, Offset(jitter, draws, 2 * idx + 1)))
  }

  /** The first `len` samples of row `k` (the outer counter), pushed after
      `base` earlier samples. */
  function Row(n: int, jitter: bool, draws: nat -> real, k: nat, base: nat, len: nat): (r: seq<Sample>)
    requires 1 <= n
    ensures |r| == len
  {
    if len == 0 then []
    else Row(n, jitter, draws, k, base, len - 1) + [Cell(n, jitter, draws, k, len - 1, base + len - 1)]
  }

  /** The samples of the first `rows` rows, in push order. */
  function Grid(n: int, jitter: bool, draws: nat -> real, rows: nat): seq<Sample>
    requires 1 <= n
  {
    if rows == 0 then []
    else
      var g := Grid(n, jitter, draws, rows - 1);
      g + Row(n, jitter, draws, rows - 1, |g|, n)
  }

  /** The list `createDistribution` returns: all n rows. */
  function Distribution(n: int, jitter: bool, draws: nat -> real): seq<Sample>
    requires 1 <= n
  {
    Grid(n, jitter, draws, n)
  }

  lemma {:induction false} RowAt(n: int, jitter: bool, draws: nat -> real, k: nat, base: nat, len: nat, l: nat)
    requires 1 <= n && l < len
    ensures Row(n, jitter, draws, k, base, len)[l] == Cell(n, jitter, draws, k, l, base + l)
  {
    if l < len - 1 {
      RowAt(n, jitter, draws, k, base, len - 1, l);
    }
  }

  /** Row `k` of the grid starts right after the first k rows, and its l-th
      sample is cell (k, l). */
  lemma {:induction false} GridAt(n: int, jitter: bool, draws: nat -> real, rows: nat, k: nat, l: nat)
    requires 1 <= n && k < rows && l < n
    ensures |Grid(n, jitter, draws, k)| + l < |Grid(n, jitter, draws, rows)|
    ensures var idx := |Grid(n, jitter, draws, k)| + l;
            Grid(n, jitter, draws, rows)[idx] == Cell(n, jitter, draws, k, l, idx)
  {
    LastRowAt(n, jitter, draws, k, l);
    GridPrefix(n, jitter, draws, k + 1, rows, |Grid(n, jitter, draws, k)| + l);
  }

  /** The row added last holds its cells in order. */
  lemma {:induction false} LastRowAt(n: int, jitter: bool, draws: nat -> real, k: nat, l: nat)
    requires 1 <= n && l < n
    ensures |Grid(n, jitter, draws, k)| + l < |Grid(n, jitter, draws, k + 1)|
    ensures var idx := |Grid(n, jitter, draws, k)| + l;
            Grid(n, jitter, draws, k + 1)[idx] == Cell(n, jitter, draws, k, l, idx)
  {
    var g := Grid(n, jitter, draws, k);
    var r := Row(n, jitter, draws, k, |g|, n);
    assert (g + r)[|g| + l] == r[l];
    RowAt(n, jitter, draws, k, |g|, n, l);
  }

  /** Adding rows keeps the samples already in the grid. */
  lemma {:induction false} GridPrefix(n: int, jitter: bool, draws: nat -> real, rows: nat, more: nat, i: nat)
    requires 1 <= n && rows <= more && i < |Grid(n, jitter, draws, rows)|
    ensures i < |Grid(n, jitter, draws, more)| && Grid(n, jitter, draws, more)[i] == Grid(n, jitter, draws, rows)[i]
  {
    if rows < more {
      GridPrefix(n, jitter, draws, rows, more - 1, i);
      var g := Grid(n, jitter, draws, more - 1);
      var r := Row(n, jitter, draws, more - 1, |g|, n);
      assert Grid(n, jitter, draws, more) == g + r;
      assert (g + r)[i] == g[i];
    }
  }

  /** The grid has n samples per row. */
  lemma {:induction false} GridSize(n: int, jitter: bool, draws: nat -> real, rows: nat)
    requires 1 <= n
    ensures |Grid(n, jitter, draws, rows)| == rows * n
  {
    if rows > 0 {
      GridSize(n, jitter, draws, rows - 1);
      assert rows * n == (rows - 1) * n + n;
    }
  }

  /** There are n² samples, and sample `k·n + l` is the one for cell (k, l):
      the s coordinate follows the outer loop, t the inner loop. */
  lemma SampleOfCell(n: int, jitter: bool, draws: nat -> real, k: nat, l: nat)
    requires 1 <= n && k < n && l < n
    ensures k * n + l < |Distribution(n, jitter, draws)| == n * n
    ensures Distribution(n, jitter, draws)[k * n + l] ==
            Sample(Coordinate(n, k, Offset(jitter, draws, 2 * (k * n + l))),
                   Coordinate(n, l, Offset(jitter, draws, 2 * (k * n + l) + 1)))
  {
    GridAt(n, jitter, draws, n, k, l);
    GridSize(n, jitter, draws, k);
    GridSize(n, jitter, draws, n);
  }

  /** Without jitter every sample is the centre of its cell. */
  lemma RegularSampleIsCentre(n: int, draws: nat -> real, k: nat, l: nat)
    requires 1 <= n && k < n && l < n
    ensures k * n + l < |Distribution(n, false, draws)| == n * n
    ensures Distribution(n, false, draws)[k * n + l] ==
            Sample(-1.0 + ((k as real) + 0.5) * (2.0 / (n as real)),
                   -1.0 + ((l as real) + 0.5) * (2.0 / (n as real)))
  {
    SampleOfCell(n, false, draws, k, l);
    CentreOfCell(n, k);
    CentreOfCell(n, l);
  }

  /** Offsetting by one half gives the centre of the cell. */
  lemma CentreOfCell(n: int, k: nat)
    requires 1 <= n
    ensures Coordinate(n, k, 0.5) == -1.0 + ((k as real) + 0.5) * (2.0 / (n as real))
  {
    CellLoClosedForm(n, k);
    var step := Step(n);
    assert ((k as real) + 0.5) * step == (k as real) * step + step * 0.5;
  }

  /** With draws in [0, 1), every jittered sample lies in its own cell. */
  lemma JitteredSampleInCell(n: int, draws: nat -> real, k: nat, l: nat)
    requires 1 <= n && k < n && l < n
    requires forall c: nat :: 0.0 <= draws(c) < 1.0
    ensures k * n + l < |Distribution(n, true, draws)| == n * n
    ensures var p := Distribution(n, true, draws)[k * n + l];
            CellLo(n, k) <= p.s < CellLo(n, k + 1) && CellLo(n, l) <= p.t < CellLo(n, l + 1)
  {
    SampleOfCell(n, true, draws, k, l);
    var idx := k * n + l;
    WithinCell(n, k, draws(2 * idx));
    WithinCell(n, l, draws(2 * idx + 1));
  }

  /** An offset in [0, 1) stays inside the cell. */
  lemma WithinCell(n: int, k: nat, u: real)
    requires 1 <= n && 0.0 <= u < 1.0
    ensures CellLo(n, k) <= Coordinate(n, k, u) < CellLo(n, k + 1)
  {
    assert 0.0 < Step(n);
    assert Step(n) * u < Step(n) * 1.0;
  }

  /** Every cell lies inside [-1, 1]. */
  lemma CellInSquare(n: int, k: nat)
    requires 1 <= n && k < n
    ensures -1.0 <= CellLo(n, k) && CellLo(n, k + 1) <= 1.0
  {
    var step := Step(n);
    CellLoClosedForm(n, k);
    CellLoClosedForm(n, k + 1);
    assert step * (n as real) == 2.0;
    assert ((k + 1) as real) * step <= (n as real) * step;
  }

  /** The source's loop test `greaterEpsilon(1 - i)` at `i = CellLo(n, k)` holds
      exactly for the first n values of the counter, so each loop runs n times. */
  lemma LoopTest(n: int, k: nat)
    requires SampleLevelOk(n) && k <= n
    ensures GreaterEpsilon(1.0 - CellLo(n, k)) <==> k < n
  {
    var step := Step(n);
    CellLoClosedForm(n, k);
    assert step * (n as real) == 2.0;
    assert 1.0 - CellLo(n, k) == ((n - k) as real) * step;
    if k < n {
      assert step <= ((n - k) as real) * step;
    }
  }
}
