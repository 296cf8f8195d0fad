/** Conway's Game of Life on a rectangular grid (automata.py, `life`): every
    cell counts its eight Moore neighbours in the grid of the previous step,
    with the grid either wrapped into a torus or surrounded by dead cells,
    and all cells are updated at once. */
module GridLife {
  import opened Grids

  /** The cell at (i, j) as the convolution sees it: indices taken modulo
      the dimensions in periodic mode ('wrap'), dead outside the grid
      otherwise ('fill') (automata.py:86-91). */
  function Neighbour(g: Grid<bool>, i: int, j: int, periodic: bool): bool
    requires IsRect(g)
  {
    if periodic then
      (if |g| == 0 || Cols(g) == 0 then false else g[i % |g|][j % Cols(g)])
    else
      0 <= i < |g| && 0 <= j < Cols(g) && g[i][j]
  }

  /** Number of live cells among the eight around (i, j). */
  function MooreCount(g: Grid<bool>, i: int, j: int, periodic: bool): (n: nat)
    requires IsRect(g)
    ensures n <= 8
  {
    Val(Neighbour(g, i - 1, j - 1, periodic)) + Val(Neighbour(g, i - 1, j, periodic))
      + Val(Neighbour(g, i - 1, j + 1, periodic)) + Val(Neighbour(g, i, j - 1, periodic))
      + Val(Neighbour(g, i, j + 1, periodic)) + Val(Neighbour(g, i + 1, j - 1, periodic))
      + Val(Neighbour(g, i + 1, j, periodic)) + Val(Neighbour(g, i + 1, j + 1, periodic))
  }

  /** The 3x3 filter of automata.py:81: every neighbour weighs 1, the centre 0. */
  const Filter: seq<seq<int>> := [[1, 1, 1], [1, 0, 1], [1, 1, 1]]

  /** Taps b' < b of row a of the 'same'-mode convolution at (i, j): the
      filter entry (a, b') multiplies the cell at (i + 1 - a, j + 1 - b'). */
  function ConvolveRow(g: Grid<bool>, i: int, j: int, periodic: bool, a: nat, b: nat): int
    requires IsRect(g) && a < 3 && b <= 3
  {
    if b == 0 then 0
    else
      ConvolveRow(g, i, j, periodic, a, b - 1)
        + Filter[a][b - 1] * Val(Neighbour(g, i + 1 - a, j + 1 - (b - 1), periodic))
  }

  /** Rows a' < a of the convolution at (i, j). */
  function Convolve(g: Grid<bool>, i: int, j: int, periodic: bool, a: nat): int
    requires IsRect(g) && a <= 3
  {
    if a == 0 then 0 else Convolve(g, i, j, periodic, a - 1) + ConvolveRow(g, i, j, periodic, a - 1, 3)
  }

  /** One full row of taps. */
  lemma {:induction false} ConvolveRowFull(g: Grid<bool>, i: int, j: int, periodic: bool, a: nat)
    requires IsRect(g) && a < 3
    ensures ConvolveRow(g, i, j, periodic, a, 3) ==
      Filter[a][0] * Val(Neighbour(g, i + 1 - a, j + 1, periodic))
      + Filter[a][1] * Val(Neighbour(g, i + 1 - a, j, periodic))
      + Filter[a][2] * Val(Neighbour(g, i + 1 - a, j - 1, periodic))
  {
    assert ConvolveRow(g, i, j, periodic, a, 1) == Filter[a][0] * Val(Neighbour(g, i + 1 - a, j + 1, periodic));
    assert ConvolveRow(g, i, j, periodic, a, 2) == ConvolveRow(g, i, j, periodic, a, 1)
      + Filter[a][1] * Val(Neighbour(g, i + 1 - a, j, periodic));
  }

  /** The Moore count is the value of the 3x3 convolution with the filter
      at (i, j), in either boundary mode (automata.py:81, 87-91). */
  lemma {:induction false} MooreIsConvolution(g: Grid<bool>, i: int, j: int, periodic: bool)
    requires IsRect(g)
    ensures MooreCount(g, i, j, periodic) == Convolve(g, i, j, periodic, 3)
  {
    assert Filter[0] == [1, 1, 1] && Filter[1] == [1, 0, 1] && Filter[2] == [1, 1, 1];
    ConvolveRowFull(g, i, j, periodic, 0);
    ConvolveRowFull(g, i, j, periodic, 1);
    ConvolveRowFull(g, i, j, periodic, 2);
    var top := Val(Neighbour(g, i + 1, j + 1, periodic)) + Val(Neighbour(g, i + 1, j, periodic))
      + Val(Neighbour(g, i + 1, j - 1, periodic));
    var mid := Val(Neighbour(g, i, j + 1, periodic)) + Val(Neighbour(g, i, j - 1, periodic));
    var bot := Val(Neighbour(g, i - 1, j + 1, periodic)) + Val(Neighbour(g, i - 1, j, periodic))
      + Val(Neighbour(g, i - 1, j - 1, periodic));
    assert ConvolveRow(g, i, j, periodic, 0, 3) == top;
    assert ConvolveRow(g, i, j, periodic, 1, 3) == mid;
    assert ConvolveRow(g, i, j, periodic, 2, 3) == bot;
    assert Convolve(g, i, j, periodic, 1) == top;
    assert Convolve(g, i, j, periodic, 2) == top + mid;
    assert Convolve(g, i, j, periodic, 3) == top + mid + bot;
  }

  /** Inside the grid, wrapping an index changes nothing. */
  lemma {:induction false} WrapInside(g: Grid<bool>, x: int, y: int)
    requires IsRect(g) && 0 <= x < |g| && 0 <= y < Cols(g)
    ensures Neighbour(g, x, y, true) == Neighbour(g, x, y, false)
  {
    assert x % |g| == x;
    assert y % Cols(g) == y;
  }

  /** Away from the edge, both boundary modes see the same eight neighbours. */
  lemma {:induction false} FillAgreesWithWrapInside(g: Grid<bool>, i: int, j: int)
    requires IsRect(g) && 1 <= i < |g| - 1 && 1 <= j < Cols(g) - 1
    ensures MooreCount(g, i, j, true) == MooreCount(g, i, j, false)
  {
    WrapInside(g, i - 1, j - 1);
    WrapInside(g, i - 1, j);
    WrapInside(g, i - 1, j + 1);
    WrapInside(g, i, j - 1);
    WrapInside(g, i, j + 1);
    WrapInside(g, i + 1, j - 1);
    WrapInside(g, i + 1, j);
    WrapInside(g, i + 1, j + 1);
  }

  /** The update of automata.py:94-104: a count above 3 or below 2 kills the
      cell, 3 brings it to life, and 2 keeps its state. */
  function LifeRule(alive: bool, n: nat): (r: bool)
    ensures r <==> n == 3 || (alive && n == 2)
  {
    if n > 3 || n < 2 then false else if n == 3 then true else alive
  }

  /** One synchronous step: every count is taken from `g`. */
  function LifeStep(g: Grid<bool>, periodic: bool): (r: Grid<bool>)
    requires IsRect(g)
    ensures Shape(r, |g|, Cols(g))
  {
    seq(|g|, i requires 0 <= i < |g| =>
      seq(Cols(g), j requires 0 <= j < Cols(g) => LifeRule(g[i][j], MooreCount(g, i, j, periodic))))
  }

  /** `nsteps` steps; `range(nsteps)` is empty when nsteps <= 0 (automata.py:83). */
  function LifeN(g: Grid<bool>, nsteps: int, periodic: bool): (r: Grid<bool>)
    requires IsRect(g)
    ensures Shape(r, |g|, Cols(g))
    decreases nsteps
  {
    if nsteps <= 0 then g else LifeStep(LifeN(g, nsteps - 1, periodic), periodic)
  }

  /** Cell (i, j) after one step is alive exactly when it has three live
      neighbours, or two and was alive. */
  lemma {:induction false} LifeStepCell(g: Grid<bool>, periodic: bool, i: int, j: int)
    requires IsRect(g) && 0 <= i < |g| && 0 <= j < Cols(g)
    ensures LifeStep(g, periodic)[i][j] <==>
      MooreCount(g, i, j, periodic) == 3 || (g[i][j] && MooreCount(g, i, j, periodic) == 2)
  {
  }

  /** A cell with no live neighbour has count 0. */
  lemma {:induction false} DeadNeighbourhood(g: Grid<bool>, i: int, j: int, periodic: bool)
    requires IsRect(g) && AllDead(g)
    ensures MooreCount(g, i, j, periodic) == 0
  {
    forall x, y | i - 1 <= x <= i + 1 && j - 1 <= y <= j + 1
      ensures !Neighbour(g, x, y, periodic)
    {
      if periodic && |g| > 0 && Cols(g) > 0 {
        assert !g[x % |g|][y % Cols(g)];
      }
    }
  }

  /** An all-dead grid stays all dead for any number of steps, in either
      boundary mode. */
  lemma {:induction false} AllDeadStaysDead(g: Grid<bool>, nsteps: int, periodic: bool)
    requires IsRect(g) && AllDead(g)
    ensures AllDead(LifeN(g, nsteps, periodic))
    decreases nsteps
  {
    if nsteps > 0 {
      var h := LifeN(g, nsteps - 1, periodic);
      AllDeadStaysDead(g, nsteps - 1, periodic);
      forall i, j | 0 <= i < |h| && 0 <= j < Cols(h)
        ensures !LifeStep(h, periodic)[i][j]
      {
        DeadNeighbourhood(h, i, j, periodic);
      }
    }
  }

  /** One step on the buffer `aux`: the counts are computed into a separate
      array from a copy of `aux`, then the two masked assignments of
      automata.py:103-104 are applied. */
  method Step(aux: array2<bool>, periodic: bool)
    modifies aux
    ensures Cells(aux) == LifeStep(old(Cells(aux)), periodic)
  {
    var rows, cols := aux.Length0, aux.Length1;
    var g := Cells(aux);
    assert IsRect(g) by {
      if rows > 0 { assert |g[0]| == cols; }
    }
    var conv := new nat[rows, cols]((i, j) requires 0 <= i < rows && 0 <= j < cols =>
      if rows == 0 then 0 else MooreCount(g, i, j, periodic));
    forall i, j | 0 <= i < rows && 0 <= j < cols && (conv[i, j] > 3 || conv[i, j] < 2) {
      aux[i, j] := false;
    }
    forall i, j | 0 <= i < rows && 0 <= j < cols && conv[i, j] == 3 {
      aux[i, j] := true;
    }
    ghost var want := LifeStep(g, periodic);
    forall i, j | 0 <= i < rows && 0 <= j < cols
      ensures aux[i, j] == want[i][j]
    {
      LifeStepCell(g, periodic, i, j);
    }
    GridExt(Cells(aux), want, rows, cols);
  }

  /** `life` (automata.py:54-123): copies the input into the buffer `aux`
      and applies `nsteps` synchronous steps to it. */
  method Life(initial: Grid<bool>, nsteps: int, periodic: bool) returns (final: Grid<bool>)
    requires IsRect(initial)
    ensures final == LifeN(initial, nsteps, periodic)
    ensures Shape(final, |initial|, Cols(initial))
    ensures nsteps <= 0 ==> final == initial
  {
    var aux := NewBuffer(initial, |initial|, Cols(initial));
    var steps := if nsteps < 0 then 0 else nsteps;
    for k := 0 to steps
      invariant Cells(aux) == LifeN(initial, k, periodic)
    {
      Step(aux, periodic);
    }
    final := Cells(aux);
  }
}
