/** Life on a triangular tessellation (automata.py, `lifetri`). Row x,
    column y of the grid is a triangle pointing up or down, alternating like
    a chessboard; each triangle has twelve neighbours (those sharing an edge
    or a corner). The grid sits in a buffer with one extra row above and
    below and two extra columns on each side; in periodic mode that border
    is filled with copies of the opposite edges before every step. */
module TriangularLife {
  import opened Grids

  // ---------------------------------------------------------------------------
  // The padded buffer
  // ---------------------------------------------------------------------------

  /** A buffer with room for the border: one row above and below, two
      columns on each side (a buffer without interior rows has no interior
      columns either). */
  predicate IsTriPadded(p: Grid<bool>)
  {
    IsRect(p) && |p| >= 2 && Cols(p) >= 4 && (|p| == 2 ==> Cols(p) == 4)
  }

  /** (x, y) lies in the border of a rows x cols buffer. */
  predicate OnTriBorder(x: int, y: int, rows: int, cols: int)
  {
    x == 0 || x == rows - 1 || y < 2 || y >= cols - 2
  }

  /** Every border cell of the buffer is dead. */
  predicate TriBorderDead(p: Grid<bool>)
    requires IsRect(p)
  {
    forall x, y :: 0 <= x < |p| && 0 <= y < Cols(p) && OnTriBorder(x, y, |p|, Cols(p)) ==> !p[x][y]
  }

  /** The buffer `aux` built from the input: zeros with the input copied to
      rows 1..R and columns 2..C+1 (automata.py:146-148). */
  function TriPad(g: Grid<bool>): (p: Grid<bool>)
    requires IsRect(g)
    ensures IsTriPadded(p) && Shape(p, |g| + 2, Cols(g) + 4) && TriBorderDead(p)
    ensures forall i, j :: 0 <= i < |g| && 0 <= j < Cols(g) ==> p[i + 1][j + 2] == g[i][j]
  {
    seq(|g| + 2, x requires 0 <= x < |g| + 2 =>
      seq(Cols(g) + 4, y requires 0 <= y < Cols(g) + 4 =>
        if 1 <= x <= |g| && 2 <= y < Cols(g) + 2 then g[x - 1][y - 2] else false))
  }

  /** The returned part of the buffer, `in_state[1:-1, 2:-2]` (automata.py:192). */
  function TriInterior(p: Grid<bool>): (g: Grid<bool>)
    requires IsTriPadded(p)
    ensures Shape(g, |p| - 2, Cols(p) - 4)
    ensures forall i, j :: 0 <= i < |g| && 0 <= j < Cols(p) - 4 ==> g[i][j] == p[i + 1][j + 2]
  {
    seq(|p| - 2, i requires 0 <= i < |p| - 2 =>
      seq(Cols(p) - 4, j requires 0 <= j < Cols(p) - 4 => p[i + 1][j + 2]))
  }

  /** Cutting the border off a freshly padded grid gives the grid back. */
  lemma {:induction false} TriInteriorOfPad(g: Grid<bool>)
    requires IsRect(g)
    ensures TriInterior(TriPad(g)) == g
  {
    GridExt(TriInterior(TriPad(g)), g, |g|, Cols(g));
  }

  /** A buffer with a dead border is the padding of its interior. */
  lemma {:induction false} TriPadOfInterior(p: Grid<bool>)
    requires IsTriPadded(p) && TriBorderDead(p)
    ensures TriPad(TriInterior(p)) == p
  {
    var g := TriInterior(p);
    assert Cols(g) == Cols(p) - 4 by {
      if |p| == 2 { assert Cols(g) == 0; } else { assert |g[0]| == Cols(p) - 4; }
    }
    var q := TriPad(g);
    forall x, y | 0 <= x < |p| && 0 <= y < Cols(p)
      ensures q[x][y] == p[x][y]
    {
      if !OnTriBorder(x, y, |p|, Cols(p)) {
        assert q[x][y] == g[x - 1][y - 2];
      }
    }
    GridExt(q, p, |p|, Cols(p));
  }

  // ---------------------------------------------------------------------------
  // Orientation and the neighbour window
  // ---------------------------------------------------------------------------

  datatype Orientation = Up | Down

  /** Triangle (x, y) of the buffer points up when x + y + 1 is even
      (automata.py:171). */
  function OrientationOf(x: int, y: int): Orientation
  {
    if (x + y + 1) % 2 == 0 then Up else Down
  }

  /** The first interior triangle, (1, 2), points up, and orientation
      alternates like a chessboard: a step along a row or down a column
      flips it. */
  lemma {:induction false} OrientationAlternates(x: int, y: int)
    ensures OrientationOf(1, 2) == Up
    ensures OrientationOf(x, y + 1) != OrientationOf(x, y)
    ensures OrientationOf(x + 1, y) != OrientationOf(x, y)
    ensures OrientationOf(x + 1, y + 1) == OrientationOf(x, y)
  {
    assert (x + y + 2) % 2 != (x + y + 1) % 2;
    assert (x + y + 3) % 2 == (x + y + 1) % 2;
  }

  /** The twelve neighbours of a triangle as (row, column) offsets: for an
      up triangle three cells of the row above, four of its own row and five
      of the row below; for a down triangle the rows above and below swap. */
  function Window(o: Orientation): (w: seq<(int, int)>)
    ensures |w| == 12
  {
    match o
    case Up =>
      [(-1, -1), (-1, 0), (-1, 1),
       (0, -2), (0, -1), (0, 1), (0, 2),
       (1, -2), (1, -1), (1, 0), (1, 1), (1, 2)]
    case Down =>
      [(-1, -2), (-1, -1), (-1, 0), (-1, 1), (-1, 2),
       (0, -2), (0, -1), (0, 1), (0, 2),
       (1, -1), (1, 0), (1, 1)]
  }

  /** The window described by its shape rather than listed. */
  predicate InWindow(o: Orientation, dx: int, dy: int)
  {
    var above, below := if o == Up then 1 else 2, if o == Up then 2 else 1;
    (dx == -1 && -above <= dy <= above)
    || (dx == 0 && dy != 0 && -2 <= dy <= 2)
    || (dx == 1 && -below <= dy <= below)
  }

  /** The listed window is exactly the described one. */
  lemma {:induction false} WindowShape(o: Orientation, dx: int, dy: int)
    ensures (dx, dy) in Window(o) <==> InWindow(o, dx, dy)
  {
  }

  /** Neighbourhood is symmetric: if (x', y') is in the window of (x, y),
      then (x, y) is in the window of (x', y'), so the twelve-neighbour
      relation is that of a consistent triangular tiling. */
  lemma {:induction false} WindowSymmetric(x: int, y: int, dx: int, dy: int)
    requires InWindow(OrientationOf(x, y), dx, dy)
    ensures InWindow(OrientationOf(x + dx, y + dy), -dx, -dy)
  {
    var o, o' := OrientationOf(x, y), OrientationOf(x + dx, y + dy);
    assert (x + dx + y + dy + 1) % 2 == ((x + y + 1) % 2 + (dx + dy) % 2) % 2;
    if dx == 0 {
      assert dy % 2 == 0 <==> (dy == 2 || dy == -2);
    } else {
      assert (dx + dy) % 2 == 0 <==> (dy == 1 || dy == -1 || dy == 3 || dy == -3);
    }
  }

  /** The cell at (x, y), dead outside the buffer. */
  function Alive(p: Grid<bool>, x: int, y: int): bool
  {
    0 <= x < |p| && 0 <= y < |p[x]| && p[x][y]
  }

  /** Live cell at offset d from (x, y): 1, else 0. */
  function Tap(p: Grid<bool>, x: int, y: int, d: (int, int)): nat
  {
    Val(Alive(p, x + d.0, y + d.1))
  }

  /** Number of live cells at the twelve offsets `w` from (x, y). */
  function CountOver(p: Grid<bool>, x: int, y: int, w: seq<(int, int)>): (n: nat)
    requires |w| == 12
    ensures n <= 12
  {
    Tap(p, x, y, w[0]) + Tap(p, x, y, w[1]) + Tap(p, x, y, w[2]) + Tap(p, x, y, w[3])
      + Tap(p, x, y, w[4]) + Tap(p, x, y, w[5]) + Tap(p, x, y, w[6]) + Tap(p, x, y, w[7])
      + Tap(p, x, y, w[8]) + Tap(p, x, y, w[9]) + Tap(p, x, y, w[10]) + Tap(p, x, y, w[11])
  }

  /** The neighbour count of triangle (x, y), read from the window table. */
  function TriCount(p: Grid<bool>, x: int, y: int): (n: nat)
    ensures n <= 12
  {
    CountOver(p, x, y, Window(OrientationOf(x, y)))
  }

  /** sum(row[lo:hi]) for a row of booleans. */
  function SliceSum(row: seq<bool>, lo: int, hi: int): (r: int)
    requires 0 <= lo <= hi <= |row|
    ensures 0 <= r <= hi - lo
    decreases hi - lo
  {
    if lo == hi then 0 else SliceSum(row, lo, hi - 1) + Val(row[hi - 1])
  }

  /** The neighbour count exactly as automata.py:171-181 computes it: the
      orientation flags blend the bounds of the slices of the rows above
      and below, and the cell itself is subtracted from its own row's
      five-cell slice. */
  function BlendedCount(s: Grid<bool>, x: int, y: int): int
    requires IsRect(s) && 1 <= x < |s| - 1 && 2 <= y < Cols(s) - 2
  {
    var up := if (x + y + 1) % 2 == 0 then 1 else 0;
    var down := 1 - up;
    SliceSum(s[x - 1], (y - 1) * up + down * (y - 2), (y + 2) * up + down * (y + 3))
      + SliceSum(s[x], y - 2, y + 3)
      + SliceSum(s[x + 1], (y - 2) * up + down * (y - 1), (y + 3) * up + down * (y + 2))
      - Val(s[x][y])
  }

  lemma {:induction false} SliceSum3(row: seq<bool>, lo: int)
    requires 0 <= lo && lo + 3 <= |row|
    ensures SliceSum(row, lo, lo + 3) == Val(row[lo]) + Val(row[lo + 1]) + Val(row[lo + 2])
  {
    assert SliceSum(row, lo, lo + 1) == Val(row[lo]);
    assert SliceSum(row, lo, lo + 2) == Val(row[lo]) + Val(row[lo + 1]);
  }

  lemma {:induction false} SliceSum5(row: seq<bool>, lo: int)
    requires 0 <= lo && lo + 5 <= |row|
    ensures SliceSum(row, lo, lo + 5) ==
      Val(row[lo]) + Val(row[lo + 1]) + Val(row[lo + 2]) + Val(row[lo + 3]) + Val(row[lo + 4])
  {
    SliceSum3(row, lo);
    assert SliceSum(row, lo, lo + 4) == SliceSum(row, lo, lo + 3) + Val(row[lo + 3]);
  }

  /** The blended bounds select the 3-5-5 slices for an up triangle and
      the 5-5-3 slices for a down one. */
  lemma {:induction false} BlendedSlices(s: Grid<bool>, x: int, y: int)
    requires IsRect(s) && 1 <= x < |s| - 1 && 2 <= y < Cols(s) - 2
    ensures |s[x - 1]| == |s[x]| == |s[x + 1]| == Cols(s)
    ensures BlendedCount(s, x, y) ==
      (if OrientationOf(x, y) == Up
       then SliceSum(s[x - 1], y - 1, y + 2) + SliceSum(s[x], y - 2, y + 3) + SliceSum(s[x + 1], y - 2, y + 3)
       else SliceSum(s[x - 1], y - 2, y + 3) + SliceSum(s[x], y - 2, y + 3) + SliceSum(s[x + 1], y - 1, y + 2))
      - Val(s[x][y])
  {
  }

  /** The sum of the three cells from (x, y) rightwards. */
  function Three(s: Grid<bool>, x: int, y: int): nat
    requires 0 <= x < |s| && 0 <= y && y + 3 <= |s[x]|
  {
    Val(s[x][y]) + Val(s[x][y + 1]) + Val(s[x][y + 2])
  }

  /** The sum of the five cells from (x, y) rightwards. */
  function Five(s: Grid<bool>, x: int, y: int): nat
    requires 0 <= x < |s| && 0 <= y && y + 5 <= |s[x]|
  {
    Three(s, x, y) + Val(s[x][y + 3]) + Val(s[x][y + 4])
  }

  /** An offset inside the buffer reads the cell there. */
  lemma {:induction false} TapInside(s: Grid<bool>, x: int, y: int, dx: int, dy: int)
    requires 0 <= x + dx < |s| && 0 <= y + dy < |s[x + dx]|
    ensures Tap(s, x, y, (dx, dy)) == Val(s[x + dx][y + dy])
  {
  }

  /** The window table of an up triangle counts 3 cells above, the 4 beside
      and 5 below. */
  lemma {:induction false} UpWindowCount(s: Grid<bool>, x: int, y: int)
    requires IsRect(s) && 1 <= x < |s| - 1 && 2 <= y < Cols(s) - 2
    requires |s[x - 1]| == |s[x]| == |s[x + 1]| == Cols(s)
    ensures CountOver(s, x, y, Window(Up)) ==
      Three(s, x - 1, y - 1) + Five(s, x, y - 2) - Val(s[x][y]) + Five(s, x + 1, y - 2)
  {
    var w := Window(Up);
    assert w == [(-1, -1), (-1, 0), (-1, 1), (0, -2), (0, -1), (0, 1), (0, 2), (1, -2), (1, -1), (1, 0), (1, 1), (1, 2)];
    assert CountOver(s, x, y, w) ==
      Tap(s, x, y, (-1, -1)) + Tap(s, x, y, (-1, 0)) + Tap(s, x, y, (-1, 1))
      + Tap(s, x, y, (0, -2)) + Tap(s, x, y, (0, -1)) + Tap(s, x, y, (0, 1)) + Tap(s, x, y, (0, 2))
      + Tap(s, x, y, (1, -2)) + Tap(s, x, y, (1, -1)) + Tap(s, x, y, (1, 0)) + Tap(s, x, y, (1, 1)) + Tap(s, x, y, (1, 2));
    TapInside(s, x, y, -1, -1);
    TapInside(s, x, y, -1, 0);
    TapInside(s, x, y, -1, 1);
    TapInside(s, x, y, 0, -2);
    TapInside(s, x, y, 0, -1);
    TapInside(s, x, y, 0, 1);
    TapInside(s, x, y, 0, 2);
    TapInside(s, x, y, 1, -2);
    TapInside(s, x, y, 1, -1);
    TapInside(s, x, y, 1, 0);
    TapInside(s, x, y, 1, 1);
    TapInside(s, x, y, 1, 2);
  }

  /** The window table of a down triangle counts 5 cells above, the 4
      beside and 3 below. */
  lemma {:induction false} DownWindowCount(s: Grid<bool>, x: int, y: int)
    requires IsRect(s) && 1 <= x < |s| - 1 && 2 <= y < Cols(s) - 2
    requires |s[x - 1]| == |s[x]| == |s[x + 1]| == Cols(s)
    ensures CountOver(s, x, y, Window(Down)) ==
      Five(s, x - 1, y - 2) + Five(s, x, y - 2) - Val(s[x][y]) + Three(s, x + 1, y - 1)
  {
    var w := Window(Down);
    assert w == [(-1, -2), (-1, -1), (-1, 0), (-1, 1), (-1, 2), (0, -2), (0, -1), (0, 1), (0, 2), (1, -1), (1, 0), (1, 1)];
    assert CountOver(s, x, y, w) ==
      Tap(s, x, y, (-1, -2)) + Tap(s, x, y, (-1, -1)) + Tap(s, x, y, (-1, 0)) + Tap(s, x, y, (-1, 1)) + Tap(s, x, y, (-1, 2))
      + Tap(s, x, y, (0, -2)) + Tap(s, x, y, (0, -1)) + Tap(s, x, y, (0, 1)) + Tap(s, x, y, (0, 2))
      + Tap(s, x, y, (1, -1)) + Tap(s, x, y, (1, 0)) + Tap(s, x, y, (1, 1));
    TapInside(s, x, y, -1, -2);
    TapInside(s, x, y, -1, -1);
    TapInside(s, x, y, -1, 0);
    TapInside(s, x, y, -1, 1);
    TapInside(s, x, y, -1, 2);
    TapInside(s, x, y, 0, -2);
    TapInside(s, x, y, 0, -1);
    TapInside(s, x, y, 0, 1);
    TapInside(s, x, y, 0, 2);
    TapInside(s, x, y, 1, -1);
    TapInside(s, x, y, 1, 0);
    TapInside(s, x, y, 1, 1);
  }

  /** The blended slices of an up triangle count its window. */
  lemma {:induction false} BlendedUp(s: Grid<bool>, x: int, y: int)
    requires IsRect(s) && 1 <= x < |s| - 1 && 2 <= y < Cols(s) - 2
    requires OrientationOf(x, y) == Up
    ensures BlendedCount(s, x, y) == CountOver(s, x, y, Window(Up))
  {
    BlendedSlices(s, x, y);
    SliceSum5(s[x], y - 2);
    SliceSum3(s[x - 1], y - 1);
    SliceSum5(s[x + 1], y - 2);
    UpWindowCount(s, x, y);
  }

  /** The blended slices of a down triangle count its window. */
  lemma {:induction false} BlendedDown(s: Grid<bool>, x: int, y: int)
    requires IsRect(s) && 1 <= x < |s| - 1 && 2 <= y < Cols(s) - 2
    requires OrientationOf(x, y) == Down
    ensures BlendedCount(s, x, y) == CountOver(s, x, y, Window(Down))
  {
    BlendedSlices(s, x, y);
    SliceSum5(s[x], y - 2);
    SliceSum5(s[x - 1], y - 2);
    SliceSum3(s[x + 1], y - 1);
    DownWindowCount(s, x, y);
  }

  /** The window table computes the same count as the blended slices of
      automata.py:177-181, at every cell the sweep visits. */
  lemma {:induction false} BlendedIsWindow(s: Grid<bool>, x: int, y: int)
    requires IsRect(s) && 1 <= x < |s| - 1 && 2 <= y < Cols(s) - 2
    ensures BlendedCount(s, x, y) == TriCount(s, x, y)
  {
    if OrientationOf(x, y) == Up {
      BlendedUp(s, x, y);
    } else {
      BlendedDown(s, x, y);
    }
  }

  // ---------------------------------------------------------------------------
  // The rule and the step
  // ---------------------------------------------------------------------------

  /** The update of automata.py:183-186: a count outside {4, 5, 6} kills the
      cell, 4 brings it to life, and 5 or 6 keep its state. */
  function TriRule(alive: bool, n: int): (r: bool)
    ensures r <==> n == 4 || (alive && (n == 5 || n == 6))
  {
    if n != 4 && n != 5 && n != 6 then false else if n == 4 then true else alive
  }

  /** Which buffer row a border row is copied from: row 0 from the last
      interior row R, row R + 1 from the first interior row 1. */
  function RowSource(x: int, rows: int): int
  {
    if x == 0 then rows else if x == rows + 1 then 1 else x
  }

  /** Which buffer column a border column is copied from: the two left
      border columns from the last two interior columns, the two right ones
      from the first two. */
  function ColSource(y: int, cols: int): int
  {
    if y < 2 then y + cols else if y >= cols + 2 then y - cols else y
  }

  /** The periodic border of automata.py:155-162: every cell of the buffer
      takes the value of its source row and column in `p`, corners included. */
  function Wrap(p: Grid<bool>): (r: Grid<bool>)
    requires IsTriPadded(p)
    ensures Shape(r, |p|, Cols(p))
  {
    var rows, cols := |p| - 2, Cols(p) - 4;
    seq(|p|, x requires 0 <= x < |p| =>
      seq(Cols(p), y requires 0 <= y < Cols(p) => p[RowSource(x, rows)][ColSource(y, cols)]))
  }

  /** With at least one interior row and two interior columns, the periodic
      border makes the buffer a window onto the torus: every cell holds the
      interior cell at its position taken modulo the interior's size. */
  lemma {:induction false} WrapIsTorus(p: Grid<bool>, x: int, y: int)
    requires IsTriPadded(p) && |p| >= 3 && Cols(p) >= 6
    requires 0 <= x < |p| && 0 <= y < Cols(p)
    ensures Wrap(p)[x][y] == p[1 + (x - 1) % (|p| - 2)][2 + (y - 2) % (Cols(p) - 4)]
  {
    RowSourceMod(x, |p| - 2);
    ColSourceMod(y, Cols(p) - 4);
  }

  /** A border row is the interior row at its position modulo the interior height. */
  lemma {:induction false} RowSourceMod(x: int, rows: int)
    requires rows >= 1 && 0 <= x < rows + 2
    ensures RowSource(x, rows) == 1 + (x - 1) % rows
  {
    if x == 0 { assert (x - 1) % rows == rows - 1; }
    else if x == rows + 1 { assert (x - 1) % rows == 0; }
    else { assert (x - 1) % rows == x - 1; }
  }

  /** A border column is the interior column at its position modulo the interior width. */
  lemma {:induction false} ColSourceMod(y: int, cols: int)
    requires cols >= 2 && 0 <= y < cols + 4
    ensures ColSource(y, cols) == 2 + (y - 2) % cols
  {
    if y < 2 { assert (y - 2) % cols == y - 2 + cols; }
    else if y >= cols + 2 { assert (y - 2) % cols == y - 2 - cols; }
    else { assert (y - 2) % cols == y - 2; }
  }

  /** The sweep of automata.py:165-186 over the grid `p` (the buffer `aux`)
      with the counts read from `s` (the buffer `in_state`): interior cells
      follow the rule, border cells are not written. */
  function SweepGrid(p: Grid<bool>, s: Grid<bool>): (r: Grid<bool>)
    requires IsTriPadded(p) && Shape(s, |p|, Cols(p))
    ensures Shape(r, |p|, Cols(p))
  {
    seq(|p|, x requires 0 <= x < |p| =>
      seq(Cols(p), y requires 0 <= y < Cols(p) =>
        if OnTriBorder(x, y, |p|, Cols(p)) then p[x][y] else TriRule(p[x][y], BlendedCount(s, x, y))))
  }

  /** One step of `lifetri` on the buffer `p`, with the counts taken from
      the window table over the buffer as the sweep sees it (wrapped in
      periodic mode). */
  function TriStep(p: Grid<bool>, periodic: bool): (r: Grid<bool>)
    requires IsTriPadded(p)
    ensures IsTriPadded(r) && Shape(r, |p|, Cols(p))
  {
    var s := if periodic then Wrap(p) else p;
    seq(|p|, x requires 0 <= x < |p| =>
      seq(Cols(p), y requires 0 <= y < Cols(p) => StepCell(p, s, x, y)))
  }

  /** Cell (x, y) after one step: border cells keep their value, interior
      cells follow the rule with the window count over `s`. */
  function StepCell(p: Grid<bool>, s: Grid<bool>, x: int, y: int): bool
    requires IsTriPadded(p) && Shape(s, |p|, Cols(p)) && 0 <= x < |p| && 0 <= y < Cols(p)
  {
    if OnTriBorder(x, y, |p|, Cols(p)) then p[x][y] else TriRule(p[x][y], TriCount(s, x, y))
  }

  /** `nsteps` steps; none when nsteps <= 0 (automata.py:151). */
  function TriN(p: Grid<bool>, nsteps: int, periodic: bool): (r: Grid<bool>)
    requires IsTriPadded(p)
    ensures IsTriPadded(r) && Shape(r, |p|, Cols(p))
    decreases nsteps
  {
    if nsteps <= 0 then p else TriStep(TriN(p, nsteps - 1, periodic), periodic)
  }

  /** The sweep with slice counts performs the window-table step. */
  lemma {:induction false} SweepIsStep(p: Grid<bool>, periodic: bool)
    requires IsTriPadded(p)
    ensures SweepGrid(p, if periodic then Wrap(p) else p) == TriStep(p, periodic)
  {
    var s := if periodic then Wrap(p) else p;
    var sweep, step := SweepGrid(p, s), TriStep(p, periodic);
    forall x, y | 0 <= x < |p| && 0 <= y < Cols(p)
      ensures sweep[x][y] == step[x][y]
    {
      assert step[x][y] == StepCell(p, s, x, y);
      if !OnTriBorder(x, y, |p|, Cols(p)) {
        BlendedIsWindow(s, x, y);
      }
    }
    GridExt(sweep, step, |p|, Cols(p));
  }

  /** A step does not change a border cell. */
  lemma {:induction false} StepKeepsBorder(q: Grid<bool>, periodic: bool, x: int, y: int)
    requires IsTriPadded(q) && 0 <= x < |q| && 0 <= y < Cols(q) && OnTriBorder(x, y, |q|, Cols(q))
    ensures TriStep(q, periodic)[x][y] == q[x][y]
  {
    assert TriStep(q, periodic)[x][y] == StepCell(q, if periodic then Wrap(q) else q, x, y);
  }

  /** The border of `aux` is never written, so a dead border stays dead for
      any number of steps; without `periodic` this is the border the counts
      see. */
  lemma {:induction false} BorderStaysDead(p: Grid<bool>, nsteps: int, periodic: bool)
    requires IsTriPadded(p) && TriBorderDead(p)
    ensures TriBorderDead(TriN(p, nsteps, periodic))
    decreases nsteps
  {
    if nsteps > 0 {
      var q := TriN(p, nsteps - 1, periodic);
      BorderStaysDead(p, nsteps - 1, periodic);
      var r := TriStep(q, periodic);
      forall x, y | 0 <= x < |r| && 0 <= y < Cols(r) && OnTriBorder(x, y, |r|, Cols(r))
        ensures !r[x][y]
      {
        StepKeepsBorder(q, periodic, x, y);
      }
    }
  }

  /** No live cell within reach gives count 0. */
  lemma {:induction false} DeadWindow(s: Grid<bool>, x: int, y: int, w: seq<(int, int)>)
    requires AllDead(s) && |w| == 12
    ensures CountOver(s, x, y, w) == 0
  {
  }

  /** Every cell of the wrapped buffer is a copy of a cell of the buffer. */
  lemma {:induction false} WrapAllDead(p: Grid<bool>)
    requires IsTriPadded(p) && AllDead(p)
    ensures AllDead(Wrap(p))
  {
    var rows, cols := |p| - 2, Cols(p) - 4;
    forall x, y | 0 <= x < |p| && 0 <= y < Cols(p)
      ensures !Wrap(p)[x][y]
    {
      assert !p[RowSource(x, rows)][ColSource(y, cols)];
    }
  }

  /** One step keeps an all-dead buffer all dead. */
  lemma {:induction false} StepAllDead(q: Grid<bool>, periodic: bool)
    requires IsTriPadded(q) && AllDead(q)
    ensures AllDead(TriStep(q, periodic))
  {
    var s := if periodic then Wrap(q) else q;
    if periodic { WrapAllDead(q); }
    var r := TriStep(q, periodic);
    forall x, y | 0 <= x < |r| && 0 <= y < |r[x]|
      ensures !r[x][y]
    {
      assert r[x][y] == StepCell(q, s, x, y);
      if !OnTriBorder(x, y, |q|, Cols(q)) {
        DeadWindow(s, x, y, Window(OrientationOf(x, y)));
      }
    }
  }

  /** An all-dead buffer stays all dead for any number of steps, in either
      boundary mode. */
  lemma {:induction false} AllDeadStaysDead(p: Grid<bool>, nsteps: int, periodic: bool)
    requires IsTriPadded(p) && AllDead(p)
    ensures AllDead(TriN(p, nsteps, periodic))
    decreases nsteps
  {
    if nsteps > 0 {
      var q := TriN(p, nsteps - 1, periodic);
      AllDeadStaysDead(p, nsteps - 1, periodic);
      StepAllDead(q, periodic);
      assert TriN(p, nsteps, periodic) == TriStep(q, periodic);
    }
  }

  /** The padding of an all-dead grid is all dead. */
  lemma {:induction false} TriPadAllDead(g: Grid<bool>)
    requires IsRect(g) && AllDead(g)
    ensures AllDead(TriPad(g))
  {
    var p := TriPad(g);
    forall x, y | 0 <= x < |p| && 0 <= y < |p[x]|
      ensures !p[x][y]
    {
      if 1 <= x <= |g| && 2 <= y < Cols(g) + 2 {
        assert !g[x - 1][y - 2];
      }
    }
  }

  /** What `lifetri` returns: the interior of the buffer after `nsteps` steps. */
  function LifeTriResult(g: Grid<bool>, nsteps: int, periodic: bool): (r: Grid<bool>)
    requires IsRect(g)
    ensures Shape(r, |g|, Cols(g))
  {
    TriInterior(TriN(TriPad(g), nsteps, periodic))
  }

  /** With no steps the input comes back; an all-dead input stays all dead. */
  lemma {:induction false} LifeTriResultFacts(g: Grid<bool>, nsteps: int, periodic: bool)
    requires IsRect(g)
    ensures nsteps <= 0 ==> LifeTriResult(g, nsteps, periodic) == g
    ensures AllDead(g) ==> AllDead(LifeTriResult(g, nsteps, periodic))
  {
    TriInteriorOfPad(g);
    if AllDead(g) {
      TriPadAllDead(g);
      AllDeadStaysDead(TriPad(g), nsteps, periodic);
    }
  }

  // ---------------------------------------------------------------------------
  // The buffers
  // ---------------------------------------------------------------------------

  /** A slice assignment `d[x0:x1, y0:y1] = s[x0+dx:x1+dx, y0+dy:y1+dy]`. */
  datatype Slice = Slice(x0: int, x1: int, y0: int, y1: int, dx: int, dy: int)

  /** The slice and its source both lie inside a rows x cols buffer. */
  predicate Fits(b: Slice, rows: int, cols: int)
  {
    0 <= b.x0 < b.x1 <= rows && 0 <= b.x0 + b.dx && b.x1 + b.dx <= rows
    && 0 <= b.y0 < b.y1 <= cols && 0 <= b.y0 + b.dy && b.y1 + b.dy <= cols
  }

  /** The eight slice copies of automata.py:155-162, in order, for a buffer
      of R + 2 rows and C + 4 columns: top and bottom rows, left and right
      double columns, then the four corners. Each slice, and its source,
      lies inside every buffer of a shape `IsTriPadded` admits. */
  function WrapSlice(R: int, C: int, k: nat): (b: Slice)
    requires k < 8
    ensures R >= 0 && C >= 0 && (R == 0 ==> C == 0) ==> Fits(b, R + 2, C + 4)
  {
    if k == 0 then Slice(0, 1, 0, C + 4, R, 0)
    else if k == 1 then Slice(R + 1, R + 2, 0, C + 4, -R, 0)
    else if k == 2 then Slice(0, R + 2, 0, 2, 0, C)
    else if k == 3 then Slice(0, R + 2, C + 2, C + 4, 0, -C)
    else if k == 4 then Slice(0, 1, 0, 2, R, C)
    else if k == 5 then Slice(R + 1, R + 2, C + 2, C + 4, -R, -C)
    else if k == 6 then Slice(0, 1, C + 2, C + 4, R, -C)
    else Slice(R + 1, R + 2, 0, 2, -R, C)
  }

  /** `d` after the slice assignment `b` from `s`. */
  function Blocked(d: Grid<bool>, s: Grid<bool>, rows: nat, cols: nat, b: Slice): (r: Grid<bool>)
    requires Shape(d, rows, cols) && Shape(s, rows, cols) && Fits(b, rows, cols)
    ensures Shape(r, rows, cols)
  {
    seq(rows, x requires 0 <= x < rows =>
      seq(cols, y requires 0 <= y < cols =>
        if b.x0 <= x < b.x1 && b.y0 <= y < b.y1 then s[x + b.dx][y + b.dy] else d[x][y]))
  }

  lemma {:induction false} BlockedAt(d: Grid<bool>, s: Grid<bool>, rows: nat, cols: nat, b: Slice, x: int, y: int)
    requires Shape(d, rows, cols) && Shape(s, rows, cols) && Fits(b, rows, cols)
    requires 0 <= x < rows && 0 <= y < cols
    ensures Blocked(d, s, rows, cols, b)[x][y] ==
      if b.x0 <= x < b.x1 && b.y0 <= y < b.y1 then s[x + b.dx][y + b.dy] else d[x][y]
  {
  }

  /** The slice assignment `b` writes cell (x, y). */
  predicate Covers(b: Slice, x: int, y: int)
  {
    b.x0 <= x < b.x1 && b.y0 <= y < b.y1
  }

  /** The cell that the slice assignment `b` copies to (x, y). */
  function Source(p: Grid<bool>, b: Slice, x: int, y: int): bool
    requires IsRect(p) && Fits(b, |p|, Cols(p)) && Covers(b, x, y)
  {
    p[x + b.dx][y + b.dy]
  }

  /** Cell (x, y) after the first k of the eight copies, each reading from
      the unchanged `p`: the value the last copy covering it wrote, or its
      value in `p` if none did. */
  function StageCell(p: Grid<bool>, k: nat, x: int, y: int): bool
    requires IsTriPadded(p) && k <= 8 && 0 <= x < |p| && 0 <= y < Cols(p)
  {
    if k == 0 then p[x][y]
    else
      var b := WrapSlice(|p| - 2, Cols(p) - 4, k - 1);
      if Covers(b, x, y) then Source(p, b, x, y) else StageCell(p, k - 1, x, y)
  }

  /** The buffer after the first k of the eight copies. */
  function Stage(p: Grid<bool>, k: nat): (r: Grid<bool>)
    requires IsTriPadded(p) && k <= 8
    ensures Shape(r, |p|, Cols(p))
  {
    seq(|p|, x requires 0 <= x < |p| =>
      seq(Cols(p), y requires 0 <= y < Cols(p) => StageCell(p, k, x, y)))
  }

  /** Before any copy, the buffer is `p`. */
  lemma {:induction false} StageZero(p: Grid<bool>)
    requires IsTriPadded(p)
    ensures Stage(p, 0) == p
  {
    GridExt(Stage(p, 0), p, |p|, Cols(p));
  }

  /** Copy number k takes stage k to stage k + 1 at cell (x, y). */
  lemma {:induction false} StageStepAt(p: Grid<bool>, k: nat, x: int, y: int)
    requires IsTriPadded(p) && k < 8 && 0 <= x < |p| && 0 <= y < Cols(p)
    requires Fits(WrapSlice(|p| - 2, Cols(p) - 4, k), |p|, Cols(p))
    ensures Blocked(Stage(p, k), p, |p|, Cols(p), WrapSlice(|p| - 2, Cols(p) - 4, k))[x][y] == StageCell(p, k + 1, x, y)
  {
    BlockedAt(Stage(p, k), p, |p|, Cols(p), WrapSlice(|p| - 2, Cols(p) - 4, k), x, y);
  }

  /** Copy number k takes stage k to stage k + 1. */
  lemma {:induction false} StageStep(p: Grid<bool>, k: nat)
    requires IsTriPadded(p) && k < 8
    ensures Fits(WrapSlice(|p| - 2, Cols(p) - 4, k), |p|, Cols(p))
    ensures Blocked(Stage(p, k), p, |p|, Cols(p), WrapSlice(|p| - 2, Cols(p) - 4, k)) == Stage(p, k + 1)
  {
    var lhs := Blocked(Stage(p, k), p, |p|, Cols(p), WrapSlice(|p| - 2, Cols(p) - 4, k));
    var rhs := Stage(p, k + 1);
    forall x, y | 0 <= x < |p| && 0 <= y < Cols(p)
      ensures lhs[x][y] == rhs[x][y]
    {
      StageStepAt(p, k, x, y);
    }
    GridExt(lhs, rhs, |p|, Cols(p));
  }

  /** After all eight copies, every cell holds the cell of `p` at its source
      row and column: a corner from the last four copies, a side cell from
      the column copies, a top or bottom cell from the row copies, and an
      interior cell its own value. */
  lemma {:induction false} StageIsSource(p: Grid<bool>, x: int, y: int)
    requires IsTriPadded(p) && 0 <= x < |p| && 0 <= y < Cols(p)
    ensures StageCell(p, 8, x, y) == p[RowSource(x, |p| - 2)][ColSource(y, Cols(p) - 4)]
  {
    var R, C := |p| - 2, Cols(p) - 4;
    var top, bottom := x == 0, x == R + 1;
    var left, right := y < 2, y >= C + 2;
    if (top || bottom) && (left || right) {
      if bottom && left {
        assert StageCell(p, 8, x, y) == p[x - R][y + C];
      } else if top && right {
        assert StageCell(p, 8, x, y) == StageCell(p, 7, x, y) == p[x + R][y - C];
      } else if bottom {
        assert StageCell(p, 8, x, y) == StageCell(p, 6, x, y) == p[x - R][y - C];
      } else {
        assert StageCell(p, 8, x, y) == StageCell(p, 7, x, y) == StageCell(p, 6, x, y);
        assert StageCell(p, 6, x, y) == StageCell(p, 5, x, y) == p[x + R][y + C];
      }
    } else {
      assert StageCell(p, 8, x, y) == StageCell(p, 4, x, y) by {
        assert StageCell(p, 8, x, y) == StageCell(p, 7, x, y);
        assert StageCell(p, 7, x, y) == StageCell(p, 6, x, y);
        assert StageCell(p, 6, x, y) == StageCell(p, 5, x, y);
      }
      if right {
        assert StageCell(p, 4, x, y) == p[x][y - C];
      } else if left {
        assert StageCell(p, 4, x, y) == StageCell(p, 3, x, y) == p[x][y + C];
      } else {
        assert StageCell(p, 4, x, y) == StageCell(p, 3, x, y) == StageCell(p, 2, x, y);
        if bottom {
          assert StageCell(p, 2, x, y) == p[x - R][y];
        } else if top {
          assert StageCell(p, 2, x, y) == StageCell(p, 1, x, y) == p[x + R][y];
        } else {
          assert StageCell(p, 2, x, y) == StageCell(p, 1, x, y) == StageCell(p, 0, x, y);
        }
      }
    }
  }

  /** On a buffer equal to `p`, the eight copies from `p` leave `Wrap(p)`:
      every border cell ends with the value written by the last copy that
      covers it, which reads its source row and column. */
  lemma {:induction false} WrapBySlices(p: Grid<bool>)
    requires IsTriPadded(p)
    ensures Stage(p, 8) == Wrap(p)
  {
    var w := Wrap(p);
    forall x, y | 0 <= x < |p| && 0 <= y < Cols(p)
      ensures Stage(p, 8)[x][y] == w[x][y]
    {
      WrapAt(p, x, y);
      StageIsSource(p, x, y);
    }
    GridExt(Stage(p, 8), w, |p|, Cols(p));
  }

  lemma {:induction false} WrapAt(p: Grid<bool>, x: int, y: int)
    requires IsTriPadded(p) && 0 <= x < |p| && 0 <= y < Cols(p)
    ensures Wrap(p)[x][y] == p[RowSource(x, |p| - 2)][ColSource(y, Cols(p) - 4)]
  {
  }

  /** One slice assignment into `dst`, reading from `src`, a copy of the
      buffer the source reads from. */
  method CopySlice(dst: array2<bool>, src: Grid<bool>, b: Slice)
    requires Shape(src, dst.Length0, dst.Length1) && Fits(b, dst.Length0, dst.Length1)
    modifies dst
    ensures Cells(dst) == Blocked(old(Cells(dst)), src, dst.Length0, dst.Length1, b)
  {
    ghost var d := Cells(dst);
    forall x, y | b.x0 <= x < b.x1 && b.y0 <= y < b.y1 {
      dst[x, y] := src[x + b.dx][y + b.dy];
    }
    ghost var want := Blocked(d, src, dst.Length0, dst.Length1, b);
    forall x, y | 0 <= x < dst.Length0 && 0 <= y < dst.Length1
      ensures dst[x, y] == want[x][y]
    {
      BlockedAt(d, src, dst.Length0, dst.Length1, b, x, y);
    }
    GridExt(Cells(dst), want, dst.Length0, dst.Length1);
  }

  /** Copy number k of the periodic border, into `inState` from `p`. */
  method CopyStage(inState: array2<bool>, p: Grid<bool>, k: nat)
    requires IsTriPadded(p) && k < 8 && Cells(inState) == Stage(p, k)
    modifies inState
    ensures Cells(inState) == Stage(p, k + 1)
  {
    StageStep(p, k);
    assert inState.Length0 == |p| && inState.Length1 == |Stage(p, k)[0]| == Cols(p);
    CopySlice(inState, p, WrapSlice(|p| - 2, Cols(p) - 4, k));
  }

  /** The periodic border of automata.py:155-162: the eight slice copies,
      in order, into `inState` from `aux`, given as its copy `p` (which
      `inState` equals on entry). */
  method WrapBorder(inState: array2<bool>, p: Grid<bool>)
    requires IsTriPadded(p) && Cells(inState) == p
    modifies inState
    ensures Cells(inState) == Wrap(p)
  {
    StageZero(p);
    for k := 0 to 8
      invariant Cells(inState) == Stage(p, k)
    {
      CopyStage(inState, p, k);
    }
    WrapBySlices(p);
  }

  /** The sweep of automata.py:165-186: visits the interior row by row and
      overwrites `aux` where the rule says so, reading counts from `s`. */
  method Sweep(aux: array2<bool>, s: Grid<bool>)
    requires IsTriPadded(Cells(aux)) && Shape(s, aux.Length0, aux.Length1)
    modifies aux
    ensures Cells(aux) == SweepGrid(old(Cells(aux)), s)
  {
    ghost var p := Cells(aux);
    ghost var want := SweepGrid(p, s);
    var rows, cols := aux.Length0, aux.Length1;
    assert Cols(p) == cols && Cols(s) == cols;
    for x := 1 to rows - 1
      invariant forall i, j :: 0 <= i < rows && 0 <= j < cols ==>
        aux[i, j] == if i < x then want[i][j] else p[i][j]
    {
      for y := 2 to cols - 2
        invariant forall i, j :: 0 <= i < rows && 0 <= j < cols ==>
          aux[i, j] == if i < x || (i == x && j < y) then want[i][j] else p[i][j]
      {
        var neighbors := BlendedCount(s, x, y);
        if neighbors != 4 && neighbors != 5 && neighbors != 6 {
          aux[x, y] := false;
        } else if neighbors == 4 {
          aux[x, y] := true;
        }
      }
    }
    GridExt(Cells(aux), want, rows, cols);
  }

  /** `in_state = np.copy(aux)` into an existing buffer. */
  method CopyInto(dst: array2<bool>, src: array2<bool>)
    requires dst.Length0 == src.Length0 && dst.Length1 == src.Length1 && dst != src
    modifies dst
    ensures Cells(dst) == Cells(src)
  {
    forall x, y | 0 <= x < dst.Length0 && 0 <= y < dst.Length1 {
      dst[x, y] := src[x, y];
    }
    GridExt(Cells(dst), Cells(src), dst.Length0, dst.Length1);
  }

  /** `lifetri` (automata.py:126-192): pads the input into `aux`, then for
      each step wraps the border of `in_state` in periodic mode, sweeps the
      interior of `aux` with counts from `in_state`, and copies `aux` back
      into `in_state`; returns the interior. */
  method LifeTri(initial: Grid<bool>, nsteps: int, periodic: bool) returns (final: Grid<bool>)
    requires IsRect(initial)
    ensures final == LifeTriResult(initial, nsteps, periodic)
  {
    var rows, cols := |initial| + 2, Cols(initial) + 4;
    var aux := NewBuffer(TriPad(initial), rows, cols);
    var inState := NewBuffer(TriPad(initial), rows, cols);
    var steps := if nsteps < 0 then 0 else nsteps;
    for k := 0 to steps
      invariant Cells(aux) == TriN(TriPad(initial), k, periodic)
      invariant Cells(inState) == Cells(aux)
    {
      var p := Cells(aux);
      if periodic {
        WrapBorder(inState, p);
      }
      var s := Cells(inState);
      assert s == if periodic then Wrap(p) else p;
      Sweep(aux, s);
      SweepIsStep(p, periodic);
      CopyInto(inState, aux);
    }
    final := TriInterior(Cells(inState));
  }
}
