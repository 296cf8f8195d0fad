/** Life on an arbitrary graph (automata.py, `life_generic`): cell x's
    neighbours are the j with matrix[x][j] set, its count is the number of
    live neighbours, and the survival and birth counts are parameters. */
module GraphLife {
  import opened Grids
  import GridLife

  datatype Option<T> = None | Some(value: T)

  /** An adjacency matrix for n cells: rows of n entries, at least one per
      cell. The loop reads only the first n rows, so any further rows are
      ignored. */
  predicate IsAdjacency(m: Grid<bool>, n: nat)
  {
    n <= |m| && forall x :: 0 <= x < |m| ==> |m[x]| == n
  }

  /** `np.dot(row, state)` read as 0/1 vectors: the number of positions set
      in both (automata.py:229). */
  function Dot(row: seq<bool>, s: seq<bool>): (n: nat)
    requires |row| == |s|
    ensures n <= |row|
  {
    if |row| == 0 then 0
    else Dot(row[..|row| - 1], s[..|s| - 1]) + Val(row[|row| - 1] && s[|s| - 1])
  }

  /** The live neighbours: positions set in both the row and the state. */
  function Common(row: seq<bool>, s: seq<bool>): set<int>
    requires |row| == |s|
  {
    set j | 0 <= j < |row| && row[j] && s[j]
  }

  /** The dot product counts exactly the live neighbours. */
  lemma {:induction false} DotIsCount(row: seq<bool>, s: seq<bool>)
    requires |row| == |s|
    ensures Dot(row, s) == |Common(row, s)|
    decreases |row|
  {
    if |row| > 0 {
      var n := |row| - 1;
      var r', s' := row[..n], s[..n];
      DotIsCount(r', s');
      var before := Common(r', s');
      assert n !in before;
      if row[n] && s[n] {
        assert Common(row, s) == before + {n};
      } else {
        assert Common(row, s) == before;
      }
    }
  }

  /** The update of automata.py:231-234: a count outside `environment`
      kills the cell; otherwise a count in `fertility` brings it to life and
      any other count keeps its state. */
  function GenericRule(alive: bool, n: nat, environment: set<int>, fertility: set<int>): (r: bool)
  {
    if n !in environment then false else if n in fertility then true else alive
  }

  /** A cell is alive after the rule exactly when its count is in
      `environment` and it is either in `fertility` or the cell was alive:
      a birth needs the count in both sets. */
  lemma {:induction false} GenericRuleCases(alive: bool, n: nat, environment: set<int>, fertility: set<int>)
    ensures GenericRule(alive, n, environment, fertility) <==>
      n in environment && (n in fertility || alive)
    ensures !alive && GenericRule(alive, n, environment, fertility) ==> n in environment * fertility
  {
  }

  /** With environment {2, 3} and fertility {3}, the rule is Conway's. */
  lemma {:induction false} ConwayInstance(alive: bool, n: nat)
    ensures GenericRule(alive, n, {2, 3}, {3}) == GridLife.LifeRule(alive, n)
  {
  }

  /** One synchronous step: every count is taken from `s`. */
  function GenericStep(m: Grid<bool>, s: seq<bool>, environment: set<int>, fertility: set<int>): (r: seq<bool>)
    requires IsAdjacency(m, |s|)
    ensures |r| == |s|
  {
    seq(|s|, x requires 0 <= x < |s| => GenericRule(s[x], Dot(m[x], s), environment, fertility))
  }

  /** `nsteps` steps; `range(nsteps)` is empty when nsteps <= 0 (automata.py:224). */
  function GenericN(m: Grid<bool>, s: seq<bool>, nsteps: int, environment: set<int>, fertility: set<int>): (r: seq<bool>)
    requires IsAdjacency(m, |s|)
    ensures |r| == |s|
    decreases nsteps
  {
    if nsteps <= 0 then s
    else
      var prev := GenericN(m, s, nsteps - 1, environment, fertility);
      GenericStep(m, prev, environment, fertility)
  }

  /** Cell x after one step, in terms of its live neighbours. */
  lemma {:induction false} GenericStepCell(m: Grid<bool>, s: seq<bool>, environment: set<int>, fertility: set<int>, x: int)
    requires IsAdjacency(m, |s|) && 0 <= x < |s|
    ensures GenericStep(m, s, environment, fertility)[x] <==>
      |Common(m[x], s)| in environment && (|Common(m[x], s)| in fertility || s[x])
  {
    DotIsCount(m[x], s);
  }

  /** An all-dead state has no live neighbours. */
  lemma {:induction false} DeadDot(row: seq<bool>, s: seq<bool>)
    requires |row| == |s| && forall j :: 0 <= j < |s| ==> !s[j]
    ensures Dot(row, s) == 0
  {
    DotIsCount(row, s);
    assert Common(row, s) == {};
  }

  /** From an all-dead state every cell comes alive when 0 is both a
      surviving and a fertile count, and none does otherwise. */
  lemma {:induction false} StepFromAllDead(m: Grid<bool>, s: seq<bool>, environment: set<int>, fertility: set<int>)
    requires IsAdjacency(m, |s|) && forall j :: 0 <= j < |s| ==> !s[j]
    ensures forall x :: 0 <= x < |s| ==>
      GenericStep(m, s, environment, fertility)[x] == (0 in environment && 0 in fertility)
  {
    forall x | 0 <= x < |s|
      ensures GenericStep(m, s, environment, fertility)[x] == (0 in environment && 0 in fertility)
    {
      DeadDot(m[x], s);
    }
  }

  /** Unless 0 is both a surviving and a fertile count, an all-dead state
      stays all dead for any number of steps. */
  lemma {:induction false} AllDeadStaysDead(m: Grid<bool>, s: seq<bool>, nsteps: int, environment: set<int>, fertility: set<int>)
    requires IsAdjacency(m, |s|) && forall j :: 0 <= j < |s| ==> !s[j]
    requires !(0 in environment && 0 in fertility)
    ensures forall j :: 0 <= j < |s| ==> !GenericN(m, s, nsteps, environment, fertility)[j]
    decreases nsteps
  {
    if nsteps > 0 {
      var prev := GenericN(m, s, nsteps - 1, environment, fertility);
      AllDeadStaysDead(m, s, nsteps - 1, environment, fertility);
      StepFromAllDead(m, prev, environment, fertility);
    }
  }

  /** One pass of the loop over x (automata.py:226-234): every cell of `aux`
      is updated from the unchanged snapshot `inState`. */
  method Pass(aux: array<bool>, inState: array<bool>, m: Grid<bool>, environment: set<int>, fertility: set<int>)
    requires aux != inState && aux[..] == inState[..] && IsAdjacency(m, inState.Length)
    modifies aux
    ensures aux[..] == GenericStep(m, inState[..], environment, fertility)
  {
    ghost var s := inState[..];
    ghost var want := GenericStep(m, s, environment, fertility);
    for x := 0 to aux.Length
      invariant inState[..] == s
      invariant forall i :: 0 <= i < x ==> aux[i] == want[i]
      invariant forall i :: x <= i < aux.Length ==> aux[i] == s[i]
    {
      var neighbors := Dot(m[x], inState[..]);
      if neighbors !in environment {
        aux[x] := false;
      } else if neighbors in fertility {
        aux[x] := true;
      }
    }
  }

  /** `life_generic` (automata.py:195-240): copies the state into `inState`
      and `aux`, runs `nsteps` passes, copying `aux` back after each. */
  method LifeGeneric(matrix: Grid<bool>, initial: seq<bool>, nsteps: int, environment: set<int>, fertility: set<int>)
    returns (final: seq<bool>)
    requires IsAdjacency(matrix, |initial|)
    ensures final == GenericN(matrix, initial, nsteps, environment, fertility)
    ensures |final| == |initial|
    ensures nsteps <= 0 ==> final == initial
  {
    var n := |initial|;
    var inState := new bool[n](i requires 0 <= i < n => initial[i]);
    var aux := new bool[n](i requires 0 <= i < n => initial[i]);
    assert inState[..] == initial;
    var steps := if nsteps < 0 then 0 else nsteps;
    for k := 0 to steps
      invariant inState != aux && inState.Length == n && aux.Length == n
      invariant inState[..] == GenericN(matrix, initial, k, environment, fertility)
      invariant aux[..] == inState[..]
    {
      Pass(aux, inState, matrix, environment, fertility);
      inState := new bool[n](i requires 0 <= i < n reads aux => aux[i]);
      assert inState[..] == aux[..];
    }
    final := inState[..];
  }

  // ---------------------------------------------------------------------------
  // The square grid as a graph
  // ---------------------------------------------------------------------------

  /** A product of non-negative numbers is non-negative. */
  lemma {:induction false} MulNonNeg(a: int, b: int)
    requires a >= 0 && b >= 0
    ensures a * b >= 0
  {
  }

  /** Row-major numbering: k splits into row k / cols and column k % cols. */
  lemma {:induction false} IndexSplit(k: int, rows: int, cols: int)
    requires 0 <= rows && 0 <= cols && 0 <= k < rows * cols
    ensures cols > 0 && 0 <= k / cols < rows && 0 <= k % cols < cols
    ensures k == (k / cols) * cols + k % cols
  {
  }

  /** Row-major numbering: cell (x, y) has number x * cols + y. */
  lemma {:induction false} IndexJoin(x: int, y: int, rows: int, cols: int)
    requires 0 <= x < rows && 0 <= y < cols
    ensures 0 <= x * cols + y < rows * cols
    ensures (x * cols + y) / cols == x && (x * cols + y) % cols == y
  {
    MulNonNeg(x, cols);
    MulNonNeg(rows - x - 1, cols);
    assert rows * cols == (rows - x - 1) * cols + x * cols + cols;
    var k := x * cols + y;
    var q, r := k / cols, k % cols;
    assert k == q * cols + r && 0 <= r < cols;
    if q > x {
      MulNonNeg(q - x - 1, cols);
    } else if q < x {
      MulNonNeg(x - q - 1, cols);
    }
  }

  /** Cell number k of a grid numbered row by row. */
  function FlatCell(g: Grid<bool>, k: int): bool
    requires IsRect(g) && 0 <= k < |g| * Cols(g)
  {
    IndexSplit(k, |g|, Cols(g));
    g[k / Cols(g)][k % Cols(g)]
  }

  /** The grid as a state vector, row by row. */
  function Flatten(g: Grid<bool>): (s: seq<bool>)
    requires IsRect(g)
    ensures |s| == |g| * Cols(g)
  {
    seq(|g| * Cols(g), k requires 0 <= k < |g| * Cols(g) => FlatCell(g, k))
  }

  /** Cell (x, y) of the grid is entry x * cols + y of the vector. */
  lemma {:induction false} FlattenAt(g: Grid<bool>, x: int, y: int)
    requires IsRect(g) && 0 <= x < |g| && 0 <= y < Cols(g)
    ensures 0 <= x * Cols(g) + y < |Flatten(g)| && Flatten(g)[x * Cols(g) + y] == g[x][y]
  {
    IndexJoin(x, y, |g|, Cols(g));
  }

  /** Cells number a and b of a grid with `cols` columns are distinct and at
      most one row and one column apart. */
  predicate MooreAdjacent(a: int, b: int, cols: int)
  {
    cols > 0 && a != b && -1 <= a / cols - b / cols <= 1 && -1 <= a % cols - b % cols <= 1
  }

  /** The adjacency matrix of the eight-neighbour grid graph on a rows x
      cols grid numbered row by row, cells outside the grid having no edge. */
  function MooreMatrix(rows: nat, cols: nat): (m: Grid<bool>)
    ensures IsAdjacency(m, rows * cols)
  {
    seq(rows * cols, a requires 0 <= a < rows * cols =>
      seq(rows * cols, b requires 0 <= b < rows * cols => MooreAdjacent(a, b, cols)))
  }

  /** The eight neighbour offsets, in the order `GridLife.MooreCount` adds them. */
  const MooreOffsets: seq<(int, int)> := [(-1, -1), (-1, 0), (-1, 1), (0, -1), (0, 1), (1, -1), (1, 0), (1, 1)]

  /** The offsets are the eight non-zero steps of at most one row and column. */
  lemma {:induction false} MooreOffsetsAre(dx: int, dy: int)
    ensures (dx, dy) in MooreOffsets <==> -1 <= dx <= 1 && -1 <= dy <= 1 && (dx, dy) != (0, 0)
  {
  }

  /** No offset is listed twice. */
  lemma {:induction false} MooreOffsetsDistinct(t: int)
    requires 1 <= t <= 8
    ensures MooreOffsets[t - 1] !in MooreOffsets[..t - 1]
  {
  }

  /** Numbers of the live cells among the first t neighbours of (i, j). */
  ghost function LiveAround(g: Grid<bool>, i: int, j: int, t: nat): set<int>
    requires IsRect(g) && t <= 8
  {
    if t == 0 then {}
    else
      var d := MooreOffsets[t - 1];
      LiveAround(g, i, j, t - 1)
        + if GridLife.Neighbour(g, i + d.0, j + d.1, false) then {(i + d.0) * Cols(g) + (j + d.1)} else {}
  }

  /** How many of the first t neighbours of (i, j) are alive. */
  ghost function LiveCount(g: Grid<bool>, i: int, j: int, t: nat): nat
    requires IsRect(g) && t <= 8
  {
    if t == 0 then 0
    else
      var d := MooreOffsets[t - 1];
      LiveCount(g, i, j, t - 1) + Val(GridLife.Neighbour(g, i + d.0, j + d.1, false))
  }

  /** Number k is that of a live cell of the grid whose offset from (i, j)
      is listed in `offsets`. */
  ghost predicate Numbered(g: Grid<bool>, i: int, j: int, k: int, offsets: seq<(int, int)>)
    requires IsRect(g) && Cols(g) > 0
  {
    0 <= k < |Flatten(g)| && (k / Cols(g) - i, k % Cols(g) - j) in offsets && Flatten(g)[k]
  }

  /** Listing offset t adds to the numbered cells exactly the number of
      neighbour t, when that neighbour is alive. */
  lemma {:induction false} NumberedStep(g: Grid<bool>, i: int, j: int, t: nat, k: int)
    requires IsRect(g) && Cols(g) > 0 && 0 < t <= 8
    ensures Numbered(g, i, j, k, MooreOffsets[..t]) <==>
      Numbered(g, i, j, k, MooreOffsets[..t - 1])
      || (GridLife.Neighbour(g, i + MooreOffsets[t - 1].0, j + MooreOffsets[t - 1].1, false)
          && k == (i + MooreOffsets[t - 1].0) * Cols(g) + (j + MooreOffsets[t - 1].1))
  {
    var c := Cols(g);
    var d := MooreOffsets[t - 1];
    assert MooreOffsets[..t] == MooreOffsets[..t - 1] + [d];
    var x, y := i + d.0, j + d.1;
    if GridLife.Neighbour(g, x, y, false) && k == x * c + y {
      IndexJoin(x, y, |g|, c);
      FlattenAt(g, x, y);
    }
    if 0 <= k < |Flatten(g)| && (k / c - i, k % c - j) == d {
      IndexSplit(k, |g|, c);
      FlattenAt(g, k / c, k % c);
    }
  }

  /** A number is in `LiveAround` exactly when it numbers a live cell of the
      grid whose offset from (i, j) is one of the first t. */
  lemma {:induction false} LiveAroundMember(g: Grid<bool>, i: int, j: int, t: nat, k: int)
    requires IsRect(g) && Cols(g) > 0 && t <= 8
    ensures k in LiveAround(g, i, j, t) <==> Numbered(g, i, j, k, MooreOffsets[..t])
    decreases t
  {
    if t > 0 {
      LiveAroundMember(g, i, j, t - 1, k);
      NumberedStep(g, i, j, t, k);
    }
  }

  /** Every number in `LiveAround` lies at one of the first t offsets. */
  lemma {:induction false} AroundOffsets(g: Grid<bool>, i: int, j: int, t: nat, k: int)
    requires IsRect(g) && Cols(g) > 0 && t <= 8
    ensures k in LiveAround(g, i, j, t) ==> (k / Cols(g) - i, k % Cols(g) - j) in MooreOffsets[..t]
    decreases t
  {
    if t > 0 && k in LiveAround(g, i, j, t) {
      var d := MooreOffsets[t - 1];
      assert MooreOffsets[..t] == MooreOffsets[..t - 1] + [d];
      if k in LiveAround(g, i, j, t - 1) {
        AroundOffsets(g, i, j, t - 1, k);
      } else {
        IndexJoin(i + d.0, j + d.1, |g|, Cols(g));
      }
    }
  }

  /** The number of neighbour t is not among those of the first t - 1:
      distinct offsets give distinct numbers. */
  lemma {:induction false} FreshNeighbour(g: Grid<bool>, i: int, j: int, t: nat)
    requires IsRect(g) && Cols(g) > 0 && 0 < t <= 8
    requires GridLife.Neighbour(g, i + MooreOffsets[t - 1].0, j + MooreOffsets[t - 1].1, false)
    ensures (i + MooreOffsets[t - 1].0) * Cols(g) + (j + MooreOffsets[t - 1].1) !in LiveAround(g, i, j, t - 1)
  {
    var x, y := i + MooreOffsets[t - 1].0, j + MooreOffsets[t - 1].1;
    MooreOffsetsDistinct(t);
    IndexJoin(x, y, |g|, Cols(g));
    AroundOffsets(g, i, j, t - 1, x * Cols(g) + y);
  }

  /** Neighbour t adds its number to `LiveAround` exactly when it is alive,
      and the number is new. */
  lemma {:induction false} LiveAroundGrows(g: Grid<bool>, i: int, j: int, t: nat)
    requires IsRect(g) && Cols(g) > 0 && 0 < t <= 8
    ensures |LiveAround(g, i, j, t)| ==
      |LiveAround(g, i, j, t - 1)| + Val(GridLife.Neighbour(g, i + MooreOffsets[t - 1].0, j + MooreOffsets[t - 1].1, false))
  {
    var d := MooreOffsets[t - 1];
    var x, y := i + d.0, j + d.1;
    var before := LiveAround(g, i, j, t - 1);
    if GridLife.Neighbour(g, x, y, false) {
      var k := x * Cols(g) + y;
      assert LiveAround(g, i, j, t) == before + {k};
      FreshNeighbour(g, i, j, t);
    } else {
      assert LiveAround(g, i, j, t) == before;
    }
  }

  /** `LiveAround` has one number per live neighbour among the first t. */
  lemma {:induction false} LiveAroundSize(g: Grid<bool>, i: int, j: int, t: nat)
    requires IsRect(g) && Cols(g) > 0 && t <= 8
    ensures |LiveAround(g, i, j, t)| == LiveCount(g, i, j, t)
    decreases t
  {
    if t > 0 {
      LiveAroundSize(g, i, j, t - 1);
      LiveAroundGrows(g, i, j, t);
    }
  }

  /** The Moore count in 'fill' mode counts the eight neighbours one by one. */
  lemma {:induction false} LiveCountIsMoore(g: Grid<bool>, i: int, j: int)
    requires IsRect(g)
    ensures LiveCount(g, i, j, 8) == GridLife.MooreCount(g, i, j, false)
  {
    var n := (dx, dy) => Val(GridLife.Neighbour(g, i + dx, j + dy, false));
    assert LiveCount(g, i, j, 1) == n(-1, -1);
    assert LiveCount(g, i, j, 2) == LiveCount(g, i, j, 1) + n(-1, 0);
    assert LiveCount(g, i, j, 3) == LiveCount(g, i, j, 2) + n(-1, 1);
    assert LiveCount(g, i, j, 4) == LiveCount(g, i, j, 3) + n(0, -1);
    assert LiveCount(g, i, j, 5) == LiveCount(g, i, j, 4) + n(0, 1);
    assert LiveCount(g, i, j, 6) == LiveCount(g, i, j, 5) + n(1, -1);
    assert LiveCount(g, i, j, 7) == LiveCount(g, i, j, 6) + n(1, 0);
  }

  /** Entry k of cell (i, j)'s row is set, with cell k alive, exactly when
      k numbers a live Moore neighbour of (i, j). */
  lemma {:induction false} MooreEntry(g: Grid<bool>, i: int, j: int, k: int)
    requires IsRect(g) && 0 <= i < |g| && 0 <= j < Cols(g)
    ensures 0 <= i * Cols(g) + j < |g| * Cols(g)
    ensures var row, s := MooreMatrix(|g|, Cols(g))[i * Cols(g) + j], Flatten(g);
      (0 <= k < |s| && row[k] && s[k]) <==> k in LiveAround(g, i, j, 8)
  {
    var c := Cols(g);
    var me := i * c + j;
    IndexJoin(i, j, |g|, c);
    assert MooreOffsets[..8] == MooreOffsets;
    LiveAroundMember(g, i, j, 8, k);
    if 0 <= k < |g| * c {
      IndexSplit(k, |g|, c);
      MooreOffsetsAre(k / c - i, k % c - j);
      assert MooreMatrix(|g|, c)[me][k] == MooreAdjacent(me, k, c);
    }
  }

  /** In the graph of the grid, the dot product of cell (i, j)'s row with
      the flattened state is the 'fill'-mode Moore count of `life`. */
  lemma {:induction false} MooreDot(g: Grid<bool>, i: int, j: int)
    requires IsRect(g) && 0 <= i < |g| && 0 <= j < Cols(g)
    ensures 0 <= i * Cols(g) + j < |g| * Cols(g)
    ensures Dot(MooreMatrix(|g|, Cols(g))[i * Cols(g) + j], Flatten(g)) == GridLife.MooreCount(g, i, j, false)
  {
    var c := Cols(g);
    var me := i * c + j;
    IndexJoin(i, j, |g|, c);
    var row, s := MooreMatrix(|g|, c)[me], Flatten(g);
    DotIsCount(row, s);
    forall k
      ensures k in Common(row, s) <==> k in LiveAround(g, i, j, 8)
    {
      MooreEntry(g, i, j, k);
    }
    assert Common(row, s) == LiveAround(g, i, j, 8);
    LiveAroundSize(g, i, j, 8);
    LiveCountIsMoore(g, i, j);
  }

  /** One step of the graph engine on the grid graph with Conway's sets is
      one 'fill'-mode step of `life`, read row by row. */
  lemma {:induction false} MooreStep(g: Grid<bool>)
    requires IsRect(g)
    ensures GenericStep(MooreMatrix(|g|, Cols(g)), Flatten(g), {2, 3}, {3}) == Flatten(GridLife.LifeStep(g, false))
  {
    var lhs := GenericStep(MooreMatrix(|g|, Cols(g)), Flatten(g), {2, 3}, {3});
    var rhs := Flatten(GridLife.LifeStep(g, false));
    forall k | 0 <= k < |lhs|
      ensures lhs[k] == rhs[k]
    {
      MooreStepAt(g, k);
    }
  }

  /** Entry k of that step: the cell numbered k after one step of `life`. */
  lemma {:induction false} MooreStepAt(g: Grid<bool>, k: int)
    requires IsRect(g) && 0 <= k < |g| * Cols(g)
    ensures |Flatten(GridLife.LifeStep(g, false))| == |g| * Cols(g)
    ensures GenericStep(MooreMatrix(|g|, Cols(g)), Flatten(g), {2, 3}, {3})[k] == Flatten(GridLife.LifeStep(g, false))[k]
  {
    var c := Cols(g);
    var h := GridLife.LifeStep(g, false);
    assert |h| == |g| && Cols(h) == c;
    IndexSplit(k, |g|, c);
    var x, y := k / c, k % c;
    MooreDot(g, x, y);
    FlattenAt(g, x, y);
    FlattenAt(h, x, y);
    ConwayInstance(g[x][y], GridLife.MooreCount(g, x, y, false));
  }

  /** The graph engine, given the eight-neighbour grid graph and Conway's
      sets {2, 3} and {3}, reproduces `life` with a dead boundary, for any
      number of steps. */
  lemma {:induction false} GridGraphIsLife(g: Grid<bool>, nsteps: int)
    requires IsRect(g)
    ensures GenericN(MooreMatrix(|g|, Cols(g)), Flatten(g), nsteps, {2, 3}, {3})
         == Flatten(GridLife.LifeN(g, nsteps, false))
    decreases nsteps
  {
    if nsteps > 0 {
      var h := GridLife.LifeN(g, nsteps - 1, false);
      GridGraphIsLife(g, nsteps - 1);
      assert |h| == |g| && Cols(h) == Cols(g);
      MooreStep(h);
    }
  }

  // ---------------------------------------------------------------------------
  // The code as written
  // ---------------------------------------------------------------------------

  /** A set of at most one element that holds n is {n}. */
  lemma {:induction false} AtMostOne(fertility: set<int>, n: int)
    requires |fertility| <= 1 && n in fertility
    ensures fertility == {n}
  {
    var rest := fertility - {n};
    assert fertility == rest + {n};
    assert rest == {};
  }

  /** `neighbors == np.array(list(fertility))` used as a condition
      (automata.py:233), as NumPy 2.2 and later evaluate it: the comparison
      is element-wise, so with one element it holds exactly when `fertility`
      is {n}; an array of any other size has no truth value and raises an
      error (None). NumPy before 2.2 instead read the empty array as false,
      with a deprecation warning from version 1.14 on. */
  function FertileAsWritten(n: nat, fertility: set<int>): (r: Option<bool>)
    ensures r.None? <==> |fertility| != 1
    ensures r == Some(true) <==> fertility == {n}
  {
    if |fertility| != 1 then None
    else
      if n in fertility then AtMostOne(fertility, n); Some(true)
      else Some(false)
  }

  /** The rule as written: an error exactly when the fertility test is
      reached and `fertility` does not hold exactly one count; otherwise the
      rule itself. */
  function RuleAsWritten(alive: bool, n: nat, environment: set<int>, fertility: set<int>): (r: Option<bool>)
    ensures r.None? <==> n in environment && |fertility| != 1
    ensures r.Some? ==> r.value == GenericRule(alive, n, environment, fertility)
  {
    if n !in environment then Some(false)
    else
      match FertileAsWritten(n, fertility)
      case None => None
      case Some(born) => Some(if born then true else alive)
  }

  /** With fertility {3, 6} (a birth on 3 or 6 neighbours) and environment
      {2, 3}, a dead cell with three live neighbours reaches the fertility
      test and the code fails, where the rule brings it to life. */
  lemma {:induction false} TwoFertileCountsFail()
    ensures RuleAsWritten(false, 3, {2, 3}, {3, 6}) == None
    ensures GenericRule(false, 3, {2, 3}, {3, 6})
  {
    assert |{3, 6}| == 2;
  }

  /** With no fertile count (survival only, no births), a live cell with
      two live neighbours reaches the fertility test and the code fails,
      where the rule keeps it alive. */
  lemma {:induction false} NoFertileCountFails()
    ensures RuleAsWritten(true, 2, {2, 3}, {}) == None
    ensures GenericRule(true, 2, {2, 3}, {})
  {
  }

  /** `np.dot` of two boolean arrays, as numpy computes it: a boolean, true
      when some position is set in both, which then compares as 1 or 0
      against the integer counts of `environment` and `fertility`. */
  function DotAsWritten(row: seq<bool>, s: seq<bool>): (n: nat)
    requires |row| == |s|
    ensures n <= 1
    ensures n == 1 <==> exists j :: 0 <= j < |row| && row[j] && s[j]
  {
    if exists j :: 0 <= j < |row| && row[j] && s[j] then 1 else 0
  }

  /** The boolean dot product is the count capped at 1. */
  lemma {:induction false} DotAsWrittenIsCapped(row: seq<bool>, s: seq<bool>)
    requires |row| == |s|
    ensures DotAsWritten(row, s) == if Dot(row, s) == 0 then 0 else 1
  {
    DotIsCount(row, s);
    if Dot(row, s) > 0 {
      var j :| j in Common(row, s);
    } else {
      assert forall j :: 0 <= j < |row| && row[j] && s[j] ==> j in Common(row, s);
    }
  }

  /** A cell with two live neighbours gets count 1 from the boolean dot
      product, so under Conway's sets {2, 3} and {3} it dies where it should
      survive. */
  lemma {:induction false} BooleanDotLosesCount()
    ensures Dot([true, true], [true, true]) == 2
    ensures DotAsWritten([true, true], [true, true]) == 1
    ensures !GenericRule(true, DotAsWritten([true, true], [true, true]), {2, 3}, {3})
    ensures GenericRule(true, Dot([true, true], [true, true]), {2, 3}, {3})
  {
    assert [true, true][..1] == [true];
    assert [true][..0] == [];
    assert [true, true][0] && [true, true][0];
  }
}
