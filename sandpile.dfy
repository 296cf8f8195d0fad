/** The Abelian sandpile (automata.py, `sandpile`): an integer grid is
    embedded in a ring of zero cells and relaxed by simultaneous chip-firing
    until no cell holds more than three grains. Grains pushed onto the ring
    are discarded after every pass. */
module SandpileEngine {
  import opened Grids
  import opened Sums

  /** The cell value, or 0 outside the grid. */
  function At(g: Grid<int>, i: int, j: int): int
  {
    if 0 <= i < |g| && 0 <= j < |g[i]| then g[i][j] else 0
  }

  /** The grid as a function of (row, column), zero outside it. */
  ghost function Grains(g: Grid<int>): (int, int) -> int
  {
    (i, j) => At(g, i, j)
  }

  /** Total number of grains on the grid. */
  ghost function Mass(g: Grid<int>): int
  {
    RectSum(Grains(g), 0, |g|, 0, Cols(g))
  }

  /** No cell holds more than three grains. */
  predicate Stable(g: Grid<int>)
  {
    forall i, j :: 0 <= i < |g| && 0 <= j < |g[i]| ==> g[i][j] <= 3
  }

  /** No cell holds a negative number of grains. */
  predicate NonNegative(g: Grid<int>)
  {
    forall i, j :: 0 <= i < |g| && 0 <= j < |g[i]| ==> g[i][j] >= 0
  }

  /** A padded grid: rectangular, with room for a one-cell border ring (a
      grid without interior rows has no interior columns either). */
  predicate IsPadded(p: Grid<int>)
  {
    IsRect(p) && |p| >= 2 && Cols(p) >= 2 && (|p| == 2 ==> Cols(p) == 2)
  }

  /** (i, j) lies on the outer ring of a rows x cols grid. */
  predicate OnBorder(i: int, j: int, rows: int, cols: int)
  {
    i == 0 || i == rows - 1 || j == 0 || j == cols - 1
  }

  /** Every cell of the outer ring is zero. */
  predicate BorderZero(p: Grid<int>)
    requires IsRect(p)
  {
    forall i, j :: 0 <= i < |p| && 0 <= j < Cols(p) && OnBorder(i, j, |p|, Cols(p)) ==> p[i][j] == 0
  }

  /** `g` inside a one-cell ring of zeros (automata.py:25-27). */
  function Pad(g: Grid<int>): (p: Grid<int>)
    requires IsRect(g)
    ensures IsPadded(p) && Shape(p, |g| + 2, Cols(g) + 2) && BorderZero(p)
    ensures forall i, j :: 0 <= i < |g| && 0 <= j < Cols(g) ==> p[i + 1][j + 1] == g[i][j]
  {
    seq(|g| + 2, i requires 0 <= i < |g| + 2 =>
      seq(Cols(g) + 2, j requires 0 <= j < Cols(g) + 2 =>
        if 1 <= i <= |g| && 1 <= j <= Cols(g) then g[i - 1][j - 1] else 0))
  }

  /** The padded grid without its ring (automata.py:51). */
  function Interior(p: Grid<int>): (g: Grid<int>)
    requires IsPadded(p)
    ensures Shape(g, |p| - 2, Cols(p) - 2)
    ensures forall i, j :: 0 <= i < |g| && 0 <= j < Cols(p) - 2 ==> g[i][j] == p[i + 1][j + 1]
  {
    seq(|p| - 2, i requires 0 <= i < |p| - 2 =>
      seq(Cols(p) - 2, j requires 0 <= j < Cols(p) - 2 => p[i + 1][j + 1]))
  }

  /** Stripping the ring undoes padding. */
  lemma {:induction false} InteriorOfPad(g: Grid<int>)
    requires IsRect(g)
    ensures Interior(Pad(g)) == g
  {
    var h := Interior(Pad(g));
    assert Cols(h) == Cols(g) by {
      if |g| > 0 { assert |h[0]| == Cols(g); }
    }
    GridExt(h, g, |g|, Cols(g));
  }

  /** Padding undoes stripping when the ring is zero. */
  lemma {:induction false} PadOfInterior(p: Grid<int>)
    requires IsPadded(p) && BorderZero(p)
    ensures Pad(Interior(p)) == p
  {
    var g := Interior(p);
    assert Cols(g) == Cols(p) - 2 by {
      if |g| > 0 { assert |g[0]| == Cols(p) - 2; }
    }
    var q := Pad(g);
    forall i, j | 0 <= i < |p| && 0 <= j < Cols(p)
      ensures q[i][j] == p[i][j]
    {
      if !OnBorder(i, j, |p|, Cols(p)) {
        assert q[i][j] == g[i - 1][j - 1];
      }
    }
    GridExt(q, p, |p|, Cols(p));
  }

  /** 1 if (i, j) is a cell of `p` holding more than three grains, which
      therefore fires in this pass (automata.py:32), and 0 otherwise. */
  function Topples(p: Grid<int>, i: int, j: int): nat
  {
    if 0 <= i < |p| && 0 <= j < |p[i]| && p[i][j] > 3 then 1 else 0
  }

  /** Cell (i, j) once every unstable cell of `p` has fired at the same
      time: it loses four grains if it fires itself and gains one from each
      firing orthogonal neighbour (automata.py:38-42). A cell that starts
      with no debt never goes into debt: it only fires from four grains. */
  function FiredAt(p: Grid<int>, i: int, j: int): (r: int)
    requires 0 <= i < |p| && 0 <= j < |p[i]|
    ensures p[i][j] >= 0 ==> r >= 0
  {
    p[i][j] - 4 * Topples(p, i, j)
      + Topples(p, i - 1, j) + Topples(p, i + 1, j) + Topples(p, i, j - 1) + Topples(p, i, j + 1)
  }

  /** One pass of the relaxation loop: simultaneous firing, then the ring is
      cleared so that grains pushed off the grid are lost (automata.py:38-44). */
  function Pass(p: Grid<int>): (q: Grid<int>)
    requires IsPadded(p)
    ensures IsPadded(q) && Shape(q, |p|, Cols(p)) && BorderZero(q)
  {
    seq(|p|, i requires 0 <= i < |p| =>
      seq(Cols(p), j requires 0 <= j < Cols(p) =>
        if OnBorder(i, j, |p|, Cols(p)) then 0 else FiredAt(p, i, j)))
  }

  /** The relaxation loop (automata.py:29-44) run for at most `fuel` passes:
      the padded grid reached, and whether it is stable. */
  function Relax(p: Grid<int>, fuel: nat): (r: (Grid<int>, bool))
    requires IsPadded(p)
    ensures IsPadded(r.0) && Shape(r.0, |p|, Cols(p))
    decreases fuel
  {
    if Stable(p) then (p, true)
    else if fuel == 0 then (p, false)
    else Relax(Pass(p), fuel - 1)
  }

  /** The relaxation loop stops on the first stable grid it meets, and
      reports stability exactly when the grid it stops on is stable; the
      ring stays zero. */
  lemma {:induction false} RelaxResult(p: Grid<int>, fuel: nat)
    requires IsPadded(p) && BorderZero(p)
    ensures BorderZero(Relax(p, fuel).0)
    ensures Relax(p, fuel).1 <==> Stable(Relax(p, fuel).0)
    ensures Stable(p) ==> Relax(p, fuel) == (p, true)
    decreases fuel
  {
    if !Stable(p) && fuel > 0 {
      RelaxResult(Pass(p), fuel - 1);
    }
  }

  /** Relaxing what a relaxation left stable changes nothing, whatever the
      number of passes allowed. */
  lemma {:induction false} RelaxIdempotent(p: Grid<int>, fuel: nat, fuel': nat)
    requires IsPadded(p) && BorderZero(p)
    requires Relax(p, fuel).1
    ensures Relax(Relax(p, fuel).0, fuel') == (Relax(p, fuel).0, true)
  {
    RelaxResult(p, fuel);
    RelaxResult(Relax(p, fuel).0, fuel');
  }

  /** Firing keeps every cell non-negative, and the relaxation loop keeps a
      non-negative grid non-negative. */
  lemma {:induction false} RelaxNonNegative(p: Grid<int>, fuel: nat)
    requires IsPadded(p) && NonNegative(p)
    ensures NonNegative(Relax(p, fuel).0)
    decreases fuel
  {
    if !Stable(p) && fuel > 0 {
      var q := Pass(p);
      forall i, j | 0 <= i < |q| && 0 <= j < |q[i]|
        ensures q[i][j] >= 0
      {
        if !OnBorder(i, j, |p|, Cols(p)) {
          assert p[i][j] >= 4 * Topples(p, i, j);
        }
      }
      RelaxNonNegative(q, fuel - 1);
    }
  }

  /** Padding adds no grains. */
  lemma {:induction false} MassOfPad(g: Grid<int>)
    requires IsRect(g)
    ensures Mass(Pad(g)) == Mass(g)
  {
    var p := Pad(g);
    var rows, cols := |g|, Cols(g);
    assert Cols(p) == cols + 2;
    forall i, j | 0 <= i < rows + 2 && 0 <= j < cols + 2
      ensures Grains(p)(i, j) == if 1 <= i < rows + 1 && 1 <= j < cols + 1 then Grains(g)(i - 1, j - 1) else 0
    {
      assert Grains(p)(i, j) == p[i][j];
    }
    RectSumFramed(Grains(p), Grains(g), rows, cols);
  }

  /** Stripping a zero ring removes no grains. */
  lemma {:induction false} MassOfInterior(p: Grid<int>)
    requires IsPadded(p) && BorderZero(p)
    ensures Mass(Interior(p)) == Mass(p)
  {
    PadOfInterior(p);
    MassOfPad(Interior(p));
  }

  /** The grains that the firing of `p` pushes onto the ring, where the
      ring clearing (automata.py:43-44) discards them. */
  ghost function Lost(p: Grid<int>): int
    requires IsPadded(p)
  {
    RectSum(RingGrains(p), 0, |p|, 0, Cols(p))
  }

  /** The grains on each ring cell after the firing, 0 off the ring. */
  ghost function RingGrains(p: Grid<int>): (int, int) -> int
  {
    (i, j) => if 0 <= i < |p| && 0 <= j < |p[i]| && OnBorder(i, j, |p|, Cols(p)) then FiredAt(p, i, j) else 0
  }

  /** Which cells of `p` fire, read at offset (di, dj). */
  ghost function FiringAt(p: Grid<int>, di: int, dj: int): (int, int) -> int
  {
    (i, j) => Topples(p, i + di, j + dj)
  }

  /** Only cells strictly inside the ring can fire: the ring holds no grains. */
  lemma {:induction false} FiringInsideRing(p: Grid<int>)
    requires IsPadded(p) && BorderZero(p)
    ensures forall i, j :: !(1 <= i < |p| - 1 && 1 <= j < Cols(p) - 1) ==> FiringAt(p, 0, 0)(i, j) == 0
  {
    forall i, j | !(1 <= i < |p| - 1 && 1 <= j < Cols(p) - 1)
      ensures FiringAt(p, 0, 0)(i, j) == 0
    {
      assert FiringAt(p, 0, 0)(i, j) == Topples(p, i, j);
      if 0 <= i < |p| && 0 <= j < |p[i]| {
        assert OnBorder(i, j, |p|, Cols(p)) && |p[i]| == Cols(p);
        assert p[i][j] == 0;
      }
    }
  }

  /** Reading the firing cells at an offset is reading them shifted. */
  lemma {:induction false} FiringShift(p: Grid<int>, di: int, dj: int)
    ensures forall i, j :: 0 <= i < |p| && 0 <= j < Cols(p) ==>
      FiringAt(p, di, dj)(i, j) == FiringAt(p, 0, 0)(i + di, j + dj)
  {
    forall i, j | 0 <= i < |p| && 0 <= j < Cols(p)
      ensures FiringAt(p, di, dj)(i, j) == FiringAt(p, 0, 0)(i + di, j + dj)
    {
      assert FiringAt(p, 0, 0)(i + di, j + dj) == Topples(p, i + di + 0, j + dj + 0);
    }
  }

  /** Since every firing cell lies strictly inside the ring, looking at the
      firing cells from any neighbouring offset counts each of them once. */
  lemma {:induction false} ShiftedFiringCount(p: Grid<int>, di: int, dj: int)
    requires IsPadded(p) && BorderZero(p)
    requires -1 <= di <= 1 && -1 <= dj <= 1
    ensures RectSum(FiringAt(p, di, dj), 0, |p|, 0, Cols(p))
         == RectSum(FiringAt(p, 0, 0), 1, |p| - 1, 1, Cols(p) - 1)
  {
    FiringInsideRing(p);
    FiringShift(p, di, dj);
    RectSumShiftInside(FiringAt(p, di, dj), FiringAt(p, 0, 0), di, dj, |p|, Cols(p));
  }

  /** The padded grid right after the firing, before the ring is cleared. */
  ghost function FiredGrains(p: Grid<int>): (int, int) -> int
  {
    (i, j) => if 0 <= i < |p| && 0 <= j < |p[i]| then FiredAt(p, i, j) else 0
  }

  /** Simultaneous firing moves grains without creating or destroying any:
      a firing cell gives its four grains to its four neighbours, all on the
      padded grid because no ring cell ever fires. */
  lemma {:induction false} FiringConservesMass(p: Grid<int>)
    requires IsPadded(p) && BorderZero(p)
    ensures RectSum(FiredGrains(p), 0, |p|, 0, Cols(p)) == Mass(p)
  {
    ShiftedFiringCount(p, 0, 0);
    ShiftedFiringCount(p, -1, 0);
    ShiftedFiringCount(p, 1, 0);
    ShiftedFiringCount(p, 0, -1);
    ShiftedFiringCount(p, 0, 1);
    FiredPointwise(p);
    RectSumBalanced(FiredGrains(p), Grains(p), FiringAt(p, 0, 0),
                    FiringAt(p, -1, 0), FiringAt(p, 1, 0), FiringAt(p, 0, -1), FiringAt(p, 0, 1), |p|, Cols(p));
  }

  /** The fired grid cell by cell, in terms of the firing cells. */
  lemma {:induction false} FiredPointwise(p: Grid<int>)
    requires IsRect(p)
    ensures forall i, j :: 0 <= i < |p| && 0 <= j < Cols(p) ==>
      FiredGrains(p)(i, j) == Grains(p)(i, j) - 4 * FiringAt(p, 0, 0)(i, j)
        + FiringAt(p, -1, 0)(i, j) + FiringAt(p, 1, 0)(i, j) + FiringAt(p, 0, -1)(i, j) + FiringAt(p, 0, 1)(i, j)
  {
  }

  /** A ring cell holds no grains and never fires, so after the firing it
      holds one grain per firing neighbour. */
  lemma {:induction false} RingFired(p: Grid<int>, i: int, j: int)
    requires IsPadded(p) && BorderZero(p)
    requires 0 <= i < |p| && 0 <= j < Cols(p) && OnBorder(i, j, |p|, Cols(p))
    ensures FiredAt(p, i, j) ==
      Topples(p, i - 1, j) + Topples(p, i + 1, j) + Topples(p, i, j - 1) + Topples(p, i, j + 1)
  {
    assert |p[i]| == Cols(p) && p[i][j] == 0;
  }

  /** Every ring cell ends the firing with no debt. */
  lemma {:induction false} LostNonNegative(p: Grid<int>)
    requires IsPadded(p) && BorderZero(p)
    ensures Lost(p) >= 0
  {
    var L := RingGrains(p);
    var Z := (i: int, j: int) => 0;
    RectSumZeroRows(Z, 0, |p|, 0, Cols(p));
    forall i, j | 0 <= i < |p| && 0 <= j < Cols(p)
      ensures Z(i, j) <= L(i, j)
    {
      if OnBorder(i, j, |p|, Cols(p)) {
        RingFired(p, i, j);
      }
    }
    RectSumMono(Z, L, 0, |p|, 0, Cols(p));
  }

  /** When every firing cell lies at least two cells inside the padded
      grid, no grain reaches the ring. */
  lemma {:induction false} DeepFiringLosesNothing(p: Grid<int>)
    requires IsPadded(p) && BorderZero(p)
    requires forall i, j :: Topples(p, i, j) == 1 ==> 2 <= i < |p| - 2 && 2 <= j < Cols(p) - 2
    ensures Lost(p) == 0
  {
    var L := RingGrains(p);
    forall i, j | 0 <= i < |p| && 0 <= j < Cols(p)
      ensures L(i, j) == 0
    {
      if OnBorder(i, j, |p|, Cols(p)) {
        RingFired(p, i, j);
      }
    }
    RectSumZeroRows(L, 0, |p|, 0, Cols(p));
  }

  /** A firing cell next to the ring pushes a grain onto it. */
  lemma {:induction false} ShallowFiringLoses(p: Grid<int>, i: int, j: int)
    requires IsPadded(p) && BorderZero(p)
    requires Topples(p, i, j) == 1 && !(2 <= i < |p| - 2 && 2 <= j < Cols(p) - 2)
    ensures Lost(p) > 0
  {
    var rows, cols := |p|, Cols(p);
    assert |p[i]| == cols && !OnBorder(i, j, rows, cols);
    var ri, rj := if i == 1 then 0 else if i == rows - 2 then rows - 1 else i,
                  if i == 1 || i == rows - 2 then j else if j == 1 then 0 else cols - 1;
    RingFired(p, ri, rj);
    forall i', j' | 0 <= i' < rows && 0 <= j' < cols
      ensures RingGrains(p)(i', j') >= 0
    {
      if OnBorder(i', j', rows, cols) {
        RingFired(p, i', j');
      }
    }
    RectSumAtLeast(RingGrains(p), 0, rows, 0, cols, ri, rj);
  }

  /** The discarded amount is never negative, and it is zero exactly when
      every firing cell lies at least two cells inside the padded grid. */
  lemma {:induction false} LostIffDeep(p: Grid<int>)
    requires IsPadded(p) && BorderZero(p)
    ensures Lost(p) >= 0
    ensures Lost(p) == 0 <==>
      forall i, j :: Topples(p, i, j) == 1 ==> 2 <= i < |p| - 2 && 2 <= j < Cols(p) - 2
  {
    LostNonNegative(p);
    if forall i, j :: Topples(p, i, j) == 1 ==> 2 <= i < |p| - 2 && 2 <= j < Cols(p) - 2 {
      DeepFiringLosesNothing(p);
    } else {
      var i, j :| Topples(p, i, j) == 1 && !(2 <= i < |p| - 2 && 2 <= j < Cols(p) - 2);
      ShallowFiringLoses(p, i, j);
    }
  }

  /** One pass keeps every grain it does not push onto the ring: the mass
      after the pass plus the discarded grains is the mass before, and the
      discarded amount is never negative, so a pass never adds mass. None
      is lost exactly when no firing cell touches the ring, that is when
      every firing cell lies at least two cells inside the padded grid. */
  lemma {:induction false} PassMass(p: Grid<int>)
    requires IsPadded(p) && BorderZero(p)
    ensures Mass(Pass(p)) + Lost(p) == Mass(p)
    ensures Lost(p) >= 0
    ensures Lost(p) == 0 <==>
      forall i, j :: Topples(p, i, j) == 1 ==> 2 <= i < |p| - 2 && 2 <= j < Cols(p) - 2
  {
    FiringConservesMass(p);
    RectSumLinear(FiredGrains(p), Grains(Pass(p)), RingGrains(p), 1, 0, |p|, 0, Cols(p));
    LostIffDeep(p);
  }

  /** Every cell that fires lies at least two cells inside the padded
      grid, so none of its grains reaches the ring. */
  ghost predicate DeepFiring(p: Grid<int>)
    requires IsPadded(p)
  {
    forall i, j :: Topples(p, i, j) == 1 ==> 2 <= i < |p| - 2 && 2 <= j < Cols(p) - 2
  }

  /** The grains the ring clearing discards over all the passes that
      `Relax` performs. */
  ghost function RelaxLost(p: Grid<int>, fuel: nat): int
    requires IsPadded(p)
    decreases fuel
  {
    if Stable(p) || fuel == 0 then 0 else Lost(p) + RelaxLost(Pass(p), fuel - 1)
  }

  /** Every pass that `Relax` performs fires only deep cells. */
  ghost predicate DeepRun(p: Grid<int>, fuel: nat)
    requires IsPadded(p)
    decreases fuel
  {
    Stable(p) || fuel == 0 || (DeepFiring(p) && DeepRun(Pass(p), fuel - 1))
  }

  /** The relaxation loop keeps every grain it does not discard: the mass
      it ends with plus the grains discarded over its passes is the mass it
      started with. The discarded amount is never negative, so the loop
      never adds grains, and it is zero exactly when every pass fires only
      cells at least two cells inside the padded grid. */
  lemma {:induction false} RelaxMass(p: Grid<int>, fuel: nat)
    requires IsPadded(p) && BorderZero(p)
    ensures Mass(Relax(p, fuel).0) + RelaxLost(p, fuel) == Mass(p)
    ensures RelaxLost(p, fuel) >= 0
    ensures RelaxLost(p, fuel) == 0 <==> DeepRun(p, fuel)
    ensures Mass(Relax(p, fuel).0) <= Mass(p)
  {
    RelaxLostIffDeep(p, fuel);
    RelaxConserves(p, fuel);
  }

  /** The run's mass plus its discarded grains is the mass it started with. */
  lemma {:induction false} RelaxConserves(p: Grid<int>, fuel: nat)
    requires IsPadded(p) && BorderZero(p)
    ensures Mass(Relax(p, fuel).0) + RelaxLost(p, fuel) == Mass(p)
    decreases fuel
  {
    if !Stable(p) && fuel > 0 {
      PassMass(p);
      RelaxConserves(Pass(p), fuel - 1);
    }
  }

  /** The run discards a non-negative amount, zero exactly when every pass
      fires only deep cells. */
  lemma {:induction false} RelaxLostIffDeep(p: Grid<int>, fuel: nat)
    requires IsPadded(p) && BorderZero(p)
    ensures RelaxLost(p, fuel) >= 0
    ensures RelaxLost(p, fuel) == 0 <==> DeepRun(p, fuel)
    decreases fuel
  {
    if !Stable(p) && fuel > 0 {
      LostIffDeep(p);
      assert Lost(p) == 0 <==> DeepFiring(p);
      RelaxLostIffDeep(Pass(p), fuel - 1);
    }
  }

  /** The loop test of automata.py:29: whether some cell holds more than
      three grains, found by a scan in row-major order. */
  method AnyUnstable(a: array2<int>) returns (found: bool)
    ensures found <==> !Stable(Cells(a))
  {
    var i := 0;
    while i < a.Length0
      invariant 0 <= i <= a.Length0
      invariant forall k, l :: 0 <= k < i && 0 <= l < a.Length1 ==> a[k, l] <= 3
    {
      var j := 0;
      while j < a.Length1
        invariant 0 <= j <= a.Length1
        invariant forall l :: 0 <= l < j ==> a[i, l] <= 3
      {
        if a[i, j] > 3 {
          assert Cells(a)[i][j] > 3;
          return true;
        }
        j := j + 1;
      }
      i := i + 1;
    }
    return false;
  }

  /** `g` after the fancy-indexed update `g[x + di, y + dj] += amount` over
      the cells (x, y) that fire in `s`. */
  function SpreadGrid(g: Grid<int>, s: Grid<int>, di: int, dj: int, amount: int): (r: Grid<int>)
    ensures |r| == |g| && forall i :: 0 <= i < |g| ==> |r[i]| == |g[i]|
  {
    seq(|g|, i requires 0 <= i < |g| =>
      seq(|g[i]|, j requires 0 <= j < |g[i]| => g[i][j] + amount * Topples(s, i - di, j - dj)))
  }

  lemma {:induction false} SpreadGridAt(g: Grid<int>, s: Grid<int>, di: int, dj: int, amount: int, i: int, j: int)
    requires 0 <= i < |g| && 0 <= j < |g[i]|
    ensures SpreadGrid(g, s, di, dj, amount)[i][j] == g[i][j] + amount * Topples(s, i - di, j - dj)
  {
  }

  /** `g` with its outer ring set to zero (automata.py:43-44). */
  function ClearRing(g: Grid<int>): (r: Grid<int>)
    requires IsRect(g)
    ensures Shape(r, |g|, Cols(g))
  {
    seq(|g|, i requires 0 <= i < |g| =>
      seq(Cols(g), j requires 0 <= j < Cols(g) => if OnBorder(i, j, |g|, Cols(g)) then 0 else g[i][j]))
  }

  /** The five fancy-indexed updates of automata.py:38-42, applied one after
      the other to the padded grid, followed by the ring clearing, amount to
      one pass of simultaneous firing. */
  lemma {:induction false} PassBySpreads(p: Grid<int>)
    requires IsPadded(p)
    ensures ClearRing(SpreadGrid(SpreadGrid(SpreadGrid(SpreadGrid(SpreadGrid(p,
              p, -1, 0, 1), p, 1, 0, 1), p, 0, -1, 1), p, 0, 1, 1), p, 0, 0, -4)) == Pass(p)
  {
    var a1 := SpreadGrid(p, p, -1, 0, 1);
    var a2 := SpreadGrid(a1, p, 1, 0, 1);
    var a3 := SpreadGrid(a2, p, 0, -1, 1);
    var a4 := SpreadGrid(a3, p, 0, 1, 1);
    var a5 := SpreadGrid(a4, p, 0, 0, -4);
    assert Shape(a5, |p|, Cols(p));
    GridExt(ClearRing(a5), Pass(p), |p|, Cols(p));
  }

  /** A fancy-indexed update `a[x + di, y + dj] += amount` over the cells
      (x, y) that fire in the snapshot `s` (one of automata.py:38-42). */
  method Spread(a: array2<int>, s: Grid<int>, di: int, dj: int, amount: int)
    requires Shape(s, a.Length0, a.Length1)
    requires forall x, y :: 0 <= x < |s| && 0 <= y < |s[x]| && s[x][y] > 3 ==>
      0 <= x + di < a.Length0 && 0 <= y + dj < a.Length1
    modifies a
    ensures Cells(a) == SpreadGrid(old(Cells(a)), s, di, dj, amount)
  {
    ghost var g := Cells(a);
    forall x, y | 0 <= x < a.Length0 && 0 <= y < a.Length1 && s[x][y] > 3 {
      a[x + di, y + dj] := a[x + di, y + dj] + amount;
    }
    forall i, j | 0 <= i < a.Length0 && 0 <= j < a.Length1
      ensures a[i, j] == g[i][j] + amount * Topples(s, i - di, j - dj)
    {
      var x, y := i - di, j - dj;
      if Topples(s, x, y) == 1 {
        assert a[x + di, y + dj] == old(a[x + di, y + dj]) + amount;
      }
    }
    ghost var h := Cells(a);
    ghost var want := SpreadGrid(g, s, di, dj, amount);
    forall i, j | 0 <= i < a.Length0 && 0 <= j < a.Length1
      ensures h[i][j] == want[i][j]
    {
      assert h[i][j] == a[i, j];
      SpreadGridAt(g, s, di, dj, amount, i, j);
    }
    GridExt(h, want, a.Length0, a.Length1);
  }

  /** `in_state[[0, -1], :] = 0` and `in_state[:, [0, -1]] = 0`
      (automata.py:43-44). */
  method ClearBorder(a: array2<int>)
    requires a.Length0 >= 1 && a.Length1 >= 1
    modifies a
    ensures Cells(a) == ClearRing(old(Cells(a)))
  {
    ghost var g := Cells(a);
    var rows, cols := a.Length0, a.Length1;
    forall i, j | i in {0, rows - 1} && 0 <= j < cols {
      a[i, j] := 0;
    }
    forall i, j | 0 <= i < rows && j in {0, cols - 1} {
      a[i, j] := 0;
    }
    assert Cols(g) == cols by {
      assert |g[0]| == cols;
    }
    GridExt(Cells(a), ClearRing(g), rows, cols);
  }

  /** One pass of the relaxation loop on the padded buffer (automata.py:32-44).
      The firing cells are read once, from a snapshot of the buffer taken
      before the pass; each of the five fancy-indexed updates then adds to
      every target cell at most once, since a shift of the grid is injective. */
  method Topple(a: array2<int>)
    requires IsPadded(Cells(a)) && BorderZero(Cells(a))
    modifies a
    ensures Cells(a) == Pass(old(Cells(a)))
  {
    var here := Cells(a);
    assert forall x, y :: 0 <= x < |here| && 0 <= y < |here[x]| && here[x][y] > 3 ==>
      1 <= x < |here| - 1 && 1 <= y < Cols(here) - 1;
    Spread(a, here, -1, 0, 1);
    Spread(a, here, 1, 0, 1);
    Spread(a, here, 0, -1, 1);
    Spread(a, here, 0, 1, 1);
    Spread(a, here, 0, 0, -4);
    ClearBorder(a);
    PassBySpreads(here);
  }

  /** An unstable grid with passes left to run takes one pass. */
  lemma {:induction false} RelaxStep(p: Grid<int>, fuel: nat)
    requires IsPadded(p) && !Stable(p) && fuel > 0
    ensures Relax(Pass(p), fuel - 1) == Relax(p, fuel)
  {
  }

  /** What `sandpile` computes when its loop is allowed at most `fuel`
      passes: the interior of the relaxed padded grid (automata.py:51), and
      whether relaxation finished. */
  function Settle(g: Grid<int>, fuel: nat): (r: (Grid<int>, bool))
    requires IsRect(g)
    ensures Shape(r.0, |g|, Cols(g))
  {
    var q := Relax(Pad(g), fuel);
    (Interior(q.0), q.1)
  }

  /** A padded grid with a zero ring is stable exactly when its interior is. */
  lemma {:induction false} StableInterior(p: Grid<int>)
    requires IsPadded(p) && BorderZero(p)
    ensures Stable(p) <==> Stable(Interior(p))
  {
    var g := Interior(p);
    if Stable(g) {
      forall i, j | 0 <= i < |p| && 0 <= j < |p[i]|
        ensures p[i][j] <= 3
      {
        if !OnBorder(i, j, |p|, Cols(p)) {
          assert p[i][j] == g[i - 1][j - 1];
        }
      }
    }
  }

  /** `sandpile` returns a grid of the input's shape; the flag says it is
      stable; a grid that is already stable comes back unchanged. */
  lemma {:induction false} SettleResult(g: Grid<int>, fuel: nat)
    requires IsRect(g)
    ensures Settle(g, fuel).1 <==> Stable(Settle(g, fuel).0)
    ensures Stable(g) ==> Settle(g, fuel) == (g, true)
  {
    var p := Pad(g);
    RelaxResult(p, fuel);
    StableInterior(Relax(p, fuel).0);
    InteriorOfPad(g);
    StableInterior(p);
  }

  /** `sandpile` keeps every grain its passes do not fire onto the ring:
      the result's mass plus the discarded grains is the input's mass. So
      it never creates grains, and it keeps them all exactly when every pass
      fires only cells at least two cells inside the padded grid. */
  lemma {:induction false} SettleMass(g: Grid<int>, fuel: nat)
    requires IsRect(g)
    ensures Mass(Settle(g, fuel).0) + RelaxLost(Pad(g), fuel) == Mass(g)
    ensures Mass(Settle(g, fuel).0) <= Mass(g)
    ensures Mass(Settle(g, fuel).0) == Mass(g) <==> DeepRun(Pad(g), fuel)
  {
    var p := Pad(g);
    MassOfPad(g);
    RelaxMass(p, fuel);
    RelaxResult(p, fuel);
    MassOfInterior(Relax(p, fuel).0);
  }

  /** A grid with no negative cells settles to one with none; together with
      stability, every cell of a finished result holds 0 to 3 grains. */
  lemma {:induction false} SettleNonNegative(g: Grid<int>, fuel: nat)
    requires IsRect(g) && NonNegative(g)
    ensures NonNegative(Settle(g, fuel).0)
  {
    var p := Pad(g);
    forall i, j | 0 <= i < |p| && 0 <= j < |p[i]|
      ensures p[i][j] >= 0
    {
      if !OnBorder(i, j, |p|, Cols(p)) {
        assert p[i][j] == g[i - 1][j - 1];
      }
    }
    RelaxNonNegative(p, fuel);
  }

  /** Running `sandpile` again on a finished result returns it unchanged. */
  lemma {:induction false} SettleIdempotent(g: Grid<int>, fuel: nat, fuel': nat)
    requires IsRect(g) && Settle(g, fuel).1
    ensures Settle(Settle(g, fuel).0, fuel') == (Settle(g, fuel).0, true)
  {
    SettleResult(g, fuel);
    SettleResult(Settle(g, fuel).0, fuel');
  }

  /** `sandpile` (automata.py:8-51) with the relaxation loop cut off after
      `fuel` passes: copies the input into a zero-ringed buffer, fires every
      unstable cell pass after pass, and returns the interior. */
  method Sandpile(initial: Grid<int>, fuel: nat) returns (final: Grid<int>, stable: bool)
    requires IsRect(initial)
    ensures (final, stable) == Settle(initial, fuel)
  {
    var rows, cols := |initial| + 2, Cols(initial) + 2;
    var a := NewBuffer(Pad(initial), rows, cols);
    var passes: nat := 0;
    var unstable := AnyUnstable(a);
    ghost var q := Pad(initial);
    ghost var left: nat := fuel;
    ghost var target := Relax(q, fuel);
    while unstable && passes < fuel
      invariant Cells(a) == q
      invariant IsPadded(q) && BorderZero(q)
      invariant left == fuel - passes
      invariant Relax(q, left) == target
      invariant unstable <==> !Stable(q)
      decreases left
    {
      Topple(a);
      RelaxStep(q, left);
      q, passes, left := Pass(q), passes + 1, left - 1;
      unstable := AnyUnstable(a);
    }
    assert target == (q, !unstable);
    stable := !unstable;
    final := Interior(Cells(a));
  }
}
