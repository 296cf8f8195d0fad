/** Finite sums of an integer-valued function of a cell (row, column) over
    a row segment or a rectangle, with the rules for rearranging them that
    the sandpile's mass accounting needs. */
module Sums {

  /** f(i, lo) + f(i, lo + 1) + ... + f(i, hi - 1). */
  ghost function RowSum(f: (int, int) -> int, i: int, lo: int, hi: int): int
    decreases hi - lo
  {
    if hi <= lo then 0 else RowSum(f, i, lo, hi - 1) + f(i, hi - 1)
  }

  /** The sum of f over the rows rlo <= i < rhi and columns clo <= j < chi. */
  ghost function RectSum(f: (int, int) -> int, rlo: int, rhi: int, clo: int, chi: int): int
    decreases rhi - rlo
  {
    if rhi <= rlo then 0 else RectSum(f, rlo, rhi - 1, clo, chi) + RowSum(f, rhi - 1, clo, chi)
  }

  /** A row segment sums the same after moving it by `d` columns (and to row k). */
  lemma {:induction false} RowSumShift(f: (int, int) -> int, g: (int, int) -> int, i: int, k: int, lo: int, hi: int, d: int)
    requires forall j :: lo <= j < hi ==> f(i, j) == g(k, j + d)
    ensures RowSum(f, i, lo, hi) == RowSum(g, k, lo + d, hi + d)
    decreases hi - lo
  {
    if lo < hi {
      RowSumShift(f, g, i, k, lo, hi - 1, d);
    }
  }

  /** A row segment may be cut in two at any point inside it. */
  lemma {:induction false} RowSumSplit(f: (int, int) -> int, i: int, lo: int, mid: int, hi: int)
    requires lo <= mid <= hi
    ensures RowSum(f, i, lo, hi) == RowSum(f, i, lo, mid) + RowSum(f, i, mid, hi)
    decreases hi - mid
  {
    if mid < hi {
      RowSumSplit(f, i, lo, mid, hi - 1);
    }
  }

  /** A row segment of zeros sums to zero. */
  lemma {:induction false} RowSumZero(f: (int, int) -> int, i: int, lo: int, hi: int)
    requires forall j :: lo <= j < hi ==> f(i, j) == 0
    ensures RowSum(f, i, lo, hi) == 0
    decreases hi - lo
  {
    if lo < hi {
      RowSumZero(f, i, lo, hi - 1);
    }
  }

  /** Widening a row segment by zero cells does not change its sum. */
  lemma {:induction false} RowSumZeroPad(f: (int, int) -> int, i: int, lo: int, c: int, d: int, hi: int)
    requires lo <= c <= d <= hi
    requires forall j :: lo <= j < c || d <= j < hi ==> f(i, j) == 0
    ensures RowSum(f, i, lo, hi) == RowSum(f, i, c, d)
  {
    RowSumSplit(f, i, lo, c, hi);
    RowSumSplit(f, i, c, d, hi);
    RowSumZero(f, i, lo, c);
    RowSumZero(f, i, d, hi);
  }

  /** Row sums are linear: h = f + k * g cell by cell gives the same for the sums. */
  lemma {:induction false} RowSumLinear(h: (int, int) -> int, f: (int, int) -> int, g: (int, int) -> int, k: int, i: int, lo: int, hi: int)
    requires forall j :: lo <= j < hi ==> h(i, j) == f(i, j) + k * g(i, j)
    ensures RowSum(h, i, lo, hi) == RowSum(f, i, lo, hi) + k * RowSum(g, i, lo, hi)
    decreases hi - lo
  {
    if lo < hi {
      RowSumLinear(h, f, g, k, i, lo, hi - 1);
    }
  }

  /** Row sums are monotone. */
  lemma {:induction false} RowSumMono(f: (int, int) -> int, g: (int, int) -> int, i: int, lo: int, hi: int)
    requires forall j :: lo <= j < hi ==> f(i, j) <= g(i, j)
    ensures RowSum(f, i, lo, hi) <= RowSum(g, i, lo, hi)
    decreases hi - lo
  {
    if lo < hi {
      RowSumMono(f, g, i, lo, hi - 1);
    }
  }

  /** Rectangles whose rows sum alike (row i of one against row i + d of the
      other) sum alike. */
  lemma {:induction false} RectSumByRows(f: (int, int) -> int, g: (int, int) -> int, rlo: int, rhi: int, d: int,
                                         clo: int, chi: int, clo': int, chi': int)
    requires forall i :: rlo <= i < rhi ==> RowSum(f, i, clo, chi) == RowSum(g, i + d, clo', chi')
    ensures RectSum(f, rlo, rhi, clo, chi) == RectSum(g, rlo + d, rhi + d, clo', chi')
    decreases rhi - rlo
  {
    if rlo < rhi {
      RectSumByRows(f, g, rlo, rhi - 1, d, clo, chi, clo', chi');
    }
  }

  /** A rectangle may be cut in two between any two of its rows. */
  lemma {:induction false} RectSumSplit(f: (int, int) -> int, lo: int, mid: int, hi: int, clo: int, chi: int)
    requires lo <= mid <= hi
    ensures RectSum(f, lo, hi, clo, chi) == RectSum(f, lo, mid, clo, chi) + RectSum(f, mid, hi, clo, chi)
    decreases hi - mid
  {
    if mid < hi {
      RectSumSplit(f, lo, mid, hi - 1, clo, chi);
    }
  }

  /** Rows of zeros add nothing. */
  lemma {:induction false} RectSumZeroRows(f: (int, int) -> int, lo: int, hi: int, clo: int, chi: int)
    requires forall i, j :: lo <= i < hi && clo <= j < chi ==> f(i, j) == 0
    ensures RectSum(f, lo, hi, clo, chi) == 0
    decreases hi - lo
  {
    if lo < hi {
      RectSumZeroRows(f, lo, hi - 1, clo, chi);
      RowSumZero(f, hi - 1, clo, chi);
    }
  }

  /** If f vanishes outside the box [a, b) x [c, d), every larger rectangle
      sums to the sum over the box. */
  lemma {:induction false} RectSumZeroPad(f: (int, int) -> int, rlo: int, a: int, b: int, rhi: int, clo: int, c: int, d: int, chi: int)
    requires rlo <= a <= b <= rhi && clo <= c <= d <= chi
    requires forall i, j :: rlo <= i < rhi && clo <= j < chi && !(a <= i < b && c <= j < d) ==> f(i, j) == 0
    ensures RectSum(f, rlo, rhi, clo, chi) == RectSum(f, a, b, c, d)
  {
    RectSumSplit(f, rlo, a, rhi, clo, chi);
    RectSumSplit(f, a, b, rhi, clo, chi);
    RectSumZeroRows(f, rlo, a, clo, chi);
    RectSumZeroRows(f, b, rhi, clo, chi);
    forall i | a <= i < b
      ensures RowSum(f, i, clo, chi) == RowSum(f, i + 0, c, d)
    {
      RowSumZeroPad(f, i, clo, c, d, chi);
    }
    RectSumByRows(f, f, a, b, 0, clo, chi, c, d);
  }

  /** Shifting the function by (di, dj) shifts the rectangle. */
  lemma {:induction false} RectSumShift(f: (int, int) -> int, g: (int, int) -> int, di: int, dj: int, rlo: int, rhi: int, clo: int, chi: int)
    requires forall i, j :: rlo <= i < rhi && clo <= j < chi ==> f(i, j) == g(i + di, j + dj)
    ensures RectSum(f, rlo, rhi, clo, chi) == RectSum(g, rlo + di, rhi + di, clo + dj, chi + dj)
  {
    forall i | rlo <= i < rhi
      ensures RowSum(f, i, clo, chi) == RowSum(g, i + di, clo + dj, chi + dj)
    {
      RowSumShift(f, g, i, i + di, clo, chi, dj);
    }
    RectSumByRows(f, g, rlo, rhi, di, clo, chi, clo + dj, chi + dj);
  }

  /** Rectangle sums are linear. */
  lemma {:induction false} RectSumLinear(h: (int, int) -> int, f: (int, int) -> int, g: (int, int) -> int, k: int,
                                         rlo: int, rhi: int, clo: int, chi: int)
    requires forall i, j :: rlo <= i < rhi && clo <= j < chi ==> h(i, j) == f(i, j) + k * g(i, j)
    ensures RectSum(h, rlo, rhi, clo, chi) == RectSum(f, rlo, rhi, clo, chi) + k * RectSum(g, rlo, rhi, clo, chi)
    decreases rhi - rlo
  {
    if rlo < rhi {
      RectSumLinear(h, f, g, k, rlo, rhi - 1, clo, chi);
      RowSumLinear(h, f, g, k, rhi - 1, clo, chi);
    }
  }

  /** Rectangle sums are monotone. */
  lemma {:induction false} RectSumMono(f: (int, int) -> int, g: (int, int) -> int, rlo: int, rhi: int, clo: int, chi: int)
    requires forall i, j :: rlo <= i < rhi && clo <= j < chi ==> f(i, j) <= g(i, j)
    ensures RectSum(f, rlo, rhi, clo, chi) <= RectSum(g, rlo, rhi, clo, chi)
    decreases rhi - rlo
  {
    if rlo < rhi {
      RectSumMono(f, g, rlo, rhi - 1, clo, chi);
      RowSumMono(f, g, rhi - 1, clo, chi);
    }
  }

  /** A row segment of non-negative cells sums to at least any one of them. */
  lemma {:induction false} RowSumAtLeast(f: (int, int) -> int, i: int, lo: int, hi: int, j0: int)
    requires forall j :: lo <= j < hi ==> f(i, j) >= 0
    requires lo <= j0 < hi
    ensures RowSum(f, i, lo, hi) >= f(i, j0)
    decreases hi - lo
  {
    var z := (i': int, j': int) => 0;
    if j0 == hi - 1 {
      RowSumZero(z, i, lo, hi - 1);
      RowSumMono(z, f, i, lo, hi - 1);
    } else {
      RowSumAtLeast(f, i, lo, hi - 1, j0);
    }
  }

  /** A rectangle of non-negative cells sums to at least any one of them. */
  lemma {:induction false} RectSumAtLeast(f: (int, int) -> int, rlo: int, rhi: int, clo: int, chi: int, i0: int, j0: int)
    requires forall i, j :: rlo <= i < rhi && clo <= j < chi ==> f(i, j) >= 0
    requires rlo <= i0 < rhi && clo <= j0 < chi
    ensures RectSum(f, rlo, rhi, clo, chi) >= f(i0, j0)
    decreases rhi - rlo
  {
    var z := (i: int, j: int) => 0;
    if i0 == rhi - 1 {
      RectSumZeroRows(z, rlo, rhi - 1, clo, chi);
      RectSumMono(z, f, rlo, rhi - 1, clo, chi);
      RowSumAtLeast(f, i0, clo, chi, j0);
    } else {
      RectSumAtLeast(f, rlo, rhi - 1, clo, chi, i0, j0);
      RowSumZero(z, rhi - 1, clo, chi);
      RowSumMono(z, f, rhi - 1, clo, chi);
    }
  }

  /** A rows x cols table framed by a ring of zeros sums like the table. */
  lemma {:induction false} RectSumFramed(f: (int, int) -> int, h: (int, int) -> int, rows: int, cols: int)
    requires rows >= 0 && cols >= 0
    requires forall i, j :: 0 <= i < rows + 2 && 0 <= j < cols + 2 ==>
      f(i, j) == if 1 <= i < rows + 1 && 1 <= j < cols + 1 then h(i - 1, j - 1) else 0
    ensures RectSum(f, 0, rows + 2, 0, cols + 2) == RectSum(h, 0, rows, 0, cols)
  {
    RectSumZeroPad(f, 0, 1, rows + 1, rows + 2, 0, 1, cols + 1, cols + 2);
    RectSumShift(f, h, -1, -1, 1, rows + 1, 1, cols + 1);
  }

  /** A function that vanishes outside the box [1, rows - 1) x [1, cols - 1)
      sums, over [0, rows) x [0, cols), to the same total after a shift by at
      most one cell in each direction. */
  lemma {:induction false} RectSumShiftInside(s: (int, int) -> int, f: (int, int) -> int, di: int, dj: int, rows: int, cols: int)
    requires 2 <= rows && 2 <= cols && -1 <= di <= 1 && -1 <= dj <= 1
    requires forall i, j :: !(1 <= i < rows - 1 && 1 <= j < cols - 1) ==> f(i, j) == 0
    requires forall i, j :: 0 <= i < rows && 0 <= j < cols ==> s(i, j) == f(i + di, j + dj)
    ensures RectSum(s, 0, rows, 0, cols) == RectSum(f, 1, rows - 1, 1, cols - 1)
  {
    RectSumShift(s, f, di, dj, 0, rows, 0, cols);
    RectSumZeroPad(f, di, 1, rows - 1, rows + di, dj, 1, cols - 1, cols + dj);
  }

  /** If f takes four units from every cell where t is 1 and gives one to
      each cell where one of n, s, w, e is 1, and each of n, s, w, e sums to
      the same total as t, then f and p sum alike. */
  lemma {:induction false} RectSumBalanced(f: (int, int) -> int, p: (int, int) -> int, t: (int, int) -> int,
                        n: (int, int) -> int, s: (int, int) -> int, w: (int, int) -> int, e: (int, int) -> int,
                        rows: int, cols: int)
    requires forall i, j :: 0 <= i < rows && 0 <= j < cols ==>
      f(i, j) == p(i, j) - 4 * t(i, j) + n(i, j) + s(i, j) + w(i, j) + e(i, j)
    requires RectSum(n, 0, rows, 0, cols) == RectSum(t, 0, rows, 0, cols)
    requires RectSum(s, 0, rows, 0, cols) == RectSum(t, 0, rows, 0, cols)
    requires RectSum(w, 0, rows, 0, cols) == RectSum(t, 0, rows, 0, cols)
    requires RectSum(e, 0, rows, 0, cols) == RectSum(t, 0, rows, 0, cols)
    ensures RectSum(f, 0, rows, 0, cols) == RectSum(p, 0, rows, 0, cols)
  {
    var g1 := (i, j) => p(i, j) - 4 * t(i, j);
    var g2 := (i, j) => g1(i, j) + n(i, j);
    var g3 := (i, j) => g2(i, j) + s(i, j);
    var g4 := (i, j) => g3(i, j) + w(i, j);
    RectSumLinear(g1, p, t, -4, 0, rows, 0, cols);
    RectSumLinear(g2, g1, n, 1, 0, rows, 0, cols);
    RectSumLinear(g3, g2, s, 1, 0, rows, 0, cols);
    RectSumLinear(g4, g3, w, 1, 0, rows, 0, cols);
    RectSumLinear(f, g4, e, 1, 0, rows, 0, cols);
  }
}
