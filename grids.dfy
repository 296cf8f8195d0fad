/** Rectangular grids shared by the four engines: value grids (row-major
    sequences of rows) and the array buffers the engines update. */
module Grids {

  /** A grid stored row by row; `IsRect` says all rows have one length. */
  type Grid<T> = seq<seq<T>>

  /** Number of columns, read off the first row (0 for a grid with no rows). */
  function Cols<T>(g: Grid<T>): nat
  {
    if |g| == 0 then 0 else |g[0]|
  }

  /** `g` has exactly `rows` rows of `cols` cells each. */
  predicate Shape<T>(g: Grid<T>, rows: nat, cols: nat)
  {
    |g| == rows && forall i :: 0 <= i < rows ==> |g[i]| == cols
  }

  /** A well-formed (rectangular) grid. */
  predicate IsRect<T>(g: Grid<T>)
  {
    Shape(g, |g|, Cols(g))
  }

  /** Every cell of `g` is dead. */
  predicate AllDead(g: Grid<bool>)
  {
    forall i, j :: 0 <= i < |g| && 0 <= j < |g[i]| ==> !g[i][j]
  }

  /** A live cell counts 1, a dead one 0. */
  function Val(b: bool): nat
  {
    if b then 1 else 0
  }

  /** A copy of the current contents of a two-dimensional buffer. */
  function Cells<T>(a: array2<T>): (g: Grid<T>)
    reads a
    ensures Shape(g, a.Length0, a.Length1)
    ensures forall i, j :: 0 <= i < a.Length0 && 0 <= j < a.Length1 ==> g[i][j] == a[i, j]
  {
    seq(a.Length0, i requires 0 <= i < a.Length0 reads a =>
      seq(a.Length1, j requires 0 <= j < a.Length1 reads a => a[i, j]))
  }

  /** A fresh buffer holding a copy of `g`. */
  method NewBuffer<T>(g: Grid<T>, rows: nat, cols: nat) returns (a: array2<T>)
    requires Shape(g, rows, cols)
    ensures fresh(a) && a.Length0 == rows && a.Length1 == cols
    ensures Cells(a) == g
  {
    a := new T[rows, cols]((i, j) requires 0 <= i < rows && 0 <= j < cols => g[i][j]);
    GridExt(Cells(a), g, rows, cols);
  }

  /** Two grids of one shape that agree on every cell are equal. */
  lemma {:induction false} GridExt<T>(g: Grid<T>, h: Grid<T>, rows: nat, cols: nat)
    requires Shape(g, rows, cols) && Shape(h, rows, cols)
    requires forall i, j :: 0 <= i < rows && 0 <= j < cols ==> g[i][j] == h[i][j]
    ensures g == h
  {
    forall i | 0 <= i < rows
      ensures g[i] == h[i]
    {
      assert forall j :: 0 <= j < cols ==> g[i][j] == h[i][j];
    }
  }
}
