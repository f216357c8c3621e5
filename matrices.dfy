/** Raster bands as row-major matrices of values, and the array operations
    the scripts apply to them: top-left crops (`a[:h, :w]`), windows
    (`a[r0:r1, c0:c1]`), and the row-major list of the non-NaN values
    (`a.compressed()`, `a[~np.isnan(a)]`). */
module Matrices {
  import opened Base

  type Matrix<T> = seq<seq<T>>

  /** The matrix has `h` rows of `w` columns each. */
  predicate IsRect<T>(m: Matrix<T>, h: nat, w: nat) {
    |m| == h && forall i :: 0 <= i < h ==> |m[i]| == w
  }

  /** Column count, taken from the first row (0 for a matrix without rows). */
  function Width<T>(m: Matrix<T>): nat {
    if |m| == 0 then 0 else |m[0]|
  }

  function Min(a: int, b: int): int { if a <= b then a else b }

  function Max(a: int, b: int): int { if a >= b then a else b }

  /** `m[:h, :w]` */
  function Crop<T>(m: Matrix<T>, h: nat, w: nat): (r: Matrix<T>)
    requires h <= |m| && forall i :: 0 <= i < |m| ==> w <= |m[i]|
    ensures IsRect(r, h, w)
    ensures forall i, j :: 0 <= i < h && 0 <= j < w ==> r[i][j] == m[i][j]
  {
    seq(h, i requires 0 <= i < h => m[i][..w])
  }

  /** Cropping a matrix to its own shape changes nothing. */
  lemma CropIdentity<T>(m: Matrix<T>, h: nat, w: nat)
    requires IsRect(m, h, w)
    ensures Crop(m, h, w) == m
  {
    assert forall i :: 0 <= i < h ==> Crop(m, h, w)[i] == m[i];
  }

  /** `m[r0:r1, c0:c1]` */
  function Window<T>(m: Matrix<T>, r0: nat, r1: nat, c0: nat, c1: nat): (r: Matrix<T>)
    requires r0 <= r1 <= |m| && c0 <= c1
    requires forall i :: 0 <= i < |m| ==> c1 <= |m[i]|
    ensures IsRect(r, r1 - r0, c1 - c0)
    ensures forall i, j :: 0 <= i < r1 - r0 && 0 <= j < c1 - c0 ==> r[i][j] == m[r0 + i][c0 + j]
  {
    seq(r1 - r0, i requires 0 <= i < r1 - r0 => m[r0 + i][c0..c1])
  }

  /** The values of the present (non-NaN, unmasked) cells of one row, in
      order. */
  function PresentRow(row: seq<Option<real>>): (r: seq<real>)
    ensures |r| <= |row|
    ensures forall x :: x in r <==> Some(x) in row
    ensures r == [] <==> forall j :: 0 <= j < |row| ==> row[j] == None
  {
    if row == [] then []
    else
      var rest := PresentRow(row[1..]);
      assert forall x :: Some(x) in row <==> Some(x) == row[0] || Some(x) in row[1..];
      match row[0]
      case None => rest
      case Some(v) => [v] + rest
  }

  /** All the cells of a matrix, counted with multiplicity. */
  function Cells<T>(m: Matrix<T>): multiset<T> {
    if m == [] then multiset{} else multiset(m[0]) + Cells(m[1..])
  }

  /** The values of the present cells of a matrix, row by row. */
  function Present(m: Matrix<Option<real>>): (r: seq<real>)
    ensures forall x :: x in r <==> exists i :: 0 <= i < |m| && Some(x) in m[i]
    ensures r == [] <==> forall i, j :: 0 <= i < |m| && 0 <= j < |m[i]| ==> m[i][j] == None
  {
    if m == [] then []
    else
      var rest := Present(m[1..]);
      assert forall i :: 0 < i < |m| ==> m[i] == m[1..][i - 1];
      PresentRow(m[0]) + rest
  }

  /** A row's present values count every present cell exactly once: each
      value occurs as often as cells holding it, and only the absent cells
      are dropped. */
  lemma {:induction false} PresentRowCounts(row: seq<Option<real>>)
    ensures |PresentRow(row)| + multiset(row)[None] == |row|
    ensures forall x :: multiset(PresentRow(row))[x] == multiset(row)[Some(x)]
  {
    if row != [] {
      var rest := PresentRow(row[1..]);
      PresentRowCounts(row[1..]);
      assert row == [row[0]] + row[1..];
      var before := multiset(row[1..]);
      assert multiset(row) == multiset{row[0]} + before;
      match row[0]
      case None =>
        assert PresentRow(row) == rest;
      case Some(v) =>
        assert PresentRow(row) == [v] + rest;
        assert multiset([v] + rest) == multiset{v} + multiset(rest);
    }
  }

  /** The same for a whole matrix: `Present` lists every present cell of
      every row once, so its length is the number of present cells. */
  lemma {:induction false} PresentCounts(m: Matrix<Option<real>>)
    ensures |Present(m)| + Cells(m)[None] == |Cells(m)|
    ensures forall x :: multiset(Present(m))[x] == Cells(m)[Some(x)]
  {
    if m != [] {
      var head, rest := PresentRow(m[0]), Present(m[1..]);
      PresentRowCounts(m[0]);
      PresentCounts(m[1..]);
      assert Present(m) == head + rest;
      assert multiset(head + rest) == multiset(head) + multiset(rest);
      assert Cells(m) == multiset(m[0]) + Cells(m[1..]);
    }
  }

  /** Every present cell contributes its value to `Present`, and every value
      of `Present` comes from a present cell. */
  lemma PresentCell(m: Matrix<Option<real>>, i: nat, j: nat)
    requires i < |m| && j < |m[i]| && m[i][j].Some?
    ensures m[i][j].value in Present(m)
  {
    assert Some(m[i][j].value) in m[i];
  }

  lemma PresentSource(m: Matrix<Option<real>>, x: real)
    requires x in Present(m)
    ensures exists i, j :: 0 <= i < |m| && 0 <= j < |m[i]| && m[i][j] == Some(x)
  {
    var i :| 0 <= i < |m| && Some(x) in m[i];
    var j :| 0 <= j < |m[i]| && m[i][j] == Some(x);
  }

  /** Every value of a window's `Present` list comes from a present cell
      inside the window. */
  lemma WindowSource(m: Matrix<Option<real>>, r0: nat, r1: nat, c0: nat, c1: nat, x: real)
    requires r0 <= r1 <= |m| && c0 <= c1
    requires forall i :: 0 <= i < |m| ==> c1 <= |m[i]|
    requires x in Present(Window(m, r0, r1, c0, c1))
    ensures exists i, j :: r0 <= i < r1 && c0 <= j < c1 && m[i][j] == Some(x)
  {
    var win := Window(m, r0, r1, c0, c1);
    PresentSource(win, x);
    var i, j :| 0 <= i < |win| && 0 <= j < |win[i]| && win[i][j] == Some(x);
    assert win[i][j] == m[r0 + i][c0 + j];
  }

  /** Every present cell inside a window contributes to its `Present` list. */
  lemma WindowCell(m: Matrix<Option<real>>, r0: nat, r1: nat, c0: nat, c1: nat, i: nat, j: nat)
    requires r0 <= r1 <= |m| && c0 <= c1
    requires forall i :: 0 <= i < |m| ==> c1 <= |m[i]|
    requires r0 <= i < r1 && c0 <= j < c1 && m[i][j].Some?
    ensures m[i][j].value in Present(Window(m, r0, r1, c0, c1))
  {
    var win := Window(m, r0, r1, c0, c1);
    assert win[i - r0][j - c0] == m[i][j];
    PresentCell(win, i - r0, j - c0);
  }

  /** The contents of a two-dimensional array as a matrix value. */
  function ToMatrix<T>(a: array2<T>): (r: Matrix<T>)
    reads a
    ensures IsRect(r, a.Length0, a.Length1)
    ensures forall i, j :: 0 <= i < a.Length0 && 0 <= j < a.Length1 ==> r[i][j] == a[i, j]
  {
    seq(a.Length0, i reads a requires 0 <= i < a.Length0 =>
      seq(a.Length1, j reads a requires 0 <= j < a.Length1 => a[i, j]))
  }
}
