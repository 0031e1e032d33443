/**
 * The hall: a rows x seats grid of integers, 0 for a free seat and 1 for a
 * taken one (any other value is corrupt data), and the kinds of object the
 * code may be handed where it expects such a grid.
 */
module Halls {

  /** The `seats_array` argument of the booking code.
      - NdArray: a numeric numpy array, updated in place by the booking;
      - TextArray: a numpy array of text, whose `.sum()` raises TypeError
        and whose cells compare equal to neither 0 nor 1;
      - NotNdArray: another Python object with a `len()` (a list of rows, each taken to be iterable);
      - NoneHall: None. */
  datatype Hall =
    | NdArray(a: array2<int>)
    | TextArray(rows: nat, cols: nat)
    | NotNdArray(length: nat)
    | NoneHall

  /** isinstance(seats_array, np.ndarray) */
  predicate IsNdArray(h: Hall) {
    h.NdArray? || h.TextArray?
  }

  /** seats_array.shape[0] */
  function Rows(h: Hall): nat
    requires IsNdArray(h)
  {
    if h.NdArray? then h.a.Length0 else h.rows
  }

  /** seats_array.shape[1] */
  function Cols(h: Hall): nat
    requires IsNdArray(h)
  {
    if h.NdArray? then h.a.Length1 else h.cols
  }

  /** len(seats_array) */
  function Len(h: Hall): nat
    requires !h.NoneHall?
  {
    if h.NotNdArray? then h.length else Rows(h)
  }

  /** The objects a reader of the hall looks at. */
  function Frame(h: Hall): set<object> {
    if h.NdArray? then {h.a} else {}
  }

  /** g is a rows x cols grid. */
  predicate IsGrid(g: seq<seq<int>>, rows: nat, cols: nat) {
    |g| == rows && forall i :: 0 <= i < rows ==> |g[i]| == cols
  }

  /** The grid held in an array, as rows of cells. */
  function Cells(a: array2<int>): (g: seq<seq<int>>)
    reads a
    ensures IsGrid(g, a.Length0, a.Length1)
    ensures forall i, j :: 0 <= i < a.Length0 && 0 <= j < a.Length1 ==> g[i][j] == a[i, j]
  {
    seq(a.Length0, i reads a requires 0 <= i < a.Length0 =>
      seq(a.Length1, j reads a requires 0 <= j < a.Length1 => a[i, j]))
  }

  /** The numeric contents of the hall; empty for anything but a numeric array. */
  function Contents(h: Hall): (g: seq<seq<int>>)
    reads Frame(h)
    ensures h.NdArray? ==> IsGrid(g, Rows(h), Cols(h))
  {
    if h.NdArray? then Cells(h.a) else []
  }

  function RowSum(r: seq<int>): int {
    if r == [] then 0 else r[0] + RowSum(r[1..])
  }

  /** seats_array.sum(): the number of taken seats when every cell is 0 or 1. */
  function Sum(g: seq<seq<int>>): int {
    if g == [] then 0 else RowSum(g[0]) + Sum(g[1..])
  }

  /** Every cell is 0 or 1. */
  predicate IsBinary(g: seq<seq<int>>) {
    forall i, j :: 0 <= i < |g| && 0 <= j < |g[i]| ==> g[i][j] == 0 || g[i][j] == 1
  }

  function RowZeros(r: seq<int>): nat {
    if r == [] then 0 else (if r[0] == 0 then 1 else 0) + RowZeros(r[1..])
  }

  /** The number of free seats. */
  function CountZeros(g: seq<seq<int>>): nat {
    if g == [] then 0 else RowZeros(g[0]) + CountZeros(g[1..])
  }

  /** g with the cell at (i, j) set to v. */
  function Set(g: seq<seq<int>>, i: nat, j: nat, v: int): (g': seq<seq<int>>)
    requires i < |g| && j < |g[i]|
    ensures |g'| == |g| && forall k :: 0 <= k < |g| ==> |g'[k]| == |g[k]|
    ensures g'[i][j] == v
    ensures forall k, l :: 0 <= k < |g| && 0 <= l < |g[k]| && (k, l) != (i, j) ==> g'[k][l] == g[k][l]
  {
    g[i := g[i][j := v]]
  }

  /** The all-free hall of the given shape (np.zeros). */
  function Zeros(rows: nat, cols: nat): (g: seq<seq<int>>)
    ensures IsGrid(g, rows, cols)
    ensures forall i, j :: 0 <= i < rows && 0 <= j < cols ==> g[i][j] == 0
  {
    seq(rows, _ => seq(cols, _ => 0))
  }

  lemma {:induction false} RowSumUpdate(r: seq<int>, j: nat, v: int)
    requires j < |r|
    ensures RowSum(r[j := v]) == RowSum(r) - r[j] + v
  {
    if j == 0 {
      assert r[j := v][1..] == r[1..];
    } else {
      assert r[j := v][1..] == r[1..][j - 1 := v];
      RowSumUpdate(r[1..], j - 1, v);
    }
  }

  /** Writing v over one cell changes the sum by exactly v minus what was there. */
  lemma {:induction false} SumUpdate(g: seq<seq<int>>, i: nat, j: nat, v: int)
    requires i < |g| && j < |g[i]|
    ensures Sum(Set(g, i, j, v)) == Sum(g) - g[i][j] + v
  {
    if i == 0 {
      assert Set(g, i, j, v)[1..] == g[1..];
      RowSumUpdate(g[0], j, v);
    } else {
      assert Set(g, i, j, v)[1..] == Set(g[1..], i - 1, j, v);
      SumUpdate(g[1..], i - 1, j, v);
    }
  }

  lemma {:induction false} RowSumZeros(n: nat)
    ensures RowSum(seq(n, _ => 0)) == 0
  {
    if n > 0 {
      assert seq(n, _ => 0)[1..] == seq(n - 1, _ => 0);
      RowSumZeros(n - 1);
    }
  }

  /** A fresh hall has no taken seat. */
  lemma {:induction false} ZerosSum(rows: nat, cols: nat)
    ensures Sum(Zeros(rows, cols)) == 0
  {
    if rows > 0 {
      assert Zeros(rows, cols)[1..] == Zeros(rows - 1, cols);
      RowSumZeros(cols);
      ZerosSum(rows - 1, cols);
    }
  }

  lemma {:induction false} RowFree(r: seq<int>)
    requires forall j :: 0 <= j < |r| ==> r[j] == 0 || r[j] == 1
    ensures |r| - RowSum(r) == RowZeros(r)
  {
    if r != [] {
      RowFree(r[1..]);
    }
  }

  /** When every cell is 0 or 1, "size minus sum", the capacity the count
      validator allows, is exactly the number of free seats. */
  lemma {:induction false} FreeIsZeroCount(g: seq<seq<int>>, rows: nat, cols: nat)
    requires IsGrid(g, rows, cols) && IsBinary(g)
    ensures rows * cols - Sum(g) == CountZeros(g)
  {
    if rows > 0 {
      RowFree(g[0]);
      FreeIsZeroCount(g[1..], rows - 1, cols);
      assert rows * cols == cols + (rows - 1) * cols;
    }
  }
}
