/** Dense integer matrices as immutable values.

    A NumPy 2-D array is modelled as its sequence of rows together with an
    explicit column count, so that an array of shape (0, n) still knows its
    width n. Entries are unbounded integers. */
module Matrices {

  datatype Matrix = Matrix(rows: seq<seq<int>>, width: nat)

  /** Every row has exactly `width` entries (NumPy arrays are rectangular). */
  predicate Shaped(m: Matrix)
  {
    forall i :: 0 <= i < |m.rows| ==> |m.rows[i]| == m.width
  }

  predicate IsBit(x: int)
  {
    x == 0 || x == 1
  }

  predicate BinaryRow(row: seq<int>)
  {
    forall j :: 0 <= j < |row| ==> IsBit(row[j])
  }

  /** Every entry of the matrix lies in {0, 1}. */
  predicate Binary(m: Matrix)
  {
    forall i :: 0 <= i < |m.rows| ==> BinaryRow(m.rows[i])
  }

  /** Every entry of `row` equals `v`; vacuously true of an empty row, as NumPy's `all`. */
  predicate AllEqualTo(row: seq<int>, v: int)
  {
    forall j :: 0 <= j < |row| ==> row[j] == v
  }

  /** The sum of a row, accumulated left to right. */
  function Sum(s: seq<int>): int
  {
    if s == [] then 0 else Sum(s[..|s| - 1]) + s[|s| - 1]
  }

  /** A binary row sums to the number of its entries equal to 1. */
  lemma {:induction false} BinaryRowSumCountsOnes(row: seq<int>)
    requires BinaryRow(row)
    ensures Sum(row) == multiset(row)[1]
    ensures 0 <= Sum(row) <= |row|
  {
    if row != [] {
      var init := row[..|row| - 1];
      BinaryRowSumCountsOnes(init);
      assert row == init + [row[|row| - 1]];
    }
  }

  /** Two rows that add up to 1 entry by entry have sums adding up to their width. */
  lemma {:induction false} ComplementaryRowSums(a: seq<int>, b: seq<int>)
    requires |a| == |b|
    requires forall j :: 0 <= j < |a| ==> a[j] + b[j] == 1
    ensures Sum(a) + Sum(b) == |a|
  {
    if a != [] {
      ComplementaryRowSums(a[..|a| - 1], b[..|b| - 1]);
    }
  }
}
