/** Differences between consecutive event rows and simple row statistics. */
module AdditiveCombinatorics {
  import opened Matrices
  import Gf2Canonicalizer

  // ---------------------------------------------------------------------------
  // Event differences
  // ---------------------------------------------------------------------------

  function Abs(x: int): nat
  {
    if x < 0 then -x else x
  }

  /** NumPy's `^` on integers: bitwise exclusive or of two's-complement values.
      Each step splits off the lowest bit with floor division by 2 (which is
      what Dafny's `/` does for a positive divisor); 0 and -1, the values whose
      bits are all equal, end the recursion. The result is 0 exactly when the
      operands are equal, and on bits it is the usual exclusive or. */
  function Xor(a: int, b: int): (r: int)
    ensures r == 0 <==> a == b
    ensures IsBit(a) && IsBit(b) ==> r == if a == b then 0 else 1
    decreases Abs(a) + Abs(b)
  {
    if (a == 0 || a == -1) && (b == 0 || b == -1) then
      if a == b then 0 else -1
    else
      assert Abs(a / 2) + Abs(b / 2) < Abs(a) + Abs(b);
      var high := Xor(a / 2, b / 2);
      var low := (a % 2 + b % 2) % 2;
      assert a == b <==> a / 2 == b / 2 && a % 2 == b % 2;
      2 * high + low
  }

  /** Exclusive or with the same operand undoes itself, for every integer. */
  lemma {:induction false} XorCancels(a: int, b: int)
    ensures Xor(Xor(a, b), b) == a
    decreases Abs(a) + Abs(b)
  {
    if !(EndsXor(a) && EndsXor(b)) {
      assert Abs(a / 2) + Abs(b / 2) < Abs(a) + Abs(b);
      XorCancels(a / 2, b / 2);
      XorCancelsStep(a, b);
    }
  }

  /** The inductive step: cancelling on the high parts cancels on the whole. */
  lemma XorCancelsStep(a: int, b: int)
    requires !(EndsXor(a) && EndsXor(b))
    requires Xor(Xor(a / 2, b / 2), b / 2) == a / 2
    ensures Xor(Xor(a, b), b) == a
  {
    var r := Xor(a, b);
    XorUnfold(a, b);
    HalfParts(Xor(a / 2, b / 2), (a % 2 + b % 2) % 2);
    if EndsXor(r) && EndsXor(b) {
      XorCancelsAtEnd(a, b, r);
    } else {
      XorUnfold(r, b);
      BitsRecombine(a, b, r, Xor(r, b));
    }
  }

  lemma XorCancelsAtEnd(a: int, b: int, r: int)
    requires EndsXor(r) && EndsXor(b)
    requires r / 2 == Xor(a / 2, b / 2) && r % 2 == (a % 2 + b % 2) % 2
    requires Xor(Xor(a / 2, b / 2), b / 2) == a / 2
    ensures Xor(r, b) == a
  {
    EndsHalf(r);
    EndsHalf(b);
    LowBitsRecombine(a, b, r, Xor(r, b));
  }

  /** Plain arithmetic of the step: the low bit of `a` is recovered from the
      low bits of `a ^ b` and `b`. */
  lemma BitsRecombine(a: int, b: int, r: int, x: int)
    requires r % 2 == (a % 2 + b % 2) % 2
    requires x == 2 * (a / 2) + (r % 2 + b % 2) % 2
    ensures x == a
  {
  }

  /** The same when `a ^ b` and `b` are both 0 or -1, where `x` is their
      exclusive or and `a / 2` equals it. */
  lemma LowBitsRecombine(a: int, b: int, r: int, x: int)
    requires EndsXor(r) && EndsXor(b)
    requires r % 2 == (a % 2 + b % 2) % 2
    requires x == (if r == b then 0 else -1) && a / 2 == x
    ensures x == a
  {
  }

  lemma EndsHalf(x: int)
    requires EndsXor(x)
    ensures x / 2 == x
  {
  }

  /** 0 and -1, the integers whose two's-complement bits are all equal. */
  predicate EndsXor(x: int)
  {
    x == 0 || x == -1
  }

  lemma XorUnfold(a: int, b: int)
    requires !(EndsXor(a) && EndsXor(b))
    ensures Xor(a, b) == 2 * Xor(a / 2, b / 2) + (a % 2 + b % 2) % 2
  {
  }

  lemma HalfParts(h: int, l: int)
    requires 0 <= l <= 1
    ensures (2 * h + l) / 2 == h && (2 * h + l) % 2 == l
  {
  }

  /** Bit k of the two's-complement representation of `x`: bit 0 is the
      parity, and bit k + 1 is bit k of `x` floor-divided by 2. This is an
      independent reference for `Xor`. */
  function Bit(x: int, k: nat): (r: int)
    ensures IsBit(r)
    decreases k
  {
    if k == 0 then x % 2 else Bit(x / 2, k - 1)
  }

  /** Every bit of 0 is 0 and every bit of -1 is 1. */
  lemma {:induction false} BitOfEnd(x: int, k: nat)
    requires EndsXor(x)
    ensures Bit(x, k) == x % 2
    decreases k
  {
    if k > 0 {
      EndsHalf(x);
      BitOfEnd(x, k - 1);
    }
  }

  /** `Xor` is the bitwise exclusive or: each bit of the result is the sum
      modulo 2 of the operands' bits, for all integers including negatives. */
  lemma {:induction false} XorBits(a: int, b: int, k: nat)
    ensures Bit(Xor(a, b), k) == (Bit(a, k) + Bit(b, k)) % 2
    decreases k
  {
    if EndsXor(a) && EndsXor(b) {
      BitOfEnd(a, k);
      BitOfEnd(b, k);
      BitOfEnd(Xor(a, b), k);
    } else {
      XorUnfold(a, b);
      BitsOfDouble(Xor(a / 2, b / 2), (a % 2 + b % 2) % 2, k);
      if k > 0 {
        XorBits(a / 2, b / 2, k - 1);
      }
    }
  }

  /** The bits of 2 * h + l are l followed by the bits of h. */
  lemma BitsOfDouble(h: int, l: int, k: nat)
    requires 0 <= l <= 1
    ensures Bit(2 * h + l, k) == if k == 0 then l else Bit(h, k - 1)
  {
    HalfParts(h, l);
  }

  /** NumPy's `astype(np.uint8)`: wrap-around modulo 256. */
  function ToUint8(x: int): (r: int)
    ensures 0 <= r < 256
    ensures 0 <= x < 256 ==> r == x
    ensures (x - r) % 256 == 0
  {
    x % 256
  }

  /** `compute_event_differences`: with at most one row the result has no rows
      but the same width; otherwise row i is the exclusive or of rows i + 1 and i,
      cast to uint8. */
  function ComputeEventDifferences(m: Matrix): (d: Matrix)
    requires Shaped(m)
    ensures Shaped(d) && d.width == m.width
    ensures |d.rows| == if |m.rows| <= 1 then 0 else |m.rows| - 1
    ensures forall i, j :: 0 <= i < |d.rows| && 0 <= j < d.width ==>
              d.rows[i][j] == ToUint8(Xor(m.rows[i + 1][j], m.rows[i][j]))
  {
    if |m.rows| <= 1 then Matrix([], m.width)
    else
      Matrix(seq(|m.rows| - 1, i requires 0 <= i < |m.rows| - 1 =>
               seq(m.width, j requires 0 <= j < m.width => ToUint8(Xor(m.rows[i + 1][j], m.rows[i][j])))),
             m.width)
  }

  /** On a binary matrix the differences are binary, a difference row is all
      zero exactly when the two rows it compares are equal, and each row is
      recovered from its predecessor and the difference between them. */
  lemma DifferencesOfBinaryRows(m: Matrix)
    requires Shaped(m) && Binary(m)
    ensures var d := ComputeEventDifferences(m);
      && Binary(d)
      && (forall i :: 0 <= i < |d.rows| ==> (AllEqualTo(d.rows[i], 0) <==> m.rows[i] == m.rows[i + 1]))
      && (forall i, j :: 0 <= i < |d.rows| && 0 <= j < m.width ==> m.rows[i + 1][j] == Xor(d.rows[i][j], m.rows[i][j]))
  {
    var d := ComputeEventDifferences(m);
    forall i, j | 0 <= i < |d.rows| && 0 <= j < m.width
      ensures IsBit(d.rows[i][j])
      ensures d.rows[i][j] == 0 <==> m.rows[i + 1][j] == m.rows[i][j]
      ensures m.rows[i + 1][j] == Xor(d.rows[i][j], m.rows[i][j])
    {
      assert IsBit(m.rows[i][j]) && IsBit(m.rows[i + 1][j]);
    }
    forall i | 0 <= i < |d.rows|
      ensures AllEqualTo(d.rows[i], 0) <==> m.rows[i] == m.rows[i + 1]
    {
      if AllEqualTo(d.rows[i], 0) {
        forall j | 0 <= j < m.width
          ensures m.rows[i][j] == m.rows[i + 1][j]
        {
          assert d.rows[i][j] == 0;
        }
      }
    }
  }

  // ---------------------------------------------------------------------------
  // Pattern counts
  // ---------------------------------------------------------------------------

  /** The dict returned by `basic_pattern_counts`. */
  datatype PatternStats = PatternStats(totalOnes: int, allZeroRows: nat, allOneRows: nat)

  /** The sum of all entries (`matrix.sum()`); on binary rows it is the number
      of cells equal to 1. */
  function TotalOnes(rows: seq<seq<int>>): (r: int)
    ensures (forall i :: 0 <= i < |rows| ==> BinaryRow(rows[i])) ==> r == CellCount(rows, 1)
  {
    if rows == [] then 0
    else
      var k := |rows| - 1;
      assert BinaryRow(rows[k]) ==> Sum(rows[k]) == multiset(rows[k])[1] by {
        if BinaryRow(rows[k]) {
          BinaryRowSumCountsOnes(rows[k]);
        }
      }
      TotalOnes(rows[..k]) + Sum(rows[k])
  }

  /** The number of cells equal to `v`. */
  function CellCount(rows: seq<seq<int>>, v: int): nat
  {
    if rows == [] then 0 else CellCount(rows[..|rows| - 1], v) + multiset(rows[|rows| - 1])[v]
  }

  /** The positions of the rows whose every entry equals `v`. */
  function RowsAllEqualTo(rows: seq<seq<int>>, v: int): set<nat>
  {
    set i: nat | i < |rows| && AllEqualTo(rows[i], v)
  }

  /** `np.sum(np.all(matrix == v, axis=1))`, counted row by row. */
  function CountRowsAllEqualTo(rows: seq<seq<int>>, v: int): (n: nat)
    ensures n == |RowsAllEqualTo(rows, v)|
    ensures n <= |rows|
  {
    if rows == [] then
      assert RowsAllEqualTo(rows, v) == {};
      0
    else
      var k := |rows| - 1;
      var init := rows[..k];
      var prev := CountRowsAllEqualTo(init, v);
      assert forall i :: 0 <= i < k ==> rows[i] == init[i];
      var s := RowsAllEqualTo(init, v);
      assert k !in s;
      if AllEqualTo(rows[k], v) then
        assert RowsAllEqualTo(rows, v) == s + {k};
        prev + 1
      else
        assert RowsAllEqualTo(rows, v) == s;
        prev
  }

  /** A binary matrix has at most rows × columns ones. */
  lemma {:induction false} BinaryTotalBounded(rows: seq<seq<int>>, width: nat)
    requires forall i :: 0 <= i < |rows| ==> BinaryRow(rows[i]) && |rows[i]| == width
    ensures 0 <= TotalOnes(rows) <= |rows| * width
  {
    if rows != [] {
      var k := |rows| - 1;
      assert k * width + width == |rows| * width;
      BinaryTotalBounded(rows[..k], width);
      BinaryRowSumCountsOnes(rows[k]);
    }
  }

  /** `basic_pattern_counts`. */
  function BasicPatternCounts(m: Matrix): (r: PatternStats)
    ensures r.allZeroRows == |RowsAllEqualTo(m.rows, 0)| <= |m.rows|
    ensures r.allOneRows == |RowsAllEqualTo(m.rows, 1)| <= |m.rows|
    ensures Binary(m) ==> r.totalOnes == CellCount(m.rows, 1)
    ensures Shaped(m) && Binary(m) ==> 0 <= r.totalOnes <= |m.rows| * m.width
  {
    var stats := PatternStats(TotalOnes(m.rows), CountRowsAllEqualTo(m.rows, 0), CountRowsAllEqualTo(m.rows, 1));
    assert Shaped(m) && Binary(m) ==> 0 <= stats.totalOnes <= |m.rows| * m.width by {
      if Shaped(m) && Binary(m) {
        BinaryTotalBounded(m.rows, m.width);
      }
    }
    stats
  }

  /** With at least one column no row is both all zero and all one, so the two
      counts together do not exceed the number of rows. */
  lemma {:induction false} ZeroAndOneRowsBounded(m: Matrix)
    requires Shaped(m) && m.width > 0
    ensures BasicPatternCounts(m).allZeroRows + BasicPatternCounts(m).allOneRows <= |m.rows|
  {
    var zeros := RowsAllEqualTo(m.rows, 0);
    var ones := RowsAllEqualTo(m.rows, 1);
    forall i | i in zeros
      ensures i !in ones
    {
      assert m.rows[i][0] == 0;
    }
    IndexSetBounded(zeros + ones, |m.rows|);
    assert |zeros + ones| == |zeros| + |ones|;
  }

  /** A set of indices below `n` has at most `n` elements. */
  lemma {:induction false} IndexSetBounded(s: set<nat>, n: nat)
    requires forall i :: i in s ==> i < n
    ensures |s| <= n
    decreases n
  {
    if n > 0 {
      IndexSetBounded(s - {n - 1}, n - 1);
    } else {
      assert s == {};
    }
  }

  /** Rows that all satisfy the test are all counted. */
  lemma {:induction false} AllRowsCounted(rows: seq<seq<int>>, v: int)
    requires forall i :: 0 <= i < |rows| ==> AllEqualTo(rows[i], v)
    ensures CountRowsAllEqualTo(rows, v) == |rows|
  {
    if rows != [] {
      AllRowsCounted(rows[..|rows| - 1], v);
    }
  }

  /** Zero-width rows are vacuously both all zero and all one. */
  lemma ZeroWidthRowsCountTwice(m: Matrix)
    requires Shaped(m) && m.width == 0
    ensures BasicPatternCounts(m).allZeroRows == BasicPatternCounts(m).allOneRows == |m.rows|
  {
    AllRowsCounted(m.rows, 0);
    AllRowsCounted(m.rows, 1);
  }

  // ---------------------------------------------------------------------------
  // Statistics of a matrix against its complement
  // ---------------------------------------------------------------------------

  /** For a binary matrix M and its complement C: the all-one rows of C are the
      all-zero rows of M and vice versa, and the ones of M and C together fill
      the rows × columns grid. */
  lemma ComplementSwapsPatternCounts(m: Matrix)
    requires Shaped(m) && Binary(m)
    ensures Gf2Canonicalizer.BuildComplementMatrix(m).Success?
    ensures var c := Gf2Canonicalizer.BuildComplementMatrix(m).value;
      && BasicPatternCounts(c).allOneRows == BasicPatternCounts(m).allZeroRows
      && BasicPatternCounts(c).allZeroRows == BasicPatternCounts(m).allOneRows
      && BasicPatternCounts(m).totalOnes + BasicPatternCounts(c).totalOnes == |m.rows| * m.width
  {
    var c := Gf2Canonicalizer.BuildComplementMatrix(m).value;
    forall i: nat | i < |m.rows|
      ensures AllEqualTo(c.rows[i], 1) <==> AllEqualTo(m.rows[i], 0)
      ensures AllEqualTo(c.rows[i], 0) <==> AllEqualTo(m.rows[i], 1)
    {
      assert forall j :: 0 <= j < m.width ==> c.rows[i][j] + m.rows[i][j] == 1;
    }
    assert RowsAllEqualTo(c.rows, 1) == RowsAllEqualTo(m.rows, 0);
    assert RowsAllEqualTo(c.rows, 0) == RowsAllEqualTo(m.rows, 1);
    ComplementaryTotals(m.rows, c.rows, m.width);
  }

  lemma {:induction false} ComplementaryTotals(a: seq<seq<int>>, b: seq<seq<int>>, width: nat)
    requires |a| == |b|
    requires forall i :: 0 <= i < |a| ==> |a[i]| == width && |b[i]| == width
    requires forall i, j :: 0 <= i < |a| && 0 <= j < width ==> a[i][j] + b[i][j] == 1
    ensures TotalOnes(a) + TotalOnes(b) == |a| * width
  {
    if a != [] {
      var k := |a| - 1;
      assert k * width + width == |a| * width;
      ComplementaryTotals(a[..k], b[..k], width);
      ComplementaryRowSums(a[k], b[k]);
    }
  }
}
