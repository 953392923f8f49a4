/** Row-pattern keys, the pattern histogram and frequency-ranked lattice levels.

    The histogram is a Python dict, which keeps its keys in insertion order;
    it is modelled as an association list of (key, count) pairs in that order,
    because the tie-break of the level assignment depends on it. */
module PatternLattice {
  import opened Matrices

  // ---------------------------------------------------------------------------
  // Pattern keys
  // ---------------------------------------------------------------------------

  function DigitChar(d: int): (c: char)
    requires 0 <= d <= 9
    ensures '0' <= c <= '9'
  {
    "0123456789"[d]
  }

  /** Python's `str(int)`: an optional minus sign, then the decimal digits. */
  function DecimalString(n: int): (s: string)
    ensures |s| >= 1
    ensures s[0] == '-' <==> n < 0
    ensures |s| == 1 <==> 0 <= n <= 9
    ensures 0 <= n <= 9 ==> s[0] == DigitChar(n)
    decreases if n < 0 then 1 - n else n
  {
    if n < 0 then "-" + DecimalString(-n)
    else if n <= 9 then [DigitChar(n)]
    else DecimalString(n / 10) + [DigitChar(n % 10)]
  }

  /** The character a bit is written as. */
  function BitChar(b: int): char
  {
    if b == 1 then '1' else '0'
  }

  /** `encode_row_pattern`: the concatenation of `str(int(b))` over the row.
      On a binary row this is one '0' or '1' per entry. */
  function EncodeRowPattern(row: seq<int>): (key: string)
    ensures |key| >= |row|
    ensures BinaryRow(row) ==> |key| == |row| && forall k :: 0 <= k < |row| ==> key[k] == BitChar(row[k])
  {
    if row == [] then ""
    else
      var key := DecimalString(row[0]) + EncodeRowPattern(row[1..]);
      assert forall k :: 1 <= k < |row| ==> row[k] == row[1..][k - 1];
      key
  }

  /** On binary rows the key determines the row: equal keys iff equal rows. */
  lemma EncodeInjectiveOnBinaryRows(a: seq<int>, b: seq<int>)
    requires BinaryRow(a) && BinaryRow(b)
    ensures EncodeRowPattern(a) == EncodeRowPattern(b) <==> a == b
  {
    if EncodeRowPattern(a) == EncodeRowPattern(b) {
      forall k | 0 <= k < |a|
        ensures a[k] == b[k]
      {
        assert BitChar(a[k]) == BitChar(b[k]);
      }
    }
  }

  /** Off binary rows the key is not injective, even at equal width. */
  lemma NonBinaryRowsCollide()
    ensures EncodeRowPattern([1, 10]) == EncodeRowPattern([11, 0]) == "110"
  {
    assert DecimalString(10) == "10" by {
      assert DecimalString(1) == "1";
      assert DecimalString(0) == "0";
    }
    assert DecimalString(11) == "11" by {
      assert DecimalString(1) == "1";
    }
    assert [1, 10][1..] == [10];
    assert [11, 0][1..] == [0];
    assert [10][1..] == [];
    assert [0][1..] == [];
  }

  // ---------------------------------------------------------------------------
  // Histogram
  // ---------------------------------------------------------------------------

  /** An insertion-ordered dict from pattern key to a number. */
  type Histogram = seq<(string, nat)>

  predicate HasKey(h: Histogram, k: string)
  {
    exists i :: 0 <= i < |h| && h[i].0 == k
  }

  /** The dict invariant: no key appears twice. */
  predicate DistinctKeys(h: Histogram)
  {
    forall i, j :: 0 <= i < j < |h| ==> h[i].0 != h[j].0
  }

  /** The sum of the counts. */
  function Total(h: Histogram): nat
  {
    if h == [] then 0 else Total(h[..|h| - 1]) + h[|h| - 1].1
  }

  lemma {:induction false} TotalUpdate(h: Histogram, p: nat, e: (string, nat))
    requires p < |h|
    ensures Total(h[p := e]) == Total(h) - h[p].1 + e.1
    decreases |h|
  {
    var n := |h| - 1;
    var h' := h[p := e];
    assert h'[..n] == if p < n then h[..n][p := e] else h[..n];
    if p < n {
      TotalUpdate(h[..n], p, e);
    }
  }

  /** The position of `key` in `h`, or |h| when it is absent (`dict.get`'s lookup). */
  function KeyIndex(h: Histogram, key: string): (p: nat)
    ensures p <= |h|
    ensures p < |h| ==> h[p].0 == key
    ensures forall i :: 0 <= i < p ==> h[i].0 != key
    ensures p == |h| <==> !HasKey(h, key)
  {
    if h == [] then 0
    else if h[0].0 == key then 0
    else
      var p := KeyIndex(h[1..], key);
      assert forall i :: 1 <= i < |h| ==> h[i] == h[1..][i - 1];
      1 + p
  }

  /** `histogram[key] = histogram.get(key, 0) + 1`: an existing key keeps its
      place and gains one; a new key is appended with count 1. */
  function Increment(h: Histogram, key: string): (r: Histogram)
    requires DistinctKeys(h)
    ensures DistinctKeys(r)
    ensures |r| == if HasKey(h, key) then |h| else |h| + 1
    ensures forall i :: 0 <= i < |h| ==> r[i] == (h[i].0, h[i].1 + if h[i].0 == key then 1 else 0)
    ensures !HasKey(h, key) ==> r[|h|] == (key, 1)
    ensures Total(r) == Total(h) + 1
  {
    var p := KeyIndex(h, key);
    if p < |h| then
      TotalUpdate(h, p, (key, h[p].1 + 1));
      h[p := (key, h[p].1 + 1)]
    else
      var r := h + [(key, 1)];
      assert r[..|h|] == h;
      r
  }

  /** `k` first occurs in `ks` at position `p`. */
  predicate FirstAt(ks: seq<string>, k: string, p: int)
  {
    0 <= p < |ks| && ks[p] == k && forall q :: 0 <= q < p ==> ks[q] != k
  }

  /** `h` is the histogram of `ks`: its keys are those of `ks`, each once, in
      order of first occurrence, and each count is the key's multiplicity. */
  ghost predicate IsHistogramOf(ks: seq<string>, h: Histogram)
  {
    && DistinctKeys(h)
    && (forall k :: HasKey(h, k) <==> k in ks)
    && (forall i :: 0 <= i < |h| ==> h[i].1 == multiset(ks)[h[i].0])
    && Total(h) == |ks|
    && (forall i, j, p, q :: 0 <= i < j < |h| && FirstAt(ks, h[i].0, p) && FirstAt(ks, h[j].0, q) ==> p < q)
  }

  /** Appending a key does not move the first occurrence of an earlier key. */
  lemma FirstOccurrenceExtends(init: seq<string>, x: string, k: string, p: int)
    requires k in init
    ensures FirstAt(init + [x], k, p) <==> FirstAt(init, k, p)
  {
    var ks := init + [x];
    assert forall q :: 0 <= q < |init| ==> ks[q] == init[q];
  }

  /** Counting one more key keeps the histogram invariant. */
  lemma {:induction false} IncrementKeepsHistogram(init: seq<string>, x: string, prev: Histogram)
    requires IsHistogramOf(init, prev)
    ensures IsHistogramOf(init + [x], Increment(prev, x))
  {
    IncrementKeepsKeys(init, x, prev);
    IncrementKeepsCounts(init, x, prev);
    IncrementKeepsOrder(init, x, prev);
  }

  lemma IncrementKeepsKeys(init: seq<string>, x: string, prev: Histogram)
    requires IsHistogramOf(init, prev)
    ensures forall k :: HasKey(Increment(prev, x), k) <==> k in init + [x]
  {
    var ks := init + [x];
    var h := Increment(prev, x);
    assert forall k :: k in ks <==> k in init || k == x;
    forall k
      ensures HasKey(h, k) <==> k in ks
    {
      if HasKey(h, k) {
        var i :| 0 <= i < |h| && h[i].0 == k;
        if i < |prev| {
          assert HasKey(prev, k);
        }
      }
      if k in init || (k == x && HasKey(prev, x)) {
        assert HasKey(prev, k);
        var i :| 0 <= i < |prev| && prev[i].0 == k;
        assert h[i].0 == k;
      }
    }
  }

  lemma IncrementKeepsCounts(init: seq<string>, x: string, prev: Histogram)
    requires IsHistogramOf(init, prev)
    ensures var h := Increment(prev, x);
      forall i :: 0 <= i < |h| ==> h[i].1 == multiset(init + [x])[h[i].0]
  {
    var h := Increment(prev, x);
    assert multiset(init + [x]) == multiset(init) + multiset{x};
    forall i | 0 <= i < |h|
      ensures h[i].1 == multiset(init + [x])[h[i].0]
    {
      if i == |prev| {
        assert x !in init;
      }
    }
  }

  lemma IncrementKeepsOrder(init: seq<string>, x: string, prev: Histogram)
    requires IsHistogramOf(init, prev)
    ensures var h, ks := Increment(prev, x), init + [x];
      forall i, j, p, q :: 0 <= i < j < |h| && FirstAt(ks, h[i].0, p) && FirstAt(ks, h[j].0, q) ==> p < q
  {
    var ks := init + [x];
    var h := Increment(prev, x);
    forall i, j, p, q | 0 <= i < j < |h| && FirstAt(ks, h[i].0, p) && FirstAt(ks, h[j].0, q)
      ensures p < q
    {
      assert HasKey(prev, prev[i].0);
      FirstOccurrenceExtends(init, x, h[i].0, p);
      if j < |prev| {
        assert HasKey(prev, prev[j].0);
        FirstOccurrenceExtends(init, x, h[j].0, q);
      } else {
        assert h[j].0 == x && x !in init;
        assert q == |init|;
      }
    }
  }

  /** The histogram of a sequence of keys, counted left to right. */
  function HistogramOf(ks: seq<string>): (h: Histogram)
    ensures IsHistogramOf(ks, h)
  {
    if ks == [] then []
    else
      var init := ks[..|ks| - 1];
      var x := ks[|ks| - 1];
      assert ks == init + [x];
      var prev := HistogramOf(init);
      IncrementKeepsHistogram(init, x, prev);
      Increment(prev, x)
  }

  /** The encoded rows of a matrix, in row order. In a binary matrix two rows
      share a key iff they are equal, so the keys tell the rows apart. */
  function RowKeys(m: Matrix): (ks: seq<string>)
    ensures |ks| == |m.rows|
    ensures forall i :: 0 <= i < |m.rows| ==> ks[i] == EncodeRowPattern(m.rows[i])
    ensures Binary(m) ==> forall i, j :: 0 <= i < |m.rows| && 0 <= j < |m.rows| ==> (ks[i] == ks[j] <==> m.rows[i] == m.rows[j])
  {
    var ks := seq(|m.rows|, i requires 0 <= i < |m.rows| => EncodeRowPattern(m.rows[i]));
    assert Binary(m) ==> forall i, j :: 0 <= i < |m.rows| && 0 <= j < |m.rows| ==> (ks[i] == ks[j] <==> m.rows[i] == m.rows[j]) by {
      if Binary(m) {
        forall i, j | 0 <= i < |m.rows| && 0 <= j < |m.rows|
          ensures ks[i] == ks[j] <==> m.rows[i] == m.rows[j]
        {
          EncodeInjectiveOnBinaryRows(m.rows[i], m.rows[j]);
        }
      }
    }
    ks
  }

  /** `build_pattern_histogram`: the keys are exactly the encoded rows, each
      once, in order of first occurrence; each count is the number of rows with
      that key, at least 1; the counts sum to the number of rows. */
  function BuildPatternHistogram(m: Matrix): (h: Histogram)
    ensures DistinctKeys(h)
    ensures forall k :: HasKey(h, k) <==> k in RowKeys(m)
    ensures forall i :: 0 <= i < |h| ==> h[i].1 == multiset(RowKeys(m))[h[i].0] >= 1
    ensures Total(h) == |m.rows|
    ensures forall i, j, p, q :: 0 <= i < j < |h| && FirstAt(RowKeys(m), h[i].0, p) && FirstAt(RowKeys(m), h[j].0, q) ==> p < q
  {
    var ks := RowKeys(m);
    var h := HistogramOf(ks);
    assert forall i :: 0 <= i < |h| ==> HasKey(h, h[i].0);
    h
  }

  // ---------------------------------------------------------------------------
  // Lattice levels
  // ---------------------------------------------------------------------------

  /** The order of a stable sort by descending count: position `a` goes before
      position `b` when its count is larger, or equal with `a` earlier in the dict. */
  predicate Before(h: Histogram, a: nat, b: nat)
  {
    a < |h| && b < |h| && (h[a].1 > h[b].1 || (h[a].1 == h[b].1 && a < b))
  }

  /** `order` lists positions of `h` strictly ordered by `Before`. */
  predicate SortedBy(h: Histogram, order: seq<nat>)
  {
    && (forall i :: 0 <= i < |order| ==> order[i] < |h|)
    && (forall i, j :: 0 <= i < j < |order| ==> Before(h, order[i], order[j]))
  }

  /** Inserts position `x`, which follows every position already in `order`,
      after all the entries whose count is at least its own. */
  function InsertPosition(h: Histogram, order: seq<nat>, x: nat): (r: seq<nat>)
    requires x < |h| && SortedBy(h, order)
    requires forall i :: 0 <= i < |order| ==> order[i] < x
    ensures |r| == |order| + 1
    ensures forall e :: e in r <==> e in order || e == x
    ensures SortedBy(h, r)
  {
    if order == [] then [x]
    else if h[order[0]].1 >= h[x].1 then
      var tail := order[1..];
      assert forall i :: 0 <= i < |tail| ==> tail[i] == order[i + 1];
      var rest := InsertPosition(h, tail, x);
      var r := [order[0]] + rest;
      assert forall e :: e in order <==> e == order[0] || e in tail;
      forall i, j | 0 <= i < j < |r|
        ensures Before(h, r[i], r[j])
      {
        if i == 0 {
          assert r[j] == rest[j - 1] && rest[j - 1] in rest;
          if r[j] != x {
            var t :| 0 <= t < |tail| && tail[t] == r[j];
            assert Before(h, order[0], order[t + 1]);
          }
        } else {
          assert r[i] == rest[i - 1] && r[j] == rest[j - 1];
        }
      }
      r
    else
      var r := [x] + order;
      forall i, j | 0 <= i < j < |r|
        ensures Before(h, r[i], r[j])
      {
        if i == 0 && j > 1 {
          assert Before(h, order[0], order[j - 1]);
        }
      }
      r
  }

  /** The positions `0 .. n - 1` of `h` in stable descending-count order. */
  function SortPositions(h: Histogram, n: nat): (r: seq<nat>)
    requires n <= |h|
    ensures |r| == n
    ensures SortedBy(h, r)
    ensures forall x: nat :: x in r <==> x < n
  {
    if n == 0 then []
    else
      var prev := SortPositions(h, n - 1);
      assert forall i :: 0 <= i < |prev| ==> prev[i] in prev;
      InsertPosition(h, prev, n - 1)
  }

  /** `assign_lattice_levels`: the histogram's keys ranked by descending count,
      ties in dict order, the i-th pair carrying level i. The keys are a
      permutation of the histogram's keys. */
  function AssignLatticeLevels(h: Histogram): (r: seq<(string, nat)>)
    requires DistinctKeys(h)
    ensures |r| == |h|
    ensures forall i :: 0 <= i < |r| ==> r[i].1 == i
    ensures DistinctKeys(r)
    ensures forall k :: HasKey(r, k) <==> HasKey(h, k)
    ensures forall i, j, p, q :: 0 <= i < j < |r| && 0 <= p < |h| && 0 <= q < |h| && h[p].0 == r[i].0 && h[q].0 == r[j].0 ==>
              Before(h, p, q)
  {
    if h == [] then []
    else
      var order := SortPositions(h, |h|);
      var r := seq(|h|, i requires 0 <= i < |h| => (h[order[i]].0, i));
      LevelsFollowOrder(h, order, r);
      r
  }

  lemma LevelsFollowOrder(h: Histogram, order: seq<nat>, r: seq<(string, nat)>)
    requires DistinctKeys(h)
    requires |order| == |h| && SortedBy(h, order) && forall x: nat :: x in order <==> x < |h|
    requires |r| == |h| && forall i :: 0 <= i < |h| ==> r[i] == (h[order[i]].0, i)
    ensures DistinctKeys(r)
    ensures forall k :: HasKey(r, k) <==> HasKey(h, k)
    ensures forall i, j, p, q :: 0 <= i < j < |r| && 0 <= p < |h| && 0 <= q < |h| && h[p].0 == r[i].0 && h[q].0 == r[j].0 ==>
              Before(h, p, q)
  {
    forall k | HasKey(h, k)
      ensures HasKey(r, k)
    {
      var p :| 0 <= p < |h| && h[p].0 == k;
      assert p in order;
      var i :| 0 <= i < |order| && order[i] == p;
      assert r[i].0 == k;
    }
    forall i, j | 0 <= i < j < |r|
      ensures r[i].0 != r[j].0
    {
      assert Before(h, order[i], order[j]);
    }
  }

  /** The ordering is determined: two orderings of the same positions that are
      both sorted by `Before` are equal, so the levels are the only ranking that
      puts larger counts first and keeps dict order among equal counts. */
  lemma {:induction false} SortedOrderUnique(h: Histogram, a: seq<nat>, b: seq<nat>)
    requires SortedBy(h, a) && SortedBy(h, b)
    requires forall x: nat :: x in a <==> x in b
    ensures a == b
    decreases |a|
  {
    if a == [] {
      assert forall i :: 0 <= i < |b| ==> b[i] in a;
      assert b == [];
    } else {
      assert a[0] in a;
      assert b != [];
      HeadComesFirst(h, a, b[0]);
      HeadComesFirst(h, b, a[0]);
      assert a[0] == b[0];
      var ta, tb := a[1..], b[1..];
      forall x: nat
        ensures x in ta <==> x in tb
      {
        if x in ta {
          var i :| 0 <= i < |ta| && ta[i] == x;
          assert Before(h, a[0], a[i + 1]);
          assert x in b;
          var j :| 0 <= j < |b| && b[j] == x;
          assert j != 0;
          assert b[j] == tb[j - 1];
        }
        if x in tb {
          var j :| 0 <= j < |tb| && tb[j] == x;
          assert Before(h, b[0], b[j + 1]);
          assert x in a;
          var i :| 0 <= i < |a| && a[i] == x;
          assert i != 0;
          assert a[i] == ta[i - 1];
        }
      }
      assert SortedBy(h, ta) by {
        assert forall i :: 0 <= i < |ta| ==> ta[i] == a[i + 1];
      }
      assert SortedBy(h, tb) by {
        assert forall i :: 0 <= i < |tb| ==> tb[i] == b[i + 1];
      }
      SortedOrderUnique(h, ta, tb);
      assert a == [a[0]] + ta && b == [b[0]] + tb;
    }
  }

  /** In a sorted ordering, the first position goes before every other one. */
  lemma HeadComesFirst(h: Histogram, order: seq<nat>, x: nat)
    requires SortedBy(h, order) && x in order
    ensures x == order[0] || Before(h, order[0], x)
  {
    var i :| 0 <= i < |order| && order[i] == x;
    if i > 0 {
      assert Before(h, order[0], order[i]);
    }
  }

  /** Any listing of all positions of `h` sorted by `Before` is the order the
      levels are assigned in. */
  lemma LevelOrderIsTheSortedOrder(h: Histogram, order: seq<nat>)
    requires SortedBy(h, order)
    requires forall x: nat :: x in order <==> x < |h|
    ensures order == SortPositions(h, |h|)
  {
    SortedOrderUnique(h, order, SortPositions(h, |h|));
  }
}
