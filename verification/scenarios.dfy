/** Worked examples over the default domain [1, 39]: one event, a descending
    event, an out-of-range event, and a matrix with a repeated row. Each result
    is derived from the contracts of the operations; the inputs are parameters
    fixed by the precondition. */
module Scenarios {
  import opened Wrappers
  import opened Matrices
  import opened Gf2Canonicalizer
  import opened PatternLattice

  /** The event [1, 2, 3, 4, 5] over [1, 39] sets exactly the first five columns. */
  lemma OneEventPresence(ev: seq<int>)
    requires ev == [1, 2, 3, 4, 5]
    ensures var r := BuildPresenceMatrix([ev], 1, 39);
      && r.Success? && r.value.width == 39 && |r.value.rows| == 1
      && forall c :: 0 <= c < 39 ==> r.value.rows[0][c] == if c < 5 then 1 else 0
  {
    var events := [ev];
    assert forall i, t :: 0 <= i < |events| && 0 <= t < |events[i]| ==> !OutOfRange(events[i][t], 1, 39);
    var r := BuildPresenceMatrix(events, 1, 39);
    forall c | 0 <= c < 39
      ensures r.value.rows[0][c] == if c < 5 then 1 else 0
    {
      if c < 5 {
        assert ev[c] == 1 + c;
      }
    }
  }

  /** ... and its complement is the exact bitwise inverse: the five columns
      cleared, the rest set. */
  lemma OneEventComplement(ev: seq<int>)
    requires ev == [1, 2, 3, 4, 5]
    ensures var r := BuildPresenceMatrix([ev], 1, 39);
      && r.Success? && BuildComplementMatrix(r.value).Success?
      && forall c :: 0 <= c < 39 ==> BuildComplementMatrix(r.value).value.rows[0][c] == if c < 5 then 0 else 1
  {
    OneEventPresence(ev);
  }

  /** A descending event of the right length gets exactly one ordering issue. */
  lemma DescendingEventReportsOrder(ev: seq<int>)
    requires ev == [5, 4, 3, 2, 1]
    ensures ValidateQsEvents([ev], 1, 39, 5) == Some([(0, OrderIssue)])
  {
    var events := [ev];
    BadEventHasOrderIssue(0, ev);
    assert IsFirstSized(events, 5, 0, 0);
    assert LengthIssues(events, 0, 0) == [];
  }

  /** The value 40 lies above the domain [1, 39]: the validator reports a
      range issue and no ordering issue. */
  lemma OutOfRangeEventReported(ev: seq<int>)
    requires ev == [1, 2, 3, 4, 40]
    ensures ValidateQsEvents([ev], 1, 39, 5) == Some([(0, RangeIssue)])
  {
    var events := [ev];
    assert HasOutOfRange(ev, 1, 39) by {
      assert OutOfRange(ev[4], 1, 39);
    }
    assert !HasDescent(ev);
    assert SizedEventIssues(0, ev, 1, 39) == [(0, RangeIssue)];
    assert IsFirstSized(events, 5, 0, 0);
    assert LengthIssues(events, 0, 0) == [];
    assert ValidateQsEvents(events, 1, 39, 5) == Some(LengthIssues(events, 0, 0) + SizedEventIssues(0, events[0], 1, 39));
    assert LengthIssues(events, 0, 0) + SizedEventIssues(0, events[0], 1, 39) == [(0, RangeIssue)];
  }

  /** ... and building the presence matrix fails, naming the value 40 and its event. */
  lemma OutOfRangeEventRejected(ev: seq<int>)
    requires ev == [1, 2, 3, 4, 40]
    ensures BuildPresenceMatrix([ev], 1, 39) == Failure(ValueOutOfRange(40, ev))
  {
    var events := [ev];
    var r := BuildPresenceMatrix(events, 1, 39);
    assert r.Failure? by {
      assert OutOfRange(events[0][4], 1, 39);
    }
    var i, t :| && 0 <= i < |events| && 0 <= t < |events[i]|
                && r.error == ValueOutOfRange(events[i][t], events[i])
                && OutOfRange(events[i][t], 1, 39);
    assert t == 4;
  }

  /** Two identical rows and one distinct row give two histogram entries: the
      repeated pattern with count 2, then the other with count 1. */
  lemma RepeatedRowHistogram(m: Matrix)
    requires m == Matrix([[1, 0], [1, 0], [0, 1]], 2)
    ensures BuildPatternHistogram(m) == [("10", 2), ("01", 1)]
  {
    RepeatedRowKeys(m);
    CountRepeatedKeys(RowKeys(m));
  }

  lemma RepeatedRowKeys(m: Matrix)
    requires m == Matrix([[1, 0], [1, 0], [0, 1]], 2)
    ensures RowKeys(m) == ["10", "10", "01"]
  {
    assert BinaryRow(m.rows[0]) && BinaryRow(m.rows[2]);
    assert EncodeRowPattern(m.rows[0]) == "10";
    assert EncodeRowPattern(m.rows[2]) == "01";
  }

  lemma CountRepeatedKeys(ks: seq<string>)
    requires ks == ["10", "10", "01"]
    ensures HistogramOf(ks) == [("10", 2), ("01", 1)]
  {
    var one := HistogramOf(ks[..1]);
    assert one == Increment(HistogramOf([]), "10") by {
      assert ks[..1][..0] == [];
    }
    var two := HistogramOf(ks[..2]);
    assert two == Increment(one, "10") by {
      assert ks[..2][..1] == ks[..1];
    }
    assert HistogramOf(ks) == Increment(two, "01") by {
      assert ks[..2] == ks[..|ks| - 1];
    }
    assert one == [("10", 1)];
    assert two == [("10", 2)];
    assert KeyIndex(two, "01") == 1;
  }

  /** The repeated pattern takes level 0 and the other level 1. */
  lemma RepeatedRowRanksFirst(h: Histogram)
    requires h == [("10", 2), ("01", 1)]
    ensures DistinctKeys(h)
    ensures AssignLatticeLevels(h) == [("10", 0), ("01", 1)]
  {
    LevelOrderIsTheSortedOrder(h, [0, 1]);
  }
}
