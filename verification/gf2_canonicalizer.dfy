/** Event validation, presence encoding, reduction to GF(2) and complement
    ("hole") matrices for QS events.

    An event is a sequence of integers that should be a strictly ascending
    tuple of `size` values taken from the domain [lo, hi]. */
module Gf2Canonicalizer {
  import opened Wrappers
  import opened Matrices

  // ---------------------------------------------------------------------------
  // Event validation
  // ---------------------------------------------------------------------------

  /** The kinds of issue the validator reports; the formatted message of each is
      not modelled, except for the length a malformed event actually has. */
  datatype Issue = LengthIssue(found: nat) | RangeIssue | OrderIssue

  /** An issue together with the zero-based index of the event it concerns. */
  type Report = (nat, Issue)

  predicate OutOfRange(v: int, lo: int, hi: int)
  {
    v < lo || v > hi
  }

  predicate StrictlyAscending(ev: seq<int>)
  {
    forall i :: 0 <= i < |ev| - 1 ==> ev[i] < ev[i + 1]
  }

  /** The event has the expected arity, every value in range and strictly ascending order. */
  predicate WellFormedEvent(ev: seq<int>, lo: int, hi: int, size: int)
  {
    && |ev| == size
    && (forall j :: 0 <= j < |ev| ==> !OutOfRange(ev[j], lo, hi))
    && StrictlyAscending(ev)
  }

  /** The range test `any(v < lo or v > hi for v in ev)`. */
  function HasOutOfRange(ev: seq<int>, lo: int, hi: int): (b: bool)
    ensures b <==> exists j :: 0 <= j < |ev| && OutOfRange(ev[j], lo, hi)
  {
    if ev == [] then false
    else if OutOfRange(ev[0], lo, hi) then true
    else
      var b := HasOutOfRange(ev[1..], lo, hi);
      assert forall j :: 1 <= j < |ev| ==> ev[j] == ev[1..][j - 1];
      b
  }

  /** The ordering test `any(ev[i] >= ev[i + 1] for i in range(len(ev) - 1))`. */
  function HasDescent(ev: seq<int>): (b: bool)
    ensures b <==> !StrictlyAscending(ev)
  {
    if |ev| < 2 then false
    else if ev[0] >= ev[1] then true
    else
      var b := HasDescent(ev[1..]);
      assert forall i :: 1 <= i < |ev| ==> ev[i] == ev[1..][i - 1];
      b
  }

  /** The checks applied to an event of the right length: a range issue, then an
      ordering issue, each when its test fires. */
  function SizedEventIssues(idx: nat, ev: seq<int>, lo: int, hi: int): (r: seq<Report>)
    ensures |r| <= 2
    ensures forall p :: p in r ==> p.0 == idx && !p.1.LengthIssue?
    ensures (idx, RangeIssue) in r <==> exists j :: 0 <= j < |ev| && OutOfRange(ev[j], lo, hi)
    ensures (idx, OrderIssue) in r <==> !StrictlyAscending(ev)
    ensures |r| == 2 ==> r == [(idx, RangeIssue), (idx, OrderIssue)]
  {
    (if HasOutOfRange(ev, lo, hi) then [(idx, RangeIssue)] else [])
    + (if HasDescent(ev) then [(idx, OrderIssue)] else [])
  }

  /** The length issues of events `from .. to - 1`, in order. */
  function LengthIssues(events: seq<seq<int>>, from: nat, to: nat): (r: seq<Report>)
    requires from <= to <= |events|
    ensures |r| == to - from
    ensures forall i :: 0 <= i < to - from ==> (r[i] == (from + i, LengthIssue(|events[from + i]|)))
    decreases |events| - from
  {
    if from == to then [] else [(from, LengthIssue(|events[from]|))] + LengthIssues(events, from + 1, to)
  }

  /** Collecting the length issue of event `from` first, then the rest, gives the same reports. */
  lemma LengthIssuesCons(events: seq<seq<int>>, from: nat, to: nat, issues: seq<Report>)
    requires from < to <= |events|
    ensures issues + [(from, LengthIssue(|events[from]|))] + LengthIssues(events, from + 1, to)
            == issues + LengthIssues(events, from, to)
  {
    assert LengthIssues(events, from, to) == [(from, LengthIssue(|events[from]|))] + LengthIssues(events, from + 1, to);
  }

  /** `k` is the first index at or after `from` whose event has the expected length. */
  predicate IsFirstSized(events: seq<seq<int>>, size: int, from: nat, k: nat)
  {
    && from <= k < |events|
    && |events[k]| == size
    && (forall i :: from <= i < k ==> |events[i]| != size)
  }

  /** The validator's loop from event `idx` on, with `issues` collected so far.
      A wrongly sized event gets a length issue and the loop continues; the first
      correctly sized event is checked and the loop returns. Running off the end
      yields None (the function falls off its body). */
  function ValidateLoop(events: seq<seq<int>>, lo: int, hi: int, size: int, idx: nat, issues: seq<Report>)
    : (r: Option<seq<Report>>)
    requires idx <= |events|
    ensures r.None? <==> forall i :: idx <= i < |events| ==> |events[i]| != size
    ensures forall k: nat :: IsFirstSized(events, size, idx, k) ==>
              (r == Some(issues + LengthIssues(events, idx, k) + SizedEventIssues(k, events[k], lo, hi)))
    decreases |events| - idx
  {
    if idx == |events| then None
    else if |events[idx]| != size then
      var x := (idx, LengthIssue(|events[idx]|));
      var r := ValidateLoop(events, lo, hi, size, idx + 1, issues + [x]);
      assert forall k: nat | IsFirstSized(events, size, idx, k) ::
        r == Some(issues + LengthIssues(events, idx, k) + SizedEventIssues(k, events[k], lo, hi))
      by {
        forall k: nat | IsFirstSized(events, size, idx, k)
          ensures r == Some(issues + LengthIssues(events, idx, k) + SizedEventIssues(k, events[k], lo, hi))
        {
          assert IsFirstSized(events, size, idx + 1, k);
          LengthIssuesCons(events, idx, k, issues);
        }
      }
      r
    else
      assert forall k: nat :: IsFirstSized(events, size, idx, k) ==> k == idx;
      assert issues + LengthIssues(events, idx, idx) == issues;
      Some(issues + SizedEventIssues(idx, events[idx], lo, hi))
  }

  /** `validate_qs_events` as written: it stops after the first event of the
      expected length, and returns None when no event has that length (including
      for an empty input). */
  function ValidateQsEvents(events: seq<seq<int>>, lo: int, hi: int, size: int): (r: Option<seq<Report>>)
    ensures r.None? <==> forall i :: 0 <= i < |events| ==> |events[i]| != size
    ensures forall k: nat :: IsFirstSized(events, size, 0, k) ==>
              (r == Some(LengthIssues(events, 0, k) + SizedEventIssues(k, events[k], lo, hi)))
  {
    var r := ValidateLoop(events, lo, hi, size, 0, []);
    assert forall k: nat | IsFirstSized(events, size, 0, k) ::
      r == Some(LengthIssues(events, 0, k) + SizedEventIssues(k, events[k], lo, hi))
    by {
      forall k: nat | IsFirstSized(events, size, 0, k)
        ensures r == Some(LengthIssues(events, 0, k) + SizedEventIssues(k, events[k], lo, hi))
      {
        assert [] + LengthIssues(events, 0, k) == LengthIssues(events, 0, k);
      }
    }
    r
  }

  /** Every event before the first correctly sized one gets exactly one report,
      a length issue carrying its actual length; no report concerns an event
      after the first correctly sized one. */
  lemma ValidateReportsUpToFirstSized(events: seq<seq<int>>, lo: int, hi: int, size: int, k: nat)
    requires IsFirstSized(events, size, 0, k)
    ensures ValidateQsEvents(events, lo, hi, size).Some?
    ensures var rs := ValidateQsEvents(events, lo, hi, size).value;
      && (forall p :: p in rs ==> p.0 <= k)
      && (forall i :: 0 <= i < k ==> rs[i] == (i, LengthIssue(|events[i]|)))
      && (forall j :: 0 <= j < |rs| && rs[j].0 < k ==> j == rs[j].0)
  {
    var rs := LengthIssues(events, 0, k) + SizedEventIssues(k, events[k], lo, hi);
    assert ValidateQsEvents(events, lo, hi, size) == Some(rs);
    ReportIndices(events, lo, hi, k);
  }

  lemma ReportIndices(events: seq<seq<int>>, lo: int, hi: int, k: nat)
    requires k < |events|
    ensures var rs := LengthIssues(events, 0, k) + SizedEventIssues(k, events[k], lo, hi);
      && (forall p :: p in rs ==> p.0 <= k)
      && (forall i :: 0 <= i < k ==> rs[i] == (i, LengthIssue(|events[i]|)))
      && (forall j :: 0 <= j < |rs| && rs[j].0 < k ==> j == rs[j].0)
  {
    var lengths := LengthIssues(events, 0, k);
    var checks := SizedEventIssues(k, events[k], lo, hi);
    var rs := lengths + checks;
    forall j | 0 <= j < |rs|
      ensures rs[j].0 == if j < k then j else k
    {
      if j < k {
        assert rs[j] == lengths[j];
      } else {
        assert rs[j] == checks[j - k];
        assert checks[j - k] in checks;
      }
    }
    forall p | p in rs
      ensures p.0 <= k
    {
      var j :| 0 <= j < |rs| && rs[j] == p;
    }
  }

  /** The issues of one event, with no early exit: the loop body with the
      `return` removed. */
  function EventIssues(idx: nat, ev: seq<int>, lo: int, hi: int, size: int): (r: seq<Report>)
    ensures r == [] <==> WellFormedEvent(ev, lo, hi, size)
    ensures |ev| != size ==> r == [(idx, LengthIssue(|ev|))]
    ensures |ev| == size ==> r == SizedEventIssues(idx, ev, lo, hi)
    ensures forall p :: p in r ==> p.0 == idx
  {
    if |ev| != size then [(idx, LengthIssue(|ev|))] else SizedEventIssues(idx, ev, lo, hi)
  }

  /** Two reports about the same event are its range issue followed by its
      ordering issue: no report is repeated, and range comes first. */
  predicate SameEventInCheckOrder(r: seq<Report>)
  {
    forall a, b :: 0 <= a < b < |r| && r[a].0 == r[b].0 ==> r[a].1 == RangeIssue && r[b].1 == OrderIssue
  }

  /** The corrected validator: every event is checked, in input order. The
      reports about event i are exactly that event's own issues;
      `ValidateAllEventsInCheckOrder` adds that each is reported once, in the
      order the checks run. */
  function ValidateAllEvents(events: seq<seq<int>>, lo: int, hi: int, size: int): (r: seq<Report>)
    ensures forall p :: p in r ==> p.0 < |events|
    ensures forall a, b :: 0 <= a < b < |r| ==> r[a].0 <= r[b].0
    ensures forall i, p :: 0 <= i < |events| ==>
              (p in EventIssues(i, events[i], lo, hi, size) <==> p in r && p.0 == i)
    decreases |events|
  {
    if events == [] then []
    else
      var n := |events| - 1;
      var init := events[..n];
      var prev := ValidateAllEvents(init, lo, hi, size);
      var last := EventIssues(n, events[n], lo, hi, size);
      assert forall i :: 0 <= i < n ==> events[i] == init[i];
      prev + last
  }

  /** Two reports of the corrected validator about the same event are that
      event's range issue followed by its order issue: no issue is reported
      twice, and the checks report in the order they run. */
  lemma {:induction false} ValidateAllEventsInCheckOrder(events: seq<seq<int>>, lo: int, hi: int, size: int)
    ensures SameEventInCheckOrder(ValidateAllEvents(events, lo, hi, size))
  {
    if events != [] {
      var n := |events| - 1;
      ValidateAllEventsInCheckOrder(events[..n], lo, hi, size);
      AppendKeepsCheckOrder(ValidateAllEvents(events[..n], lo, hi, size), EventIssues(n, events[n], lo, hi, size), n);
    }
  }

  /** Appending the reports of a new event, all about index n, to reports
      about earlier events keeps the check order. */
  lemma AppendKeepsCheckOrder(prev: seq<Report>, last: seq<Report>, n: nat)
    requires SameEventInCheckOrder(prev) && forall p :: p in prev ==> p.0 < n
    requires forall p :: p in last ==> p.0 == n
    requires |last| <= 2 && (|last| == 2 ==> last[0].1 == RangeIssue && last[1].1 == OrderIssue)
    ensures SameEventInCheckOrder(prev + last)
  {
    var r := prev + last;
    forall a, b | 0 <= a < b < |r| && r[a].0 == r[b].0
      ensures r[a].1 == RangeIssue && r[b].1 == OrderIssue
    {
      if b < |prev| {
        assert r[a] == prev[a] && r[b] == prev[b];
      } else if a >= |prev| {
        assert r[a] == last[a - |prev|] && r[b] == last[b - |prev|];
      }
    }
  }

  /** The corrected validator reports nothing iff every event is well formed. */
  lemma ValidateAllEventsEmptyIffWellFormed(events: seq<seq<int>>, lo: int, hi: int, size: int)
    ensures ValidateAllEvents(events, lo, hi, size) == [] <==>
              forall i :: 0 <= i < |events| ==> WellFormedEvent(events[i], lo, hi, size)
  {
    var r := ValidateAllEvents(events, lo, hi, size);
    if r != [] {
      var i := r[0].0;
      assert r[0] in EventIssues(i, events[i], lo, hi, size);
    } else {
      forall i | 0 <= i < |events|
        ensures WellFormedEvent(events[i], lo, hi, size)
      {
        var e := EventIssues(i, events[i], lo, hi, size);
        assert forall p :: p !in e;
      }
    }
  }

  /** Up to and including the first correctly sized event, the validator as
      written reports exactly what the corrected one reports for that prefix. */
  lemma {:induction false} AsWrittenAgreesOnPrefix(events: seq<seq<int>>, lo: int, hi: int, size: int, k: nat)
    requires IsFirstSized(events, size, 0, k)
    ensures ValidateQsEvents(events, lo, hi, size) == Some(ValidateAllEvents(events[..k + 1], lo, hi, size))
  {
    LengthIssuesAgree(events, lo, hi, size, k);
    var pre := events[..k + 1];
    assert pre[..k] == events[..k];
  }

  /** When the first `k` events all have the wrong length, the corrected
      validator reports exactly their length issues. */
  lemma {:induction false} LengthIssuesAgree(events: seq<seq<int>>, lo: int, hi: int, size: int, k: nat)
    requires k <= |events|
    requires forall i :: 0 <= i < k ==> |events[i]| != size
    ensures ValidateAllEvents(events[..k], lo, hi, size) == LengthIssues(events, 0, k)
  {
    if k > 0 {
      LengthIssuesAgree(events, lo, hi, size, k - 1);
      var pre := events[..k];
      assert pre[..k - 1] == events[..k - 1];
      LengthIssuesSnoc(events, k);
      assert EventIssues(k - 1, events[k - 1], lo, hi, size) == [(k - 1, LengthIssue(|events[k - 1]|))];
    }
  }

  lemma LengthIssuesSnoc(events: seq<seq<int>>, k: nat)
    requires 0 < k <= |events|
    ensures LengthIssues(events, 0, k) == LengthIssues(events, 0, k - 1) + [(k - 1, LengthIssue(|events[k - 1]|))]
  {
    var a := LengthIssues(events, 0, k);
    var b := LengthIssues(events, 0, k - 1) + [(k - 1, LengthIssue(|events[k - 1]|))];
    assert forall i :: 0 <= i < k ==> a[i] == b[i];
  }

  /** When no event has the expected length, the validator as written returns
      None while the corrected one reports one length issue per event. */
  lemma NoSizedEventLosesReports(events: seq<seq<int>>, lo: int, hi: int, size: int)
    requires forall i :: 0 <= i < |events| ==> |events[i]| != size
    ensures ValidateQsEvents(events, lo, hi, size) == None
    ensures ValidateAllEvents(events, lo, hi, size) == LengthIssues(events, 0, |events|)
  {
    LengthIssuesAgree(events, lo, hi, size, |events|);
    assert events[..|events|] == events;
  }

  /** A concrete input on which the early return hides an issue: the second
      event is descending, the validator as written reports nothing, the
      corrected one reports the ordering issue. */
  lemma EarlyReturnHidesLaterIssue()
    ensures ValidateQsEvents([[1, 2, 3, 4, 5], [5, 4, 3, 2, 1]], 1, 39, 5) == Some([])
    ensures ValidateAllEvents([[1, 2, 3, 4, 5], [5, 4, 3, 2, 1]], 1, 39, 5) == [(1, OrderIssue)]
  {
    var good := [1, 2, 3, 4, 5];
    var bad := [5, 4, 3, 2, 1];
    GoodEventHasNoIssues(0, good);
    BadEventHasOrderIssue(1, bad);
    var events := [good, bad];
    assert IsFirstSized(events, 5, 0, 0);
    assert LengthIssues(events, 0, 0) == [];
    var first := events[..1];
    assert first == [good];
    assert |first[..0]| == 0;
    assert ValidateAllEvents(first, 1, 39, 5) == [];
  }

  lemma GoodEventHasNoIssues(idx: nat, good: seq<int>)
    requires good == [1, 2, 3, 4, 5]
    ensures SizedEventIssues(idx, good, 1, 39) == []
  {
    assert !HasOutOfRange(good, 1, 39);
    assert !HasDescent(good);
  }

  lemma BadEventHasOrderIssue(idx: nat, bad: seq<int>)
    requires bad == [5, 4, 3, 2, 1]
    ensures SizedEventIssues(idx, bad, 1, 39) == [(idx, OrderIssue)]
  {
    assert !HasOutOfRange(bad, 1, 39);
    assert HasDescent(bad) by {
      assert bad[0] >= bad[1];
    }
  }

  // ---------------------------------------------------------------------------
  // Presence matrix
  // ---------------------------------------------------------------------------

  /** The `ValueError` raised by `build_presence_matrix`: the offending value and its event. */
  datatype PresenceError = ValueOutOfRange(value: int, event: seq<int>)

  function DomainSize(lo: int, hi: int): nat
    requires lo <= hi + 1
  {
    hi - lo + 1
  }

  /** Marks the values `ev[j..]` in `row`, failing at the first out-of-range value. */
  function MarkValues(ev: seq<int>, j: nat, lo: int, hi: int, row: seq<int>): (r: Result<seq<int>, PresenceError>)
    requires lo <= hi + 1 && j <= |ev| && |row| == DomainSize(lo, hi)
    ensures r.Success? <==> forall t :: j <= t < |ev| ==> !OutOfRange(ev[t], lo, hi)
    ensures r.Success? ==> (
              && |r.value| == |row|
              && forall c :: 0 <= c < |row| ==>
                   r.value[c] == if exists t :: j <= t < |ev| && ev[t] == lo + c then 1 else row[c])
    ensures r.Failure? ==> (
              exists t :: && j <= t < |ev| && r.error == ValueOutOfRange(ev[t], ev)
                          && OutOfRange(ev[t], lo, hi)
                          && forall u :: j <= u < t ==> !OutOfRange(ev[u], lo, hi))
    decreases |ev| - j
  {
    if j == |ev| then Success(row)
    else if OutOfRange(ev[j], lo, hi) then Failure(ValueOutOfRange(ev[j], ev))
    else MarkValues(ev, j + 1, lo, hi, row[ev[j] - lo := 1])
  }

  /** One presence row: entry c is 1 iff value lo + c occurs in the event. */
  function PresenceRow(ev: seq<int>, lo: int, hi: int): (r: Result<seq<int>, PresenceError>)
    requires lo <= hi + 1
    ensures r.Success? <==> forall t :: 0 <= t < |ev| ==> !OutOfRange(ev[t], lo, hi)
    ensures r.Success? ==> (
              && |r.value| == DomainSize(lo, hi)
              && forall c :: 0 <= c < |r.value| ==> r.value[c] == if lo + c in ev then 1 else 0)
    ensures r.Failure? ==> (
              exists t :: && 0 <= t < |ev| && r.error == ValueOutOfRange(ev[t], ev)
                          && OutOfRange(ev[t], lo, hi)
                          && forall u :: 0 <= u < t ==> !OutOfRange(ev[u], lo, hi))
  {
    MarkValues(ev, 0, lo, hi, seq(DomainSize(lo, hi), _ => 0))
  }

  /** The rows of the presence matrix, built in event order; the first failing
      event aborts the whole construction. */
  function PresenceRows(events: seq<seq<int>>, lo: int, hi: int): (r: Result<seq<seq<int>>, PresenceError>)
    requires lo <= hi + 1
    ensures r.Success? <==> forall i, t :: 0 <= i < |events| && 0 <= t < |events[i]| ==> !OutOfRange(events[i][t], lo, hi)
    ensures r.Success? ==> (
              && |r.value| == |events|
              && forall i :: 0 <= i < |events| ==> PresenceRow(events[i], lo, hi) == Success(r.value[i]))
    ensures r.Failure? ==> (
              exists i :: && 0 <= i < |events| && PresenceRow(events[i], lo, hi) == Failure(r.error)
                          && forall i' :: 0 <= i' < i ==> PresenceRow(events[i'], lo, hi).Success?)
  {
    if events == [] then Success([])
    else
      assert forall i :: 1 <= i < |events| ==> events[i] == events[1..][i - 1];
      match PresenceRow(events[0], lo, hi)
      case Failure(e) => Failure(e)
      case Success(row) =>
        match PresenceRows(events[1..], lo, hi)
        case Failure(e) =>
          assert forall i :: 0 <= i < |events| - 1 ==> PresenceRow(events[1..][i], lo, hi) == PresenceRow(events[i + 1], lo, hi);
          Failure(e)
        case Success(rest) => Success([row] + rest)
  }

  /** `build_presence_matrix`: one 0/1 row per event over the domain [lo, hi].
      The width is the domain size even when there are no events. */
  function BuildPresenceMatrix(events: seq<seq<int>>, lo: int, hi: int): (r: Result<Matrix, PresenceError>)
    requires lo <= hi + 1
    ensures r.Success? <==> forall i, t :: 0 <= i < |events| && 0 <= t < |events[i]| ==> !OutOfRange(events[i][t], lo, hi)
    ensures r.Success? ==> && Shaped(r.value) && Binary(r.value)
                           && r.value.width == hi - lo + 1 && |r.value.rows| == |events|
    ensures r.Success? ==> forall i, c :: 0 <= i < |events| && 0 <= c < r.value.width ==>
              r.value.rows[i][c] == if lo + c in events[i] then 1 else 0
    ensures r.Failure? ==> (
              exists i, t :: && 0 <= i < |events| && 0 <= t < |events[i]|
                             && r.error == ValueOutOfRange(events[i][t], events[i])
                             && OutOfRange(events[i][t], lo, hi)
                             && (forall u :: 0 <= u < t ==> !OutOfRange(events[i][u], lo, hi))
                             && (forall i', u :: 0 <= i' < i && 0 <= u < |events[i']| ==> !OutOfRange(events[i'][u], lo, hi)))
  {
    match PresenceRows(events, lo, hi)
    case Failure(e) => Failure(e)
    // With an explicit width, the zero-row case `np.zeros((0, domain_size))`
    // and the stacked rows are the same expression.
    case Success(rows) => Success(Matrix(rows, DomainSize(lo, hi)))
  }

  /** The indicator row of the values of `ev` within the first `n` columns sums
      to the number of distinct such values. */
  lemma {:induction false} IndicatorPrefixSum(row: seq<int>, ev: seq<int>, lo: int, n: nat)
    requires n <= |row|
    requires forall c :: 0 <= c < |row| ==> row[c] == if lo + c in ev then 1 else 0
    ensures Sum(row[..n]) == |set v | v in ev && lo <= v < lo + n|
  {
    if n == 0 {
      assert (set v | v in ev && lo <= v < lo) == {};
    } else {
      IndicatorPrefixSum(row, ev, lo, n - 1);
      assert row[..n][..n - 1] == row[..n - 1];
      var s := set v | v in ev && lo <= v < lo + n - 1;
      if lo + n - 1 in ev {
        assert (set v | v in ev && lo <= v < lo + n) == s + {lo + n - 1};
      } else {
        assert (set v | v in ev && lo <= v < lo + n) == s;
      }
    }
  }

  /** A presence row sums to the number of distinct values of its event: a
      repeated value sets the same cell once. */
  lemma PresenceRowSumIsDistinctCount(row: seq<int>, ev: seq<int>, lo: int, hi: int)
    requires lo <= hi + 1 && |row| == DomainSize(lo, hi)
    requires forall t :: 0 <= t < |ev| ==> !OutOfRange(ev[t], lo, hi)
    requires forall c :: 0 <= c < |row| ==> row[c] == if lo + c in ev then 1 else 0
    ensures Sum(row) == |set v | v in ev|
  {
    IndicatorPrefixSum(row, ev, lo, |row|);
    assert row[..|row|] == row;
    assert (set v | v in ev && lo <= v < lo + |row|) == set v | v in ev;
  }

  /** Adjacent strict ascent orders every pair of positions. */
  lemma {:induction false} AscendingIsPairwise(ev: seq<int>, a: nat, b: nat)
    requires StrictlyAscending(ev)
    requires a < b < |ev|
    ensures ev[a] < ev[b]
    decreases b - a
  {
    if a + 1 < b {
      AscendingIsPairwise(ev, a + 1, b);
    }
  }

  /** A strictly ascending event has as many distinct values as entries. */
  lemma {:induction false} AscendingDistinctCount(ev: seq<int>)
    requires StrictlyAscending(ev)
    ensures |set v | v in ev| == |ev|
  {
    if ev != [] {
      var init := ev[..|ev| - 1];
      var last := ev[|ev| - 1];
      assert StrictlyAscending(init);
      AscendingDistinctCount(init);
      forall a | 0 <= a < |init|
        ensures init[a] != last
      {
        AscendingIsPairwise(ev, a, |ev| - 1);
      }
      assert (set v | v in ev) == (set v | v in init) + {last} by {
        assert ev == init + [last];
      }
    }
  }

  /** Events accepted by the corrected validator encode without error, and each
      presence row holds exactly `size` ones. */
  lemma ValidatedEventsHaveFullRows(events: seq<seq<int>>, lo: int, hi: int, size: int)
    requires lo <= hi + 1
    requires ValidateAllEvents(events, lo, hi, size) == []
    ensures BuildPresenceMatrix(events, lo, hi).Success?
    ensures forall i :: 0 <= i < |events| ==> Sum(BuildPresenceMatrix(events, lo, hi).value.rows[i]) == size
  {
    assert forall i :: 0 <= i < |events| ==> WellFormedEvent(events[i], lo, hi, size) by {
      ValidateAllEventsEmptyIffWellFormed(events, lo, hi, size);
    }
    WellFormedEventsEncode(events, lo, hi, size);
    var m := BuildPresenceMatrix(events, lo, hi).value;
    forall i | 0 <= i < |events|
      ensures Sum(m.rows[i]) == size
    {
      FullRow(m, events, lo, hi, size, i);
    }
  }

  lemma WellFormedEventsEncode(events: seq<seq<int>>, lo: int, hi: int, size: int)
    requires lo <= hi + 1
    requires forall i :: 0 <= i < |events| ==> WellFormedEvent(events[i], lo, hi, size)
    ensures BuildPresenceMatrix(events, lo, hi).Success?
  {
    forall i, t | 0 <= i < |events| && 0 <= t < |events[i]|
      ensures !OutOfRange(events[i][t], lo, hi)
    {
      assert WellFormedEvent(events[i], lo, hi, size);
    }
  }

  lemma FullRow(m: Matrix, events: seq<seq<int>>, lo: int, hi: int, size: int, i: nat)
    requires lo <= hi + 1
    requires forall i :: 0 <= i < |events| ==> WellFormedEvent(events[i], lo, hi, size)
    requires BuildPresenceMatrix(events, lo, hi) == Success(m)
    requires i < |events|
    ensures Sum(m.rows[i]) == size
  {
    var ev := events[i];
    assert WellFormedEvent(ev, lo, hi, size);
    PresenceRowSumIsDistinctCount(m.rows[i], ev, lo, hi);
    AscendingDistinctCount(ev);
  }

  // ---------------------------------------------------------------------------
  // Reduction to GF(2)
  // ---------------------------------------------------------------------------

  /** `to_gf2`: each entry reduced by Python's floor modulo 2. For a positive
      divisor Python's floor modulo and Dafny's Euclidean `%` coincide, so -1
      reduces to 1. */
  function ToGf2(m: Matrix): (r: Matrix)
    requires Shaped(m)
    ensures Shaped(r) && r.width == m.width && |r.rows| == |m.rows|
    ensures Binary(r)
    ensures forall i, j :: 0 <= i < |m.rows| && 0 <= j < m.width ==> (m.rows[i][j] - r.rows[i][j]) % 2 == 0
  {
    Matrix(seq(|m.rows|, i requires 0 <= i < |m.rows| => seq(m.width, j requires 0 <= j < m.width => m.rows[i][j] % 2)), m.width)
  }

  /** A binary matrix is left unchanged by the reduction, so the reduction is idempotent. */
  lemma ToGf2FixesBinary(m: Matrix)
    requires Shaped(m) && Binary(m)
    ensures ToGf2(m) == m
  {
    var r := ToGf2(m);
    forall i | 0 <= i < |m.rows|
      ensures r.rows[i] == m.rows[i]
    {
      assert forall j :: 0 <= j < m.width ==> r.rows[i][j] == m.rows[i][j];
    }
  }

  lemma ToGf2Idempotent(m: Matrix)
    requires Shaped(m)
    ensures ToGf2(ToGf2(m)) == ToGf2(m)
  {
    ToGf2FixesBinary(ToGf2(m));
  }

  /** Negative entries reduce by the mathematical modulo: odd ones go to 1. */
  lemma ToGf2OfNegatives()
    ensures ToGf2(Matrix([[-1, -2, -3, 4]], 4)) == Matrix([[1, 0, 1, 0]], 4)
  {
    var r := ToGf2(Matrix([[-1, -2, -3, 4]], 4));
    assert r.rows[0] == [1, 0, 1, 0];
  }

  // ---------------------------------------------------------------------------
  // Complement (hole) matrix
  // ---------------------------------------------------------------------------

  /** The `ValueError` raised by `build_complement_matrix`, carrying every
      distinct value of the matrix as the message does. */
  datatype ComplementError = NonBinaryValues(found: set<int>)

  /** The distinct entries of a matrix (`np.unique`); they all lie in {0, 1}
      iff the matrix is binary. */
  function Entries(m: Matrix): (s: set<int>)
    ensures forall x :: x in s <==> exists i, j :: 0 <= i < |m.rows| && 0 <= j < |m.rows[i]| && m.rows[i][j] == x
    ensures s <= {0, 1} <==> Binary(m)
  {
    var s := set i, j | 0 <= i < |m.rows| && 0 <= j < |m.rows[i]| :: m.rows[i][j];
    assert s <= {0, 1} ==> Binary(m) by {
      if s <= {0, 1} {
        forall i | 0 <= i < |m.rows|
          ensures BinaryRow(m.rows[i])
        {
          forall j | 0 <= j < |m.rows[i]|
            ensures IsBit(m.rows[i][j])
          {
            assert m.rows[i][j] in s;
          }
        }
      }
    }
    s
  }

  /** `build_complement_matrix`: fails iff some entry is not 0 or 1, and
      otherwise returns the matrix whose entries add up with the input's to 1. */
  function BuildComplementMatrix(m: Matrix): (r: Result<Matrix, ComplementError>)
    requires Shaped(m)
    ensures r.Failure? <==> !Binary(m)
    ensures r.Failure? ==> forall x :: x in r.error.found <==>
              exists i, j :: 0 <= i < |m.rows| && 0 <= j < m.width && m.rows[i][j] == x
    ensures r.Success? ==> Shaped(r.value) && r.value.width == m.width && |r.value.rows| == |m.rows|
    ensures r.Success? ==> forall i, j :: 0 <= i < |m.rows| && 0 <= j < m.width ==>
              r.value.rows[i][j] + m.rows[i][j] == 1
  {
    var found := Entries(m);
    if !(found <= {0, 1}) then
      assert !Binary(m) by {
        var x :| x in found && x != 0 && x != 1;
        var i, j :| 0 <= i < |m.rows| && 0 <= j < |m.rows[i]| && m.rows[i][j] == x;
        assert !IsBit(m.rows[i][j]);
      }
      Failure(NonBinaryValues(found))
    else
      assert Binary(m) by {
        forall i, j | 0 <= i < |m.rows| && 0 <= j < |m.rows[i]|
          ensures IsBit(m.rows[i][j])
        {
          assert m.rows[i][j] in found;
        }
      }
      Success(Matrix(seq(|m.rows|, i requires 0 <= i < |m.rows| => seq(m.width, j requires 0 <= j < m.width => 1 - m.rows[i][j])), m.width))
  }

  /** The complement of a binary matrix is binary, disjoint from it and
      together with it covers every cell. */
  lemma ComplementDisjointAndCovering(m: Matrix)
    requires Shaped(m) && Binary(m)
    ensures BuildComplementMatrix(m).Success?
    ensures var c := BuildComplementMatrix(m).value;
      && Binary(c)
      && forall i, j :: 0 <= i < |m.rows| && 0 <= j < m.width ==>
           m.rows[i][j] * c.rows[i][j] == 0 && (m.rows[i][j] == 1 || c.rows[i][j] == 1)
  {
    var c := BuildComplementMatrix(m).value;
    forall i, j | 0 <= i < |m.rows| && 0 <= j < m.width
      ensures IsBit(c.rows[i][j]) && m.rows[i][j] * c.rows[i][j] == 0
    {
      assert IsBit(m.rows[i][j]);
    }
  }

  /** Taking the complement twice gives back the binary input. */
  lemma ComplementInvolution(m: Matrix)
    requires Shaped(m) && Binary(m)
    ensures BuildComplementMatrix(m).Success?
    ensures BuildComplementMatrix(BuildComplementMatrix(m).value) == Success(m)
  {
    ComplementDisjointAndCovering(m);
    var c := BuildComplementMatrix(m).value;
    var cc := BuildComplementMatrix(c).value;
    forall i | 0 <= i < |m.rows|
      ensures cc.rows[i] == m.rows[i]
    {
      assert forall j :: 0 <= j < m.width ==> cc.rows[i][j] == m.rows[i][j];
    }
    assert cc.rows == m.rows;
  }
}
