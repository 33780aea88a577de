/**
 * The rewrite of one case group: the chained fill under a finite gap
 * threshold (the `for t in range(1, len(temp_df))` loop) and the plain
 * forward fill under an infinite one (`fillna(method='ffill')`).
 */
module SessionFill {
  import opened Wrappers
  import opened EventLog

  /** `time_Session_min`: a number of minutes, or `np.inf`. */
  datatype Threshold = Finite(minutes: int) | Infinite

  /** Event types that continue the previous session whatever the gap (`esp_cases`). */
  const ContinuingEvents: seq<string> := ["File Complaint", "Question", "Werkmap message"]

  /**
   * Whether row `t` may inherit the session of row `t - 1`: the gap between the
   * completion of row `t - 1` and the start of row `t` is below the threshold,
   * or the event of row `t` is a continuing one. With an infinite threshold
   * every gap is below it.
   */
  predicate Continues(rows: seq<Row>, t: nat, th: Threshold)
    requires 0 < t < |rows|
  {
    match th
    case Infinite => true
    case Finite(k) => rows[t].start - rows[t - 1].complete < 60 * k || rows[t].event in ContinuingEvents
  }

  /** Whether the scan assigns to row `t`: its session is missing and it continues row `t - 1`. */
  predicate Assigns(rows: seq<Row>, t: nat, th: Threshold)
    requires 0 < t < |rows|
  {
    rows[t].session.None? && Continues(rows, t, th)
  }

  /**
   * The session id of row `t` once the scan has passed it: a row the scan
   * assigns to takes the value that row `t - 1` holds at that moment, so values
   * chain through runs of missing ids; every other row keeps its own.
   */
  function SessionAt(rows: seq<Row>, th: Threshold, t: nat): Option<SessionId>
    requires t < |rows|
  {
    if 0 < t && Assigns(rows, t, th) then SessionAt(rows, th, t - 1) else rows[t].session
  }

  /** The group after the scan over t = 1 .. n - 1. */
  function Filled(rows: seq<Row>, th: Threshold): seq<Row>
  {
    seq(|rows|, i requires 0 <= i < |rows| => rows[i].(session := SessionAt(rows, th, i)))
  }

  /** The number of assignments the scan makes among rows 1 .. n - 1 (`count_input`). */
  function AssignCountUpTo(rows: seq<Row>, th: Threshold, n: nat): nat
    requires n <= |rows|
  {
    if n <= 1 then 0
    else AssignCountUpTo(rows, th, n - 1) + (if Assigns(rows, n - 1, th) then 1 else 0)
  }

  function AssignCount(rows: seq<Row>, th: Threshold): nat
  {
    AssignCountUpTo(rows, th, |rows|)
  }

  /** The most recent known session id at or before row `t`, or `None` if there is none. */
  function LastKnown(rows: seq<Row>, t: nat): Option<SessionId>
    requires t < |rows|
  {
    if rows[t].session.Some? || t == 0 then rows[t].session else LastKnown(rows, t - 1)
  }

  /** `fillna(method='ffill')` on the session column. */
  function ForwardFill(rows: seq<Row>): seq<Row>
  {
    seq(|rows|, i requires 0 <= i < |rows| => rows[i].(session := LastKnown(rows, i)))
  }

  /** The scan only writes session ids, and only where they were missing. */
  lemma FilledOnlyFillsNulls(rows: seq<Row>, th: Threshold)
    ensures OnlyFillsNulls(rows, Filled(rows, th))
  {
  }

  /**
   * The scan, row by row: the first row never changes; a row with a missing id
   * that continues its predecessor ends up with the predecessor's final value;
   * one that does not stays missing.
   */
  lemma FilledAt(rows: seq<Row>, th: Threshold, t: nat)
    requires t < |rows|
    ensures t == 0 ==> Filled(rows, th)[t] == rows[t]
    ensures 0 < t && Assigns(rows, t, th) ==> Filled(rows, th)[t].session == Filled(rows, th)[t - 1].session
    ensures 0 < t && rows[t].session.None? && !Continues(rows, t, th) ==> Filled(rows, th)[t].session.None?
  {
  }

  /**
   * Forward fill, stated without reference to any scan: row `t` ends up with no
   * id exactly when no row up to `t` has one, and otherwise with the id of the
   * last row up to `t` that has one.
   */
  lemma {:induction false} LastKnownSpec(rows: seq<Row>, t: nat)
    requires t < |rows|
    ensures LastKnown(rows, t).None? <==> forall j :: 0 <= j <= t ==> rows[j].session.None?
    ensures LastKnown(rows, t).Some? ==>
      exists j :: 0 <= j <= t && rows[j].session == LastKnown(rows, t) &&
        forall m :: j < m <= t ==> rows[m].session.None?
  {
    if rows[t].session.None? && t > 0 {
      LastKnownSpec(rows, t - 1);
      if LastKnown(rows, t).Some? {
        var j :| 0 <= j <= t - 1 && rows[j].session == LastKnown(rows, t - 1) &&
          forall m :: j < m <= t - 1 ==> rows[m].session.None?;
        assert forall m :: j < m <= t ==> rows[m].session.None?;
      }
    }
  }

  lemma {:induction false} LastKnownIsChain(rows: seq<Row>, t: nat)
    requires t < |rows|
    ensures LastKnown(rows, t) == SessionAt(rows, Infinite, t)
  {
    if t > 0 {
      LastKnownIsChain(rows, t - 1);
    }
  }

  /** Forward fill is the scan with every gap counted as below the threshold. */
  lemma ForwardFillIsFilled(rows: seq<Row>)
    ensures ForwardFill(rows) == Filled(rows, Infinite)
  {
    forall t | 0 <= t < |rows| ensures ForwardFill(rows)[t] == Filled(rows, Infinite)[t] {
      LastKnownIsChain(rows, t);
    }
  }

  /** The scan leaves every field it tests unchanged, so it decides the same way on its own output. */
  lemma ContinuesFilled(rows: seq<Row>, th: Threshold, t: nat)
    requires 0 < t < |rows|
    ensures Continues(Filled(rows, th), t, th) == Continues(rows, t, th)
  {
  }

  lemma {:induction false} SessionAtIdempotent(rows: seq<Row>, th: Threshold, t: nat)
    requires t < |rows|
    ensures SessionAt(Filled(rows, th), th, t) == SessionAt(rows, th, t)
  {
    if 0 < t {
      ContinuesFilled(rows, th, t);
      SessionAtIdempotent(rows, th, t - 1);
    }
  }

  /** A second scan over the scan's output changes nothing. */
  lemma FilledIdempotent(rows: seq<Row>, th: Threshold)
    ensures Filled(Filled(rows, th), th) == Filled(rows, th)
  {
    forall t | 0 <= t < |rows|
      ensures Filled(Filled(rows, th), th)[t] == Filled(rows, th)[t]
    {
      SessionAtIdempotent(rows, th, t);
    }
  }

  /**
   * Known ids never become missing; and each id that was missing and is now
   * known was written by one of the scan's assignments.
   */
  lemma {:induction false} FilledCountsUpTo(rows: seq<Row>, th: Threshold, n: nat)
    requires n <= |rows|
    ensures NullCount(Filled(rows, th)[..n]) <= NullCount(rows[..n])
    ensures NullCount(rows[..n]) <= NullCount(Filled(rows, th)[..n]) + AssignCountUpTo(rows, th, n)
  {
    var out := Filled(rows, th);
    if n > 0 {
      FilledCountsUpTo(rows, th, n - 1);
      assert rows[..n][..n - 1] == rows[..n - 1];
      assert out[..n][..n - 1] == out[..n - 1];
    }
  }

  /**
   * The number of known session ids never decreases, and grows by at most
   * the number of assignments the scan counts.
   */
  lemma FilledCounts(rows: seq<Row>, th: Threshold)
    ensures NonNullCount(rows) <= NonNullCount(Filled(rows, th)) <= NonNullCount(rows) + AssignCount(rows, th)
  {
    FilledCountsUpTo(rows, th, |rows|);
    assert rows[..|rows|] == rows;
    assert Filled(rows, th)[..|rows|] == Filled(rows, th);
  }

  /** One step of the scan: row `t` of the result, from row `t` of the input and row `t - 1` of the result. */
  lemma FilledStep(rows: seq<Row>, th: Threshold, t: nat)
    requires 0 < t < |rows|
    ensures |Filled(rows, th)| == |rows|
    ensures SameExceptSession(rows[t - 1], Filled(rows, th)[t - 1])
    ensures Assigns(rows, t, th) ==> Filled(rows, th)[t] == rows[t].(session := Filled(rows, th)[t - 1].session)
    ensures !Assigns(rows, t, th) ==> Filled(rows, th)[t] == rows[t]
  {
  }

  /**
   * The scan of a group under a finite threshold, in place: for t = 1 .. n - 1,
   * a row with a missing id that continues row t - 1 takes the value row
   * t - 1 holds now. Returns the number of assignments made.
   */
  method FillInPlace(a: array<Row>, k: int) returns (count: nat)
    modifies a
    ensures a[..] == Filled(old(a[..]), Finite(k))
    ensures count == AssignCount(old(a[..]), Finite(k))
  {
    ghost var orig := a[..];
    ghost var want := Filled(orig, Finite(k));
    count := 0;
    var t := 1;
    while t < a.Length
      invariant 1 <= t && (a.Length > 0 ==> t <= a.Length)
      invariant forall i :: 0 <= i < t && i < a.Length ==> a[i] == want[i]
      invariant forall i :: t <= i < a.Length ==> a[i] == orig[i]
      invariant count == AssignCountUpTo(orig, Finite(k), if t <= a.Length then t else a.Length)
    {
      FilledStep(orig, Finite(k), t);
      ghost var prev, cur := a[t - 1], a[t];
      assert prev == want[t - 1] && cur == orig[t];
      var gap := a[t].start - a[t - 1].complete;
      assert ((gap < 60 * k || a[t].event in ContinuingEvents) && a[t].session.None?) == Assigns(orig, t, Finite(k));
      if (gap < 60 * k || a[t].event in ContinuingEvents) && a[t].session.None? {
        a[t] := a[t].(session := a[t - 1].session);
        count := count + 1;
      }
      assert a[t] == want[t];
      t := t + 1;
    }
    assert a[..] == want;
  }

  /** The forward fill of a group under an infinite threshold: the session column is replaced in one step. */
  method ForwardFillInPlace(a: array<Row>)
    modifies a
    ensures a[..] == ForwardFill(old(a[..]))
  {
    var filled := ForwardFill(a[..]);
    forall i | 0 <= i < a.Length {
      a[i] := filled[i];
    }
  }
}
