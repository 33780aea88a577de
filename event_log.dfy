/**
 * The event log: rows of a process-mining table and the partition of the
 * table into case groups, as `df['case'].unique()` and `df[df['case'] == user]`
 * produce them.
 */
module EventLog {
  import opened Wrappers

  type CaseId = string
  type SessionId = string

  /** One row of the log. `start` and `complete` are timestamps in whole seconds. */
  datatype Row = Row(caseId: CaseId, event: string, start: int, complete: int, session: Option<SessionId>)

  /** `b` differs from `a` at most in its session id. */
  predicate SameExceptSession(a: Row, b: Row)
  {
    a.(session := b.session) == b
  }

  /**
   * `after` is `before` with some missing session ids filled in: same length,
   * every other field kept, and every known session id kept.
   */
  predicate OnlyFillsNulls(before: seq<Row>, after: seq<Row>)
  {
    |before| == |after| &&
    forall i :: 0 <= i < |before| ==>
      SameExceptSession(before[i], after[i]) && (before[i].session.Some? ==> after[i] == before[i])
  }

  /** The number of rows whose session id is missing (`isnull().sum()`). */
  function NullCount(rows: seq<Row>): (n: nat)
    ensures n <= |rows|
  {
    if rows == [] then 0
    else NullCount(rows[..|rows| - 1]) + (if rows[|rows| - 1].session.None? then 1 else 0)
  }

  function NonNullCount(rows: seq<Row>): nat
  {
    |rows| - NullCount(rows)
  }

  predicate HasCase(rows: seq<Row>, c: CaseId)
  {
    exists i :: 0 <= i < |rows| && rows[i].caseId == c
  }

  predicate Distinct(cs: seq<CaseId>)
  {
    forall i, j :: 0 <= i < j < |cs| ==> cs[i] != cs[j]
  }

  /** The case ids of `rows`, each once, in the order of their first appearance. */
  function Cases(rows: seq<Row>): seq<CaseId>
  {
    if rows == [] then []
    else
      var cs := Cases(rows[..|rows| - 1]);
      var c := rows[|rows| - 1].caseId;
      if c in cs then cs else cs + [c]
  }

  /** The rows of case `c`, in their original order. */
  function GroupOf(rows: seq<Row>, c: CaseId): seq<Row>
  {
    if rows == [] then []
    else GroupOf(rows[..|rows| - 1], c) + (if rows[|rows| - 1].caseId == c then [rows[|rows| - 1]] else [])
  }

  /** The groups of the cases `cs`, one after the other, without imputation. */
  function ConcatGroups(rows: seq<Row>, cs: seq<CaseId>): seq<Row>
  {
    if cs == [] then []
    else ConcatGroups(rows, cs[..|cs| - 1]) + GroupOf(rows, cs[|cs| - 1])
  }

  /** The log regrouped: every case group in first-appearance order of its case. */
  function Regrouped(rows: seq<Row>): seq<Row>
  {
    ConcatGroups(rows, Cases(rows))
  }

  /** The index of the first row of case `c`, or `|rows|` if there is none. */
  function FirstIndex(rows: seq<Row>, c: CaseId): nat
  {
    if rows == [] then 0
    else
      var p := rows[..|rows| - 1];
      if FirstIndex(p, c) < |p| then FirstIndex(p, c)
      else if rows[|rows| - 1].caseId == c then |p|
      else |rows|
  }

  /** Of every two listed cases, the earlier one first appears in `rows` before the later one. */
  predicate FirstAppearanceOrder(rows: seq<Row>, cs: seq<CaseId>)
  {
    forall i, j :: 0 <= i < j < |cs| ==> FirstIndex(rows, cs[i]) < FirstIndex(rows, cs[j])
  }

  lemma {:induction false} NullCountAppend(a: seq<Row>, b: seq<Row>)
    ensures NullCount(a + b) == NullCount(a) + NullCount(b)
  {
    if b != [] {
      var b0 := b[..|b| - 1];
      assert (a + b)[..|a + b| - 1] == a + b0;
      assert (a + b)[|a + b| - 1] == b[|b| - 1];
      NullCountAppend(a, b0);
    } else {
      assert a + b == a;
    }
  }

  /** A row-wise fill of missing session ids can only lower the number of missing ones. */
  lemma {:induction false} OnlyFillsNullsCount(before: seq<Row>, after: seq<Row>)
    requires OnlyFillsNulls(before, after)
    ensures NullCount(after) <= NullCount(before)
  {
    if before != [] {
      var n := |before| - 1;
      assert OnlyFillsNulls(before[..n], after[..n]);
      OnlyFillsNullsCount(before[..n], after[..n]);
    }
  }

  lemma OnlyFillsNullsAppend(a: seq<Row>, a': seq<Row>, b: seq<Row>, b': seq<Row>)
    requires OnlyFillsNulls(a, a') && OnlyFillsNulls(b, b')
    ensures OnlyFillsNulls(a + b, a' + b')
  {
    forall i | 0 <= i < |a + b|
      ensures SameExceptSession((a + b)[i], (a' + b')[i])
      ensures (a + b)[i].session.Some? ==> (a' + b')[i] == (a + b)[i]
    {
      if i >= |a| {
        assert (a + b)[i] == b[i - |a|] && (a' + b')[i] == b'[i - |a|];
      }
    }
  }

  lemma CasesSnoc(p: seq<Row>, r: Row)
    ensures Cases(p + [r]) == if r.caseId in Cases(p) then Cases(p) else Cases(p) + [r.caseId]
  {
    assert (p + [r])[..|p + [r]| - 1] == p;
  }

  lemma GroupOfSnoc(p: seq<Row>, r: Row, c: CaseId)
    ensures GroupOf(p + [r], c) == GroupOf(p, c) + (if r.caseId == c then [r] else [])
  {
    assert (p + [r])[..|p + [r]| - 1] == p;
  }

  lemma ConcatGroupsSnoc(rows: seq<Row>, cs: seq<CaseId>, c: CaseId)
    ensures ConcatGroups(rows, cs + [c]) == ConcatGroups(rows, cs) + GroupOf(rows, c)
  {
    assert (cs + [c])[..|cs + [c]| - 1] == cs;
  }

  lemma HasCaseSnoc(p: seq<Row>, r: Row, c: CaseId)
    ensures HasCase(p + [r], c) <==> HasCase(p, c) || r.caseId == c
  {
    var rows := p + [r];
    if HasCase(p, c) {
      var i :| 0 <= i < |p| && p[i].caseId == c;
      assert rows[i].caseId == c;
    }
    if r.caseId == c {
      assert rows[|p|].caseId == c;
    }
    if HasCase(rows, c) && r.caseId != c {
      var i :| 0 <= i < |rows| && rows[i].caseId == c;
      assert i != |p|;
      assert p[i].caseId == c;
    }
  }

  /** `unique()` lists exactly the case ids that occur in the log. */
  lemma {:induction false} CasesMembership(rows: seq<Row>, c: CaseId)
    ensures c in Cases(rows) <==> HasCase(rows, c)
  {
    if rows != [] {
      var p, r := rows[..|rows| - 1], rows[|rows| - 1];
      assert rows == p + [r];
      CasesMembership(p, c);
      CasesSnoc(p, r);
      HasCaseSnoc(p, r, c);
    }
  }

  /** `unique()` lists every case id once. */
  lemma {:induction false} CasesDistinct(rows: seq<Row>)
    ensures Distinct(Cases(rows))
  {
    if rows != [] {
      CasesDistinct(rows[..|rows| - 1]);
    }
  }

  /** The first appearance of `c` is the index `FirstIndex(rows, c)`, and no earlier row has case `c`. */
  lemma {:induction false} FirstIndexSpec(rows: seq<Row>, c: CaseId)
    ensures FirstIndex(rows, c) <= |rows|
    ensures FirstIndex(rows, c) < |rows| ==> rows[FirstIndex(rows, c)].caseId == c
    ensures forall m :: 0 <= m < FirstIndex(rows, c) && m < |rows| ==> rows[m].caseId != c
    ensures FirstIndex(rows, c) < |rows| <==> HasCase(rows, c)
  {
    if rows != [] {
      var p, r := rows[..|rows| - 1], rows[|rows| - 1];
      assert rows == p + [r];
      FirstIndexSpec(p, c);
      HasCaseSnoc(p, r, c);
      assert forall q :: 0 <= q < |p| ==> rows[q] == p[q];
    }
  }

  /** `unique()` lists the case ids in the order of their first appearance. */
  lemma {:induction false} CasesFirstAppearance(rows: seq<Row>)
    ensures FirstAppearanceOrder(rows, Cases(rows))
  {
    if rows != [] {
      var p, r := rows[..|rows| - 1], rows[|rows| - 1];
      assert rows == p + [r];
      var cs := Cases(p);
      CasesFirstAppearance(p);
      CasesSnoc(p, r);
      forall i | 0 <= i < |cs|
        ensures FirstIndex(rows, cs[i]) == FirstIndex(p, cs[i]) < |p|
      {
        CasesMembership(p, cs[i]);
        FirstIndexSpec(p, cs[i]);
      }
      if r.caseId !in cs {
        CasesMembership(p, r.caseId);
        FirstIndexSpec(p, r.caseId);
      }
    }
  }

  /** A case group holds only rows of its case. */
  lemma {:induction false} GroupOfCase(rows: seq<Row>, c: CaseId)
    ensures forall i :: 0 <= i < |GroupOf(rows, c)| ==> GroupOf(rows, c)[i].caseId == c
  {
    if rows != [] {
      GroupOfCase(rows[..|rows| - 1], c);
    }
  }

  /** A case group is empty exactly when its case does not occur. */
  lemma {:induction false} GroupOfEmpty(rows: seq<Row>, c: CaseId)
    ensures GroupOf(rows, c) == [] <==> !HasCase(rows, c)
  {
    if rows != [] {
      var p, r := rows[..|rows| - 1], rows[|rows| - 1];
      assert rows == p + [r];
      GroupOfEmpty(p, c);
      HasCaseSnoc(p, r, c);
    }
  }

  /** Selecting a case commutes with concatenation. */
  lemma {:induction false} GroupOfAppend(a: seq<Row>, b: seq<Row>, c: CaseId)
    ensures GroupOf(a + b, c) == GroupOf(a, c) + GroupOf(b, c)
  {
    if b != [] {
      var b0, r := b[..|b| - 1], b[|b| - 1];
      assert b == b0 + [r];
      assert a + b == (a + b0) + [r];
      GroupOfAppend(a, b0, c);
      GroupOfSnoc(a + b0, r, c);
      GroupOfSnoc(b0, r, c);
    } else {
      assert a + b == a;
    }
  }

  /** Selecting a case from rows that all have one case gives all of them or none of them. */
  lemma {:induction false} GroupOfUniform(rows: seq<Row>, d: CaseId, c: CaseId)
    requires forall i :: 0 <= i < |rows| ==> rows[i].caseId == d
    ensures GroupOf(rows, c) == if c == d then rows else []
  {
    if rows != [] {
      var p := rows[..|rows| - 1];
      GroupOfUniform(p, d, c);
      assert p + [rows[|rows| - 1]] == rows;
    }
  }

  /** Adding one row to the log adds it to the group of its case, if that case is listed. */
  lemma {:induction false} ConcatGroupsAddRow(rows: seq<Row>, r: Row, cs: seq<CaseId>)
    requires Distinct(cs)
    ensures multiset(ConcatGroups(rows + [r], cs))
         == multiset(ConcatGroups(rows, cs)) + (if r.caseId in cs then multiset{r} else multiset{})
  {
    if cs != [] {
      var cs0, c := cs[..|cs| - 1], cs[|cs| - 1];
      assert cs == cs0 + [c];
      assert Distinct(cs0);
      ConcatGroupsAddRow(rows, r, cs0);
      ConcatGroupsSnoc(rows + [r], cs0, c);
      ConcatGroupsSnoc(rows, cs0, c);
      GroupOfSnoc(rows, r, c);
    }
  }

  /** The same, counting missing session ids. */
  lemma {:induction false} ConcatGroupsAddRowNulls(rows: seq<Row>, r: Row, cs: seq<CaseId>)
    requires Distinct(cs)
    ensures NullCount(ConcatGroups(rows + [r], cs))
         == NullCount(ConcatGroups(rows, cs)) + (if r.caseId in cs && r.session.None? then 1 else 0)
  {
    if cs != [] {
      var cs0, c := cs[..|cs| - 1], cs[|cs| - 1];
      assert cs == cs0 + [c];
      assert Distinct(cs0);
      ConcatGroupsAddRowNulls(rows, r, cs0);
      ConcatGroupsSnoc(rows + [r], cs0, c);
      ConcatGroupsSnoc(rows, cs0, c);
      GroupOfSnoc(rows, r, c);
      var g := GroupOf(rows, c);
      var extra := if r.caseId == c then [r] else [];
      NullCountAppend(ConcatGroups(rows + [r], cs0), g + extra);
      NullCountAppend(ConcatGroups(rows, cs0), g);
      NullCountAppend(g, extra);
    }
  }

  /** Regrouping neither adds nor drops a row. */
  lemma {:induction false} RegroupedPermutes(rows: seq<Row>)
    ensures multiset(Regrouped(rows)) == multiset(rows)
  {
    if rows != [] {
      var p, r := rows[..|rows| - 1], rows[|rows| - 1];
      assert rows == p + [r];
      var cs := Cases(p);
      RegroupedPermutes(p);
      CasesDistinct(p);
      CasesSnoc(p, r);
      ConcatGroupsAddRow(p, r, cs);
      if r.caseId !in cs {
        ConcatGroupsSnoc(rows, cs, r.caseId);
        CasesMembership(p, r.caseId);
        GroupOfEmpty(p, r.caseId);
        GroupOfSnoc(p, r, r.caseId);
      }
    }
  }

  /** Regrouping keeps the number of missing session ids. */
  lemma {:induction false} RegroupedNullCount(rows: seq<Row>)
    ensures NullCount(Regrouped(rows)) == NullCount(rows)
  {
    if rows != [] {
      var p, r := rows[..|rows| - 1], rows[|rows| - 1];
      assert rows == p + [r];
      var cs := Cases(p);
      RegroupedNullCount(p);
      CasesDistinct(p);
      CasesSnoc(p, r);
      ConcatGroupsAddRowNulls(p, r, cs);
      NullCountAppend(p, [r]);
      if r.caseId !in cs {
        ConcatGroupsSnoc(rows, cs, r.caseId);
        CasesMembership(p, r.caseId);
        GroupOfEmpty(p, r.caseId);
        GroupOfSnoc(p, r, r.caseId);
        NullCountAppend(ConcatGroups(rows, cs), [r]);
      }
    }
  }
}
