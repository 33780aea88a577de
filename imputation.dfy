/**
 * `impute_sessionsID_NA`: every case group, in first-appearance order of its
 * case, is rewritten when it has more than one missing session id, and the
 * groups are concatenated into the result.
 */
module Imputation {
  import opened Wrappers
  import opened EventLog
  import opened SessionFill

  /** The rewrite of one group: skipped unless more than one id is missing. */
  function ImputeGroup(g: seq<Row>, th: Threshold): seq<Row>
  {
    if NullCount(g) > 1 then
      match th
      case Infinite => ForwardFill(g)
      case Finite(_) => Filled(g, th)
    else g
  }

  /** What the rewrite of one group adds to `count_input`; the forward fill adds nothing. */
  function GroupCount(g: seq<Row>, th: Threshold): nat
  {
    if NullCount(g) > 1 && th.Finite? then AssignCount(g, th) else 0
  }

  /** The rewritten groups of the cases `cs`, one after the other. */
  function ImputeAll(rows: seq<Row>, cs: seq<CaseId>, th: Threshold): seq<Row>
  {
    if cs == [] then []
    else ImputeAll(rows, cs[..|cs| - 1], th) + ImputeGroup(GroupOf(rows, cs[|cs| - 1]), th)
  }

  function TotalCount(rows: seq<Row>, cs: seq<CaseId>, th: Threshold): nat
  {
    if cs == [] then 0
    else TotalCount(rows, cs[..|cs| - 1], th) + GroupCount(GroupOf(rows, cs[|cs| - 1]), th)
  }

  /** The imputed log. */
  function Imputed(rows: seq<Row>, th: Threshold): seq<Row>
  {
    ImputeAll(rows, Cases(rows), th)
  }

  /** The final value of `count_input`. */
  function ImputedCount(rows: seq<Row>, th: Threshold): nat
  {
    TotalCount(rows, Cases(rows), th)
  }

  /** The second output file: the imputed rows whose session id is still missing are dropped. */
  function DropUnresolved(rows: seq<Row>): (r: seq<Row>)
    ensures |r| == NonNullCount(rows)
    ensures forall i :: 0 <= i < |r| ==> r[i].session.Some?
    ensures multiset(r) <= multiset(rows)
  {
    if rows == [] then []
    else
      var p := rows[..|rows| - 1];
      assert rows == p + [rows[|rows| - 1]];
      DropUnresolved(p) + (if rows[|rows| - 1].session.Some? then [rows[|rows| - 1]] else [])
  }

  /** The filter keeps the kept rows in their input order. */
  lemma {:induction false} DropUnresolvedAppend(a: seq<Row>, b: seq<Row>)
    ensures DropUnresolved(a + b) == DropUnresolved(a) + DropUnresolved(b)
  {
    if b == [] {
      assert a + b == a;
    } else {
      var b0, r := b[..|b| - 1], b[|b| - 1];
      assert (a + b)[..|a + b| - 1] == a + b0;
      assert (a + b)[|a + b| - 1] == r;
      DropUnresolvedAppend(a, b0);
    }
  }

  /** The filter on one row keeps it exactly when its session id is known. */
  lemma DropUnresolvedRow(r: Row)
    ensures DropUnresolved([r]) == if r.session.Some? then [r] else []
  {
    assert [r][..0] == [];
  }

  /** The rewrite of one group in place; returns what it adds to `count_input`. */
  method ImputeGroupInPlace(a: array<Row>, th: Threshold) returns (count: nat)
    modifies a
    ensures a[..] == ImputeGroup(old(a[..]), th)
    ensures count == GroupCount(old(a[..]), th)
  {
    count := 0;
    if NullCount(a[..]) > 1 {
      match th
      case Infinite =>
        ForwardFillInPlace(a);
      case Finite(k) =>
        count := FillInPlace(a, k);
    }
  }

  /**
   * `impute_sessionsID_NA(df, time_Session_min)`: the imputed log and the final
   * value of `count_input`, with the default threshold of 15 minutes. An empty
   * log leaves `df_ans` unbound, so the log must not be empty.
   */
  method Impute(rows: seq<Row>, th: Threshold := Finite(15)) returns (out: seq<Row>, count: nat)
    requires |rows| > 0
    ensures out == Imputed(rows, th)
    ensures count == ImputedCount(rows, th)
  {
    var users := Cases(rows);
    out, count := [], 0;
    var u := 0;
    while u < |users|
      invariant 0 <= u <= |users|
      invariant out == ImputeAll(rows, users[..u], th)
      invariant count == TotalCount(rows, users[..u], th)
    {
      var group := GroupOf(rows, users[u]);
      var a := new Row[|group|](i requires 0 <= i < |group| => group[i]);
      assert a[..] == group;
      var c := ImputeGroupInPlace(a, th);
      assert a[..] == ImputeGroup(group, th) && c == GroupCount(group, th);
      ImputeAllStep(rows, users, u, th);
      out := out + a[..];
      count := count + c;
      u := u + 1;
    }
    assert users[..u] == users;
  }

  lemma ImputeAllStep(rows: seq<Row>, cs: seq<CaseId>, u: nat, th: Threshold)
    requires u < |cs|
    ensures ImputeAll(rows, cs[..u + 1], th) == ImputeAll(rows, cs[..u], th) + ImputeGroup(GroupOf(rows, cs[u]), th)
    ensures TotalCount(rows, cs[..u + 1], th) == TotalCount(rows, cs[..u], th) + GroupCount(GroupOf(rows, cs[u]), th)
  {
    assert cs[..u + 1][..u] == cs[..u];
  }

  /** The rewrite of a group only writes session ids, and only where they were missing. */
  lemma ImputeGroupOnlyFillsNulls(g: seq<Row>, th: Threshold)
    ensures OnlyFillsNulls(g, ImputeGroup(g, th))
  {
    if NullCount(g) > 1 {
      ForwardFillIsFilled(g);
      FilledOnlyFillsNulls(g, th);
    }
  }

  /** A group with at most one missing session id comes out as it went in. */
  lemma ImputeGroupSkips(g: seq<Row>, th: Threshold)
    requires NullCount(g) <= 1
    ensures ImputeGroup(g, th) == g
  {
  }

  /** Under an infinite threshold a rewritten group is its forward fill, which is the scan with every gap below the threshold. */
  lemma ImputeGroupInfinite(g: seq<Row>)
    requires NullCount(g) > 1
    ensures ImputeGroup(g, Infinite) == ForwardFill(g) == Filled(g, Infinite)
  {
    ForwardFillIsFilled(g);
  }

  /** Rewriting a group twice gives what rewriting it once gives. */
  lemma ImputeGroupIdempotent(g: seq<Row>, th: Threshold)
    ensures ImputeGroup(ImputeGroup(g, th), th) == ImputeGroup(g, th)
  {
    if NullCount(g) > 1 {
      ForwardFillIsFilled(g);
      var out := Filled(g, th);
      assert ImputeGroup(g, th) == out;
      if NullCount(out) > 1 {
        ForwardFillIsFilled(out);
        FilledIdempotent(g, th);
      }
    }
  }

  /** Under a finite threshold the known ids grow by at most the group's share of `count_input`. */
  lemma ImputeGroupCounts(g: seq<Row>, k: int)
    ensures NonNullCount(g) <= NonNullCount(ImputeGroup(g, Finite(k))) <= NonNullCount(g) + GroupCount(g, Finite(k))
  {
    FilledCounts(g, Finite(k));
  }

  lemma {:induction false} ImputeAllOnlyFillsNulls(rows: seq<Row>, cs: seq<CaseId>, th: Threshold)
    ensures OnlyFillsNulls(ConcatGroups(rows, cs), ImputeAll(rows, cs, th))
  {
    if cs != [] {
      var cs0, c := cs[..|cs| - 1], cs[|cs| - 1];
      ImputeAllOnlyFillsNulls(rows, cs0, th);
      ImputeGroupOnlyFillsNulls(GroupOf(rows, c), th);
      OnlyFillsNullsAppend(ConcatGroups(rows, cs0), ImputeAll(rows, cs0, th),
                           GroupOf(rows, c), ImputeGroup(GroupOf(rows, c), th));
    }
  }

  /**
   * The imputed log is the input regrouped by case in first-appearance order,
   * each group in its original order, no row added or dropped, with only
   * missing session ids filled in.
   */
  lemma ImputedIsRegrouped(rows: seq<Row>, th: Threshold)
    ensures multiset(Regrouped(rows)) == multiset(rows)
    ensures FirstAppearanceOrder(rows, Cases(rows))
    ensures OnlyFillsNulls(Regrouped(rows), Imputed(rows, th))
  {
    RegroupedPermutes(rows);
    CasesFirstAppearance(rows);
    ImputeAllOnlyFillsNulls(rows, Cases(rows), th);
  }

  /** The number of known session ids in the log never decreases. */
  lemma ImputedNonNullGrows(rows: seq<Row>, th: Threshold)
    ensures |Imputed(rows, th)| == |rows|
    ensures NonNullCount(rows) <= NonNullCount(Imputed(rows, th))
  {
    ImputedIsRegrouped(rows, th);
    RegroupedNullCount(rows);
    OnlyFillsNullsCount(Regrouped(rows), Imputed(rows, th));
    var m := multiset(Regrouped(rows));
    assert |Regrouped(rows)| == |m| == |multiset(rows)| == |rows|;
  }

  /** Every row of a rewritten group keeps the group's case. */
  lemma ImputeGroupOfCase(rows: seq<Row>, c: CaseId, th: Threshold)
    ensures forall i :: 0 <= i < |ImputeGroup(GroupOf(rows, c), th)| ==> ImputeGroup(GroupOf(rows, c), th)[i].caseId == c
  {
    GroupOfCase(rows, c);
    ImputeGroupOnlyFillsNulls(GroupOf(rows, c), th);
  }

  /** Selecting case `c` from the rewritten groups gives the rewrite of `c`'s group, if `c` is listed. */
  lemma {:induction false} ImputeAllCaseView(rows: seq<Row>, cs: seq<CaseId>, th: Threshold, c: CaseId)
    requires Distinct(cs)
    ensures GroupOf(ImputeAll(rows, cs, th), c) == if c in cs then ImputeGroup(GroupOf(rows, c), th) else []
  {
    if cs != [] {
      var cs0, d := cs[..|cs| - 1], cs[|cs| - 1];
      assert cs == cs0 + [d];
      assert Distinct(cs0);
      ImputeAllCaseView(rows, cs0, th, c);
      var block := ImputeGroup(GroupOf(rows, d), th);
      GroupOfAppend(ImputeAll(rows, cs0, th), block, c);
      ImputeGroupOfCase(rows, d, th);
      GroupOfUniform(block, d, c);
    }
  }

  /** The rows of each case in the imputed log are exactly that case's group, rewritten. */
  lemma ImputedCaseView(rows: seq<Row>, th: Threshold, c: CaseId)
    ensures GroupOf(Imputed(rows, th), c) == ImputeGroup(GroupOf(rows, c), th)
  {
    CasesDistinct(rows);
    ImputeAllCaseView(rows, Cases(rows), th, c);
    CasesMembership(rows, c);
    GroupOfEmpty(rows, c);
  }

  /** A case with at most one missing session id comes out of the log identical to its input rows. */
  lemma ImputedSkips(rows: seq<Row>, th: Threshold, c: CaseId)
    requires NullCount(GroupOf(rows, c)) <= 1
    ensures GroupOf(Imputed(rows, th), c) == GroupOf(rows, c)
  {
    ImputedCaseView(rows, th, c);
  }

  lemma {:induction false} CasesAppendUniform(a: seq<Row>, b: seq<Row>, c: CaseId)
    requires b != [] && forall i :: 0 <= i < |b| ==> b[i].caseId == c
    requires c !in Cases(a)
    ensures Cases(a + b) == Cases(a) + [c]
  {
    var b0, r := b[..|b| - 1], b[|b| - 1];
    assert a + b == (a + b0) + [r];
    if b0 == [] {
      assert a + b0 == a;
      CasesSnoc(a, r);
    } else {
      CasesAppendUniform(a, b0, c);
      CasesSnoc(a + b0, r);
    }
  }

  /** The cases of the rewritten groups, in order, are the cases listed. */
  lemma {:induction false} CasesOfImputeAll(rows: seq<Row>, cs: seq<CaseId>, th: Threshold)
    requires Distinct(cs)
    requires forall i :: 0 <= i < |cs| ==> HasCase(rows, cs[i])
    ensures Cases(ImputeAll(rows, cs, th)) == cs
  {
    if cs != [] {
      var cs0, c := cs[..|cs| - 1], cs[|cs| - 1];
      assert cs == cs0 + [c];
      assert Distinct(cs0);
      CasesOfImputeAll(rows, cs0, th);
      var g := GroupOf(rows, c);
      GroupOfEmpty(rows, c);
      ImputeGroupOnlyFillsNulls(g, th);
      ImputeGroupOfCase(rows, c, th);
      CasesAppendUniform(ImputeAll(rows, cs0, th), ImputeGroup(g, th), c);
    } else {
      assert ImputeAll(rows, cs, th) == [];
    }
  }

  /** The imputed log lists its cases in the same order as the input. */
  lemma CasesOfImputed(rows: seq<Row>, th: Threshold)
    ensures Cases(Imputed(rows, th)) == Cases(rows)
  {
    CasesDistinct(rows);
    forall i | 0 <= i < |Cases(rows)| ensures HasCase(rows, Cases(rows)[i]) {
      CasesMembership(rows, Cases(rows)[i]);
    }
    CasesOfImputeAll(rows, Cases(rows), th);
  }

  lemma {:induction false} ImputeAllAgain(rows: seq<Row>, th: Threshold, ds: seq<CaseId>)
    ensures ImputeAll(Imputed(rows, th), ds, th) == ImputeAll(rows, ds, th)
  {
    if ds != [] {
      var d := ds[|ds| - 1];
      ImputeAllAgain(rows, th, ds[..|ds| - 1]);
      ImputedCaseView(rows, th, d);
      ImputeGroupIdempotent(GroupOf(rows, d), th);
    }
  }

  /** Imputing the imputed log again changes nothing. */
  lemma ImputedIdempotent(rows: seq<Row>, th: Threshold)
    ensures Imputed(Imputed(rows, th), th) == Imputed(rows, th)
  {
    CasesOfImputed(rows, th);
    ImputeAllAgain(rows, th, Cases(rows));
  }
}
