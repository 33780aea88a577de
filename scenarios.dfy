/**
 * What the model computes for small concrete logs under the default threshold
 * of 15 minutes. Times are in seconds.
 */
module Scenarios {
  import opened Wrappers
  import opened EventLog
  import opened SessionFill
  import opened Imputation

  function At(event: string, start: int, complete: int, session: Option<SessionId>): Row
  {
    Row("case-1", event, start, complete, session)
  }

  /** A 5-minute gap continues the session; a 20-minute gap before an ordinary event does not. */
  lemma ShortGapFillsLongGapDoesNot()
    ensures var out := ImputeGroup([At("Call", 0, 60, Some("S1")), At("Call", 360, 420, None), At("Call", 1620, 1680, None)], Finite(15));
      out[1].session == Some("S1") && out[2].session == None
  {
  }

  /** A continuing event inherits the session across a 20-minute gap, chained through the row before it. */
  lemma ContinuingEventIgnoresGap()
    ensures var out := ImputeGroup([At("Call", 0, 60, Some("S1")), At("Call", 360, 420, None), At("Question", 1620, 1680, None)], Finite(15));
      out[1].session == Some("S1") && out[2].session == Some("S1")
  {
  }

  /** Three missing ids after a known one, all with short gaps, all inherit it. */
  lemma ChainOfThree()
    ensures var out := ImputeGroup([At("Call", 0, 60, Some("S1")), At("Call", 120, 180, None), At("Call", 240, 300, None), At("Call", 360, 420, None)], Finite(15));
      out[1].session == out[2].session == out[3].session == Some("S1")
  {
  }

  /** A group with a single missing id is left alone, even when that id could be filled. */
  lemma SingleMissingIdSkipped()
    ensures var g := [At("Call", 0, 60, Some("S1")), At("Call", 120, 180, None)];
      ImputeGroup(g, Finite(15)) == g && ImputeGroup(g, Infinite) == g
  {
    var g := [At("Call", 0, 60, Some("S1")), At("Call", 120, 180, None)];
    assert g[..1] == [g[0]] && g[..1][..0] == [];
    assert NullCount(g) == 1;
  }

  /** Leading missing ids stay missing, yet each assignment still adds to `count_input`. */
  lemma LeadingNullsAreCountedButStayNull()
    ensures var g := [At("Call", 0, 60, None), At("Call", 120, 180, None)];
      AssignCount(g, Finite(15)) == 1 && GroupCount(g, Finite(15)) == 1 &&
      ImputeGroup(g, Finite(15)) == g && NonNullCount(ImputeGroup(g, Finite(15))) == NonNullCount(g)
  {
    var g := [At("Call", 0, 60, None), At("Call", 120, 180, None)];
    assert g[..1] == [g[0]] && g[..1][..0] == [];
    assert NullCount(g) == 2;
    assert Filled(g, Finite(15))[1] == g[1];
    assert Filled(g, Finite(15)) == g;
  }
}
