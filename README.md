# Session-id imputation for an event log

This project models `impute_sessionsID_NA` from the UVW event-log tooling and proves properties of it.
The function fills in missing session ids in a process-mining event log.
Rows are grouped by `case`, in the order each case first appears.
A group is rewritten only when more than one of its session ids is missing.
With a finite gap threshold (in minutes), a scan over rows 1 .. n-1 copies the session id of row t-1 into a missing id at row t.
It does so when the gap from the completion of row t-1 to the start of row t is below the threshold, or when the event of row t is one of `File Complaint`, `Question`, `Werkmap message`.
Values chain through runs of missing ids, and a counter (`count_input`) counts every assignment.
With an infinite threshold the group is forward-filled instead.
All groups, rewritten or not, are concatenated into the result.

Modules:

- `Wrappers` (`wrappers.dfy`): `Option`, the nullable session cell.
- `EventLog` (`event_log.dfy`): the row record. This module also holds the grouping: `Cases` plays the role of `df['case'].unique()` and `GroupOf` that of `df[df['case'] == user]`. The lemmas prove first-appearance order and that regrouping is a permutation.
- `SessionFill` (`session_fill.dfy`): sets the rules for one group. `Filled` specifies the chained scan through `SessionAt`, and `FillInPlace` runs that scan in place on an `array`. `ForwardFill` is the `ffill`, and `ForwardFillInPlace` replaces the column with it.
- `Imputation` (`imputation.dfy`): the skip rule, the rewrite of one group and the whole function as the imperative method `Impute`, with the properties of the whole log.
- `Scenarios` (`scenarios.dfy`): small concrete groups.

Timestamps are integer seconds. The test `gap_minutes < k` is written `start[t] - complete[t-1] < 60 * k`. A negative gap (overlapping events) therefore passes whenever the threshold is not negative, as with the default of 15 minutes. `Impute` takes that default when no threshold is given.

## Model

| member | source | states |
|---|---|---|
| `EventLog.NullCount` | Data_Imputation.py:32 | the number of rows of a group whose session id is missing (`isnull().sum()`), at most the number of rows |
| `EventLog.Cases` | Data_Imputation.py:25 | the case ids of the log, each once, in first-appearance order (`unique()`) |
| `EventLog.GroupOf` | Data_Imputation.py:30 | the rows of one case in their original order (the mask `df['case'] == user`) |
| `SessionFill.Continues` | Data_Imputation.py:28-39 | row t continues row t-1: the gap from row t-1's completion to row t's start is below 60 times the threshold in minutes, or row t's event is a continuing one; always true under an infinite threshold |
| `SessionFill.Assigns` | Data_Imputation.py:39 | the scan writes row t: its session id is missing and it continues row t-1 |
| `SessionFill.SessionAt` | Data_Imputation.py:37-40 | the session id of row t after the scan: the final id of row t-1 if the scan writes row t, else row t's own id |
| `SessionFill.Filled` | Data_Imputation.py:37-40 | the group after the scan over t = 1 .. n-1, with every other field kept |
| `SessionFill.AssignCount` | Data_Imputation.py:41 | the number of rows among 1 .. n-1 that the scan writes, which is what the finite loop adds to `count_input` |
| `SessionFill.LastKnown` | Data_Imputation.py:34 | the most recent known session id at or before row t |
| `SessionFill.ForwardFill` | Data_Imputation.py:34 | `fillna(method='ffill')`: each row takes `LastKnown` at its index |
| `Imputation.ImputeGroup` | Data_Imputation.py:32-41 | a group is rewritten only with more than one missing id: by forward fill under an infinite threshold, by the scan under a finite one |
| `Imputation.GroupCount` | Data_Imputation.py:41 | what one group adds to `count_input`: its assignment count when it is scanned, otherwise zero |
| `Imputation.Imputed` | Data_Imputation.py:25-51 | the rewritten groups of all cases, concatenated in `unique()` order |
| `Imputation.ImputedCount` | Data_Imputation.py:25-51 | the final `count_input`: the sum of the groups' counts |
| `Imputation.DropUnresolvedAppend` | Data_Imputation.py:63 | the filter distributes over concatenation, so the kept rows stay in input order |
| `EventLog.CasesMembership` | Data_Imputation.py:25 | a case id is in `unique()` exactly when some row has that case |
| `EventLog.CasesDistinct` | Data_Imputation.py:25 | `unique()` lists each case once |
| `EventLog.FirstIndexSpec` | Data_Imputation.py:25 | `FirstIndex` is the index of the first row of a case and no earlier row has it; it is `|rows|` exactly when the case is absent |
| `EventLog.CasesFirstAppearance` | Data_Imputation.py:25 | cases are listed in the order of their first appearance |
| `EventLog.GroupOfCase` | Data_Imputation.py:30 | a group holds only rows of its case |
| `EventLog.GroupOfEmpty` | Data_Imputation.py:30 | a group is empty exactly when its case does not occur |
| `EventLog.GroupOfAppend` | Data_Imputation.py:30 | selecting a case commutes with concatenation, so groups keep the rows' relative order |
| `EventLog.RegroupedPermutes` | Data_Imputation.py:25-30 | the concatenated groups are a permutation of the input rows: nothing added or dropped |
| `EventLog.RegroupedNullCount` | Data_Imputation.py:44-48 | regrouping keeps the number of missing session ids |
| `EventLog.OnlyFillsNullsCount` | Data_Imputation.py:39-40 | filling missing ids row-wise never raises the number of missing ids |
| `SessionFill.FilledOnlyFillsNulls` | Data_Imputation.py:37-40 | the scan writes only the session field, and only where it was missing |
| `SessionFill.FilledAt` | Data_Imputation.py:37-40 | row 0 never changes; a missing id that continues its predecessor equals the predecessor's final value; one that does not stays missing |
| `SessionFill.LastKnownSpec` | Data_Imputation.py:34 | forward fill gives row t the id of the last row up to t that has one, and none if no row up to t has one |
| `SessionFill.ForwardFillIsFilled` | Data_Imputation.py:33-34 | forward fill equals the scan with every condition true |
| `SessionFill.FilledIdempotent` | Data_Imputation.py:37-40 | scanning the scan's output changes nothing |
| `SessionFill.FilledCounts` | Data_Imputation.py:39-41 | known ids never decrease in number, and grow by at most the number of assignments counted |
| `SessionFill.FillInPlace` | Data_Imputation.py:37-41 | the in-place loop leaves the array equal to `Filled` of its old contents and returns the number of assignments |
| `SessionFill.ForwardFillInPlace` | Data_Imputation.py:34 | the column assignment leaves the array equal to the forward fill of its old contents |
| `Imputation.ImputeGroupInPlace` | Data_Imputation.py:32-41 | the group rewrite in place, with the skip rule; returns the group's share of `count_input`, which is zero under forward fill |
| `Imputation.Impute` | Data_Imputation.py:25-51 | the loop over cases returns the concatenated rewritten groups and the final `count_input`, on a non-empty log |
| `Imputation.ImputeGroupOnlyFillsNulls` | Data_Imputation.py:32-40 | a group rewrite only fills missing session ids and keeps every other field |
| `Imputation.ImputeGroupSkips` | Data_Imputation.py:32 | a group with at most one missing id is returned unchanged |
| `Imputation.ImputeGroupInfinite` | Data_Imputation.py:33-34 | under an infinite threshold a rewritten group is its forward fill, which equals the scan with every condition true |
| `Imputation.ImputeGroupIdempotent` | Data_Imputation.py:32-40 | rewriting a group twice equals rewriting it once |
| `Imputation.ImputeGroupCounts` | Data_Imputation.py:39-41 | under a finite threshold known ids grow by at least zero and at most the group's count |
| `Imputation.ImputedIsRegrouped` | Data_Imputation.py:25-48 | the output is the input regrouped in first-appearance order of cases, as a permutation, with only missing ids filled |
| `Imputation.ImputedNonNullGrows` | Data_Imputation.py:25-48 | the output has as many rows as the input and at least as many known session ids |
| `Imputation.ImputedCaseView` | Data_Imputation.py:29-48 | the rows of each case in the output are that case's input group, rewritten |
| `Imputation.ImputedSkips` | Data_Imputation.py:32-48 | a case with at most one missing id appears in the output exactly as in the input |
| `Imputation.CasesOfImputed` | Data_Imputation.py:44-48 | the output lists its cases in the same order as the input |
| `Imputation.ImputedIdempotent` | Data_Imputation.py:25-48 | imputing the output again gives the output |
| `Imputation.DropUnresolved` | Data_Imputation.py:63 | the filtered log keeps exactly the rows with a known session id, and only input rows (their order is fixed by `DropUnresolvedAppend`) |
| `Scenarios.ShortGapFillsLongGapDoesNot` | Data_Imputation.py:37-40 | a 5-minute gap continues the session and a 20-minute gap before an ordinary event does not |
| `Scenarios.ContinuingEventIgnoresGap` | Data_Imputation.py:28-40 | a `Question` event continues the session across a 20-minute gap |
| `Scenarios.ChainOfThree` | Data_Imputation.py:37-40 | three missing ids with short gaps all inherit the preceding id |
| `Scenarios.SingleMissingIdSkipped` | Data_Imputation.py:32 | a group with one missing id is not touched, under either threshold |
| `Scenarios.LeadingNullsAreCountedButStayNull` | Data_Imputation.py:39-41 | leading missing ids stay missing, yet the assignment is counted |

Two consequences of the code that the scenarios show:

- A qualifying row is counted at line 41 even when the value it copies is itself missing. So `count_input` can grow while the number of known ids stays the same (`Scenarios.LeadingNullsAreCountedButStayNull`).
- Line 32 skips a group with a single missing id. So the gap and continuing-event scenarios use groups with two missing ids.

## Left out

- Reading and writing the CSV files and the `pd.to_datetime` parsing (lines 55-57, 62, 64). These are file I/O and library parsing. Timestamps come in as integer seconds.
- The `event_time_min` column (line 58). It is a floating-point value computed outside the function and only passed through.
- The `print` calls (lines 42, 49-50). They are output only.
- Fractional thresholds and sub-second gaps. `time_Session_min` is a whole number of minutes or infinite, and `total_seconds() / 60` becomes exact integer arithmetic.
- Pandas chained-assignment semantics of `temp_df['sessionid'].iloc[t] = ...` (line 40). The write is taken to reach the group.
- Rows whose `case` is NaN. `df['case'] == user` drops these rows. Case ids here are plain strings.
- Missing columns and unparseable timestamps. The record type always has every field.
- The index labels of the data frame. `pd.concat` (line 48) keeps each row's original index in `df_ans`. A `Row` has no index, so the model keeps order and contents only.
- The `control` flag (lines 26, 44-47) is not a separate variable. The result starts empty and every group is appended. Given the non-empty requirement on `Impute`, this is the same.
- Imputation.ImputeGroupCounts: the bound on the growth of known ids is stated for a finite threshold only. Under forward fill the counter does not move (`GroupCount` is zero) while ids are still filled.
