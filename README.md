# Relative-numeric regression fixture of pytest-regressions, in Dafny

This project models the directional comparison of
`NumericRelativeRegressionFixture` from pytest-regressions:
- `check` stores a comparison operator (`<=` or `>=`) and a signed bound `max_absolute_diff` on the fixture.
- The comparison step `_check_fn` then walks the columns of the freshly obtained table in order.
- Each column is looked up in the expected snapshot by name.

For each column, the comparison step does this:
- It aborts when the column is missing from the snapshot. The message lists both tables' keys and points to `--force-regen`.
- It aborts when the two columns differ in kind or length. This is the parent fixture's type and shape check.
- On a floating column, it first rejects a policy that makes no sense: `<=` with a negative bound, `>=` with a positive one, or any other operator.
- A floating row is flagged when `obtained <= expected + bound` (or `>=`) does not hold. A NaN on either side is always flagged.
- On any other kind of column, a row is flagged when the two entries differ. Two missing entries count as equal.

Every column with flagged rows contributes a comparison table:
- the flagged row positions, in increasing order;
- the entries on both sides at those positions;
- a diff per row: exclusive or for booleans, `?` for objects, and the absolute difference otherwise.

If any column was flagged, one aggregate failure carries all the tables in column order.

Module layout:
- `tables.dfy` (`Tables`): columns as kind-tagged value sequences, tables as ordered named columns, lookup by name, and selection of rows.
- `messages.dfy` (`Messages`): the exact failure texts, and what the missing-key message is guaranteed to mention.
- `comparison.dfy` (`Comparison`): the reference meaning of one call.
  - the policy and its guard;
  - the masks and the row selection;
  - one column's verdict (`Judge`) and the whole call's outcome (`Compare`);
  - the loop-shaped reading of the call (`ScanFrom`), proved equal to `Compare`;
  - the text of the aggregate failure.
- `fixture.dfy` (`NumRelativeRegression`): the fixture itself as a class.
  - Its two policy fields are set by `Check`.
  - `CheckFn` is the column loop. It gathers tables and tracks whether the last visited column holds objects.
  - `CompareColumn` is one round of the loop.
  - `ClearBothMissing` clears a boolean array in place.
  - `DescribeMissingKey` and `DescribeMismatch` build the failure texts by repeated concatenation.
  - Every method is proved against the functions of `Comparison` and `Messages`.
- `scenarios.dfy` (`Scenarios`): the documented uses and general consequences.
  - the two checks of the test and of the fixture's docstring;
  - a failing case and an on-the-boundary case;
  - the refused policy;
  - self-comparison;
  - the default policy;
  - NaN and missing entries.

The model follows the code on four points that are easy to misread:
- The code accepts `<=` only with a bound of at least zero, and `>=` only with a bound of at most zero.
- The object-kind warning is appended when the last obtained column holds objects (`obtained_column` after the loop). It is not tied to whether a reported column holds objects.
- The policy guard is reached only at a floating column that is present and comparable. An earlier missing key or kind mismatch wins, and a table with no floating column never fails on the policy.
- Comparing a table with itself passes only when no floating entry is NaN, because NaN fails every bound.

## Model

| member | source | states |
|---|---|---|
| Tables.Lookup | src/pytest_regressions/num_relative_regression.py:55-57 | `None` exactly when the expected table has no column of that name; otherwise the values of a column carrying that name |
| Tables.LookupOwnName | src/pytest_regressions/num_relative_regression.py:53-55 | in a table with distinct names, looking up a column's own name yields that column's values |
| Tables.Select | src/pytest_regressions/num_relative_regression.py:103-104 | indexing a column by row positions keeps its kind, has one entry per position, and entry k is the entry at position k |
| Messages.KeyListMentions | src/pytest_regressions/num_relative_regression.py:60-65 | every key of the list occurs, quoted, in the text the loop builds |
| Messages.MissingKeyMessageHeadline | src/pytest_regressions/num_relative_regression.py:58 | the missing-key message opens with the line naming the missing key |
| Messages.MissingKeyMessageListsKeys | src/pytest_regressions/num_relative_regression.py:59-66 | the missing-key message mentions every obtained key and every expected key, quoted |
| Messages.MissingKeyMessageForceRegen | src/pytest_regressions/num_relative_regression.py:67 | the missing-key message mentions `--force-regen` |
| Messages.MismatchHeaderMentionsForceRegen | src/pytest_regressions/num_relative_regression.py:120-121 | the aggregate failure's header mentions `--force-regen` |
| Comparison.PolicyProblem | src/pytest_regressions/num_relative_regression.py:76-91 | no problem exactly for `<=` with bound >= 0 or `>=` with bound <= 0; otherwise the exact message of the operator's branch, or the unknown-operator message followed by the operator |
| Comparison.NotLessEqualMask | src/pytest_regressions/num_relative_regression.py:79-82 | row i is flagged exactly when the obtained entry is not within `<=` of the expected entry plus the bound (NaN on either side is flagged) |
| Comparison.NotGreaterEqualMask | src/pytest_regressions/num_relative_regression.py:86-89 | row i is flagged exactly when the obtained entry is not within `>=` of the expected entry plus the bound (NaN on either side is flagged) |
| Comparison.ExactMask | src/pytest_regressions/num_relative_regression.py:93-99 | row i is flagged exactly when the two entries differ, two missing entries being equal |
| Comparison.Mask | src/pytest_regressions/num_relative_regression.py:75-99 | one flag per row, and a row's flag is the reference not-close predicate for the column's kind and the policy |
| Comparison.Where | src/pytest_regressions/num_relative_regression.py:102 | the positions returned are in range, flagged, strictly increasing, and include every flagged position |
| Comparison.Report | src/pytest_regressions/num_relative_regression.py:101-117 | a position is in the table exactly when flagged, positions increase, and row k holds both entries and the kind's diff at position k |
| Comparison.Judge | src/pytest_regressions/num_relative_regression.py:53-117 | a column only aborts with a missing key, a kind or length mismatch or a refused policy; a refused policy only on a floating column under a policy outside the accepted ones; a flagged column's table carries its name and at least one row |
| Comparison.FirstAbort | src/pytest_regressions/num_relative_regression.py:53-91 | the position found aborts and no earlier one does; no position means no column aborts |
| Comparison.FlaggedReports | src/pytest_regressions/num_relative_regression.py:117 | at most one table per column, and none exactly when no column is flagged |
| Comparison.ScanFromVerdicts | src/pytest_regressions/num_relative_regression.py:53-117 | walking the columns gives the same outcome as walking their verdicts |
| Comparison.ScanVerdictsRest | src/pytest_regressions/num_relative_regression.py:53-128 | after a prefix with no abort and its gathered tables, the walk ends in the first abort's failure, or else passes or fails with every flagged column's table |
| Comparison.ScanComputesCompare | src/pytest_regressions/num_relative_regression.py:52-128 | the column loop's outcome, which stops at the first abort and gathers tables, equals the reference outcome of the call |
| Comparison.CompareStopsAtFirstAbort | src/pytest_regressions/num_relative_regression.py:53-91 | the failure of the first aborting column is the outcome of the call, whatever the later columns hold |
| Comparison.CompareMissingKey | src/pytest_regressions/num_relative_regression.py:57-68 | a missing key (with no earlier abort) ends the call with that key, both key lists and the message; the message opens with that key, lists every key of both tables and mentions `--force-regen` |
| Comparison.ComparePolicyGuard | src/pytest_regressions/num_relative_regression.py:75-91 | a present, comparable floating column under a refused policy ends the call with the guard's message for that operator, whatever the rows hold |
| Comparison.NoFloatColumnNoPolicyFailure | src/pytest_regressions/num_relative_regression.py:75-92 | a table without floating columns never fails on the policy |
| Comparison.JudgeFlagsNotCloseRows | src/pytest_regressions/num_relative_regression.py:75-117 | for a column past the guards: clean exactly when no row is not-close; a flagged column's positions are exactly its not-close rows; it never aborts |
| Comparison.ComparePassIff | src/pytest_regressions/num_relative_regression.py:101-128 | the call passes exactly when every column is clean |
| Comparison.FlaggedReportsInOrder | src/pytest_regressions/num_relative_regression.py:117-123 | the gathered tables are the flagged columns' tables, one per flagged column, in column order |
| Comparison.CompareMismatch | src/pytest_regressions/num_relative_regression.py:119-128 | the aggregate failure happens exactly when no column aborts and some column is flagged; it carries the flagged columns' tables in column order under their names, and its warning flag is the object-kind test on the last obtained column |
| Comparison.MismatchTextHeader | src/pytest_regressions/num_relative_regression.py:120-121 | the aggregate failure's text opens with the header |
| Comparison.MismatchTextSections | src/pytest_regressions/num_relative_regression.py:122-123 | after the header, each column's section (name, table) appears in report order |
| Comparison.MismatchTextWarning | src/pytest_regressions/num_relative_regression.py:124-127 | the warning ends the text when the flag is set, and nothing follows the sections when it is not |
| NumRelativeRegression.AppendKeysLine | src/pytest_regressions/num_relative_regression.py:59-62 | the loop appends the heading, each key quoted, and the closing bracket |
| NumRelativeRegression.DescribeMissingKey | src/pytest_regressions/num_relative_regression.py:58-67 | the message built piece by piece is the missing-key message |
| NumRelativeRegression.DescribeMismatch | src/pytest_regressions/num_relative_regression.py:119-127 | the message built piece by piece is the aggregate failure's text |
| NumRelativeRegression.ClearBothMissing | src/pytest_regressions/num_relative_regression.py:95-99 | in place, an entry is cleared where both sides are missing and left as it was elsewhere |
| NumRelativeRegression.NumericRelativeRegressionFixture.Check | src/pytest_regressions/num_relative_regression.py:14-30 | the fixture stores the bound and the operator, defaulting to 0.0 and `>=`, and the call's outcome is the comparison under them |
| NumRelativeRegression.NumericRelativeRegressionFixture.CompareColumn | src/pytest_regressions/num_relative_regression.py:53-117 | one round of the loop (lookup, message, kind and length check, guard, in-place mask, table) yields the column's verdict under the stored policy |
| NumRelativeRegression.NumericRelativeRegressionFixture.CheckFn | src/pytest_regressions/num_relative_regression.py:33-128 | the column loop, returning at the first abort and gathering tables, yields the reference outcome of the call under the stored policy |
| Scenarios.GreaterEqualExamplePasses | tests/test_num_relative_regression.py:18-22 | against a snapshot of 1.1 and 2.2, obtained 2.5 and 2.1 under `>=` with bound -0.1 pass, for any number of rows |
| Scenarios.LessEqualExamplePasses | tests/test_num_relative_regression.py:23-27 | against a snapshot of 1.1 and 2.2, obtained 0.6 and 2.7 under `<=` with bound 0.5 pass, for any number of rows |
| Scenarios.BelowBoundFails | src/pytest_regressions/num_relative_regression.py:83-128 | 2.5 against 3.1 under `>=` with bound -0.1 fails once, with one table for the column holding every row, and no object warning |
| Scenarios.OnBoundPasses | src/pytest_regressions/num_relative_regression.py:76-82 | 0.6 against 0.1 under `<=` with bound 0.5, exactly on the boundary, passes |
| Scenarios.PositiveBoundWithGreaterEqualRefused | src/pytest_regressions/num_relative_regression.py:83-85 | `>=` with bound 0.1 is refused with its message, whatever the floating entries |
| Scenarios.SelfComparisonPasses | src/pytest_regressions/num_relative_regression.py:53-128 | a table with distinct names and no NaN, compared with itself under an accepted policy, passes |
| Scenarios.DefaultPolicy | src/pytest_regressions/num_relative_regression.py:23-24 | the default policy is accepted and asks `obtained >= expected` of every floating row |
| Scenarios.BoundaryAndNaN | src/pytest_regressions/num_relative_regression.py:79-89 | an entry exactly on the shifted bound passes, under either operator; a NaN on either side never does |
| Scenarios.MissingMatchesOnlyMissing | src/pytest_regressions/num_relative_regression.py:93-99 | outside floating columns, two missing entries are not flagged, and a missing entry against a present one is |

## Left out

- Reading the two tables from CSV files (`pd.read_csv`): the tables are inputs. A table read back from CSV has distinct column names; the model does not depend on that except in `SelfComparisonPasses`.
- The import checks for NumPy and pandas, the debug `print` and `__tracebackhide__`: no behaviour of the comparison depends on them.
- The lookup of `tolerance_args` (line 70): its result is never used, so absolute and relative tolerances have no effect in this fixture.
- Everything the parent fixture's `check` does around the comparison: file paths, regeneration, `data_index`, filling shape differences with NaN, and writing the obtained file. num_regression.py is not part of this model.
- The parent's `_check_data_types` and `_check_data_shapes` are modelled as a single failure `Incompatible(key)` raised when the kinds or the lengths differ. Their exact rules (such as which integer and floating kinds they let through together) and their messages are not modelled. Mixed integer and floating columns count as incompatible here.
- Floating point is modelled as real numbers with `None` for NaN. IEEE rounding is not modelled, so the boundary cases (2.2 - 0.1 against 2.1, and 2.2 + 0.5 against 2.7) hold exactly here although they need not in binary floating point. Infinities and 64-bit integer overflow in the absolute difference are not modelled.
- Complex floating columns, which NumPy counts as inexact, are not modelled.
- The text layout of a comparison table on the pandas side (`obtained_<k>`, `expected_<k>`, `diff` columns, the index) is a parameter, `render`, of the aggregate failure's text. `Outcome.Mismatch` carries the tables as structured data and the object-warning flag, not the text.
- The exception classes: every failure is an `AssertionError` in the code, and the model keeps the failures apart as the cases of `Outcome`.
