/** What one call of the relative-numeric comparison decides: for each
    obtained column in order, look up the expected column, reject a
    self-contradictory directional policy on floating columns, flag the rows
    that fail, and gather the flagged rows of every column into one report. */
module Comparison {
  import opened Tables
  import opened Messages

  /** The directional policy kept on the fixture: a comparison operator and a
      signed bound that shifts the expected value. */
  datatype Policy = Policy(compareOperator: string, maxAbsoluteDiff: real)

  /** The policies the fixture accepts: `<=` with a non-negative bound, or
      `>=` with a non-positive one. */
  predicate Coherent(p: Policy)
  {
    || (p.compareOperator == "<=" && p.maxAbsoluteDiff >= 0.0)
    || (p.compareOperator == ">=" && p.maxAbsoluteDiff <= 0.0)
  }

  /** The guard in the floating branch: the message it raises, if any. */
  function PolicyProblem(p: Policy): (r: Option<string>)
    ensures r.None? <==> Coherent(p)
    ensures p.compareOperator == "<=" && r.Some? ==> r.value == LessEqualNegative
    ensures p.compareOperator == ">=" && r.Some? ==> r.value == GreaterEqualPositive
    ensures p.compareOperator != "<=" && p.compareOperator != ">=" ==>
      r == Some(UnknownOperator + p.compareOperator)
  {
    if p.compareOperator == "<=" then
      if p.maxAbsoluteDiff < 0.0 then Some(LessEqualNegative) else None
    else if p.compareOperator == ">=" then
      if p.maxAbsoluteDiff > 0.0 then Some(GreaterEqualPositive) else None
    else
      Some(UnknownOperator + p.compareOperator)
  }

  /** Reference meaning of the directional policy for one pair of floats:
      the obtained value is on the allowed side of the expected value shifted
      by the bound; a NaN on either side never is. */
  predicate WithinBound(p: Policy, obtained: Option<real>, expected: Option<real>)
  {
    && obtained.Some? && expected.Some?
    && if p.compareOperator == "<="
       then obtained.value <= expected.value + p.maxAbsoluteDiff
       else obtained.value >= expected.value + p.maxAbsoluteDiff
  }

  // Elementwise floating arithmetic with NaN (`None`) as the array library
  // has it: NaN absorbs addition and makes every comparison false.

  function AddBound(x: Option<real>, d: real): Option<real>
  {
    match x
    case None => None
    case Some(v) => Some(v + d)
  }

  predicate LessEqual(x: Option<real>, y: Option<real>)
  {
    match (x, y)
    case (Some(a), Some(b)) => a <= b
    case _ => false
  }

  predicate GreaterEqual(x: Option<real>, y: Option<real>)
  {
    match (x, y)
    case (Some(a), Some(b)) => a >= b
    case _ => false
  }

  /** `~less_equal(obtained, expected + d)`. */
  function NotLessEqualMask(obtained: seq<Option<real>>, expected: seq<Option<real>>, d: real): (mask: seq<bool>)
    requires |obtained| == |expected|
    ensures |mask| == |obtained|
    ensures forall i :: 0 <= i < |mask| ==>
      mask[i] == !WithinBound(Policy("<=", d), obtained[i], expected[i])
  {
    seq(|obtained|, i requires 0 <= i < |obtained| => !LessEqual(obtained[i], AddBound(expected[i], d)))
  }

  /** `~greater_equal(obtained, expected + d)`. */
  function NotGreaterEqualMask(obtained: seq<Option<real>>, expected: seq<Option<real>>, d: real): (mask: seq<bool>)
    requires |obtained| == |expected|
    ensures |mask| == |obtained|
    ensures forall i :: 0 <= i < |mask| ==>
      mask[i] == !WithinBound(Policy(">=", d), obtained[i], expected[i])
  {
    seq(|obtained|, i requires 0 <= i < |obtained| => !GreaterEqual(obtained[i], AddBound(expected[i], d)))
  }

  /** The columns can be compared at all: same kind and same number of rows
      (the parent fixture's type and shape checks). */
  predicate Compatible(obtained: Values, expected: Values)
  {
    obtained.SameKind(expected) && obtained.Length() == expected.Length()
  }

  /** Elementwise `!=` as the array library computes it, where a NaN differs
      from everything, itself included. */
  predicate RawDiffers(obtained: Values, expected: Values, i: nat)
    requires Compatible(obtained, expected) && i < obtained.Length()
  {
    match obtained
    case Floats(o) => o[i].None? || expected.floats[i].None? || o[i].value != expected.floats[i].value
    case Ints(o) => o[i] != expected.ints[i]
    case Bools(o) => o[i] != expected.bools[i]
    case Objects(o) => o[i].None? || expected.objects[i].None? || o[i].value != expected.objects[i].value
  }

  /** The exact-equality mask: raw inequality, then cleared wherever both
      sides are missing. Missing equals missing, and nothing else is
      tolerated. */
  function ExactMask(obtained: Values, expected: Values): (mask: seq<bool>)
    requires Compatible(obtained, expected)
    ensures |mask| == obtained.Length()
    ensures forall i :: 0 <= i < |mask| ==> mask[i] == (obtained.At(i) != expected.At(i))
  {
    seq(obtained.Length(), i requires 0 <= i < obtained.Length() =>
      RawDiffers(obtained, expected, i) && !(obtained.IsMissing(i) && expected.IsMissing(i)))
  }

  /** Reference meaning of a flagged row: a float row outside the directional
      bound, or a row of any other kind whose two entries differ. */
  predicate NotClose(p: Policy, obtained: Values, expected: Values, i: nat)
    requires Compatible(obtained, expected) && i < obtained.Length()
  {
    if obtained.Floats?
    then !WithinBound(p, obtained.floats[i], expected.floats[i])
    else obtained.At(i) != expected.At(i)
  }

  /** The not-close mask of a column pair. */
  function Mask(p: Policy, obtained: Values, expected: Values): (mask: seq<bool>)
    requires Compatible(obtained, expected)
    requires obtained.Floats? ==> Coherent(p)
    ensures |mask| == obtained.Length()
    ensures forall i :: 0 <= i < |mask| ==> mask[i] == NotClose(p, obtained, expected, i)
  {
    match obtained
    case Floats(o) =>
      if p.compareOperator == "<="
      then NotLessEqualMask(o, expected.floats, p.maxAbsoluteDiff)
      else NotGreaterEqualMask(o, expected.floats, p.maxAbsoluteDiff)
    case _ => ExactMask(obtained, expected)
  }

  /** The positions below `n` of the true entries, in increasing order;
      `where(mask)` is `Where(mask, |mask|)`. */
  function Where(mask: seq<bool>, n: nat): (ids: seq<nat>)
    requires n <= |mask|
    ensures forall k :: 0 <= k < |ids| ==> ids[k] < n && mask[ids[k]]
    ensures forall k, l :: 0 <= k < l < |ids| ==> ids[k] < ids[l]
    ensures forall i :: 0 <= i < n && mask[i] ==> i in ids
  {
    if n == 0 then []
    else Where(mask, n - 1) + (if mask[n - 1] then [n - 1] else [])
  }

  /** The diff column of the report, for one row. */
  datatype Diff =
    | Xor(flag: bool)                 // boolean columns: exclusive or
    | Placeholder                     // object columns: "?"
    | IntGap(gap: nat)                // integer columns: |obtained - expected|
    | FloatGap(floatGap: Option<real>) // floating columns: |obtained - expected|, NaN if either is

  function Abs(x: real): real
  {
    if x < 0.0 then -x else x
  }

  function DiffAt(obtained: Values, expected: Values, i: nat): Diff
    requires Compatible(obtained, expected) && i < obtained.Length()
  {
    match obtained
    case Bools(o) => Xor(o[i] != expected.bools[i])
    case Objects(_) => Placeholder
    case Ints(o) =>
      var g := o[i] - expected.ints[i];
      IntGap(if g < 0 then -g else g)
    case Floats(o) =>
      var e := expected.floats[i];
      FloatGap(if o[i].Some? && e.Some? then Some(Abs(o[i].value - e.value)) else None)
  }

  /** The comparison table of one column: the flagged rows, the obtained and
      expected entries at them, and their diffs. */
  datatype ColumnReport = ColumnReport(
    name: string,
    indices: seq<nat>,
    obtained: Values,
    expected: Values,
    diffs: seq<Diff>)

  function Report(name: string, obtained: Values, expected: Values, mask: seq<bool>): (r: ColumnReport)
    requires Compatible(obtained, expected) && |mask| == obtained.Length()
    ensures r.name == name
    ensures r.obtained.SameKind(obtained) && r.expected.SameKind(expected)
    ensures r.obtained.Length() == r.expected.Length() == |r.diffs| == |r.indices|
    ensures forall k, l :: 0 <= k < l < |r.indices| ==> r.indices[k] < r.indices[l]
    ensures forall i :: 0 <= i < |mask| ==> (i in r.indices <==> mask[i])
    ensures forall k :: 0 <= k < |r.indices| ==>
      && r.indices[k] < obtained.Length()
      && r.obtained.At(k) == obtained.At(r.indices[k])
      && r.expected.At(k) == expected.At(r.indices[k])
      && r.diffs[k] == DiffAt(obtained, expected, r.indices[k])
  {
    var ids := Where(mask, |mask|);
    ColumnReport(name, ids, Select(obtained, ids), Select(expected, ids),
                 seq(|ids|, k requires 0 <= k < |ids| => DiffAt(obtained, expected, ids[k])))
  }

  /** How one call ends: success, one of the aborting failures, or the
      aggregate failure listing every column that differs. */
  datatype Outcome =
    | Pass
    | MissingKey(key: string, obtainedKeys: seq<string>, expectedKeys: seq<string>, message: string)
    | Incompatible(key: string)
    | InvalidPolicy(message: string)
    | Mismatch(reports: seq<ColumnReport>, objectWarning: bool)

  /** What happens at one obtained column. */
  datatype Verdict = Abort(failure: Outcome) | Clean | Flagged(report: ColumnReport)

  function Judge(c: Column, obtainedKeys: seq<string>, expected: Table, p: Policy): (v: Verdict)
    ensures v.Abort? ==> v.failure.MissingKey? || v.failure.Incompatible? || v.failure.InvalidPolicy?
    ensures v.Abort? && v.failure.InvalidPolicy? ==> c.values.Floats? && !Coherent(p)
    ensures v.Flagged? ==> v.report.name == c.name && |v.report.indices| > 0
  {
    match Lookup(expected, c.name)
    case None =>
      Abort(MissingKey(c.name, obtainedKeys, Names(expected),
                       MissingKeyMessage(c.name, obtainedKeys, Names(expected))))
    case Some(e) =>
      if !Compatible(c.values, e) then Abort(Incompatible(c.name))
      else if c.values.Floats? && PolicyProblem(p).Some? then Abort(InvalidPolicy(PolicyProblem(p).value))
      else
        var mask := Mask(p, c.values, e);
        if true in mask then
          var r := Report(c.name, c.values, e, mask);
          assert r.indices != [] by {
            var i :| 0 <= i < |mask| && mask[i];
            assert i in r.indices;
          }
          Flagged(r)
        else Clean
  }

  function Verdicts(obtained: Table, expected: Table, p: Policy): seq<Verdict>
  {
    seq(|obtained|, i requires 0 <= i < |obtained| => Judge(obtained[i], Names(obtained), expected, p))
  }

  /** The first column that aborts the call, if any. */
  function FirstAbort(vs: seq<Verdict>): (r: Option<nat>)
    ensures r.Some? ==> r.value < |vs| && vs[r.value].Abort?
    ensures r.Some? ==> forall i :: 0 <= i < r.value ==> !vs[i].Abort?
    ensures r.None? ==> forall i :: 0 <= i < |vs| ==> !vs[i].Abort?
  {
    if vs == [] then None
    else if vs[0].Abort? then Some(0)
    else
      match FirstAbort(vs[1..])
      case None => None
      case Some(j) => Some(j + 1)
  }

  /** The comparison tables of the flagged verdicts among the first `n`, in
      column order. */
  function FlaggedReports(vs: seq<Verdict>, n: nat): (r: seq<ColumnReport>)
    requires n <= |vs|
    ensures |r| <= n
    ensures r == [] <==> forall i :: 0 <= i < n ==> !vs[i].Flagged?
  {
    if n == 0 then []
    else FlaggedReports(vs, n - 1) + (if vs[n - 1].Flagged? then [vs[n - 1].report] else [])
  }

  /** The whole call: the first aborting column decides; otherwise the call
      passes when no column is flagged, and fails once with every flagged
      column's table. The object-kind warning follows the last obtained
      column, whichever columns were flagged. */
  function Compare(obtained: Table, expected: Table, p: Policy): Outcome
  {
    var vs := Verdicts(obtained, expected, p);
    match FirstAbort(vs)
    case Some(j) => vs[j].failure
    case None =>
      var reports := FlaggedReports(vs, |vs|);
      if reports == [] then Pass
      else Mismatch(reports, LastIsObjects(obtained))
  }

  /** The object-kind test on the last obtained column; false for no column. */
  function LastIsObjects(obtained: Table): bool
  {
    |obtained| > 0 && obtained[|obtained| - 1].values.Objects?
  }

  /** The rest of the column loop from column `i` on, given the tables
      gathered before it: the loop's own reading of the call. */
  function ScanFrom(obtained: Table, expected: Table, p: Policy, i: nat, tables: seq<ColumnReport>): Outcome
    requires i <= |obtained|
    decreases |obtained| - i
  {
    if i == |obtained| then
      if tables == [] then Pass else Mismatch(tables, LastIsObjects(obtained))
    else match Judge(obtained[i], Names(obtained), expected, p)
      case Abort(f) => f
      case Clean => ScanFrom(obtained, expected, p, i + 1, tables)
      case Flagged(r) => ScanFrom(obtained, expected, p, i + 1, tables + [r])
  }

  /** The same walk over precomputed verdicts. */
  function ScanVerdicts(vs: seq<Verdict>, i: nat, tables: seq<ColumnReport>, objectWarning: bool): Outcome
    requires i <= |vs|
    decreases |vs| - i
  {
    if i == |vs| then (if tables == [] then Pass else Mismatch(tables, objectWarning))
    else match vs[i]
      case Abort(f) => f
      case Clean => ScanVerdicts(vs, i + 1, tables, objectWarning)
      case Flagged(r) => ScanVerdicts(vs, i + 1, tables + [r], objectWarning)
  }

  /** Walking the columns is walking their verdicts. */
  lemma {:induction false} ScanFromVerdicts(obtained: Table, expected: Table, p: Policy, i: nat, tables: seq<ColumnReport>)
    requires i <= |obtained|
    ensures ScanFrom(obtained, expected, p, i, tables)
         == ScanVerdicts(Verdicts(obtained, expected, p), i, tables, LastIsObjects(obtained))
    decreases |obtained| - i
  {
    if i < |obtained| {
      var v := Judge(obtained[i], Names(obtained), expected, p);
      assert Verdicts(obtained, expected, p)[i] == v;
      if v.Clean? {
        ScanFromVerdicts(obtained, expected, p, i + 1, tables);
      } else if v.Flagged? {
        ScanFromVerdicts(obtained, expected, p, i + 1, tables + [v.report]);
      }
    }
  }

  /** Past a prefix with no abort, the walk ends as the first abort, or the
      gathered tables, decide. */
  lemma {:induction false} ScanVerdictsRest(vs: seq<Verdict>, i: nat, objectWarning: bool)
    requires i <= |vs|
    requires forall j :: 0 <= j < i ==> !vs[j].Abort?
    ensures ScanVerdicts(vs, i, FlaggedReports(vs, i), objectWarning)
         == match FirstAbort(vs)
            case Some(j) => vs[j].failure
            case None =>
              var reports := FlaggedReports(vs, |vs|);
              if reports == [] then Pass else Mismatch(reports, objectWarning)
    decreases |vs| - i
  {
    if i < |vs| && !vs[i].Abort? {
      var tables := FlaggedReports(vs, i);
      if vs[i].Flagged? {
        assert FlaggedReports(vs, i + 1) == tables + [vs[i].report];
      } else {
        assert FlaggedReports(vs, i + 1) == tables;
      }
      ScanVerdictsRest(vs, i + 1, objectWarning);
    }
  }

  /** Walking the columns one at a time, stopping at the first abort and
      gathering the flagged tables, computes the call's outcome. */
  lemma ScanComputesCompare(obtained: Table, expected: Table, p: Policy)
    ensures ScanFrom(obtained, expected, p, 0, []) == Compare(obtained, expected, p)
  {
    ScanFromVerdicts(obtained, expected, p, 0, []);
    ScanVerdictsRest(Verdicts(obtained, expected, p), 0, LastIsObjects(obtained));
  }

  // ---------------------------------------------------------------------
  // Properties of the comparison.

  /** The failure of the first aborting column is the outcome of the call,
      whatever the later columns hold. */
  lemma CompareStopsAtFirstAbort(obtained: Table, expected: Table, p: Policy, j: nat)
    requires j < |obtained|
    requires Judge(obtained[j], Names(obtained), expected, p).Abort?
    requires forall i :: 0 <= i < j ==> !Judge(obtained[i], Names(obtained), expected, p).Abort?
    ensures Compare(obtained, expected, p) == Judge(obtained[j], Names(obtained), expected, p).failure
  {
    var vs := Verdicts(obtained, expected, p);
    assert forall i :: 0 <= i <= j ==> vs[i] == Judge(obtained[i], Names(obtained), expected, p);
  }

  /** A column missing from the expected table aborts the call there, unless
      an earlier column aborted it first. The failure names that key and
      carries both tables' keys, and its message lists each of them and
      points to the regeneration option; no comparison table is produced. */
  lemma CompareMissingKey(obtained: Table, expected: Table, p: Policy, j: nat)
    requires j < |obtained| && obtained[j].name !in Names(expected)
    requires forall i :: 0 <= i < j ==> !Judge(obtained[i], Names(obtained), expected, p).Abort?
    ensures Compare(obtained, expected, p)
         == MissingKey(obtained[j].name, Names(obtained), Names(expected),
                       MissingKeyMessage(obtained[j].name, Names(obtained), Names(expected)))
    ensures var m := Compare(obtained, expected, p).message;
      && MissingKeyHeadline(obtained[j].name) <= m
      && (forall i :: 0 <= i < |obtained| ==> Contains(m, Quoted(obtained[i].name)))
      && (forall i :: 0 <= i < |expected| ==> Contains(m, Quoted(expected[i].name)))
      && Contains(m, "--force-regen")
  {
    CompareStopsAtFirstAbort(obtained, expected, p, j);
    MissingKeyMessageHeadline(obtained[j].name, Names(obtained), Names(expected));
    MissingKeyMessageListsKeys(obtained[j].name, Names(obtained), Names(expected));
    MissingKeyMessageForceRegen(obtained[j].name, Names(obtained), Names(expected));
    assert forall i :: 0 <= i < |obtained| ==> Names(obtained)[i] == obtained[i].name;
    assert forall i :: 0 <= i < |expected| ==> Names(expected)[i] == expected[i].name;
  }

  /** A floating column that is present and comparable, under a policy that is
      not coherent, aborts the call with the guard's message before any of its
      rows is looked at: the outcome depends on the policy alone. */
  lemma ComparePolicyGuard(obtained: Table, expected: Table, p: Policy, j: nat)
    requires j < |obtained| && obtained[j].values.Floats? && !Coherent(p)
    requires Lookup(expected, obtained[j].name).Some?
    requires Compatible(obtained[j].values, Lookup(expected, obtained[j].name).value)
    requires forall i :: 0 <= i < j ==> !Judge(obtained[i], Names(obtained), expected, p).Abort?
    ensures Compare(obtained, expected, p).InvalidPolicy?
    ensures Compare(obtained, expected, p).message
         == if p.compareOperator == "<=" then LessEqualNegative
            else if p.compareOperator == ">=" then GreaterEqualPositive
            else UnknownOperator + p.compareOperator
  {
    CompareStopsAtFirstAbort(obtained, expected, p, j);
  }

  /** The policy guard sits in the floating branch only: a table without
      floating columns never fails on the policy, whatever it is. */
  lemma NoFloatColumnNoPolicyFailure(obtained: Table, expected: Table, p: Policy)
    requires forall i :: 0 <= i < |obtained| ==> !obtained[i].values.Floats?
    ensures !Compare(obtained, expected, p).InvalidPolicy?
  {
    var vs := Verdicts(obtained, expected, p);
    match FirstAbort(vs)
    case None =>
    case Some(j) =>
      assert vs[j] == Judge(obtained[j], Names(obtained), expected, p);
  }

  /** Inside a column that gets past the guards, a row is flagged exactly when
      it is not close, and the column is clean exactly when no row is. */
  lemma JudgeFlagsNotCloseRows(c: Column, obtainedKeys: seq<string>, expected: Table, p: Policy)
    requires Lookup(expected, c.name).Some?
    requires Compatible(c.values, Lookup(expected, c.name).value)
    requires c.values.Floats? ==> Coherent(p)
    ensures var e := Lookup(expected, c.name).value;
      Judge(c, obtainedKeys, expected, p) == Clean
      <==> forall i :: 0 <= i < c.values.Length() ==> !NotClose(p, c.values, e, i)
    ensures var e := Lookup(expected, c.name).value;
      var v := Judge(c, obtainedKeys, expected, p);
      v.Flagged? ==>
        && v.report == Report(c.name, c.values, e, Mask(p, c.values, e))
        && forall i :: 0 <= i < c.values.Length() ==> (i in v.report.indices <==> NotClose(p, c.values, e, i))
    ensures !Judge(c, obtainedKeys, expected, p).Abort?
  {
    var e := Lookup(expected, c.name).value;
    var mask := Mask(p, c.values, e);
    if true in mask {
      var i :| 0 <= i < |mask| && mask[i];
      assert NotClose(p, c.values, e, i);
    } else {
      forall i | 0 <= i < c.values.Length() ensures !NotClose(p, c.values, e, i) {
        assert mask[i] == NotClose(p, c.values, e, i);
      }
    }
  }

  /** The call passes exactly when every column is clean. */
  lemma ComparePassIff(obtained: Table, expected: Table, p: Policy)
    ensures Compare(obtained, expected, p) == Pass
        <==> forall i :: 0 <= i < |obtained| ==> Judge(obtained[i], Names(obtained), expected, p) == Clean
  {
    var vs := Verdicts(obtained, expected, p);
    assert forall i :: 0 <= i < |obtained| ==> vs[i] == Judge(obtained[i], Names(obtained), expected, p);
    if Compare(obtained, expected, p) == Pass {
      match FirstAbort(vs)
      case Some(j) =>
      case None =>
        assert FlaggedReports(vs, |vs|) == [];
    }
  }

  /** The flags of a list of verdicts. */
  function FlaggedMask(vs: seq<Verdict>): seq<bool>
  {
    seq(|vs|, i requires 0 <= i < |vs| => vs[i].Flagged?)
  }

  /** The gathered tables are those of the flagged columns, in column order. */
  lemma {:induction false} FlaggedReportsInOrder(vs: seq<Verdict>, n: nat)
    requires n <= |vs|
    ensures var pos := Where(FlaggedMask(vs), n);
      && |FlaggedReports(vs, n)| == |pos|
      && forall k :: 0 <= k < |pos| ==> vs[pos[k]].Flagged? && FlaggedReports(vs, n)[k] == vs[pos[k]].report
  {
    if n > 0 {
      FlaggedReportsInOrder(vs, n - 1);
      var mask := FlaggedMask(vs);
      assert mask[n - 1] == vs[n - 1].Flagged?;
      var pos := Where(mask, n);
      var front := Where(mask, n - 1);
      assert pos == front + (if vs[n - 1].Flagged? then [n - 1] else []);
      forall k | 0 <= k < |pos|
        ensures vs[pos[k]].Flagged? && FlaggedReports(vs, n)[k] == vs[pos[k]].report
      {
        if k < |front| {
          assert pos[k] == front[k];
        }
      }
    }
  }

  /** The aggregate failure happens exactly when no column aborts and some
      column is flagged; it carries the flagged columns' tables in column
      order, and its warning flag is the kind test on the last obtained
      column. */
  lemma CompareMismatch(obtained: Table, expected: Table, p: Policy)
    ensures var vs := Verdicts(obtained, expected, p);
      Compare(obtained, expected, p).Mismatch?
      <==> (forall i :: 0 <= i < |vs| ==> !vs[i].Abort?) && (exists i :: 0 <= i < |vs| && vs[i].Flagged?)
    ensures var vs := Verdicts(obtained, expected, p);
      var r := Compare(obtained, expected, p);
      r.Mismatch? ==>
        var pos := Where(FlaggedMask(vs), |vs|);
        && |r.reports| == |pos|
        && (forall k :: 0 <= k < |pos| ==>
              vs[pos[k]].Flagged? && r.reports[k] == vs[pos[k]].report
              && r.reports[k].name == obtained[pos[k]].name)
        && r.objectWarning == obtained[|obtained| - 1].values.Objects?
  {
    var vs := Verdicts(obtained, expected, p);
    FlaggedReportsInOrder(vs, |vs|);
    match FirstAbort(vs)
    case Some(j) =>
      assert vs[j] == Judge(obtained[j], Names(obtained), expected, p);
    case None =>
  }

  // ---------------------------------------------------------------------
  // The text of the aggregate failure. How one comparison table is laid out
  // is the data frame library's business and is passed in as `render`.

  /** One column's section: its name, then its table. */
  function ReportSection(r: ColumnReport, render: ColumnReport -> string): string
  {
    r.name + ":\n" + render(r) + "\n\n"
  }

  /** The sections of the first `n` reports, one after another. */
  function ReportsText(reports: seq<ColumnReport>, n: nat, render: ColumnReport -> string): string
    requires n <= |reports|
  {
    if n == 0 then "" else ReportsText(reports, n - 1, render) + ReportSection(reports[n - 1], render)
  }

  function MismatchText(reports: seq<ColumnReport>, objectWarning: bool, render: ColumnReport -> string): string
  {
    MismatchHeader + ReportsText(reports, |reports|, render) + (if objectWarning then ObjectDiffWarning else "")
  }

  /** The sections of fewer reports are a prefix of those of more. */
  lemma {:induction false} ReportsTextPrefix(reports: seq<ColumnReport>, k: nat, n: nat, render: ColumnReport -> string)
    requires k <= n <= |reports|
    ensures ReportsText(reports, k, render) <= ReportsText(reports, n, render)
  {
    if k < n {
      ReportsTextPrefix(reports, k, n - 1, render);
    }
  }

  /** A prefix stays a prefix behind a common head and before any tail. */
  lemma PrefixBetween(head: string, x: string, y: string, tail: string)
    requires x <= y
    ensures head + x <= head + y + tail
  {
    assert (head + y + tail)[..|head + x|] == head + x;
  }

  /** Behind any head and before any tail, the sections appear in report
      order. */
  lemma SectionInOrder(head: string, reports: seq<ColumnReport>, tail: string, render: ColumnReport -> string, k: nat)
    requires k < |reports|
    ensures head + ReportsText(reports, k, render) + ReportSection(reports[k], render)
            <= head + ReportsText(reports, |reports|, render) + tail
  {
    var before := ReportsText(reports, k, render);
    var section := ReportSection(reports[k], render);
    ReportsTextPrefix(reports, k + 1, |reports|, render);
    PrefixBetween(head, before + section, ReportsText(reports, |reports|, render), tail);
    assert head + before + section == head + (before + section);
  }

  lemma AppendNothing(s: string)
    ensures s + "" == s
  {
  }

  /** The aggregate failure's text opens with the header. */
  lemma MismatchTextHeader(reports: seq<ColumnReport>, objectWarning: bool, render: ColumnReport -> string)
    ensures MismatchHeader <= MismatchText(reports, objectWarning, render)
  {
    var tail := if objectWarning then ObjectDiffWarning else "";
    PrefixBetween(MismatchHeader, "", ReportsText(reports, |reports|, render), tail);
  }

  /** After the header, the text holds each column's section in report
      order. */
  lemma MismatchTextSections(reports: seq<ColumnReport>, objectWarning: bool, render: ColumnReport -> string)
    ensures forall k :: 0 <= k < |reports| ==>
      MismatchHeader + ReportsText(reports, k, render) + ReportSection(reports[k], render)
      <= MismatchText(reports, objectWarning, render)
  {
    var tail := if objectWarning then ObjectDiffWarning else "";
    forall k | 0 <= k < |reports|
      ensures MismatchHeader + ReportsText(reports, k, render) + ReportSection(reports[k], render)
              <= MismatchText(reports, objectWarning, render)
    {
      SectionInOrder(MismatchHeader, reports, tail, render, k);
    }
  }

  /** After the last section comes the object-kind warning when the flag is
      set, and nothing when it is not. */
  lemma MismatchTextWarning(reports: seq<ColumnReport>, objectWarning: bool, render: ColumnReport -> string)
    ensures objectWarning ==>
      MismatchText(reports, objectWarning, render)
      == MismatchHeader + ReportsText(reports, |reports|, render) + ObjectDiffWarning
    ensures !objectWarning ==>
      MismatchText(reports, objectWarning, render) == MismatchHeader + ReportsText(reports, |reports|, render)
  {
    AppendNothing(MismatchHeader + ReportsText(reports, |reports|, render));
  }
}
