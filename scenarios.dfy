/** The fixture's documented uses, and general consequences of the policy,
    stated over the model of the comparison. */
module Scenarios {
  import opened Tables
  import opened Comparison

  /** A floating column of `n` equal entries, as `x * np.ones(n)` gives. */
  function Constant(x: real, n: nat): (v: Values)
    ensures v.Floats? && v.Length() == n
    ensures forall i :: 0 <= i < n ==> v.floats[i] == Some(x)
  {
    Floats(seq(n, i => Some(x)))
  }

  /** The snapshot of the documented example: `data1` at 1.1, `data2` at 2.2. */
  function Baseline(n: nat): Table
  {
    [Column("data1", Constant(1.1, n)), Column("data2", Constant(2.2, n))]
  }

  lemma BaselineLookups(n: nat)
    ensures Lookup(Baseline(n), "data1") == Some(Constant(1.1, n))
    ensures Lookup(Baseline(n), "data2") == Some(Constant(2.2, n))
  {
    assert "data1"[4] != "data2"[4];
    LookupOwnName(Baseline(n), 0);
    LookupOwnName(Baseline(n), 1);
  }

  /** Two floating columns, each matched in the snapshot by a comparable
      column whose entries all lie within the policy: the call passes. */
  lemma TwoConstantColumnsPass(obtained: Table, expected: Table, p: Policy)
    requires Coherent(p) && |obtained| == 2
    requires forall j :: 0 <= j < 2 ==>
      && obtained[j].values.Floats?
      && Lookup(expected, obtained[j].name).Some?
      && Compatible(obtained[j].values, Lookup(expected, obtained[j].name).value)
      && forall i :: 0 <= i < obtained[j].values.Length() ==>
           WithinBound(p, obtained[j].values.floats[i], Lookup(expected, obtained[j].name).value.floats[i])
    ensures Compare(obtained, expected, p) == Pass
  {
    forall j | 0 <= j < 2
      ensures Judge(obtained[j], Names(obtained), expected, p) == Clean
    {
      JudgeFlagsNotCloseRows(obtained[j], Names(obtained), expected, p);
    }
    ComparePassIff(obtained, expected, p);
  }

  /** The documented example under `>=` with bound -0.1: 2.5 against 1.1 and
      2.1 against 2.2, the latter exactly on the boundary, pass. */
  lemma GreaterEqualExamplePasses(n: nat)
    ensures Compare([Column("data1", Constant(2.5, n)), Column("data2", Constant(2.1, n))],
                    Baseline(n), Policy(">=", -0.1)) == Pass
  {
    var obtained := [Column("data1", Constant(2.5, n)), Column("data2", Constant(2.1, n))];
    BaselineLookups(n);
    TwoConstantColumnsPass(obtained, Baseline(n), Policy(">=", -0.1));
  }

  /** The documented example under `<=` with bound 0.5: 0.6 against 1.1 and
      2.7 against 2.2, the latter exactly on the boundary, pass. */
  lemma LessEqualExamplePasses(n: nat)
    ensures Compare([Column("data1", Constant(0.6, n)), Column("data2", Constant(2.7, n))],
                    Baseline(n), Policy("<=", 0.5)) == Pass
  {
    var obtained := [Column("data1", Constant(0.6, n)), Column("data2", Constant(2.7, n))];
    BaselineLookups(n);
    TwoConstantColumnsPass(obtained, Baseline(n), Policy("<=", 0.5));
  }

  /** 2.5 against a snapshot of 3.1 under `>=` with bound -0.1 fails, and
      every row of the column is in its comparison table. */
  lemma BelowBoundFails(n: nat)
    requires n > 0
    ensures var r := Compare([Column("x", Constant(2.5, n))], [Column("x", Constant(3.1, n))], Policy(">=", -0.1));
      && r.Mismatch? && |r.reports| == 1 && r.reports[0].name == "x"
      && (forall i :: 0 <= i < n ==> i in r.reports[0].indices)
      && !r.objectWarning
  {
    var obtained := [Column("x", Constant(2.5, n))];
    var e := Constant(3.1, n);
    var expected := [Column("x", e)];
    var p := Policy(">=", -0.1);
    assert Lookup(expected, "x") == Some(e);
    JudgeFlagsNotCloseRows(obtained[0], Names(obtained), expected, p);
    var v := Judge(obtained[0], Names(obtained), expected, p);
    assert NotClose(p, obtained[0].values, e, 0);
    assert v.Flagged?;
    forall i | 0 <= i < n ensures i in v.report.indices {
      assert NotClose(p, obtained[0].values, e, i);
    }
    var vs := Verdicts(obtained, expected, p);
    assert vs == [v];
    assert FlaggedReports(vs, 1) == [v.report];
  }

  /** 0.6 against a snapshot of 0.1 under `<=` with bound 0.5, exactly on the
      boundary, passes. */
  lemma OnBoundPasses(n: nat)
    ensures Compare([Column("x", Constant(0.6, n))], [Column("x", Constant(0.1, n))], Policy("<=", 0.5)) == Pass
  {
    var obtained := [Column("x", Constant(0.6, n))];
    var expected := [Column("x", Constant(0.1, n))];
    var p := Policy("<=", 0.5);
    assert Lookup(expected, "x") == Some(Constant(0.1, n));
    JudgeFlagsNotCloseRows(obtained[0], Names(obtained), expected, p);
    ComparePassIff(obtained, expected, p);
  }

  /** A positive bound with `>=` is refused at the first floating column,
      whatever its entries are. */
  lemma PositiveBoundWithGreaterEqualRefused(o: seq<Option<real>>, e: seq<Option<real>>)
    requires |o| == |e|
    ensures Compare([Column("x", Floats(o))], [Column("x", Floats(e))], Policy(">=", 0.1))
         == InvalidPolicy(Messages.GreaterEqualPositive)
  {
    var obtained := [Column("x", Floats(o))];
    var expected := [Column("x", Floats(e))];
    assert Lookup(expected, "x") == Some(Floats(e));
    ComparePolicyGuard(obtained, expected, Policy(">=", 0.1), 0);
  }

  /** Comparing a table with itself under an accepted policy passes, provided
      no floating entry is NaN (NaN never satisfies the bound). */
  lemma SelfComparisonPasses(t: Table, p: Policy)
    requires DistinctNames(t) && Coherent(p)
    requires forall j, i :: 0 <= j < |t| && t[j].values.Floats? && 0 <= i < |t[j].values.floats| ==>
      t[j].values.floats[i].Some?
    ensures Compare(t, t, p) == Pass
  {
    forall j | 0 <= j < |t|
      ensures Judge(t[j], Names(t), t, p) == Clean
    {
      LookupOwnName(t, j);
      var v := t[j].values;
      forall i | 0 <= i < v.Length() ensures !NotClose(p, v, v, i) {
        if v.Floats? {
          assert v.floats[i].Some?;
        }
      }
      JudgeFlagsNotCloseRows(t[j], Names(t), t, p);
    }
    ComparePassIff(t, t, p);
  }

  /** The default policy is accepted and asks of every floating row that the
      obtained value not be below the expected one. */
  lemma DefaultPolicy(o: Option<real>, e: Option<real>)
    ensures Coherent(Policy(">=", 0.0))
    ensures WithinBound(Policy(">=", 0.0), o, e) <==> o.Some? && e.Some? && o.value >= e.value
  {
  }

  /** An entry exactly on the shifted bound passes under either operator, and
      a NaN on either side never does. */
  lemma BoundaryAndNaN(p: Policy, x: real, y: Option<real>)
    ensures WithinBound(p, Some(x + p.maxAbsoluteDiff), Some(x))
    ensures !WithinBound(p, None, y) && !WithinBound(p, y, None)
  {
  }

  /** In a column of any other kind, two missing entries are equal, and a
      missing entry differs from a present one. */
  lemma MissingMatchesOnlyMissing(p: Policy, o: Values, e: Values, i: nat)
    requires Compatible(o, e) && !o.Floats? && i < o.Length()
    ensures o.IsMissing(i) && e.IsMissing(i) ==> !NotClose(p, o, e, i)
    ensures o.IsMissing(i) != e.IsMissing(i) ==> NotClose(p, o, e, i)
  {
  }
}
