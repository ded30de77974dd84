/** The relative-numeric regression fixture: `check` stores the directional
    policy on the fixture, and the comparison step walks the obtained columns
    one by one, aborting on the first structural failure and collecting a
    comparison table for every column with flagged rows. */
module NumRelativeRegression {
  import opened Tables
  import opened Messages
  import opened Comparison

  /** Appends one line of the missing-key message: the heading, each key
      quoted in turn, and the closing bracket. */
  method AppendKeysLine(msg0: string, heading: string, keys: seq<string>) returns (msg: string)
    ensures msg == msg0 + KeysLine(heading, keys)
  {
    msg := msg0 + heading;
    var i := 0;
    while i < |keys|
      invariant 0 <= i <= |keys|
      invariant msg == msg0 + heading + KeyList(keys[..i])
    {
      assert keys[..i + 1][..i] == keys[..i];
      msg := msg + Quoted(keys[i]);
      i := i + 1;
    }
    assert keys[..i] == keys;
    msg := msg + "]\n";
  }

  /** Builds the missing-key message piece by piece, as the fixture does. */
  method DescribeMissingKey(k: string, obtainedKeys: seq<string>, expectedKeys: seq<string>) returns (msg: string)
    ensures msg == MissingKeyMessage(k, obtainedKeys, expectedKeys)
  {
    msg := MissingKeyHeadline(k);
    msg := AppendKeysLine(msg, ObtainedKeysLabel, obtainedKeys);
    msg := AppendKeysLine(msg, ExpectedKeysLabel, expectedKeys);
    msg := msg + ForceRegenHint + "\n";
  }

  /** Builds the aggregate failure's text piece by piece: the header, one
      section per comparison table, and the warning when the last column
      compared was of object kind. */
  method DescribeMismatch(reports: seq<ColumnReport>, objectWarning: bool, render: ColumnReport -> string)
    returns (msg: string)
    ensures msg == MismatchText(reports, objectWarning, render)
  {
    msg := MismatchHeader;
    var i := 0;
    while i < |reports|
      invariant 0 <= i <= |reports|
      invariant msg == MismatchHeader + ReportsText(reports, i, render)
    {
      msg := msg + ReportSection(reports[i], render);
      i := i + 1;
    }
    if objectWarning {
      msg := msg + ObjectDiffWarning;
    } else {
      AppendNothing(msg);
    }
  }

  /** Clears, in place, the mask entries where both sides are missing. */
  method ClearBothMissing(mask: array<bool>, obtained: Values, expected: Values)
    requires Compatible(obtained, expected) && mask.Length == obtained.Length()
    modifies mask
    ensures forall i :: 0 <= i < mask.Length ==>
      mask[i] == (old(mask[i]) && !(obtained.IsMissing(i) && expected.IsMissing(i)))
  {
    var i := 0;
    while i < mask.Length
      invariant 0 <= i <= mask.Length
      invariant forall j :: 0 <= j < i ==>
        mask[j] == (old(mask[j]) && !(obtained.IsMissing(j) && expected.IsMissing(j)))
      invariant forall j :: i <= j < mask.Length ==> mask[j] == old(mask[j])
    {
      if obtained.IsMissing(i) && expected.IsMissing(i) {
        mask[i] := false;
      }
      i := i + 1;
    }
  }

  class NumericRelativeRegressionFixture {
    var maxAbsoluteDiff: real
    var compareOperator: string

    /** Stores the policy, then runs the comparison of the data against the
        snapshot. The defaults demand `obtained >= expected` of every
        floating row. */
    method Check(data: Table, snapshot: Table, maxAbsoluteDiff: real := 0.0, compareOperator: string := ">=")
      returns (outcome: Outcome)
      modifies this
      ensures this.maxAbsoluteDiff == maxAbsoluteDiff && this.compareOperator == compareOperator
      ensures outcome == Compare(data, snapshot, Policy(compareOperator, maxAbsoluteDiff))
    {
      this.maxAbsoluteDiff := maxAbsoluteDiff;
      this.compareOperator := compareOperator;
      outcome := CheckFn(data, snapshot);
    }

    /** One pass of the comparison loop: the column's lookup, the parent's
        kind and shape checks, the policy guard, the not-close mask and, when
        some row is flagged, the column's comparison table. */
    method CompareColumn(c: Column, obtainedKeys: seq<string>, expected: Table) returns (v: Verdict)
      ensures v == Judge(c, obtainedKeys, expected, Policy(compareOperator, maxAbsoluteDiff))
    {
      var policy := Policy(compareOperator, maxAbsoluteDiff);
      var k := c.name;
      var column := c.values;
      var found := Lookup(expected, k);
      if found.None? {
        var msg := DescribeMissingKey(k, obtainedKeys, Names(expected));
        return Abort(MissingKey(k, obtainedKeys, Names(expected), msg));
      }
      var e := found.value;
      if !Compatible(column, e) {
        return Abort(Incompatible(k));
      }
      var notCloseMask: seq<bool>;
      if column.Floats? {
        if compareOperator == "<=" {
          if maxAbsoluteDiff < 0.0 {
            return Abort(InvalidPolicy(LessEqualNegative));
          }
          notCloseMask := NotLessEqualMask(column.floats, e.floats, maxAbsoluteDiff);
        } else if compareOperator == ">=" {
          if maxAbsoluteDiff > 0.0 {
            return Abort(InvalidPolicy(GreaterEqualPositive));
          }
          notCloseMask := NotGreaterEqualMask(column.floats, e.floats, maxAbsoluteDiff);
        } else {
          return Abort(InvalidPolicy(UnknownOperator + compareOperator));
        }
      } else {
        var n := column.Length();
        var m := new bool[n](j requires 0 <= j < n => RawDiffers(column, e, j));
        ClearBothMissing(m, column, e);
        notCloseMask := m[..];
        assert forall j :: 0 <= j < n ==> notCloseMask[j] == ExactMask(column, e)[j];
      }
      assert notCloseMask == Mask(policy, column, e);
      if true in notCloseMask {
        v := Flagged(Report(k, column, e, notCloseMask));
      } else {
        v := Clean;
      }
    }

    /** The comparison step under the stored policy: the columns in obtained
        order, stopping at the first that aborts, with the comparison tables
        of the flagged ones gathered into one failure. */
    method CheckFn(obtained: Table, expected: Table) returns (outcome: Outcome)
      ensures outcome == Compare(obtained, expected, Policy(compareOperator, maxAbsoluteDiff))
    {
      ghost var policy := Policy(compareOperator, maxAbsoluteDiff);
      ScanComputesCompare(obtained, expected, policy);
      var comparisonTables: seq<ColumnReport> := [];
      // Whether the column the loop last visited is of object kind.
      var lastColumnIsObjects := false;
      var i := 0;
      while i < |obtained|
        invariant 0 <= i <= |obtained|
        invariant lastColumnIsObjects == (i > 0 && obtained[i - 1].values.Objects?)
        invariant ScanFrom(obtained, expected, policy, i, comparisonTables) == Compare(obtained, expected, policy)
      {
        var v := CompareColumn(obtained[i], Names(obtained), expected);
        if v.Abort? {
          return v.failure;
        }
        if v.Flagged? {
          comparisonTables := comparisonTables + [v.report];
        }
        lastColumnIsObjects := obtained[i].values.Objects?;
        i := i + 1;
      }
      if |comparisonTables| > 0 {
        outcome := Mismatch(comparisonTables, lastColumnIsObjects);
      } else {
        outcome := Pass;
      }
    }
  }
}
