/** The texts of the fixture's failures, and what they are guaranteed to
    mention. */
module Messages {

  const ForceRegenHint := "To update values, use --force-regen option.\n"

  const LessEqualNegative :=
    "it makes no sense to use max_absolute value < 0 when using compare_operator <="

  const GreaterEqualPositive :=
    "it makes no sense to use max_absolute value > 0 when using compare_operator >="

  const UnknownOperator :=
    "only allowed values for compare_operator are <= or >=, you used: "

  /** First lines of the aggregate failure raised when some column differs. */
  const MismatchHeader := "Values are not sufficiently close.\n" + ForceRegenHint + "\n"

  /** Appended to the aggregate failure when the last column is of object kind. */
  const ObjectDiffWarning := "WARNING: diffs for this kind of data type cannot be computed."

  /** One key as the missing-key message lists it. */
  function Quoted(k: string): string
  {
    "'" + k + "', "
  }

  /** The keys listed one after another, each quoted and followed by a comma. */
  function KeyList(keys: seq<string>): string
  {
    if keys == [] then "" else KeyList(keys[..|keys| - 1]) + Quoted(keys[|keys| - 1])
  }

  function MissingKeyHeadline(k: string): string
  {
    "Could not find key '" + k + "' in the expected results.\n"
  }

  /** One line of the missing-key message: a heading and the keys of one table. */
  function KeysLine(heading: string, keys: seq<string>): string
  {
    heading + KeyList(keys) + "]\n"
  }

  const ObtainedKeysLabel := "Keys in the obtained data table: ["

  const ExpectedKeysLabel := "Keys in the expected data table: ["

  /** The message of the failure raised when the expected table lacks key `k`. */
  function MissingKeyMessage(k: string, obtainedKeys: seq<string>, expectedKeys: seq<string>): string
  {
    MissingKeyHeadline(k)
    + KeysLine(ObtainedKeysLabel, obtainedKeys)
    + KeysLine(ExpectedKeysLabel, expectedKeys)
    + ForceRegenHint + "\n"
  }

  /** `t` occurs in `s` starting at position `p`. */
  predicate OccursAt(s: string, t: string, p: nat)
  {
    p + |t| <= |s| && s[p..p + |t|] == t
  }

  /** `t` occurs in `s` as a contiguous piece. */
  predicate Contains(s: string, t: string)
  {
    exists p: nat :: p <= |s| && OccursAt(s, t, p)
  }

  lemma ContainsInContext(s: string, t: string, before: string, after: string)
    requires Contains(s, t)
    ensures Contains(before + s + after, t)
  {
    var p: nat :| p <= |s| && OccursAt(s, t, p);
    var u := before + s + after;
    assert u[|before| + p..|before| + p + |t|] == s[p..p + |t|];
    assert OccursAt(u, t, |before| + p);
  }

  lemma ContainsItself(before: string, t: string, after: string)
    ensures Contains(before + t + after, t)
  {
    var u := before + t + after;
    assert u[|before|..|before| + |t|] == t;
    assert OccursAt(u, t, |before|);
  }

  /** Every key of the list is mentioned, quoted, in its text. */
  lemma {:induction false} KeyListMentions(keys: seq<string>, i: nat)
    requires i < |keys|
    ensures Contains(KeyList(keys), Quoted(keys[i]))
  {
    var n := |keys| - 1;
    var front := keys[..n];
    assert KeyList(keys) == KeyList(front) + Quoted(keys[n]);
    if i == n {
      ContainsItself(KeyList(front), Quoted(keys[n]), "");
      assert KeyList(front) + Quoted(keys[n]) + "" == KeyList(keys);
    } else {
      assert front[i] == keys[i];
      KeyListMentions(front, i);
      ContainsInContext(KeyList(front), Quoted(keys[i]), "", Quoted(keys[n]));
      assert "" + KeyList(front) + Quoted(keys[n]) == KeyList(keys);
    }
  }

  lemma KeysLineMentions(heading: string, keys: seq<string>, i: nat)
    requires i < |keys|
    ensures Contains(KeysLine(heading, keys), Quoted(keys[i]))
  {
    KeyListMentions(keys, i);
    ContainsInContext(KeyList(keys), Quoted(keys[i]), heading, "]\n");
  }

  lemma ForceRegenHintMentions()
    ensures Contains(ForceRegenHint, "--force-regen")
  {
    assert ForceRegenHint == "To update values, use " + "--force-regen" + " option.\n";
    ContainsItself("To update values, use ", "--force-regen", " option.\n");
  }

  /** A piece of the second, third or fourth of five strings is a piece of
      their concatenation. */
  lemma ContainsInFive(a: string, b: string, c: string, d: string, e: string, t: string)
    ensures Contains(b, t) ==> Contains(a + b + c + d + e, t)
    ensures Contains(c, t) ==> Contains(a + b + c + d + e, t)
    ensures Contains(d, t) ==> Contains(a + b + c + d + e, t)
  {
    if Contains(b, t) {
      ContainsInContext(b, t, a, c + d + e);
      assert a + b + (c + d + e) == a + b + c + d + e;
    }
    if Contains(c, t) {
      ContainsInContext(c, t, a + b, d + e);
      assert a + b + c + (d + e) == a + b + c + d + e;
    }
    if Contains(d, t) {
      ContainsInContext(d, t, a + b + c, e);
    }
  }

  lemma PrefixOfFive(a: string, b: string, c: string, d: string, e: string)
    ensures a <= a + b + c + d + e
  {
    assert (a + b + c + d + e)[..|a|] == a;
  }

  lemma MissingKeyMessageListsKey(k: string, obtainedKeys: seq<string>, expectedKeys: seq<string>, t: string)
    requires Contains(KeysLine(ObtainedKeysLabel, obtainedKeys), t)
          || Contains(KeysLine(ExpectedKeysLabel, expectedKeys), t)
          || Contains(ForceRegenHint, t)
    ensures Contains(MissingKeyMessage(k, obtainedKeys, expectedKeys), t)
  {
    ContainsInFive(MissingKeyHeadline(k), KeysLine(ObtainedKeysLabel, obtainedKeys),
                   KeysLine(ExpectedKeysLabel, expectedKeys), ForceRegenHint, "\n", t);
  }

  /** The missing-key message opens with the missing key. */
  lemma MissingKeyMessageHeadline(k: string, obtainedKeys: seq<string>, expectedKeys: seq<string>)
    ensures MissingKeyHeadline(k) <= MissingKeyMessage(k, obtainedKeys, expectedKeys)
  {
    PrefixOfFive(MissingKeyHeadline(k), KeysLine(ObtainedKeysLabel, obtainedKeys),
                 KeysLine(ExpectedKeysLabel, expectedKeys), ForceRegenHint, "\n");
  }

  /** The missing-key message lists every key of both tables. */
  lemma MissingKeyMessageListsKeys(k: string, obtainedKeys: seq<string>, expectedKeys: seq<string>)
    ensures forall i :: 0 <= i < |obtainedKeys| ==>
      Contains(MissingKeyMessage(k, obtainedKeys, expectedKeys), Quoted(obtainedKeys[i]))
    ensures forall i :: 0 <= i < |expectedKeys| ==>
      Contains(MissingKeyMessage(k, obtainedKeys, expectedKeys), Quoted(expectedKeys[i]))
  {
    forall i | 0 <= i < |obtainedKeys|
      ensures Contains(MissingKeyMessage(k, obtainedKeys, expectedKeys), Quoted(obtainedKeys[i]))
    {
      KeysLineMentions(ObtainedKeysLabel, obtainedKeys, i);
      MissingKeyMessageListsKey(k, obtainedKeys, expectedKeys, Quoted(obtainedKeys[i]));
    }
    forall i | 0 <= i < |expectedKeys|
      ensures Contains(MissingKeyMessage(k, obtainedKeys, expectedKeys), Quoted(expectedKeys[i]))
    {
      KeysLineMentions(ExpectedKeysLabel, expectedKeys, i);
      MissingKeyMessageListsKey(k, obtainedKeys, expectedKeys, Quoted(expectedKeys[i]));
    }
  }

  /** The missing-key message points to the regeneration option. */
  lemma MissingKeyMessageForceRegen(k: string, obtainedKeys: seq<string>, expectedKeys: seq<string>)
    ensures Contains(MissingKeyMessage(k, obtainedKeys, expectedKeys), "--force-regen")
  {
    ForceRegenHintMentions();
    MissingKeyMessageListsKey(k, obtainedKeys, expectedKeys, "--force-regen");
  }

  /** The aggregate failure's header points to the regeneration option too. */
  lemma MismatchHeaderMentionsForceRegen()
    ensures Contains(MismatchHeader, "--force-regen")
  {
    ForceRegenHintMentions();
    ContainsInContext(ForceRegenHint, "--force-regen", "Values are not sufficiently close.\n", "\n");
  }
}
