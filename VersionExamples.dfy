/**
 * Concrete versions and their normal forms under `isNewerPlugin`: the greedy
 * qualifier rewrite, and a qualifier that makes no difference to the comparison.
 */
module VersionExamples {
  import opened VersionStrings

  /** The match is greedy: `1(a).2(b)` loses everything from the first `(` on. */
  lemma GreedyExample()
    ensures Normalize("1(a).2(b)") == "1"
  {
    var v := "1(a).2(b)";
    NormalizeRemovesSpan(v, 1, 8);
    assert v[..1] + v[9..] == "1";
    TrimOfTrimmed("1");
  }

  /** A qualifier after a space goes together with the space. */
  lemma QualifierExample()
    ensures Normalize("1.0 (old)") == "1.0"
  {
    assert "1.0" + " (" + "old" + ")" == "1.0 (old)";
    NormalizeDropsTrailingQualifier("1.0", "old");
  }

  /** `"1.0 (old)"` and `"1.0"` are the same version to `isNewerPlugin`. */
  lemma OldQualifierIsNotNewer(cmp: (string, string) -> int)
    requires IsVersionComparator(cmp)
    ensures !IsNewerPlugin(cmp, "1.0", "1.0 (old)")
    ensures !IsNewerPlugin(cmp, "1.0 (old)", "1.0")
  {
    QualifierExample();
    NormalizeWithoutGroup("1.0");
    TrimOfTrimmed("1.0");
  }
}
