/**
 * The string handling of `SimpleUpdateSite.isNewerPlugin`: Java's `String.trim`,
 * the rewrite `replaceAll("\\(.*\\)", "")` that drops a parenthesised qualifier,
 * and the final comparison through the `VersionNumber` class.
 *
 * The source of `VersionNumber` is not part of this model: its ordering
 * is a parameter `cmp`, and the two laws the comparison is assumed to obey are the
 * predicate `IsVersionComparator`, required only where a property depends on them.
 */
module VersionStrings {

  // ---------------------------------------------------------------------------
  // Searching a string
  // ---------------------------------------------------------------------------

  /** The characters at which `.` of `java.util.regex` stops (no DOTALL flag). */
  predicate IsLineTerminator(c: char) {
    c == '\n' || c == '\r' || c == '\U{0085}' || c == '\U{2028}' || c == '\U{2029}'
  }

  /** Position of the first `c` in `s` at or after `from`, or `|s|` (`String.indexOf`). */
  function IndexOf(s: string, c: char, from: nat): (i: nat)
    requires from <= |s|
    ensures from <= i <= |s|
    ensures forall k :: from <= k < i ==> s[k] != c
    ensures i < |s| ==> s[i] == c
    decreases |s| - from
  {
    if from == |s| || s[from] == c then from else IndexOf(s, c, from + 1)
  }

  /** Position of the last `c` in `s` before `upto`, or -1 (`String.lastIndexOf`). */
  function LastIndexOf(s: string, c: char, upto: nat): (j: int)
    requires upto <= |s|
    ensures -1 <= j < upto
    ensures forall k :: j < k < upto ==> s[k] != c
    ensures j >= 0 ==> s[j] == c
  {
    if upto == 0 then -1
    else if s[upto - 1] == c then upto - 1
    else LastIndexOf(s, c, upto - 1)
  }

  /** Position of the first line terminator of `s`, or `|s|`: where the first line ends. */
  function LineEnd(s: string, from: nat): (k: nat)
    requires from <= |s|
    ensures from <= k <= |s|
    ensures forall m {:trigger IsLineTerminator(s[m])} :: from <= m < k ==> !IsLineTerminator(s[m])
    ensures k < |s| ==> IsLineTerminator(s[k])
    decreases |s| - from
  {
    if from == |s| || IsLineTerminator(s[from]) then from else LineEnd(s, from + 1)
  }

  // ---------------------------------------------------------------------------
  // String.trim
  // ---------------------------------------------------------------------------

  /** `String.trim` removes every character up to U+0020 from both ends. */
  predicate IsTrimmable(c: char) { c <= ' ' }

  /** First position at or after `st` that is not trimmable, or `|s|`: `trim`'s forward scan. */
  function ContentStart(s: string, st: nat): (r: nat)
    requires st <= |s|
    ensures st <= r <= |s|
    ensures forall k :: st <= k < r ==> IsTrimmable(s[k])
    ensures r < |s| ==> !IsTrimmable(s[r])
    decreases |s| - st
  {
    if st < |s| && IsTrimmable(s[st]) then ContentStart(s, st + 1) else st
  }

  /** `trim`'s backward scan: `len` moves down over trimmable characters but not below `st`. */
  function ContentEnd(s: string, st: nat, len: nat): (r: nat)
    requires st <= len <= |s|
    ensures st <= r <= len
    ensures forall k :: r <= k < len ==> IsTrimmable(s[k])
    ensures st < r ==> !IsTrimmable(s[r - 1])
    decreases len
  {
    if st < len && IsTrimmable(s[len - 1]) then ContentEnd(s, st, len - 1) else len
  }

  /** Java's `String.trim()`: the slice between the two scans, with neither end trimmable. */
  function Trim(s: string): (r: string)
    ensures |r| <= |s|
    ensures IsTrimmed(r)
  {
    var st := ContentStart(s, 0);
    var en := ContentEnd(s, st, |s|);
    assert st < en ==> s[st..en][0] == s[st] && s[st..en][en - st - 1] == s[en - 1];
    s[st..en]
  }

  /** A trimmed string: empty, or neither end is trimmable. */
  predicate IsTrimmed(s: string) {
    s == [] || (!IsTrimmable(s[0]) && !IsTrimmable(s[|s| - 1]))
  }

  /**
   * `Trim` is determined by its cut points: whatever `s[a..b]` has only trimmable
   * characters outside it and is itself trimmed is what `Trim(s)` returns.
   */
  lemma TrimIsUniqueSlice(s: string, a: nat, b: nat)
    requires a <= b <= |s|
    requires forall k :: 0 <= k < a ==> IsTrimmable(s[k])
    requires forall k :: b <= k < |s| ==> IsTrimmable(s[k])
    requires IsTrimmed(s[a..b])
    ensures Trim(s) == s[a..b]
  {
    var st := ContentStart(s, 0);
    var len := ContentEnd(s, st, |s|);
    if a < b {
      assert s[a..b][0] == s[a] && s[a..b][b - a - 1] == s[b - 1];
      assert st == a;
      assert len == b;
    } else {
      assert st == |s|;
    }
  }

  /** A string with no blank at either end is its own trim. */
  lemma TrimOfTrimmed(s: string)
    requires IsTrimmed(s)
    ensures Trim(s) == s
  {
    TrimIsUniqueSlice(s, 0, |s|);
  }

  /** `Trim` returns a trimmed slice of its input and cuts off only trimmable characters. */
  lemma TrimResult(s: string) returns (a: nat, b: nat)
    ensures a <= b <= |s| && Trim(s) == s[a..b]
    ensures forall k :: 0 <= k < a ==> IsTrimmable(s[k])
    ensures forall k :: b <= k < |s| ==> IsTrimmable(s[k])
    ensures IsTrimmed(Trim(s))
  {
    a := ContentStart(s, 0);
    b := ContentEnd(s, a, |s|);
    assert a < b ==> s[a..b][0] == s[a] && s[a..b][b - a - 1] == s[b - 1];
  }

  /** Trimming twice is trimming once. */
  lemma TrimIdempotent(s: string)
    ensures Trim(Trim(s)) == Trim(s)
  {
    var _, _ := TrimResult(s);
    TrimOfTrimmed(Trim(s));
  }

  // ---------------------------------------------------------------------------
  // replaceAll("\\(.*\\)", "")
  // ---------------------------------------------------------------------------

  /**
   * `s[i..j+1]` is text the pattern `\(.*\)` can match: it opens with `(`, closes
   * with `)`, and no line terminator lies between, since `.` does not match one.
   */
  ghost predicate GroupAt(s: string, i: int, j: int) {
    0 <= i < j < |s| && s[i] == '(' && s[j] == ')' &&
    forall k {:trigger IsLineTerminator(s[k])} :: i < k < j ==> !IsLineTerminator(s[k])
  }

  /** The pattern `\(.*\)` matches somewhere in `s`. */
  ghost predicate HasGroup(s: string) {
    exists i, j :: GroupAt(s, i, j)
  }

  /** Some `(` comes before some `)` in `s`, line terminators or not. */
  ghost predicate HasPair(s: string) {
    exists i, j :: 0 <= i < j < |s| && s[i] == '(' && s[j] == ')'
  }

  /**
   * With `i` the first `(` and `j` the last `)`, `i < j`: dropping `s[i..j+1]`
   * leaves no `(` before a `)`, where `s` had one.
   */
  lemma SpliceLeavesNoPair(s: string, i: nat, j: nat)
    requires i < j < |s| && s[i] == '(' && s[j] == ')'
    requires forall k :: 0 <= k < i ==> s[k] != '('
    requires forall k :: j < k < |s| ==> s[k] != ')'
    ensures HasPair(s)
    ensures !HasPair(s[..i] + s[j + 1..])
  {
    var r := s[..i] + s[j + 1..];
    forall p, q | 0 <= p < q < |r| && r[p] == '('
      ensures r[q] != ')'
    {
      assert p >= i;
      assert r[q] == s[q - i + j + 1];
    }
  }

  /** When the first `(` does not come before the last `)`, no `(` comes before a `)`. */
  lemma NoPairWhenOrdered(s: string, i: int, j: int)
    requires j <= i
    requires forall k :: 0 <= k < i && k < |s| ==> s[k] != '('
    requires forall k :: 0 <= k < |s| && j < k ==> s[k] != ')'
    ensures !HasPair(s)
  {
    forall p, q | 0 <= p < q < |s| && s[p] == '('
      ensures s[q] != ')'
    {
      assert p >= i;
    }
  }

  /**
   * The greedy replacement on one line: the text from the first `(` to the
   * last `)` goes, when such a `)` follows that `(`; otherwise nothing changes.
   * Afterwards no `(` comes before a `)`, and the line is changed exactly when
   * one did before.
   */
  function RemoveGreedyGroup(s: string): (r: string)
    ensures |r| <= |s|
    ensures !HasPair(r)
    ensures r == s <==> !HasPair(s)
  {
    var i := IndexOf(s, '(', 0);
    var j := LastIndexOf(s, ')', |s|);
    if i < j then
      SpliceLeavesNoPair(s, i, j);
      s[..i] + s[j + 1..]
    else
      NoPairWhenOrdered(s, i, j);
      s
  }

  /**
   * `replaceAll("\\(.*\\)", "")`. A match never spans a line terminator, and the
   * greedy `.*` takes a match to the last `)` of its line, so the rewrite acts on
   * each line on its own and keeps the terminators. Afterwards the pattern
   * matches nowhere.
   */
  function StripQualifiers(s: string): (r: string)
    ensures |r| <= |s|
    ensures !HasGroup(r)
    decreases |s|
  {
    var k := LineEnd(s, 0);
    if k == |s| then
      GroupToPair(RemoveGreedyGroup(s));
      RemoveGreedyGroup(s)
    else
      var line := RemoveGreedyGroup(s[..k]);
      var rest := StripQualifiers(s[k + 1..]);
      GroupToPair(line);
      NoGroupAcrossTerminator(line, s[k], rest);
      line + [s[k]] + rest
  }

  /** Without line terminators, a group is just a `(` before a `)`. */
  lemma GroupIsPairOnOneLine(s: string)
    requires forall k :: 0 <= k < |s| ==> !IsLineTerminator(s[k])
    ensures HasGroup(s) <==> HasPair(s)
  {
    if HasPair(s) {
      var i, j :| 0 <= i < j < |s| && s[i] == '(' && s[j] == ')';
      assert GroupAt(s, i, j);
    }
  }

  /** A slice of a string in which the pattern does not match contains no match either. */
  lemma NoGroupInSlice(s: string, a: nat, b: nat)
    requires a <= b <= |s|
    requires !HasGroup(s)
    ensures !HasGroup(s[a..b])
  {
    var t := s[a..b];
    forall i, j | 0 <= i < j < |t|
      ensures !GroupAt(t, i, j)
    {
      assert !GroupAt(s, a + i, a + j);
      assert forall k :: i <= k <= j ==> t[k] == s[a + k];
    }
  }

  /**
   * A line, a terminator and a string: no match crosses the terminator, so the
   * whole has a match only if one of its two sides has one.
   */
  lemma NoGroupAcrossTerminator(line: string, t: char, rest: string)
    requires IsLineTerminator(t)
    requires !HasGroup(line) && !HasGroup(rest)
    ensures !HasGroup(line + [t] + rest)
  {
    var s := line + [t] + rest;
    var n := |line|;
    forall i, j | 0 <= i < j < |s|
      ensures !GroupAt(s, i, j)
    {
      if j < n {
        assert !GroupAt(line, i, j);
        assert s[i] == line[i] && s[j] == line[j];
        assert forall k :: i < k < j ==> s[k] == line[k];
      } else if i > n {
        assert !GroupAt(rest, i - n - 1, j - n - 1);
        assert s[i] == rest[i - n - 1] && s[j] == rest[j - n - 1];
        assert forall k :: i - n - 1 < k < j - n - 1 ==> rest[k] == s[k + n + 1];
      } else {
        assert s[n] == t;
      }
    }
  }

  /** Every match is a `(` before a `)`. */
  lemma GroupToPair(s: string)
    ensures HasGroup(s) ==> HasPair(s)
  {
    if HasGroup(s) {
      var i, j :| GroupAt(s, i, j);
    }
  }

  /** Where the pattern matches nowhere, the rewrite leaves the first line as it is. */
  lemma FirstLineKept(s: string)
    requires !HasGroup(s)
    ensures RemoveGreedyGroup(s[..LineEnd(s, 0)]) == s[..LineEnd(s, 0)]
  {
    var k := LineEnd(s, 0);
    var line := s[..k];
    forall i, j | 0 <= i < j < |line| && line[i] == '('
      ensures line[j] != ')'
    {
      assert !GroupAt(s, i, j);
    }
  }

  /**
   * One step of the rewrite: the first line, its terminator, and the rewrite of
   * the rest. This is the definition unfolded once; stating it apart keeps the
   * induction in `StripQualifiersKeepsGroupFree` within the solver's budget.
   */
  lemma StripQualifiersStep(s: string)
    requires LineEnd(s, 0) < |s|
    ensures StripQualifiers(s) ==
      RemoveGreedyGroup(s[..LineEnd(s, 0)]) + [s[LineEnd(s, 0)]] + StripQualifiers(s[LineEnd(s, 0) + 1..])
  {
  }

  /**
   * A string is its prefix, one character, and the rest. Dafny proves it alone;
   * stated apart so that the induction below need not rebuild it.
   */
  lemma SplitAt(s: string, k: nat)
    requires k < |s|
    ensures s[..k] + [s[k]] + s[k + 1..] == s
  {
  }

  /** A suffix of a string without a group has none either. */
  lemma NoGroupInSuffix(s: string, k: nat)
    requires k < |s| && !HasGroup(s)
    ensures !HasGroup(s[k + 1..])
  {
    assert s[k + 1..] == s[k + 1..|s|];
    NoGroupInSlice(s, k + 1, |s|);
  }

  /** Where the pattern matches nowhere, the rewrite changes nothing. */
  lemma {:induction false} StripQualifiersKeepsGroupFree(s: string)
    requires !HasGroup(s)
    ensures StripQualifiers(s) == s
    decreases |s|
  {
    var k := LineEnd(s, 0);
    FirstLineKept(s);
    if k < |s| {
      NoGroupInSuffix(s, k);
      StripQualifiersKeepsGroupFree(s[k + 1..]);
      StripQualifiersStep(s);
      SplitAt(s, k);
    } else {
      assert s[..k] == s;
    }
  }

  /** The rewrite changes nothing exactly when the pattern matches nowhere. */
  lemma StripQualifiersUnchanged(s: string)
    ensures StripQualifiers(s) == s <==> !HasGroup(s)
  {
    if !HasGroup(s) {
      StripQualifiersKeepsGroupFree(s);
    }
  }

  // ---------------------------------------------------------------------------
  // isNewerPlugin
  // ---------------------------------------------------------------------------

  /**
   * The form in which `isNewerPlugin` compares a version: qualifier removed, then
   * trimmed. The pattern matches nowhere in it and neither end is blank.
   */
  function Normalize(v: string): (r: string)
    ensures |r| <= |v|
    ensures IsTrimmed(r)
    ensures !HasGroup(r)
  {
    var s := StripQualifiers(v);
    var st := ContentStart(s, 0);
    NoGroupInSlice(s, st, ContentEnd(s, st, |s|));
    Trim(s)
  }

  /** A string in which the pattern does not match is only trimmed. */
  lemma NormalizeWithoutGroup(v: string)
    requires !HasGroup(v)
    ensures Normalize(v) == Trim(v)
  {
    StripQualifiersUnchanged(v);
  }

  /** Where no `(` comes before a `)`, normalising is only trimming. */
  lemma NormalizeWithoutPair(v: string)
    requires !HasPair(v)
    ensures Normalize(v) == Trim(v)
  {
    GroupToPair(v);
    NormalizeWithoutGroup(v);
  }

  /** A trimmed version without any `(` is its own normal form. */
  lemma NormalizeOfPlainVersion(v: string)
    requires IsTrimmed(v)
    requires forall k :: 0 <= k < |v| ==> v[k] != '('
    ensures Normalize(v) == v
  {
    assert !HasGroup(v);
    NormalizeWithoutGroup(v);
    TrimOfTrimmed(v);
  }

  /**
   * On one line, when a `)` follows the first `(`, the text from that `(` to the
   * last `)` is removed and the rest trimmed.
   */
  lemma NormalizeRemovesSpan(v: string, i: nat, j: nat)
    requires forall k :: 0 <= k < |v| ==> !IsLineTerminator(v[k])
    requires i < j < |v|
    requires v[i] == '(' && forall k :: 0 <= k < i ==> v[k] != '('
    requires v[j] == ')' && forall k :: j < k < |v| ==> v[k] != ')'
    ensures Normalize(v) == Trim(v[..i] + v[j + 1..])
  {
    StripQualifiersOnOneLine(v);
    var i' := IndexOf(v, '(', 0);
    assert i' < |v| ==> v[i'] == '(';
    assert i' == i;
    var j' := LastIndexOf(v, ')', |v|);
    assert j' >= 0 ==> v[j'] == ')';
    assert j' == j;
  }

  /** Without line terminators the rewrite is the greedy removal on one line. */
  lemma StripQualifiersOnOneLine(v: string)
    requires forall k :: 0 <= k < |v| ==> !IsLineTerminator(v[k])
    ensures StripQualifiers(v) == RemoveGreedyGroup(v)
  {
    var k := LineEnd(v, 0);
    assert k == |v|;
  }

  /**
   * The usual shape of a qualified version, `w (q)`: the qualifier and the space
   * before it go, and the version itself is kept as it is.
   */
  lemma NormalizeDropsTrailingQualifier(w: string, q: string)
    requires IsTrimmed(w)
    requires forall k :: 0 <= k < |w| ==> w[k] != '(' && !IsLineTerminator(w[k])
    requires forall k :: 0 <= k < |q| ==> !IsLineTerminator(q[k])
    ensures Normalize(w + " (" + q + ")") == w
  {
    var v := w + " (" + q + ")";
    var i, j := |w| + 1, |v| - 1;
    assert v[..i] + v[j + 1..] == w + " ";
    forall k | 0 <= k < |v|
      ensures !IsLineTerminator(v[k]) && (k < i ==> v[k] != '(')
    {
      if k < |w| {
        assert v[k] == w[k];
      } else if i < k < j {
        assert v[k] == q[k - i - 1];
      }
    }
    var u := w + " ";
    assert u[0..|w|] == w;
    TrimIsUniqueSlice(u, 0, |w|);
    NormalizeRemovesSpan(v, i, j);
  }

  /** Normalising twice is normalising once. */
  lemma NormalizeIdempotent(v: string)
    ensures Normalize(Normalize(v)) == Normalize(v)
  {
    StripQualifiersUnchanged(Normalize(v));
    TrimOfTrimmed(Normalize(v));
  }

  /** The laws assumed of `VersionNumber.compareTo`: zero on equal strings, sign-antisymmetric. */
  ghost predicate IsVersionComparator(cmp: (string, string) -> int) {
    && (forall x :: cmp(x, x) == 0)
    && (forall x, y :: cmp(x, y) > 0 <==> cmp(y, x) < 0)
  }

  /**
   * `isNewerPlugin(newVersion, installedVersion)` with `VersionNumber.compareTo` as
   * `cmp`. Under the comparator laws, a version is newer only when its normal form
   * differs from the installed one and the installed one compares below it.
   */
  predicate IsNewerPlugin(cmp: (string, string) -> int, newVersion: string, installedVersion: string): (newer: bool)
    ensures IsVersionComparator(cmp) && newer ==> Normalize(newVersion) != Normalize(installedVersion)
    ensures IsVersionComparator(cmp) && newer ==> cmp(Normalize(installedVersion), Normalize(newVersion)) < 0
  {
    cmp(Normalize(newVersion), Normalize(installedVersion)) > 0
  }

  /** The answer depends on the two versions only through their normal forms. */
  lemma IsNewerPluginRespectsNormalize(cmp: (string, string) -> int, a: string, a': string, b: string, b': string)
    requires Normalize(a) == Normalize(a') && Normalize(b) == Normalize(b')
    ensures IsNewerPlugin(cmp, a, b) == IsNewerPlugin(cmp, a', b')
  {
  }

  /** On trimmed versions without qualifiers, `isNewerPlugin` is the comparison itself. */
  lemma IsNewerPluginOnPlainVersions(cmp: (string, string) -> int, a: string, b: string)
    requires IsTrimmed(a) && forall k :: 0 <= k < |a| ==> a[k] != '('
    requires IsTrimmed(b) && forall k :: 0 <= k < |b| ==> b[k] != '('
    ensures IsNewerPlugin(cmp, a, b) <==> cmp(a, b) > 0
  {
    NormalizeOfPlainVersion(a);
    NormalizeOfPlainVersion(b);
  }

  /** Two versions with the same normal form are never newer than one another. */
  lemma NotNewerWhenSameNormalForm(cmp: (string, string) -> int, a: string, b: string)
    requires IsVersionComparator(cmp)
    requires Normalize(a) == Normalize(b)
    ensures !IsNewerPlugin(cmp, a, b) && !IsNewerPlugin(cmp, b, a)
  {
  }

  /** No version is newer than itself. */
  lemma IsNewerPluginIrreflexive(cmp: (string, string) -> int, v: string)
    requires IsVersionComparator(cmp)
    ensures !IsNewerPlugin(cmp, v, v)
  {
  }

  /** If `a` is newer than `b`, then `b` is not newer than `a`. */
  lemma IsNewerPluginAsymmetric(cmp: (string, string) -> int, a: string, b: string)
    requires IsVersionComparator(cmp)
    requires IsNewerPlugin(cmp, a, b)
    ensures !IsNewerPlugin(cmp, b, a)
  {
  }
}
