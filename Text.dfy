/**
 * The string operations the category paths and the saved fold-state string
 * are built from, with .NET semantics: `String.LastIndexOf(char)`,
 * `String.Split(char)` (which keeps empty pieces) and `String.Join`.
 */
module Text {

  /** A list that holds no element twice. */
  ghost predicate NoDuplicates(s: seq<string>)
  {
    forall i, j :: 0 <= i < j < |s| ==> s[i] != s[j]
  }

  /** The index of the last occurrence of `ch` in `s`, or -1 when there is none. */
  function LastIndexOf(s: string, ch: char): (r: int)
    ensures -1 <= r < |s|
    ensures r >= 0 ==> s[r] == ch
    ensures forall j :: r < j < |s| ==> s[j] != ch
  {
    if s == [] then -1
    else if s[|s| - 1] == ch then |s| - 1
    else LastIndexOf(s[..|s| - 1], ch)
  }

  /** `s.Split(sep)`: the pieces between separators, empty pieces included. */
  function Split(s: string, sep: char): (parts: seq<string>)
    ensures |parts| >= 1
    ensures forall i :: 0 <= i < |parts| ==> sep !in parts[i]
    decreases |s|
  {
    var k := LastIndexOf(s, sep);
    if k < 0 then [s] else Split(s[..k], sep) + [s[k + 1..]]
  }

  /** `string.Join(sep, parts)`; joining no parts gives the empty string. */
  function Join(parts: seq<string>, sep: char): string
  {
    if |parts| == 0 then ""
    else if |parts| == 1 then parts[0]
    else Join(parts[..|parts| - 1], sep) + [sep] + parts[|parts| - 1]
  }

  /** The text after the last `sep` of `s`, or all of `s` when it has none. */
  function LastSegment(s: string, sep: char): (r: string)
    ensures sep !in r
    ensures r == s[LastIndexOf(s, sep) + 1..]
  {
    var parts := Split(s, sep);
    var k := LastIndexOf(s, sep);
    assert parts == if k < 0 then [s] else Split(s[..k], sep) + [s[k + 1..]];
    parts[|parts| - 1]
  }

  /** The join of parts without the separator contains exactly |parts| - 1 separators. */
  lemma {:induction false} JoinSeparatorCount(parts: seq<string>, sep: char)
    requires |parts| >= 1 && forall i :: 0 <= i < |parts| ==> sep !in parts[i]
    ensures multiset(Join(parts, sep))[sep] == |parts| - 1
    decreases |parts|
  {
    var n := |parts|;
    if n > 1 {
      JoinSeparatorCount(parts[..n - 1], sep);
      assert multiset(parts[n - 1])[sep] == 0;
    } else {
      assert multiset(parts[0])[sep] == 0;
    }
  }

  /** A position holding `ch` with no `ch` after it is the last index of `ch`. */
  lemma LastIndexOfAt(s: string, ch: char, k: int)
    requires -1 <= k < |s|
    requires k >= 0 ==> s[k] == ch
    requires forall j :: k < j < |s| ==> s[j] != ch
    ensures LastIndexOf(s, ch) == k
  {
  }

  /** Joining after splitting gives back the original string. */
  lemma {:induction false} JoinSplit(s: string, sep: char)
    ensures Join(Split(s, sep), sep) == s
    decreases |s|
  {
    var k := LastIndexOf(s, sep);
    if k >= 0 {
      var p := Split(s[..k], sep);
      JoinSplit(s[..k], sep);
      var q := p + [s[k + 1..]];
      assert Split(s, sep) == q;
      assert q[..|q| - 1] == p;
      assert s == s[..k] + [sep] + s[k + 1..];
    }
  }

  /** Splitting a join of separator-free parts gives back the parts. */
  lemma {:induction false} SplitJoin(parts: seq<string>, sep: char)
    requires |parts| >= 1
    requires forall i :: 0 <= i < |parts| ==> sep !in parts[i]
    ensures Split(Join(parts, sep), sep) == parts
    decreases |parts|
  {
    var n := |parts|;
    if n == 1 {
      LastIndexOfAt(parts[0], sep, -1);
    } else {
      var init := parts[..n - 1];
      var last := parts[n - 1];
      var j := Join(init, sep);
      SplitJoin(init, sep);
      var s := j + [sep] + last;
      assert Join(parts, sep) == s;
      forall i | |j| < i < |s| ensures s[i] != sep {
        assert s[i] == last[i - |j| - 1];
      }
      LastIndexOfAt(s, sep, |j|);
      assert s[..|j|] == j;
      assert s[|j| + 1..] == last;
      assert parts == init + [last];
    }
  }
}
