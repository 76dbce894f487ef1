/** The range of lines that an edit changed, as reported back. */
module ChangedRanges {
  import opened Options
  import opened TextLines

  /** First and last changed line of the result, 1-based. */
  datatype Changed = Changed(firstChangedLine: nat, lastChangedLine: nat)

  /** Before the range both have the same lines, and what follows it in `b` ends `a` as well. */
  ghost predicate Encloses(a: seq<string>, b: seq<string>, c: Changed) {
    && 1 <= c.firstChangedLine <= c.lastChangedLine
    && c.firstChangedLine - 1 <= |a| && c.firstChangedLine - 1 <= |b|
    && a[..c.firstChangedLine - 1] == b[..c.firstChangedLine - 1]
    && (c.lastChangedLine <= |b| ==> |b| - c.lastChangedLine <= |a| - (c.firstChangedLine - 1)
                                     && b[c.lastChangedLine..] == a[|a| - (|b| - c.lastChangedLine)..])
  }

  /** The range starts at the first difference. */
  ghost predicate StartsAtDifference(a: seq<string>, b: seq<string>, c: Changed) {
    var at := c.firstChangedLine - 1;
    at >= 0 && (at >= |a| || at >= |b| || a[at] != b[at])
  }

  /** The range ends at the last difference, or has one line. */
  ghost predicate EndsAtDifference(a: seq<string>, b: seq<string>, c: Changed) {
    var at := c.lastChangedLine - 1;
    var old_ := |a| - (|b| - at);
    c.lastChangedLine == c.firstChangedLine
    || (0 <= at < |b| && (old_ < c.firstChangedLine - 1 || !(0 <= old_ < |a|) || a[old_] != b[at]))
  }

  method CommonPrefix(a: seq<string>, b: seq<string>) returns (first: nat)
    ensures first <= |a| && first <= |b| && a[..first] == b[..first]
    ensures first == |a| || first == |b| || a[first] != b[first]
  {
    var minLen := if |a| < |b| then |a| else |b|;
    first := 0;
    while first < minLen && a[first] == b[first]
      invariant first <= minLen && a[..first] == b[..first]
    {
      first := first + 1;
    }
  }

  /** The last lines that differ, walking back no further than `first`. */
  method CommonSuffix(a: seq<string>, b: seq<string>, first: nat) returns (lastOrig: int, lastRes: int)
    requires first <= |a| && first <= |b|
    ensures first - 1 <= lastOrig < |a| && first - 1 <= lastRes < |b| && |a| - lastOrig == |b| - lastRes
    ensures a[lastOrig + 1..] == b[lastRes + 1..]
    ensures lastOrig < first || lastRes < first || a[lastOrig] != b[lastRes]
  {
    lastOrig, lastRes := |a| - 1, |b| - 1;
    while lastOrig >= first && lastRes >= first && a[lastOrig] == b[lastRes]
      invariant first - 1 <= lastOrig < |a| && first - 1 <= lastRes < |b| && |a| - lastOrig == |b| - lastRes
      invariant a[lastOrig + 1..] == b[lastRes + 1..]
    {
      lastOrig, lastRes := lastOrig - 1, lastRes - 1;
    }
  }

  lemma {:induction false} SuffixOfSuffix(a: seq<string>, b: seq<string>, i: nat, j: nat, skip: nat)
    requires i <= |a| && j <= |b| && a[i..] == b[j..] && j + skip <= |b|
    ensures i + skip <= |a| && b[j + skip..] == a[i + skip..]
  {
    assert b[j + skip..] == b[j..][skip..] && a[i + skip..] == a[i..][skip..];
  }

  method ChangedRange(original: string, result: string) returns (r: Option<Changed>)
    ensures r.None? <==> original == result || (original != "" && SplitLines(original) == SplitLines(result))
    ensures r.Some? && original != "" ==>
              && Encloses(SplitLines(original), SplitLines(result), r.value)
              && StartsAtDifference(SplitLines(original), SplitLines(result), r.value)
              && EndsAtDifference(SplitLines(original), SplitLines(result), r.value)
    ensures r.Some? && original == "" ==> r.value == Changed(1, |SplitLines(result)|)
  {
    hide SplitLines;
    if original == result { return None; }
    if |original| == 0 { return Some(Changed(1, |SplitLines(result)|)); }
    var a, b := SplitLines(original), SplitLines(result);
    if a == b { return None; }
    var first := CommonPrefix(a, b);
    var lastOrig, lastRes := CommonSuffix(a, b, first);
    var last := if lastRes < first then first else lastRes;
    if last + 1 <= |b| {
      SuffixOfSuffix(a, b, lastOrig + 1, lastRes + 1, last - lastRes);
    }
    r := Some(Changed(first + 1, last + 1));
  }
}
