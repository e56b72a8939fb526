/**
 Candidate generation: the inclusive range `START..END` in ascending order
 (`Array.from({ length: END - START + 1 }, (_, i) => START + i)`), the kept
 numbers (`allNumbers.filter(n => !shouldSkipDomain(n))`) and the number of
 skipped candidates.
 */
module Candidates {
  import opened Filter

  ghost predicate StrictlyAscending(xs: seq<int>) {
    forall i, j :: 0 <= i < j < |xs| ==> xs[i] < xs[j]
  }

  /** The range `start..end`. A negative array length is clamped to zero, so
      an inverted range is empty. */
  function Range(start: int, end: int): (r: seq<int>)
    ensures |r| == if end < start then 0 else end - start + 1
  {
    var len := if end < start then 0 else end - start + 1;
    seq(len, i => start + i)
  }

  /** The range holds exactly the integers between its bounds, each once, in
      ascending order. */
  lemma RangeContents(start: int, end: int)
    ensures forall x :: x in Range(start, end) <==> start <= x <= end
    ensures StrictlyAscending(Range(start, end))
  {
    var r := Range(start, end);
    forall x | start <= x <= end
      ensures x in r
    {
      assert r[x - start] == x;
    }
  }

  /** `xs.filter(keep)` */
  function Select(xs: seq<int>, keep: int -> bool): (r: seq<int>)
    ensures |r| <= |xs|
    ensures forall x :: x in r <==> x in xs && keep(x)
    decreases |xs|
  {
    if |xs| == 0 then []
    else
      var rest := Select(xs[1..], keep);
      assert forall x :: x in xs <==> x == xs[0] || x in xs[1..];
      if keep(xs[0]) then [xs[0]] + rest else rest
  }

  /** Filtering keeps the order of what it keeps. */
  lemma {:induction false} SelectAscending(xs: seq<int>, keep: int -> bool)
    requires StrictlyAscending(xs)
    ensures StrictlyAscending(Select(xs, keep))
    decreases |xs|
  {
    if |xs| > 0 {
      SelectAscending(xs[1..], keep);
      var rest := Select(xs[1..], keep);
      forall j | 0 <= j < |rest|
        ensures xs[0] < rest[j]
      {
        assert rest[j] in xs[1..];
      }
    }
  }

  /** What a filter keeps and what its negation keeps add up to the input. */
  lemma {:induction false} SelectSplit(xs: seq<int>, keep: int -> bool)
    ensures |Select(xs, keep)| + |Select(xs, x => !keep(x))| == |xs|
    decreases |xs|
  {
    if |xs| > 0 {
      SelectSplit(xs[1..], keep);
    }
  }

  /** Two filters that agree on every element of the input select the same. */
  lemma {:induction false} SelectCongruent(xs: seq<int>, keepA: int -> bool, keepB: int -> bool)
    requires forall i :: 0 <= i < |xs| ==> keepA(xs[i]) == keepB(xs[i])
    ensures Select(xs, keepA) == Select(xs, keepB)
    decreases |xs|
  {
    if |xs| > 0 {
      assert forall i :: 0 <= i < |xs| - 1 ==> xs[1..][i] == xs[i + 1];
      SelectCongruent(xs[1..], keepA, keepB);
    }
  }

  /** Filtering one more element at the end. */
  lemma {:induction false} SelectAppend(xs: seq<int>, x: int, keep: int -> bool)
    ensures Select(xs + [x], keep) == Select(xs, keep) + (if keep(x) then [x] else [])
    decreases |xs|
  {
    if |xs| == 0 {
      assert xs + [x] == [x];
      assert Select([x], keep) == (if keep(x) then [x] else []) + Select([], keep);
    } else {
      assert (xs + [x])[1..] == xs[1..] + [x];
      SelectAppend(xs[1..], x, keep);
    }
  }

  /** Filtering one more element of a prefix. */
  lemma SelectPrefixStep(xs: seq<int>, i: nat, keep: int -> bool)
    requires i < |xs|
    ensures Select(xs[..i + 1], keep) == Select(xs[..i], keep) + (if keep(xs[i]) then [xs[i]] else [])
  {
    assert xs[..i + 1] == xs[..i] + [xs[i]];
    SelectAppend(xs[..i], xs[i], keep);
  }

  function Keep(skipNumbers: seq<SkipNumber>, patterns: seq<Pattern>): int -> bool {
    n => !ShouldSkip(n, skipNumbers, patterns)
  }

  /** `numbers`: the candidates that will be scanned. */
  function Numbers(start: int, end: int, skipNumbers: seq<SkipNumber>, patterns: seq<Pattern>): seq<int> {
    Select(Range(start, end), Keep(skipNumbers, patterns))
  }

  /** The candidates the filter removes, in ascending order. */
  function Skipped(start: int, end: int, skipNumbers: seq<SkipNumber>, patterns: seq<Pattern>): seq<int> {
    Select(Range(start, end), n => ShouldSkip(n, skipNumbers, patterns))
  }

  /** `skippedCount = allNumbers.length - numbers.length` */
  function SkippedCount(start: int, end: int, skipNumbers: seq<SkipNumber>, patterns: seq<Pattern>): int {
    |Range(start, end)| - |Numbers(start, end, skipNumbers, patterns)|
  }

  /** The scanned numbers are exactly the unskipped integers of the range, in
      ascending order and each once. */
  lemma NumbersSpec(start: int, end: int, skipNumbers: seq<SkipNumber>, patterns: seq<Pattern>)
    ensures forall n :: n in Numbers(start, end, skipNumbers, patterns) <==>
      start <= n <= end && !ShouldSkip(n, skipNumbers, patterns)
    ensures StrictlyAscending(Numbers(start, end, skipNumbers, patterns))
  {
    RangeContents(start, end);
    SelectAscending(Range(start, end), Keep(skipNumbers, patterns));
  }

  /** The skipped count is never negative and is the number of candidates of
      the range that the rule skips. */
  lemma SkippedCountSpec(start: int, end: int, skipNumbers: seq<SkipNumber>, patterns: seq<Pattern>)
    ensures SkippedCount(start, end, skipNumbers, patterns) == |Skipped(start, end, skipNumbers, patterns)| >= 0
    ensures forall n :: n in Skipped(start, end, skipNumbers, patterns) <==>
      start <= n <= end && ShouldSkip(n, skipNumbers, patterns)
    ensures StrictlyAscending(Skipped(start, end, skipNumbers, patterns))
  {
    var xs := Range(start, end);
    var keep := Keep(skipNumbers, patterns);
    var skip := n => ShouldSkip(n, skipNumbers, patterns);
    SelectSplit(xs, keep);
    SelectCongruent(xs, x => !keep(x), skip);
    RangeContents(start, end);
    SelectAscending(xs, skip);
  }

  /** Range `[8, 11]` with every number containing the digit 9 excluded: the
      scan visits 8, 10 and 11 and skips one candidate. */
  lemma ExampleSkipDigitNine()
    ensures Numbers(8, 11, [TextEntry("9")], []) == [8, 10, 11]
    ensures SkippedCount(8, 11, [TextEntry("9")], []) == 1
  {
    var keep := Keep([TextEntry("9")], []);
    assert Range(8, 11) == [8, 9, 10, 11];
    NineKept();
    assert Select([11], keep) == [11];
    assert Select([10, 11], keep) == [10, 11];
    assert Select([9, 10, 11], keep) == [10, 11];
    assert Select([8, 9, 10, 11], keep) == [8, 10, 11];
  }

  /** Of 8..11, only 9 contains the digit 9. */
  lemma NineKept()
    ensures var keep := Keep([TextEntry("9")], []);
      keep(8) && !keep(9) && keep(10) && keep(11)
  {
    assert Keep([TextEntry("9")], [])(8) by {
      Strings.NotContainsChar("8", "9", 0);
    }
    assert !Keep([TextEntry("9")], [])(9) by {
      assert Strings.Contains("9", "9");
    }
    assert Keep([TextEntry("9")], [])(10) by {
      assert Decimal.NatToString(10) == "10";
      Strings.NotContainsChar("10", "9", 0);
    }
    assert Keep([TextEntry("9")], [])(11) by {
      assert Decimal.NatToString(11) == "11";
      Strings.NotContainsChar("11", "9", 0);
    }
  }
}
