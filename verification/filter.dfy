/**
 The exclusion rule of the scanners (`shouldSkipDomain` in
 check-price-puppeteer.js): a candidate is skipped when its decimal form
 contains one of the configured skip numbers, or when one of the configured
 regular expressions matches it. A pattern that does not compile is reported
 and ignored.

 The regular-expression engine is not modelled: a compiled pattern is an
 opaque test on strings.
 */
module Filter {
  import opened Decimal
  import opened Strings

  /** An entry of `filter.skipNumbers`: the configuration may list numbers or strings. */
  datatype SkipNumber = NumberEntry(value: int) | TextEntry(text: string) {
    /** `skipNum.toString()` */
    function ToString(): string {
      match this
      case NumberEntry(v) => IntToString(v)
      case TextEntry(t) => t
    }
  }

  /** An entry of `filter.skipPatterns` after `new RegExp(pattern)`: either the
      constructor threw, or the result is a matcher whose `test` is opaque. */
  datatype Pattern = Invalid(source: string) | Compiled(source: string, test: string -> bool)

  /** Some skip number occurs in `s` (the first loop of `shouldSkipDomain`). */
  function SkipsByNumber(s: string, skipNumbers: seq<SkipNumber>): (r: bool)
    ensures r <==> exists k :: 0 <= k < |skipNumbers| && Contains(s, skipNumbers[k].ToString())
    decreases |skipNumbers|
  {
    if |skipNumbers| == 0 then false
    else if Contains(s, skipNumbers[0].ToString()) then true
    else
      var rest := SkipsByNumber(s, skipNumbers[1..]);
      assert forall k :: 1 <= k < |skipNumbers| ==> skipNumbers[k] == skipNumbers[1..][k - 1];
      rest
  }

  /** Some compiled pattern matches `s` (the second loop; a pattern that threw is passed over). */
  function SkipsByPattern(s: string, patterns: seq<Pattern>): (r: bool)
    ensures r <==> exists k :: 0 <= k < |patterns| && patterns[k].Compiled? && patterns[k].test(s)
    decreases |patterns|
  {
    if |patterns| == 0 then false
    else if patterns[0].Compiled? && patterns[0].test(s) then true
    else
      var rest := SkipsByPattern(s, patterns[1..]);
      assert forall k :: 1 <= k < |patterns| ==> patterns[k] == patterns[1..][k - 1];
      rest
  }

  /** `shouldSkipDomain(n)` */
  predicate ShouldSkip(n: int, skipNumbers: seq<SkipNumber>, patterns: seq<Pattern>) {
    var s := IntToString(n);
    SkipsByNumber(s, skipNumbers) || SkipsByPattern(s, patterns)
  }

  /** A pattern that failed to compile never causes a skip, wherever it sits in
      the list: inserting it changes nothing, and the patterns after it are
      still consulted. */
  lemma InvalidPatternIgnored(n: int, skipNumbers: seq<SkipNumber>, patterns: seq<Pattern>, i: nat, source: string)
    requires i <= |patterns|
    ensures ShouldSkip(n, skipNumbers, patterns[..i] + [Invalid(source)] + patterns[i..])
        == ShouldSkip(n, skipNumbers, patterns)
  {
    var s := IntToString(n);
    var longer := patterns[..i] + [Invalid(source)] + patterns[i..];
    if SkipsByPattern(s, patterns) {
      var k :| 0 <= k < |patterns| && patterns[k].Compiled? && patterns[k].test(s);
      if k < i {
        assert longer[k] == patterns[k];
      } else {
        assert longer[k + 1] == patterns[k];
      }
    }
    if SkipsByPattern(s, longer) {
      var k :| 0 <= k < |longer| && longer[k].Compiled? && longer[k].test(s);
      if k < i {
        assert patterns[k] == longer[k];
      } else {
        assert patterns[k - 1] == longer[k];
      }
    }
  }
}
