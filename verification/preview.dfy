/**
 validate-config.js: the presence marks of the required configuration fields
 and the preview of the scan range, whose inline filter repeats the exclusion
 rule of `shouldSkipDomain`.

 Reading the file and parsing it are inputs (`Source`); the console output is
 reduced to what each printed line depends on.
 */
module Preview {
  import opened Optional
  import opened Decimal
  import opened Strings
  import opened Filter
  import opened Candidates
  import opened Json

  // ---------------------------------------------------------------------
  // The inline filter
  // ---------------------------------------------------------------------

  /** The callback of `allNumbers.filter(...)`: the same rule as
      `shouldSkipDomain`, negated, written out as two loops. */
  method KeepInline(n: int, skipNumbers: seq<SkipNumber>, patterns: seq<Pattern>) returns (keep: bool)
    ensures keep <==> !ShouldSkip(n, skipNumbers, patterns)
  {
    var s := IntToString(n);
    var k := 0;
    while k < |skipNumbers|
      invariant 0 <= k <= |skipNumbers|
      invariant forall j :: 0 <= j < k ==> !Contains(s, skipNumbers[j].ToString())
    {
      if Contains(s, skipNumbers[k].ToString()) {
        return false;
      }
      k := k + 1;
    }
    k := 0;
    while k < |patterns|
      invariant 0 <= k <= |patterns|
      invariant forall j :: 0 <= j < k ==> !(patterns[j].Compiled? && patterns[j].test(s))
    {
      // A pattern that does not compile is reported and passed over.
      if patterns[k].Compiled? && patterns[k].test(s) {
        return false;
      }
      k := k + 1;
    }
    return true;
  }

  /** `filteredNumbers`: the candidates the inline filter keeps. */
  method FilterInline(all: seq<int>, skipNumbers: seq<SkipNumber>, patterns: seq<Pattern>) returns (filtered: seq<int>)
    ensures filtered == Select(all, Keep(skipNumbers, patterns))
  {
    filtered := [];
    var i := 0;
    while i < |all|
      invariant 0 <= i <= |all|
      invariant filtered == Select(all[..i], Keep(skipNumbers, patterns))
    {
      var keep := KeepInline(all[i], skipNumbers, patterns);
      SelectPrefixStep(all, i, Keep(skipNumbers, patterns));
      assert keep == Keep(skipNumbers, patterns)(all[i]);
      if keep {
        filtered := filtered + [all[i]];
      }
      i := i + 1;
    }
    assert all[..|all|] == all;
  }

  /** The previewer keeps exactly the candidates the browser scanner scans. */
  method FilterAgrees(start: int, end: int, skipNumbers: seq<SkipNumber>, patterns: seq<Pattern>) returns (filtered: seq<int>)
    ensures filtered == Numbers(start, end, skipNumbers, patterns)
    ensures forall n :: n in filtered <==> start <= n <= end && !ShouldSkip(n, skipNumbers, patterns)
  {
    filtered := FilterInline(Range(start, end), skipNumbers, patterns);
    NumbersSpec(start, end, skipNumbers, patterns);
  }

  // ---------------------------------------------------------------------
  // Example lines
  // ---------------------------------------------------------------------

  /** `xs.slice(0, k)` */
  function Take(xs: seq<int>, k: nat): (r: seq<int>)
    ensures |r| == if |xs| < k then |xs| else k
    ensures r <= xs
  {
    if |xs| < k then xs else xs[..k]
  }

  /** `n + '.xyz'` */
  function DomainName(n: int): string {
    IntToString(n) + ".xyz"
  }

  /** `xs.map(n => n + '.xyz').join(', ')` */
  function JoinNames(xs: seq<int>): string
    decreases |xs|
  {
    if |xs| == 0 then ""
    else if |xs| == 1 then DomainName(xs[0])
    else DomainName(xs[0]) + ", " + JoinNames(xs[1..])
  }

  /** The list of examples, followed by `...` when `more` holds. */
  function ExamplesLine(xs: seq<int>, more: bool): string {
    JoinNames(xs) + (if more then "..." else "")
  }

  predicate EndsWith(s: string, suffix: string) {
    |suffix| <= |s| && s[|s| - |suffix|..] == suffix
  }

  lemma {:induction false} JoinNamesEnd(xs: seq<int>)
    requires |xs| > 0
    ensures EndsWith(JoinNames(xs), ".xyz")
    decreases |xs|
  {
    if |xs| > 1 {
      JoinNamesEnd(xs[1..]);
      var rest := JoinNames(xs[1..]);
      var head := DomainName(xs[0]) + ", ";
      assert JoinNames(xs) == head + rest;
      assert (head + rest)[|head + rest| - 4..] == rest[|rest| - 4..];
    }
  }

  /** A non-empty example line ends with `...` exactly when more values
      exist than are shown. */
  lemma EllipsisIffMore(xs: seq<int>, more: bool)
    requires |xs| > 0
    ensures EndsWith(ExamplesLine(xs, more), "...") <==> more
  {
    JoinNamesEnd(xs);
    var j := JoinNames(xs);
    if !more {
      assert ExamplesLine(xs, more) == j;
      assert j[|j| - 1] == 'z';
    } else {
      assert ExamplesLine(xs, more) == j + "...";
    }
  }

  // ---------------------------------------------------------------------
  // The range preview
  // ---------------------------------------------------------------------

  /** What the preview prints: the three counts, whether the skip-number and
      skip-pattern lines appear, and the two example lines when they appear. */
  datatype RangePreview = RangePreview(
    total: nat,
    scanned: nat,
    skipped: int,
    skipNumbersShown: bool,
    skippedLine: Option<string>,
    patternsShown: bool,
    scanLine: Option<string>)

  /** `allNumbers.filter(n => !filteredNumbers.includes(n))` */
  function NotIn(all: seq<int>, filtered: seq<int>): seq<int> {
    Select(all, n => n !in filtered)
  }

  /** Lines 51-105 of `validateConfig` for numeric `start` and `end`. */
  method PreviewRange(start: int, end: int, skipNumbers: seq<SkipNumber>, patterns: seq<Pattern>) returns (p: RangePreview)
    ensures p.total == |Range(start, end)|
    ensures p.scanned == |Numbers(start, end, skipNumbers, patterns)|
    ensures p.skipped == |Skipped(start, end, skipNumbers, patterns)| == p.total - p.scanned
    ensures p.skipNumbersShown <==> |skipNumbers| > 0
    ensures p.patternsShown <==> |patterns| > 0
    // The skipped examples appear only when skip numbers are configured, even
    // if patterns alone skipped something.
    ensures p.skippedLine.Some? <==> |skipNumbers| > 0 && p.skipped > 0
    ensures p.skippedLine.Some? ==>
      p.skippedLine.value == ExamplesLine(Take(Skipped(start, end, skipNumbers, patterns), 10), p.skipped > 10)
    ensures p.scanLine.Some? <==> p.scanned > 0
    ensures p.scanLine.Some? ==>
      p.scanLine.value == ExamplesLine(Take(Numbers(start, end, skipNumbers, patterns), 10), p.scanned > 10)
  {
    var all := Range(start, end);
    var filtered := FilterInline(all, skipNumbers, patterns);
    var skippedCount := |all| - |filtered|;
    SkippedCountSpec(start, end, skipNumbers, patterns);
    var skippedLine: Option<string> := None;
    if |skipNumbers| > 0 {
      var skippedExamples := Take(NotIn(all, filtered), 10);
      NotInSkipped(start, end, skipNumbers, patterns, filtered);
      if |skippedExamples| > 0 {
        skippedLine := Some(ExamplesLine(skippedExamples, |skippedExamples| < skippedCount));
      }
    }
    var scanLine: Option<string> := None;
    if |filtered| > 0 {
      var scanExamples := Take(filtered, 10);
      scanLine := Some(ExamplesLine(scanExamples, |scanExamples| < |filtered|));
    }
    p := RangePreview(|all|, |filtered|, skippedCount, |skipNumbers| > 0, skippedLine, |patterns| > 0, scanLine);
  }

  /** The values of the range missing from the kept list are the skipped
      ones, since the range has no repeats. */
  lemma NotInSkipped(start: int, end: int, skipNumbers: seq<SkipNumber>, patterns: seq<Pattern>, filtered: seq<int>)
    requires filtered == Select(Range(start, end), Keep(skipNumbers, patterns))
    ensures NotIn(Range(start, end), filtered) == Skipped(start, end, skipNumbers, patterns)
  {
    var all := Range(start, end);
    forall i | 0 <= i < |all|
      ensures (all[i] !in filtered) == ShouldSkip(all[i], skipNumbers, patterns)
    {
      assert Keep(skipNumbers, patterns)(all[i]) == !ShouldSkip(all[i], skipNumbers, patterns);
    }
    SelectCongruent(all, n => n !in filtered, n => ShouldSkip(n, skipNumbers, patterns));
  }

  // ---------------------------------------------------------------------
  // The whole validation
  // ---------------------------------------------------------------------

  /** The configuration file as found: absent, not valid JSON, or parsed. */
  datatype Source = Missing | Unparsable | Parsed(config: Json)

  /** What ends the `try` block early. */
  datatype Failure = SyntaxError | TypeError | RangeError

  /** One line of the required-field check. */
  datatype FieldMark = FieldMark(field: string, present: bool)

  datatype RangeOutcome =
    | NoPreview
    | Previewed(preview: RangePreview)
    /** `start`, `end` or a filter list has a shape whose JavaScript coercions
        are not modelled (a non-number bound, a non-array list, ...). */
    | NotCovered

  /** How `validateConfig()` ends. A failure carries the field marks printed
      before the exception: none when parsing or reading `config.scan`
      failed, all of them when building the range threw. */
  datatype Outcome =
    | NoConfig
    | Failed(failure: Failure, marks: seq<FieldMark>)
    | Validated(marks: seq<FieldMark>, range: RangeOutcome)

  /** The required fields, as section and key. */
  const RequiredFields: seq<(string, string)> := [
    ("scan", "start"), ("scan", "end"), ("scan", "concurrency"), ("scan", "targetSnippet"),
    ("filter", "skipNumbers"), ("output", "resultFile"), ("output", "errorFile")]

  /** `config.<section>?.<key>` on a configuration that is not null. */
  function FieldValue(config: Json, field: (string, string)): Json {
    Chain(Member(config, field.0), field.1)
  }

  /** `value !== undefined ? '✅' : '❌'`; `null` counts as present. */
  function Marks(config: Json): (marks: seq<FieldMark>)
    ensures |marks| == |RequiredFields|
    ensures forall k :: 0 <= k < |marks| ==>
      marks[k].field == RequiredFields[k].0 + "." + RequiredFields[k].1 &&
      (marks[k].present <==> !FieldValue(config, RequiredFields[k]).Undefined?)
    // In terms of the parsed document: a field is present exactly when the
    // configuration is an object whose section is an object holding the key
    // with a value other than `undefined`.
    ensures forall k :: 0 <= k < |marks| ==>
      var section, key := RequiredFields[k].0, RequiredFields[k].1;
      (marks[k].present <==>
        config.Obj? && section in config.fields && config.fields[section].Obj? &&
        key in config.fields[section].fields && config.fields[section].fields[key] != Undefined)
  {
    seq(|RequiredFields|, k requires 0 <= k < |RequiredFields| =>
      FieldMark(RequiredFields[k].0 + "." + RequiredFields[k].1, FieldValue(config, RequiredFields[k]) != Undefined))
  }

  /** `filter.skipNumbers` as far as the model covers it: an array of
      numbers and strings. */
  function SkipNumbersOf(v: Json): Option<seq<SkipNumber>>
    decreases v
  {
    match v
    case Arr(items) =>
      if forall k :: 0 <= k < |items| ==> items[k].Num? || items[k].Str? then
        Some(seq(|items|, k requires 0 <= k < |items| =>
          if items[k].Num? then NumberEntry(items[k].x) else TextEntry(items[k].s)))
      else None
    case _ => None
  }

  /** `filter.skipPatterns` as far as the model covers it: an array of
      strings, each given to `new RegExp`. */
  function PatternsOf(v: Json, compile: string -> Pattern): Option<seq<Pattern>> {
    match v
    case Arr(items) =>
      if forall k :: 0 <= k < |items| ==> items[k].Str? then
        Some(seq(|items|, k requires 0 <= k < |items| => compile(items[k].s)))
      else None
    case _ => None
  }

  /** `config.filter || {}` */
  function FilterSection(config: Json): Json {
    Or(Member(config, "filter"), Obj(map[]))
  }

  /** `skipNumbers` of `const { skipNumbers = [], ... } = config.filter || {}`,
      where the model covers its shape. */
  function ConfiguredSkipNumbers(config: Json): Option<seq<SkipNumber>> {
    SkipNumbersOf(WithDefault(FilterSection(config), "skipNumbers", Arr([])))
  }

  /** `skipPatterns` of the same destructuring, where the model covers its shape. */
  function ConfiguredPatterns(config: Json, compile: string -> Pattern): Option<seq<Pattern>> {
    PatternsOf(WithDefault(FilterSection(config), "skipPatterns", Arr([])), compile)
  }

  /** The largest length an array can have. */
  const MaxArrayLength := 0xFFFF_FFFF

  /** `validateConfig()` */
  method ValidateConfig(source: Source, compile: string -> Pattern) returns (o: Outcome)
    ensures source.Missing? <==> o.NoConfig?
    ensures source.Unparsable? <==> o == Failed(SyntaxError, [])
    // Reading `config.scan` of a null configuration throws before any mark.
    ensures source.Parsed? && source.config.IsNullish() ==> o == Failed(TypeError, [])
    // Otherwise every mark is printed, whether or not the range then throws.
    ensures source.Parsed? && !source.config.IsNullish() ==>
      (o.Validated? || (o.Failed? && o.failure == RangeError)) && o.marks == Marks(source.config)
    // The preview runs only when both bounds are truthy, so a start of 0 skips it.
    ensures o.Validated? ==>
      (o.range.NoPreview? <==>
        !(Truthy(FieldValue(source.config, ("scan", "start"))) && Truthy(FieldValue(source.config, ("scan", "end")))))
    // A numeric range too long for an array throws.
    ensures o.Failed? && o.failure == RangeError ==>
      var start := FieldValue(source.config, ("scan", "start"));
      var end := FieldValue(source.config, ("scan", "end"));
      start.Num? && end.Num? && end.x - start.x + 1 > MaxArrayLength
    ensures o.Validated? && o.range.Previewed? ==>
      var start := FieldValue(source.config, ("scan", "start"));
      var end := FieldValue(source.config, ("scan", "end"));
      start.Num? && end.Num? && start.x != 0 && end.x != 0 &&
      o.range.preview.total == |Range(start.x, end.x)| <= MaxArrayLength
    // With truthy bounds, which branch is taken is decided by the shapes of
    // the bounds and lists, and by the length of the range.
    ensures source.Parsed? && !source.config.IsNullish() ==>
      var start := FieldValue(source.config, ("scan", "start"));
      var end := FieldValue(source.config, ("scan", "end"));
      var sn := ConfiguredSkipNumbers(source.config);
      var ps := ConfiguredPatterns(source.config, compile);
      Truthy(start) && Truthy(end) && !(start.Num? && end.Num? && sn.Some? && ps.Some?) ==>
        o == Validated(Marks(source.config), NotCovered)
    ensures source.Parsed? && !source.config.IsNullish() ==>
      var start := FieldValue(source.config, ("scan", "start"));
      var end := FieldValue(source.config, ("scan", "end"));
      var sn := ConfiguredSkipNumbers(source.config);
      var ps := ConfiguredPatterns(source.config, compile);
      start.Num? && end.Num? && start.x != 0 && end.x != 0 && sn.Some? && ps.Some? ==>
        if end.x - start.x + 1 > MaxArrayLength then
          o == Failed(RangeError, Marks(source.config))
        else
          // The preview counts and example lines follow the configured lists.
          && o.Validated? && o.range.Previewed?
          && o.range.preview.total == |Range(start.x, end.x)|
          && o.range.preview.scanned == |Numbers(start.x, end.x, sn.value, ps.value)|
          && o.range.preview.skipped == |Skipped(start.x, end.x, sn.value, ps.value)|
          && o.range.preview.skippedLine ==
            (if |sn.value| > 0 && o.range.preview.skipped > 0
             then Some(ExamplesLine(Take(Skipped(start.x, end.x, sn.value, ps.value), 10), o.range.preview.skipped > 10))
             else None)
          && o.range.preview.scanLine ==
            (if o.range.preview.scanned > 0
             then Some(ExamplesLine(Take(Numbers(start.x, end.x, sn.value, ps.value), 10), o.range.preview.scanned > 10))
             else None)
  {
    match source
    case Missing =>
      return NoConfig;
    case Unparsable =>
      return Failed(SyntaxError, []);
    case Parsed(config) =>
      if config.IsNullish() {
        return Failed(TypeError, []);
      }
      var marks := Marks(config);
      var start := FieldValue(config, ("scan", "start"));
      var end := FieldValue(config, ("scan", "end"));
      if !(Truthy(start) && Truthy(end)) {
        return Validated(marks, NoPreview);
      }
      var skipNumbers := ConfiguredSkipNumbers(config);
      var patterns := ConfiguredPatterns(config, compile);
      if !start.Num? || !end.Num? || skipNumbers.None? || patterns.None? {
        return Validated(marks, NotCovered);
      }
      if end.x - start.x + 1 > MaxArrayLength {
        return Failed(RangeError, marks);
      }
      var p := PreviewRange(start.x, end.x, skipNumbers.value, patterns.value);
      return Validated(marks, Previewed(p));
  }

  /** A field set to `null` is marked present, a missing one absent, and a
      missing section marks all its fields absent without throwing. */
  lemma MarksOfPartialConfig()
    ensures var config := Obj(map["scan" := Obj(map["start" := Null])]);
      Marks(config)[0] == FieldMark("scan.start", true) &&
      Marks(config)[1] == FieldMark("scan.end", false) &&
      Marks(config)[5] == FieldMark("output.resultFile", false)
  {
    var config := Obj(map["scan" := Obj(map["start" := Null])]);
    assert FieldValue(config, RequiredFields[0]) == Null;
    assert FieldValue(config, RequiredFields[1]) == Undefined;
    assert FieldValue(config, RequiredFields[5]) == Undefined;
  }
}
