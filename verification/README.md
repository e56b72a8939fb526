# Spaceship `.xyz` price scanner — a Dafny model

The repository scans a range of numeric `.xyz` domain names on a registrar's
search page. It reports the names whose page shows a target marker. Three
scripts make up the core:

- **check-price-puppeteer.js** renders each candidate page in a browser. It
  skips candidates by configured rules (`shouldSkipDomain`). It records hits
  in a Markdown result file, and deduplicates them against the identifiers
  already in that file. A pool of workers shares one cursor over the
  candidates.
- **check-price.js** fetches the pages of the fixed range `112500..112599`
  over plain HTTP. It uses a retry loop with linear backoff (the base times
  the attempt number) and random jitter (`getPageText`), and records hits as
  bare URLs (`processOne`).
- **validate-config.js** checks the configuration. It marks the required
  fields as present or missing and previews the scan range. The preview uses
  an inline copy of the skip rule, the skipped count and example lines.

The model is pure Dafny. The network, the browser, the files, the clock and
`Math.random()` become inputs:

- a page outcome per candidate;
- a fetch answer per attempt;
- a clock function for the error-line timestamps;
- a random draw in `[0, 1)` per sleep.

The result and error logs are sequences of lines. Cooperative concurrency is
modelled as an arbitrary interleaving of single worker steps (`Pool.Step`).
Each step claims the next index, finishes the claimed candidate, or leaves
the loop.

The modules, one file each:

| module | file | models |
|---|---|---|
| `Optional` | option.dfy | option type |
| `Decimal` | decimal.dfy | `Number.prototype.toString()` on integers, digit strings |
| `Strings` | strings.dfy | `String.prototype.includes` |
| `Filter` | filter.dfy | `shouldSkipDomain` |
| `Candidates` | candidates.dfy | the candidate range, the filtered list, the skipped count |
| `ResultFile` | resultfile.dfy | `buildUrl`, the result-file lines, the startup scan `/\[(\d+)\.xyz\]/g` |
| `Record` | record.dfy | the record decision of `checkOne` and the dedup invariant |
| `Pool` | pool.dfy | the shared cursor of the workers of both scanners |
| `Scan` | scan.dfy | a whole run of check-price-puppeteer.js |
| `Fetch` | fetch.dfy | `jitter`, error classification, backoff, `getPageText`, `processOne` |
| `Sweep` | sweep.dfy | a whole run of check-price.js |
| `Json` | json.dfy | the JavaScript value operations the validator uses |
| `Preview` | preview.dfy | `validateConfig` |

### Behaviour of the code worth knowing

- The startup scan's regular expression matches only `[<digits>.xyz]`
  (check-price-puppeteer.js:207). A bare URL line saved under `saveOk` is
  therefore never read back, and a URL candidate is not deduplicated across
  runs. `ResultFile.ScanUrlLine` proves it.
- A hit line of a negative candidate (`## [-5.xyz](...)`) is not read back
  either, because `-` is not a digit. `ResultFile.ScanHitLine` proves it.
- Of the counters, check-price-puppeteer.js updates `hits` and `processed`
  (lines 250-251, 265, 271) and none for duplicates; its `skipped` (line 252)
  is never updated. check-price.js keeps only `hits` (line 122) and has no
  dedup set.
- check-price.js deletes its output file at startup (line 116), so each of
  its runs starts with an empty output.
- The browser scanner tests for the literal `is available` (line 169). The
  configured `targetSnippet` is never read there.
- `jitter` of check-price-puppeteer.js (lines 105-107) is the same formula as
  that of check-price.js. `Fetch.Jitter` models both.

## Model

| member | source | states |
|---|---|---|
| Decimal.IntToStringInjective | check-price-puppeteer.js:174-176 | Two candidates have the same `n.toString()` key in the dedup set exactly when they are the same number. |
| Decimal.ParseNatToString | check-price-puppeteer.js:210 | Reading back the digits of a non-negative number's decimal form gives the number. |
| Filter.SkipsByNumber | check-price-puppeteer.js:75-80 | The first loop reports a skip exactly when some skip number's string form occurs in the candidate's decimal form. |
| Filter.SkipsByPattern | check-price-puppeteer.js:83-92 | The second loop reports a skip exactly when some pattern that compiled matches. A pattern whose constructor threw is never consulted. |
| Filter.InvalidPatternIgnored | check-price-puppeteer.js:83-92 | Inserting a pattern that fails to compile, anywhere in the list, never changes whether a candidate is skipped. The patterns after it are still applied. |
| Candidates.Range | check-price-puppeteer.js:220 | The range has `END - START + 1` elements. It is empty when `END < START`, because the negative array length is clamped to zero. |
| Candidates.RangeContents | check-price-puppeteer.js:220 | The range holds exactly the integers between the bounds, strictly ascending. |
| Candidates.Select | check-price-puppeteer.js:221 | `filter` keeps exactly the elements that satisfy the callback, and never lengthens the list. |
| Candidates.SelectAscending | check-price-puppeteer.js:221 | Filtering an ascending list gives an ascending list. |
| Candidates.NumbersSpec | check-price-puppeteer.js:220-221 | The scanned numbers are exactly the range's integers that `shouldSkipDomain` does not skip. They are ascending, each once. |
| Candidates.SkippedCountSpec | check-price-puppeteer.js:223 | `skippedCount` is never negative. It equals the number of range values the rule skips, and these are exactly the skipped integers, ascending. |
| Candidates.ExampleSkipDigitNine | check-price-puppeteer.js:220-223 | For the range 8..11 with skip number `"9"`, the scan visits 8, 10 and 11 and skips one candidate. |
| ResultFile.MatchAt | check-price-puppeteer.js:207 | A regex match at a position is `[`, a non-empty digit run, then `.xyz]`. The captured identifier is the digit run. |
| ResultFile.MatchAtIff | check-price-puppeteer.js:207 | The pattern matches at the front of a text with capture `d` and length six more than that of `d` exactly when the text starts with `[d.xyz]` for a non-empty digit string `d`. |
| ResultFile.ScanIds | check-price-puppeteer.js:207-211 | Every identifier the startup scan collects is a non-empty string of digits. |
| ResultFile.ScanIdsIff | check-price-puppeteer.js:207-211 | The startup scan collects `d` exactly when `d` is a non-empty digit string and `[d.xyz]` occurs in the file. Matches cannot overlap, so no occurrence is hidden by an earlier match. |
| ResultFile.SeedIff | check-price-puppeteer.js:204-217 | The dedup set read from a prior file holds exactly the digit strings `d` for which `[d.xyz]` occurs in it. |
| ResultFile.BuildUrlNoBracket | check-price-puppeteer.js:97-99 | A candidate URL contains no `[`, so it cannot start a match inside a hit line. |
| ResultFile.ScanHitLine | check-price-puppeteer.js:175 | The scan reads `n.toString()` back from the hit line `## [n.xyz](url)` for non-negative `n`. It reads nothing from the line of a negative `n`. |
| ResultFile.ScanUrlLine | check-price-puppeteer.js:185 | The scan reads nothing back from a bare URL line. |
| ResultFile.ScanRender | check-price-puppeteer.js:206-211 | Scanning a file made of appended lines recovers the identifiers of its non-negative hit lines, in order. |
| ResultFile.ScanAfterAppend | check-price-puppeteer.js:204-217 | Whatever the prior file holds, scanning it after more lines are appended gives its own identifiers, then those of the new hit lines. |
| ResultFile.SeedAfterAppend | check-price-puppeteer.js:204-217 | The dedup set seeded from the longer file is the old seed plus the appended non-negative hits. |
| Record.CheckOne | check-price-puppeteer.js:137-197 | The record decision has the following cases. A thrown navigation is an error result carrying the exception's message, adds exactly one error line and changes nothing else. A hit is exactly a page containing `is available`. A duplicate is exactly a hit whose key is already in the set, and it changes nothing. A hit line is appended exactly for a new hit. A bare URL line is appended exactly for a non-hit with status 200 under `saveOk`. At most one line is appended, and it is about `n`. `saved` tells whether a line was appended. The set grows only by the key of a new hit. |
| Record.CheckOneKeepsDedup | check-price-puppeteer.js:172-181 | After any record decision, the set is still the seed plus the recorded hits. No hit is recorded twice, and none that the seed already held. |
| Record.CheckOneExisting | check-price-puppeteer.js:172-181 | The set gains the candidate's key exactly on a hit and is otherwise unchanged, whether or not the key was there before. |
| Record.CheckOneHitCount | check-price-puppeteer.js:172-181 | Exactly a counted hit (neither an error nor a duplicate) adds one identifier to the recorded hit lines. |
| Record.RecoveredAreHits | check-price-puppeteer.js:207-211 | Without negative candidates, the startup scan reads back exactly the recorded hit identifiers. |
| Pool.StepValid | check-price-puppeteer.js:255-272 | Every worker step keeps the cursor invariant: each index below `idx` is claimed once and is then held by one worker or finished once. A claim takes `idx` and increments it. A finish records the worker's own index. Each step of a live worker decreases the measure of remaining work. |
| Pool.AllExitedComplete | check-price-puppeteer.js:256 | Once every worker of a non-empty pool has left its loop, the cursor is exhausted and every index was finished exactly once. |
| Pool.CountWhereSet | check-price-puppeteer.js:271 | Over finished indices without repeats, a count of finished candidates is the size of the set it counts. |
| Scan.AdvanceInv | check-price-puppeteer.js:255-272 | A worker step keeps the run invariant. The invariant is that `processed` is the number of finished candidates and the dedup set is the seed plus the hits finished so far. It also requires that `hits` counts each recorded hit line once, that the error log has one line per finished candidate whose navigation threw, and that the result lines are exactly those the finished candidates append in finishing order. |
| Scan.AppendedUrls | check-price-puppeteer.js:184-186 | The lines a run appends hold exactly one bare-URL line per finished candidate whose page loaded with status 200 without the marker while `saveOk` is on. |
| Scan.FinishedRun | check-price-puppeteer.js:249-283 | At the end of a run, every candidate has been processed once. The set is the seed plus all hits. `hits` is the number of hits not in the seed. There is one error line per thrown navigation. Every candidate that saves its bare URL has its line in the result file, there are exactly as many bare-URL lines as such candidates, and the file gained nothing beyond those lines and one hit line per new hit. |
| Scan.RunScan | check-price-puppeteer.js:249-283 | Under any interleaving of the workers, the run ends with every worker gone. If there is at least one worker, the guarantees of `FinishedRun` hold, including the bare-URL lines and the total number of appended lines. With no worker, nothing is processed. |
| Scan.NextRunSeed | check-price-puppeteer.js:204-217 | Without negative candidates, the next run's startup scan of the result file rebuilds exactly the dedup set this run ended with. |
| Scan.TwoRunsNoDuplicate | check-price-puppeteer.js:172-176 | Without negative candidates in the first run, a second run over the file the first run left never records a hit the first run recorded. So the hit lines of both runs name each candidate at most once. |
| Scan.LinesStep | check-price-puppeteer.js:172-187 | Whatever `checkOne` appends for a candidate is a line that candidate writes: its hit line when the page shows the marker, its bare URL when the page loaded with status 200 without the marker and `saveOk` is on. |
| Scan.ExampleOneHit | check-price-puppeteer.js:249-272 | Take candidates 100..104, with only 102's page showing the marker, `saveOk` off and an empty seed. Under any interleaving the run ends with one hit, five processed candidates, no error line, the set `{"102"}` and the result file holding the single line `## [102.xyz](...)`. |
| Fetch.Jitter | check-price.js:27-29 | `jitter(min, max)` lies in `[min, max]` when `min <= max`. Otherwise it lies in `(max, min]`. |
| Fetch.JitterCovers | check-price.js:27-29 | Every value of a non-empty `[min, max]` is produced by some random draw. |
| Fetch.Classify | check-price.js:75-85 | An attempt yields the page text, its body, exactly when it was answered with an `ok` status (200-299). A thrown fetch fails with its own message, a 403 with `HTTP 403 (blocked)`, any other non-ok status with `HTTP <status>`. |
| Fetch.StatusBackoffBase | check-price.js:76-90 | After a non-ok answer with a three-digit status, the backoff base is 1200 for 403 (`HTTP 403 (blocked)`). It is 700 for every other status, whose message `HTTP <status>` never mentions 403. |
| Fetch.BackoffDelay | check-price.js:90-91 | The delay after failure `k` lies between `base*k` and `base*k + 600`. |
| Fetch.BackoffIncreasing | check-price.js:87-91 | With the same base, a later retry waits strictly longer than an earlier one, whatever the random draws. |
| Fetch.GetPageText | check-price.js:69-94 | The loop makes between 1 and `RETRIES+1` fetches, and every fetch but the last failed. The outcome is the last fetch's, and a failure rethrows after exactly `RETRIES+1` fetches. Text comes back exactly when one of the first `RETRIES+1` attempts succeeds. The sleeps alternate: a pre-request jitter in `[120, 400]` before each fetch, then the backoff of the failure just seen, then after a success one jitter in `[80, 200]`. |
| Fetch.ProcessOne | check-price.js:100-113 | A hit is exactly a page containing the target snippet whose URL was written, and it appends exactly that URL. A fetch failure appends exactly one error line with the URL and the fetch's message; a failed write on a hit appends exactly one with the URL and the write's message. Neither appends to the output. A miss appends nothing and reports no hit. |
| Sweep.AdvanceInv | check-price.js:124-136 | A worker step keeps the run invariant: the output file holds the URLs of the finished hits in finishing order, `hits` is its length, and there is one error line per finished failure. |
| Sweep.FinishedSweep | check-price.js:115-146 | At the end of a run, `hits` equals the number of output lines and the number of hit candidates. Every hit's URL is in the output file, and there is one error line per failed candidate. |
| Sweep.RunSweep | check-price.js:115-146 | Under any interleaving of at least one worker, every candidate is processed once and `FinishedSweep` holds. |
| Sweep.ConfiguredRange | check-price.js:8-11 | The fixed range has 100 ascending candidates from 112500 to 112599. The pool has workers, and the retry budget `RETRIES + 1` allows 4 fetches per candidate. |
| Preview.KeepInline | validate-config.js:52-75 | The validator's inline filter keeps a candidate exactly when `shouldSkipDomain` would not skip it. The two rules agree. |
| Preview.FilterInline | validate-config.js:52-75 | `filteredNumbers` is the candidate list filtered by the skip rule. |
| Preview.FilterAgrees | validate-config.js:51-75 | For a configuration whose `skipNumbers` and `skipPatterns` are both arrays, the validator previews exactly the candidates the browser scanner scans: the range values its skip rule keeps. |
| Preview.NotInSkipped | validate-config.js:88-90 | The range values missing from `filteredNumbers` are exactly the skipped ones, in ascending order. |
| Preview.EllipsisIffMore | validate-config.js:93 | A non-empty example line ends with `...` exactly when more values exist than are shown. |
| Preview.PreviewRange | validate-config.js:77-105 | The preview lines are as follows. The totals are the range size, the kept count and the skipped count, with skipped = total − kept. The skipped-examples line appears exactly when skip numbers are configured and something was skipped. It lists the first ten skipped values and ends with `...` exactly when more than ten were skipped. The scan-examples line appears exactly when something is kept. It lists the first ten kept values and ends with `...` exactly when more than ten are kept. |
| Preview.Marks | validate-config.js:27-41 | There is one mark per required field, named `section.key`. A field is marked present exactly when the configuration is an object whose section is an object holding the key with a value other than `undefined`. A missing or non-object section marks its fields absent. |
| Preview.MarksOfPartialConfig | validate-config.js:27-41 | A field set to `null` is marked present. A missing field or section is marked absent, without throwing. |
| Preview.ValidateConfig | validate-config.js:8-113 | A missing file ends quietly and an unparsable one fails with a syntax error. A `null` configuration fails on its first property read. Otherwise all marks are printed, also when the range then throws. The range preview is skipped exactly when `scan.start` or `scan.end` is falsy, so a start of 0 skips it. With truthy bounds: numeric bounds and array lists of the covered shapes give a preview whose total, scanned and skipped counts and example lines are those of the range filtered by the configured `skipNumbers` and `skipPatterns` (missing lists read as `[]`), unless the range is too long for an array, which fails with a range error; any other shape is reported as not covered. |

## Left out

- The browser is not modelled: launch, page creation, the warm-up navigation, the waits and `page.close()` (check-price-puppeteer.js:113-166, 228-247). Its result per candidate is the `PageOutcome` input. A failure of page creation, which is outside the `try`, is not modelled either.
- `fetch`, its headers, the user-agent rotation and the `AbortController` timeout (check-price.js:31-67) are network I/O. What each attempt produced is the `Attempt` input. The random draw of the user-agent choice is not among the modelled draws.
- Sleeps are not awaited. `getPageText` returns the durations it would sleep, but the pacing sleeps between tasks and inside `checkOne` are not recorded. Elapsed time and `toISOString` are not modelled; timestamps come from a clock input.
- Floating point: `Math.random() * width` is computed exactly on reals. Configuration numbers are integers.
- Console output is not modelled, except which preview lines appear and the text of the example lines. The list texts `skipNumbers.join(', ')` and `skipPatterns.join(', ')` are not modelled.
- The configuration loading and the default configuration of the browser scanner (check-price-puppeteer.js:1-70) are left out. `START`, `END`, the skip rules and `saveOk` are parameters.
- The regular-expression engine is opaque: a compiled pattern is a test on strings, and a pattern whose constructor throws is `Invalid`.
- The validator covers numeric bounds, arrays of numbers and strings as `skipNumbers`, and arrays of strings as `skipPatterns`. Other shapes lead to JavaScript coercions or type errors, which are reported as `NotCovered`. Only own properties of configuration objects are read.
- Record.CheckOne: an exception thrown by the append to the result file inside the `try` of `checkOne` is not modelled; the append is taken to succeed. A failed append to the error log, which rejects the whole run in both scanners, is not modelled either.
- Candidates.Range: a range longer than the largest array length (2^32 − 1) makes `Array.from` throw in the scanners. That case is not modelled there. `Preview.ValidateConfig` does model it.
- Numbers are JavaScript doubles; the model uses unbounded integers. It is faithful for candidates with magnitude below 2^53, where `START + i` is exact, and below 10^21, where `n.toString()` is the plain decimal form. Beyond those bounds the program computes inexact candidates and writes exponent forms such as `1e+21`, which the model does not follow.
- Candidates.RangeContents: states the exact integers `START + i`; from 2^53 on, the program's doubles round them.
- Candidates.NumbersSpec: the skip rule is applied to the decimal form; from 10^21 on, the program tests the exponent form (`"1e+21"` does not contain `"0"`), and from 2^53 on the candidates themselves are rounded.
- ResultFile.ScanHitLine: reads back the decimal form; a hit line of a candidate of 10^21 or more holds `1e+21`-style text that the pattern does not match.
- Record.RecoveredAreHits: holds for candidates below 10^21 only in the program, for the reason given for `ResultFile.ScanHitLine`.
- Scan.NextRunSeed: holds only when every candidate is non-negative, because the scan cannot read back a negative identifier. In the program it also needs candidates below 10^21, for the reason given for `ResultFile.ScanHitLine`.
- Scan.TwoRunsNoDuplicate: in the program it also needs candidates below 10^21, since it rests on `Scan.NextRunSeed`.
- Preview.FilterAgrees: the browser scanner destructures `filter` without defaults (check-price-puppeteer.js:61). A missing `filter`, `skipNumbers` or `skipPatterns` makes it throw a `TypeError` at line 61, 76 or 83, while the validator defaults missing lists to `[]` (validate-config.js:46). The agreement is stated for array lists only.
- Preview.ValidateConfig: the range header line printed before the range is built (validate-config.js:48) is not part of the outcome, also when the range then throws.
- Sweep.FinishedSweep: states that every hit's URL is in the output and that the output has one line per hit. It does not separately state that each output line comes from a hit, although the invariant `HitUrls` implies it.
- Fetch.StatusBackoffBase: states the base only for three-digit statuses. For thrown errors the base depends on whether their message happens to mention 403, as `BackoffBase` defines.
