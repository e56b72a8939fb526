/**
 The page fetch of check-price.js: `jitter`, the classification of a fetch
 answer into page text or an error, the retry loop of `getPageText` with its
 backoff delays, and the hit/error decision of `processOne`.

 The network is a function from the attempt number to what that attempt
 produced, and `Math.random()` is a function from the draw number to a real
 in `[0, 1)`; every sleep draws once, so draw `k` decides sleep `k`.
 */
module Fetch {
  import opened Optional
  import opened Decimal
  import opened Strings
  import opened ResultFile
  import opened Record

  const Retries := 3
  const Concurrency := 3
  const Start := 112500
  const End := 112599

  /** The literal whose presence makes a hit. */
  const TargetSnippet := "<span class=\"product-price product-price--regular main-result__available__prices__text__purchase\">$0.67</span>"

  // ---------------------------------------------------------------------
  // jitter
  // ---------------------------------------------------------------------

  /** `Math.floor(Math.random() * (max - min + 1)) + min` for the draw `r`. */
  function Jitter(min: int, max: int, r: real): (j: int)
    requires 0.0 <= r < 1.0
    ensures min <= max ==> min <= j <= max
    ensures max < min ==> max < j <= min
  {
    var width := max - min + 1;
    ScaleBounds(r, width);
    (r * width as real).Floor + min
  }

  lemma MulNonneg(a: real, b: real)
    requires 0.0 <= a && 0.0 <= b
    ensures 0.0 <= a * b
  {
  }

  lemma ScaleBounds(r: real, width: int)
    requires 0.0 <= r < 1.0
    ensures width > 0 ==> 0 <= (r * width as real).Floor < width
    ensures width <= 0 ==> width <= (r * width as real).Floor <= 0
  {
    var x := r * width as real;
    if width > 0 {
      MulNonneg(r, width as real);
      MulNonneg(1.0 - r, width as real);
      assert (1.0 - r) * width as real == width as real - x;
      assert (1.0 - r) * width as real != 0.0;
    } else {
      var nw := -(width as real);
      MulNonneg(r, nw);
      MulNonneg(1.0 - r, nw);
      assert x == -(r * nw);
      assert x - width as real == (1.0 - r) * nw;
    }
  }

  /** Every value of a non-empty range is produced by some draw. */
  lemma JitterCovers(min: int, max: int, v: int)
    requires min <= v <= max
    ensures var r := (v - min) as real / (max - min + 1) as real;
      0.0 <= r < 1.0 && Jitter(min, max, r) == v
  {
    var width := (max - min + 1) as real;
    var r := (v - min) as real / width;
    assert r * width == (v - min) as real;
    assert r < 1.0 by {
      assert (v - min) as real < width;
    }
  }

  // ---------------------------------------------------------------------
  // One fetch attempt
  // ---------------------------------------------------------------------

  /** What one `fetchWithTimeout(url)` followed by `res.text()` produced: an
      answer with its status and body, or the message of what was thrown
      (network failure, timeout abort). */
  datatype Attempt = Answered(status: int, body: string) | Thrown(message: string)

  /** The outcome of a fetch: the page text, or the message of the error. */
  datatype Try = Text(text: string) | Failure(message: string)

  /** `res.ok`: a status in `200..299`. */
  predicate IsOk(status: int) {
    200 <= status <= 299
  }

  const BlockedMessage := "HTTP 403 (blocked)"

  /** The body of the `try` in `getPageText`, from the fetch to `return text`. */
  function Classify(a: Attempt): (t: Try)
    ensures t.Text? <==> a.Answered? && IsOk(a.status)
    // The text of an ok answer is its body, unchanged.
    ensures t.Text? ==> t.text == a.body
    // A thrown error keeps its message.
    ensures a.Thrown? ==> t == Failure(a.message)
    // A non-ok answer becomes an error naming its status.
    ensures a.Answered? && a.status == 403 ==> t == Failure(BlockedMessage)
    ensures a.Answered? && a.status != 403 && !IsOk(a.status) ==> t == Failure("HTTP " + IntToString(a.status))
  {
    match a
    case Thrown(message) => Failure(message)
    case Answered(status, body) =>
      if status == 403 then Failure(BlockedMessage)
      else if !IsOk(status) then Failure("HTTP " + IntToString(status))
      else Text(body)
  }

  /** The backoff base: longer when the error message mentions 403. */
  function BackoffBase(message: string): (b: nat)
    ensures b == 700 || b == 1200
  {
    if Contains(message, "403") then 1200 else 700
  }

  /** The sleep after failure number `k`: `base * k + jitter(0, 600)`. */
  function BackoffDelay(message: string, k: nat, r: real): (d: int)
    requires 0.0 <= r < 1.0
    ensures BackoffBase(message) * k <= d <= BackoffBase(message) * k + 600
  {
    BackoffBase(message) * k + Jitter(0, 600, r)
  }

  /** A later retry always waits strictly longer than an earlier one with the
      same base, whatever the draws, because the jitter never reaches the
      base. */
  lemma BackoffIncreasing(m1: string, m2: string, k1: nat, k2: nat, r1: real, r2: real)
    requires 0.0 <= r1 < 1.0 && 0.0 <= r2 < 1.0
    requires BackoffBase(m1) == BackoffBase(m2) && k1 < k2
    ensures BackoffDelay(m1, k1, r1) < BackoffDelay(m2, k2, r2)
  {
    var b := BackoffBase(m1);
    assert b * k1 + 600 < b * k2 by {
      assert b * k2 == b * k1 + b * (k2 - k1);
      assert b * (k2 - k1) >= b;
    }
  }

  lemma BlockedMentions403()
    ensures Contains(BlockedMessage, "403")
  {
    assert BlockedMessage == "HTTP " + "403" + " (blocked)";
    assert Contains("403", "403");
    ContainsInfix("HTTP ", "403", " (blocked)", "403");
  }

  /** `HTTP <status>` for a three-digit status mentions 403 only for 403. */
  lemma StatusMessage403(status: int)
    requires 100 <= status <= 999
    ensures Contains("HTTP " + IntToString(status), "403") <==> status == 403
  {
    var id := IntToString(status);
    var s := "HTTP " + id;
    ThreeDigits(status);
    if status == 403 {
      assert s == "HTTP " + "403" + "";
      assert Contains("403", "403");
      ContainsInfix("HTTP ", "403", "", "403");
    } else {
      forall i | 0 <= i
        ensures !OccursAt(s, "403", i)
      {
        if i <= 4 {
          assert s[i] != '4';
        } else if i == 5 {
          assert s[5..8] == id;
          IntToStringInjective(status, 403);
          assert IntToString(403) == "403" by {
            assert NatToString(403) == "403";
          }
        }
      }
      ContainsIff(s, "403");
    }
  }

  /** The base of the backoff after an answered failure with a three-digit
      status: 1200 exactly for 403, 700 for every other status. */
  lemma StatusBackoffBase(status: int, body: string)
    requires 100 <= status <= 999 && !IsOk(status)
    ensures Classify(Answered(status, body)).Failure?
    ensures BackoffBase(Classify(Answered(status, body)).message) == if status == 403 then 1200 else 700
  {
    if status == 403 {
      BlockedMentions403();
    } else {
      StatusMessage403(status);
    }
  }

  // ---------------------------------------------------------------------
  // getPageText
  // ---------------------------------------------------------------------

  /** Sleep number `i` of the retry loop while every attempt so far failed:
      the pre-request jitter of attempt `i / 2` at even positions, and the
      backoff after its failure at odd ones. Sleep `i` uses draw `i`. */
  function Planned(net: nat -> Attempt, rand: nat -> real, i: nat): int
    requires forall k :: 0.0 <= rand(k) < 1.0
    requires i % 2 == 1 ==> Classify(net(i / 2)).Failure?
  {
    if i % 2 == 0 then Jitter(120, 400, rand(i))
    else BackoffDelay(Classify(net(i / 2)).message, i / 2 + 1, rand(i))
  }

  /** The planned sleeps, read attempt by attempt. */
  lemma PlannedPairs(net: nat -> Attempt, rand: nat -> real, sleeps: seq<int>, a: nat)
    requires forall k :: 0.0 <= rand(k) < 1.0
    requires forall j :: 0 <= j < a ==> Classify(net(j)).Failure?
    requires |sleeps| >= 2 * a
    requires forall i :: 0 <= i < 2 * a ==> sleeps[i] == Planned(net, rand, i)
    ensures forall j :: 0 <= j < a ==> sleeps[2 * j] == Jitter(120, 400, rand(2 * j))
    ensures forall j :: 0 <= j < a ==>
      sleeps[2 * j + 1] == BackoffDelay(Classify(net(j)).message, j + 1, rand(2 * j + 1))
  {
    forall j | 0 <= j < a
      ensures sleeps[2 * j] == Jitter(120, 400, rand(2 * j))
      ensures sleeps[2 * j + 1] == BackoffDelay(Classify(net(j)).message, j + 1, rand(2 * j + 1))
    {
      assert sleeps[2 * j] == Planned(net, rand, 2 * j);
      assert sleeps[2 * j + 1] == Planned(net, rand, 2 * j + 1);
      PlannedEven(net, rand, j);
      PlannedOdd(net, rand, j);
    }
  }

  /** The pre-request sleep of attempt `j`. */
  lemma PlannedEven(net: nat -> Attempt, rand: nat -> real, j: nat)
    requires forall k :: 0.0 <= rand(k) < 1.0
    ensures Planned(net, rand, 2 * j) == Jitter(120, 400, rand(2 * j))
  {
    assert (2 * j) % 2 == 0;
  }

  /** The backoff after the failure of attempt `j`. */
  lemma PlannedOdd(net: nat -> Attempt, rand: nat -> real, j: nat)
    requires forall k :: 0.0 <= rand(k) < 1.0
    requires Classify(net(j)).Failure?
    ensures Planned(net, rand, 2 * j + 1) == BackoffDelay(Classify(net(j)).message, j + 1, rand(2 * j + 1))
  {
    assert (2 * j + 1) % 2 == 1 && (2 * j + 1) / 2 == j;
  }

  /** `getPageText(url)` with `RETRIES = retries`: returns the outcome, the
      number of fetches made and the sleeps in order (one before each fetch,
      one after a successful fetch, one backoff between failures). */
  method GetPageText(net: nat -> Attempt, rand: nat -> real, retries: nat) returns (result: Try, fetches: nat, sleeps: seq<int>)
    requires forall k :: 0.0 <= rand(k) < 1.0
    // At most `retries + 1` fetches; every fetch but the last failed.
    ensures 1 <= fetches <= retries + 1
    ensures forall j :: 0 <= j < fetches - 1 ==> Classify(net(j)).Failure?
    // The outcome is that of the last fetch, which is the first success if any.
    ensures result == Classify(net(fetches - 1))
    ensures result.Failure? ==> fetches == retries + 1
    ensures result.Text? <==> exists k :: 0 <= k <= retries && Classify(net(k)).Text?
    // The sleeps.
    ensures |sleeps| == if result.Text? then 2 * fetches else 2 * fetches - 1
    ensures forall j :: 0 <= j < fetches ==> sleeps[2 * j] == Jitter(120, 400, rand(2 * j))
    ensures forall j :: 0 <= j < fetches - 1 ==>
      sleeps[2 * j + 1] == BackoffDelay(Classify(net(j)).message, j + 1, rand(2 * j + 1))
    ensures result.Text? ==> sleeps[2 * fetches - 1] == Jitter(80, 200, rand(2 * fetches - 1))
  {
    var attempt: nat := 0;
    sleeps := [];
    while true
      invariant attempt <= retries
      invariant forall j :: 0 <= j < attempt ==> Classify(net(j)).Failure?
      invariant |sleeps| == 2 * attempt
      invariant forall i :: 0 <= i < |sleeps| ==> sleeps[i] == Planned(net, rand, i)
      decreases retries - attempt
    {
      assert (2 * attempt) % 2 == 0;
      sleeps := sleeps + [Jitter(120, 400, rand(|sleeps|))];
      var t := Classify(net(attempt));
      if t.Text? {
        sleeps := sleeps + [Jitter(80, 200, rand(|sleeps|))];
        PlannedPairs(net, rand, sleeps, attempt);
        return t, attempt + 1, sleeps;
      }
      attempt := attempt + 1;
      if attempt > retries {
        PlannedPairs(net, rand, sleeps, attempt - 1);
        return t, attempt, sleeps;
      }
      assert (2 * attempt - 1) % 2 == 1 && (2 * attempt - 1) / 2 == attempt - 1;
      sleeps := sleeps + [BackoffDelay(t.message, attempt, rand(|sleeps|))];
    }
  }

  // ---------------------------------------------------------------------
  // processOne
  // ---------------------------------------------------------------------

  /** The object `processOne` resolves to. */
  datatype Processed = Found(n: int, url: string, hit: bool) | Failed(n: int, url: string, error: string)

  /** Lines appended to `found_0_67.txt` and to `errors.log`. */
  datatype Logs = Logs(out: seq<string>, errs: seq<string>)

  /** `processOne(n)` once `getPageText` has settled on `page`. `writeFailure`
      is the message thrown by the append to the output file, if it fails;
      that throw lands in the same `catch` as a fetch failure. */
  function ProcessOne(n: int, page: Try, writeFailure: Option<string>, stamp: string, logs: Logs): (out: (Processed, Logs))
    ensures out.0.n == n && out.0.url == BuildUrl(n)
    // A hit is exactly a page containing the snippet whose URL was written.
    ensures out.0.Found? && out.0.hit <==>
      page.Text? && Contains(page.text, TargetSnippet) && writeFailure.None?
    ensures out.1.out == (if out.0.Found? && out.0.hit then logs.out + [BuildUrl(n)] else logs.out)
    // A failure leaves exactly one error line and nothing in the output file.
    ensures out.0.Failed? <==> page.Failure? || (Contains(page.text, TargetSnippet) && writeFailure.Some?)
    ensures out.1.errs == (if out.0.Failed? then logs.errs + [ErrorLine(stamp, BuildUrl(n), out.0.error)] else logs.errs)
    ensures page.Failure? ==> out.0 == Failed(n, BuildUrl(n), page.message)
    // A failed write on a hit reports the write's own message.
    ensures page.Text? && Contains(page.text, TargetSnippet) && writeFailure.Some? ==>
      out.0 == Failed(n, BuildUrl(n), writeFailure.value)
    // A miss changes nothing.
    ensures page.Text? && !Contains(page.text, TargetSnippet) ==> out == (Found(n, BuildUrl(n), false), logs)
  {
    var url := BuildUrl(n);
    match page
    case Text(html) =>
      if Contains(html, TargetSnippet) then
        match writeFailure
        case None => (Found(n, url, true), logs.(out := logs.out + [url]))
        case Some(m) => (Failed(n, url, m), logs.(errs := logs.errs + [ErrorLine(stamp, url, m)]))
      else
        (Found(n, url, false), logs)
    case Failure(m) =>
      (Failed(n, url, m), logs.(errs := logs.errs + [ErrorLine(stamp, url, m)]))
  }
}
