/**
 The per-candidate decision of check-price-puppeteer.js (`checkOne`, after
 the browser has produced a page or thrown): whether the candidate is a hit,
 a duplicate of an already recorded hit, a successful page saved as a bare
 URL, a plain miss, or an error, and what that appends to the result and
 error logs and to the dedup set.

 The navigation itself is not modelled: its outcome is an input.
 */
module Record {
  import opened Optional
  import opened Decimal
  import opened Strings
  import opened ResultFile
  import opened Seqs

  /** The puppeteer scanner tests for this literal, not for the configured
      `targetSnippet`. */
  const AvailableMarker := "is available"

  /** What the browser produced for one candidate: the target navigation's
      response (whose absence reads as status 0) and the page HTML, or the
      message of an exception thrown by any navigation step. */
  datatype PageOutcome = Loaded(response: Option<int>, html: string) | Threw(message: string) {
    /** `resp ? resp.status() : 0` */
    function Status(): int
      requires Loaded?
    {
      if response.Some? then response.value else 0
    }

    /** `html.includes('is available')` */
    predicate IsHit() {
      Loaded? && Contains(html, AvailableMarker)
    }
  }

  /** The object `checkOne` returns. Properties the source leaves undefined
      (`duplicate` on most paths) read as `false`. */
  datatype CheckResult =
    | Checked(n: int, url: string, hit: bool, status: int, saved: bool, duplicate: bool)
    | Errored(n: int, url: string, error: string)
  {
    /** The status an error result reports. */
    function ReportedStatus(): int {
      if Errored? then -1 else status
    }
  }

  /** The run's mutable state as seen by `checkOne`: the dedup set
      `existingDomains`, and the lines appended in this run to the result
      file and to the error log. */
  datatype Store = Store(existing: set<string>, results: seq<ResultLine>, errors: seq<string>)

  /** `[<timestamp>] <url> -> <message>`; the timestamp comes from the clock. */
  function ErrorLine(stamp: string, url: string, message: string): string {
    "[" + stamp + "] " + url + " -> " + message
  }

  /** `checkOne(browser, n, existingDomains)` once the page outcome is known. */
  function CheckOne(n: int, outcome: PageOutcome, saveOk: bool, stamp: string, st: Store): (out: (CheckResult, Store))
    // The result names the candidate and its URL.
    ensures out.0.n == n && out.0.url == BuildUrl(n)
    // A thrown navigation is an error result with exactly one error line and nothing else.
    ensures outcome.Threw? <==> out.0.Errored?
    ensures outcome.Threw? ==> out.0 == Errored(n, BuildUrl(n), outcome.message)
    ensures outcome.Threw? ==> out.1 == st.(errors := st.errors + [ErrorLine(stamp, BuildUrl(n), outcome.message)])
    ensures outcome.Loaded? ==> out.1.errors == st.errors
    // The hit flag is exactly the marker test.
    ensures out.0.Checked? ==> (out.0.hit <==> outcome.IsHit())
    ensures out.0.Checked? ==> out.0.status == outcome.Status()
    // Duplicates: a hit already in the set appends nothing and changes nothing.
    ensures out.0.Checked? && out.0.duplicate <==> outcome.IsHit() && IntToString(n) in st.existing
    ensures out.0.Checked? && out.0.duplicate ==> out.1 == st && !out.0.saved
    // At most one result line is appended, and only in two exclusive cases.
    ensures out.1.results == st.results || |out.1.results| == |st.results| + 1
    ensures out.1.results[..|st.results|] == st.results
    ensures forall k :: |st.results| <= k < |out.1.results| ==> out.1.results[k].n == n
    ensures out.1.results == st.results + [HitLine(n)] <==> outcome.IsHit() && IntToString(n) !in st.existing
    ensures out.1.results == st.results + [UrlLine(n)] <==>
      outcome.Loaded? && !outcome.IsHit() && outcome.Status() == 200 && saveOk
    ensures out.0.Checked? ==> (out.0.saved <==> out.1.results != st.results)
    // The set only grows, and only by the candidate just recorded.
    ensures out.1.existing == if out.1.results == st.results + [HitLine(n)] then st.existing + {IntToString(n)} else st.existing
  {
    var url := BuildUrl(n);
    var id := IntToString(n);
    match outcome
    case Threw(message) =>
      (Errored(n, url, message), st.(errors := st.errors + [ErrorLine(stamp, url, message)]))
    case Loaded(_, html) =>
      var status := outcome.Status();
      var hit := Contains(html, AvailableMarker);
      if hit then
        if id !in st.existing then
          (Checked(n, url, true, status, true, false),
           st.(results := st.results + [HitLine(n)], existing := st.existing + {id}))
        else
          (Checked(n, url, true, status, false, true), st)
      else if status == 200 && saveOk then
        (Checked(n, url, false, status, true, false), st.(results := st.results + [UrlLine(n)]))
      else
        (Checked(n, url, false, status, false, false), st)
  }

  /** The result lines `checkOne` appends, stated independently of its
      branches: the hit line for a marked page whose key the set lacks, the
      bare URL for an unmarked page loaded with status 200 under `saveOk`,
      nothing otherwise. */
  function Appends(n: int, outcome: PageOutcome, saveOk: bool, existing: set<string>): seq<ResultLine> {
    if outcome.IsHit() then (if IntToString(n) in existing then [] else [HitLine(n)])
    else if outcome.Loaded? && outcome.Status() == 200 && saveOk then [UrlLine(n)]
    else []
  }

  /** `checkOne` appends exactly `Appends` of the set it found. */
  lemma CheckOneAppends(n: int, outcome: PageOutcome, saveOk: bool, stamp: string, st: Store)
    ensures CheckOne(n, outcome, saveOk, stamp, st).1.results == st.results + Appends(n, outcome, saveOk, st.existing)
  {
  }

  /** Number of bare-URL lines among `lines`. */
  function UrlCount(lines: seq<ResultLine>): (count: nat)
    ensures count <= |lines|
    decreases |lines|
  {
    if |lines| == 0 then 0
    else (if lines[0].UrlLine? then 1 else 0) + UrlCount(lines[1..])
  }

  lemma {:induction false} UrlCountAppend(lines: seq<ResultLine>, extra: seq<ResultLine>)
    ensures UrlCount(lines + extra) == UrlCount(lines) + UrlCount(extra)
    decreases |lines|
  {
    if |lines| == 0 {
      assert lines + extra == extra;
    } else {
      assert (lines + extra)[0] == lines[0];
      assert (lines + extra)[1..] == lines[1..] + extra;
      UrlCountAppend(lines[1..], extra);
    }
  }

  /** Every line is a hit line or a bare-URL line. */
  lemma {:induction false} LinesSplit(lines: seq<ResultLine>)
    ensures |lines| == |HitIds(lines)| + UrlCount(lines)
    decreases |lines|
  {
    if |lines| > 0 {
      LinesSplit(lines[1..]);
    }
  }

  // ---------------------------------------------------------------------
  // The dedup invariant
  // ---------------------------------------------------------------------

  /** Identifiers of the hit lines among `lines`, in order. */
  function HitIds(lines: seq<ResultLine>): (ids: seq<string>)
    ensures |ids| <= |lines|
    decreases |lines|
  {
    if |lines| == 0 then []
    else (if lines[0].HitLine? then [IntToString(lines[0].n)] else []) + HitIds(lines[1..])
  }

  lemma {:induction false} HitIdsAppend(lines: seq<ResultLine>, extra: seq<ResultLine>)
    ensures HitIds(lines + extra) == HitIds(lines) + HitIds(extra)
    decreases |lines|
  {
    if |lines| == 0 {
      assert lines + extra == extra;
    } else {
      assert (lines + extra)[0] == lines[0];
      assert (lines + extra)[1..] == lines[1..] + extra;
      HitIdsAppend(lines[1..], extra);
    }
  }

  /** Without negative candidates, the scan at startup reads back exactly the
      hits recorded. */
  lemma {:induction false} RecoveredAreHits(lines: seq<ResultLine>)
    requires forall k :: 0 <= k < |lines| ==> lines[k].n >= 0
    ensures RecoveredIds(lines) == HitIds(lines)
    decreases |lines|
  {
    if |lines| > 0 {
      RecoveredAreHits(lines[1..]);
    }
  }

  /** The dedup set is the seed plus the hits this run recorded; no hit is
      recorded twice, and none that the seed already knew. */
  ghost predicate DedupInv(seed: set<string>, st: Store) {
    var ids := HitIds(st.results);
    && st.existing == seed + (set id | id in ids)
    && Distinct(ids)
    && (forall k :: 0 <= k < |ids| ==> ids[k] !in seed)
  }

  /** `checkOne` keeps the dedup invariant, whatever the page outcome. */
  lemma CheckOneKeepsDedup(seed: set<string>, n: int, outcome: PageOutcome, saveOk: bool, stamp: string, st: Store)
    requires DedupInv(seed, st)
    ensures DedupInv(seed, CheckOne(n, outcome, saveOk, stamp, st).1)
  {
    var st' := CheckOne(n, outcome, saveOk, stamp, st).1;
    if st'.results != st.results {
      var line := st'.results[|st.results|];
      assert st'.results == st.results + [line];
      HitIdsAppend(st.results, [line]);
      assert HitIds([line]) == if line.HitLine? then [IntToString(n)] else [];
    }
  }

  /** `checkOne` adds the candidate's key to the dedup set exactly on a hit,
      whether or not it was already there, and otherwise leaves the set
      unchanged. */
  lemma CheckOneExisting(n: int, outcome: PageOutcome, saveOk: bool, stamp: string, st: Store)
    ensures CheckOne(n, outcome, saveOk, stamp, st).1.existing ==
      st.existing + (if outcome.IsHit() then {IntToString(n)} else {})
  {
    var out := CheckOne(n, outcome, saveOk, stamp, st);
    if outcome.IsHit() && IntToString(n) in st.existing {
      assert out.1 == st;
      assert st.existing + {IntToString(n)} == st.existing;
    }
  }

  /** A new hit adds one identifier to the recorded hits; anything else adds none. */
  lemma CheckOneHitCount(n: int, outcome: PageOutcome, saveOk: bool, stamp: string, st: Store)
    ensures var out := CheckOne(n, outcome, saveOk, stamp, st);
      HitIds(out.1.results) ==
        HitIds(st.results) + (if out.0.Checked? && out.0.hit && !out.0.duplicate then [IntToString(n)] else [])
  {
    var out := CheckOne(n, outcome, saveOk, stamp, st);
    if out.1.results != st.results {
      var line := out.1.results[|st.results|];
      assert out.1.results == st.results + [line];
      HitIdsAppend(st.results, [line]);
      assert HitIds([line]) == if line.HitLine? then [IntToString(n)] else [];
    } else {
      assert !(out.0.Checked? && out.0.hit && !out.0.duplicate);
    }
  }
}
