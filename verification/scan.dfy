/**
 A whole run of check-price-puppeteer.js over the filtered candidates: the
 worker pool of `Pool` drives `checkOne` of `Record`, and the counters `hits`
 and `processed` follow the loop body of `worker`.

 A candidate's effects on the dedup set and the logs happen without a
 suspension point between the membership test and the insertion, so they are
 modelled as one atomic step at the moment the worker finishes the candidate.
 */
module Scan {
  import opened Optional
  import opened Decimal
  import opened ResultFile
  import opened Record
  import opened Pool
  import opened Seqs

  /** What the run cannot decide itself: the page outcome of each candidate,
      the `saveOk` flag and the clock that stamps error lines. */
  datatype Env = Env(numbers: seq<int>, pages: seq<PageOutcome>, saveOk: bool, clock: nat -> string)

  ghost predicate WellFormed(env: Env) {
    |env.pages| == |env.numbers|
  }

  datatype Run = Run(cursor: Cursor, store: Store, hits: nat, processed: nat)

  /** The state when the workers start: `idx = hits = processed = 0`, the dedup
      set seeded from the prior result file, nothing appended yet. */
  function Begin(env: Env, concurrency: nat, seed: set<string>): Run {
    Run(Launch(|env.numbers|, concurrency), Store(seed, [], []), 0, 0)
  }

  /** One step of worker `w`; finishing candidate `cur` runs `checkOne` on it
      and then `if (r.hit) { if (!r.duplicate) hits++ }; processed++`. */
  function Advance(r: Run, w: nat, env: Env): Run
    requires WellFormed(env) && Valid(r.cursor) && r.cursor.len == |env.numbers|
    requires w < |r.cursor.workers|
  {
    var (c, e) := Step(r.cursor, w);
    match e
    case Finish(i) =>
      assert r.cursor.workers[w] == Busy(i);
      var (res, st) := CheckOne(env.numbers[i], env.pages[i], env.saveOk, env.clock(r.processed), r.store);
      var counted := res.Checked? && res.hit && !res.duplicate;
      Run(c, st, if counted then r.hits + 1 else r.hits, r.processed + 1)
    case _ =>
      r.(cursor := c)
  }

  // ---------------------------------------------------------------------
  // The run's invariant
  // ---------------------------------------------------------------------

  /** Identifiers of the finished candidates whose page showed the marker. */
  ghost function HitSet(env: Env, finished: seq<nat>): set<string>
    requires WellFormed(env)
  {
    set i | i in finished && i < |env.numbers| && env.pages[i].IsHit() :: IntToString(env.numbers[i])
  }

  /** Whether candidate `i`'s navigation threw. */
  function ThrewAt(env: Env): nat -> bool {
    (i: nat) => i < |env.pages| && env.pages[i].Threw?
  }

  ghost predicate RunInv(r: Run, env: Env, seed: set<string>) {
    && WellFormed(env)
    && Valid(r.cursor)
    && r.cursor.len == |env.numbers|
    && r.processed == |r.cursor.finished|
    && DedupInv(seed, r.store)
    && r.store.existing == seed + HitSet(env, r.cursor.finished)
    && r.hits == |HitIds(r.store.results)|
    && |r.store.errors| == CountWhere(r.cursor.finished, ThrewAt(env))
    && LinesFrom(r.store.results, env, r.cursor.finished)
    && r.store.results == Appended(env, seed, r.cursor.finished)
  }

  /** The lines a run from `seed` appends by finishing the candidates of
      `finished` in that order: each candidate appends what `checkOne` would
      append given the seed and the hits finished before it. */
  ghost function Appended(env: Env, seed: set<string>, finished: seq<nat>): seq<ResultLine>
    requires WellFormed(env)
    decreases |finished|
  {
    if |finished| == 0 then []
    else
      var front := finished[..|finished| - 1];
      var i := finished[|finished| - 1];
      Appended(env, seed, front) +
        (if i < |env.numbers| then Appends(env.numbers[i], env.pages[i], env.saveOk, seed + HitSet(env, front)) else [])
  }

  /** Whether finishing candidate `i` appends `line`: the Markdown link for a
      page showing the marker, the bare URL for a page loaded with status 200
      without it when `saveOk` is on. */
  ghost predicate Writes(env: Env, i: nat, line: ResultLine)
    requires WellFormed(env)
  {
    && i < |env.numbers|
    && line.n == env.numbers[i]
    && (if line.HitLine? then env.pages[i].IsHit()
        else env.pages[i].Loaded? && !env.pages[i].IsHit() && env.pages[i].Status() == 200 && env.saveOk)
  }

  /** `line` was written by one of the finished candidates. */
  ghost predicate WrittenBy(env: Env, finished: seq<nat>, line: ResultLine)
    requires WellFormed(env)
  {
    exists i :: i in finished && Writes(env, i, line)
  }

  /** Every appended line was written by a finished candidate. */
  ghost predicate LinesFrom(lines: seq<ResultLine>, env: Env, finished: seq<nat>)
    requires WellFormed(env)
  {
    forall k :: 0 <= k < |lines| ==> WrittenBy(env, finished, lines[k])
  }

  lemma BeginInv(env: Env, concurrency: nat, seed: set<string>)
    requires WellFormed(env)
    ensures RunInv(Begin(env, concurrency, seed), env, seed)
  {
    LaunchValid(|env.numbers|, concurrency);
  }

  lemma HitSetAppend(env: Env, finished: seq<nat>, i: nat)
    requires WellFormed(env) && i < |env.numbers|
    ensures HitSet(env, finished + [i]) ==
      HitSet(env, finished) + (if env.pages[i].IsHit() then {IntToString(env.numbers[i])} else {})
  {
  }

  /** What finishing candidate `i` does to the run. */
  lemma FinishShape(r: Run, w: nat, env: Env, i: nat)
    requires WellFormed(env) && Valid(r.cursor) && r.cursor.len == |env.numbers|
    requires w < |r.cursor.workers| && r.cursor.workers[w] == Busy(i)
    ensures i < |env.numbers|
    ensures var out := CheckOne(env.numbers[i], env.pages[i], env.saveOk, env.clock(r.processed), r.store);
      var counted := out.0.Checked? && out.0.hit && !out.0.duplicate;
      Advance(r, w, env) == Run(Step(r.cursor, w).0, out.1, if counted then r.hits + 1 else r.hits, r.processed + 1)
    ensures Valid(Step(r.cursor, w).0) && Step(r.cursor, w).0.len == r.cursor.len
    ensures Step(r.cursor, w).0.finished == r.cursor.finished + [i]
  {
    StepValid(r.cursor, w);
  }

  /** The error log grows by one line exactly when the navigation threw. */
  lemma FinishErrors(r: Run, w: nat, env: Env, i: nat)
    requires WellFormed(env) && Valid(r.cursor) && r.cursor.len == |env.numbers|
    requires w < |r.cursor.workers| && r.cursor.workers[w] == Busy(i)
    requires |r.store.errors| == CountWhere(r.cursor.finished, ThrewAt(env))
    ensures |Advance(r, w, env).store.errors| == CountWhere(Advance(r, w, env).cursor.finished, ThrewAt(env))
  {
    FinishShape(r, w, env, i);
    CountWhereAppend(r.cursor.finished, i, ThrewAt(env));
    assert ThrewAt(env)(i) == env.pages[i].Threw?;
  }

  /** The dedup set and the hit counter follow `checkOne`. */
  lemma FinishStore(r: Run, w: nat, env: Env, seed: set<string>, i: nat)
    requires WellFormed(env) && Valid(r.cursor) && r.cursor.len == |env.numbers|
    requires w < |r.cursor.workers| && r.cursor.workers[w] == Busy(i)
    requires DedupInv(seed, r.store)
    requires r.store.existing == seed + HitSet(env, r.cursor.finished)
    requires r.hits == |HitIds(r.store.results)|
    ensures var r' := Advance(r, w, env);
      && DedupInv(seed, r'.store)
      && r'.store.existing == seed + HitSet(env, r'.cursor.finished)
      && r'.hits == |HitIds(r'.store.results)|
  {
    FinishShape(r, w, env, i);
    var n := env.numbers[i];
    var stamp := env.clock(r.processed);
    var out := CheckOne(n, env.pages[i], env.saveOk, stamp, r.store);
    CheckOneKeepsDedup(seed, n, env.pages[i], env.saveOk, stamp, r.store);
    CheckOneHitCount(n, env.pages[i], env.saveOk, stamp, r.store);
    CheckOneExisting(n, env.pages[i], env.saveOk, stamp, r.store);
    HitSetAppend(env, r.cursor.finished, i);
    var added := if env.pages[i].IsHit() then {IntToString(n)} else {};
    ExistingStep(seed, HitSet(env, r.cursor.finished), HitSet(env, r.cursor.finished + [i]), r.store.existing, out.1.existing, added);
  }

  /** Finishing candidate `i` keeps the invariant. */
  lemma FinishInv(r: Run, w: nat, env: Env, seed: set<string>, i: nat)
    requires RunInv(r, env, seed) && w < |r.cursor.workers| && r.cursor.workers[w] == Busy(i)
    ensures RunInv(Advance(r, w, env), env, seed)
  {
    FinishShape(r, w, env, i);
    FinishErrors(r, w, env, i);
    FinishStore(r, w, env, seed, i);
    LinesStep(env, r.store, r.cursor.finished, i, env.clock(r.processed));
    FinishResults(r, w, env, seed, i);
  }

  /** Finishing candidate `i` appends exactly the lines `Appended` assigns it. */
  lemma FinishResults(r: Run, w: nat, env: Env, seed: set<string>, i: nat)
    requires WellFormed(env) && Valid(r.cursor) && r.cursor.len == |env.numbers|
    requires w < |r.cursor.workers| && r.cursor.workers[w] == Busy(i)
    requires r.store.existing == seed + HitSet(env, r.cursor.finished)
    requires r.store.results == Appended(env, seed, r.cursor.finished)
    ensures Advance(r, w, env).store.results == Appended(env, seed, Advance(r, w, env).cursor.finished)
  {
    FinishShape(r, w, env, i);
    CheckOneAppends(env.numbers[i], env.pages[i], env.saveOk, env.clock(r.processed), r.store);
    var fin := r.cursor.finished + [i];
    assert fin[..|fin| - 1] == r.cursor.finished;
  }

  /** The line `checkOne` appends for candidate `i`, if any, is one that
      candidate writes. */
  lemma LinesStep(env: Env, st: Store, finished: seq<nat>, i: nat, stamp: string)
    requires WellFormed(env) && i < |env.numbers| && LinesFrom(st.results, env, finished)
    ensures LinesFrom(CheckOne(env.numbers[i], env.pages[i], env.saveOk, stamp, st).1.results, env, finished + [i])
  {
    var lines := st.results;
    var lines' := CheckOne(env.numbers[i], env.pages[i], env.saveOk, stamp, st).1.results;
    forall k | 0 <= k < |lines'|
      ensures WrittenBy(env, finished + [i], lines'[k])
    {
      if k < |lines| {
        assert lines'[k] == lines[k];
        var j :| j in finished && Writes(env, j, lines[k]);
        assert j in finished + [i];
      } else {
        var line := lines'[k];
        assert lines' == lines + [line];
        assert line == HitLine(env.numbers[i]) || line == UrlLine(env.numbers[i]);
        assert Writes(env, i, line);
        assert i in finished + [i];
      }
    }
  }

  lemma ExistingStep<T>(seed: set<T>, hs: set<T>, hs': set<T>, e: set<T>, e': set<T>, added: set<T>)
    requires e == seed + hs && e' == e + added && hs' == hs + added
    ensures e' == seed + hs'
  {
  }

  /** A worker step keeps the invariant. */
  lemma AdvanceInv(r: Run, w: nat, env: Env, seed: set<string>)
    requires RunInv(r, env, seed) && w < |r.cursor.workers|
    ensures RunInv(Advance(r, w, env), env, seed)
  {
    StepValid(r.cursor, w);
    if r.cursor.workers[w].Busy? {
      FinishInv(r, w, env, seed, r.cursor.workers[w].cur);
    }
  }

  // ---------------------------------------------------------------------
  // Completion
  // ---------------------------------------------------------------------

  lemma {:induction false} DistinctCard(xs: seq<string>)
    requires Distinct(xs)
    ensures |set x | x in xs| == |xs|
    decreases |xs|
  {
    if |xs| > 0 {
      DistinctCard(xs[1..]);
      assert (set x | x in xs) == {xs[0]} + (set x | x in xs[1..]);
      assert xs[0] !in (set x | x in xs[1..]);
    }
  }

  /** Identifiers of every candidate whose page showed the marker. */
  ghost function AllHits(env: Env): set<string>
    requires WellFormed(env)
  {
    set i | 0 <= i < |env.numbers| && env.pages[i].IsHit() :: IntToString(env.numbers[i])
  }

  /** Number of candidates whose navigation threw. */
  ghost function AllThrew(env: Env): nat
    requires WellFormed(env)
  {
    |set i | 0 <= i < |env.pages| && env.pages[i].Threw?|
  }

  lemma ThrewSet(env: Env, fin: seq<nat>)
    requires WellFormed(env) && Distinct(fin)
    requires forall i :: 0 <= i < |env.numbers| ==> i in fin
    ensures CountWhere(fin, ThrewAt(env)) == AllThrew(env)
  {
    CountWhereSet(fin, ThrewAt(env));
    var a := set k | k in fin && ThrewAt(env)(k);
    var b := set i | 0 <= i < |env.pages| && env.pages[i].Threw?;
    forall k | k in a
      ensures k in b
    {
      assert ThrewAt(env)(k);
    }
    forall k | k in b
      ensures k in a
    {
      assert k in fin;
    }
    assert a == b;
  }

  /** Whether candidate `i` saves its bare URL: its page loaded with status
      200 without the marker while `saveOk` is on. */
  function SavesAt(env: Env): nat -> bool {
    (i: nat) => i < |env.pages| && env.pages[i].Loaded? && !env.pages[i].IsHit() && env.pages[i].Status() == 200 && env.saveOk
  }

  /** Number of candidates that save their bare URL. */
  ghost function AllSaved(env: Env): nat
    requires WellFormed(env)
  {
    |set i | 0 <= i < |env.pages| && SavesAt(env)(i)|
  }

  /** The run appends one bare-URL line per finished candidate that saves it. */
  lemma {:induction false} AppendedUrls(env: Env, seed: set<string>, finished: seq<nat>)
    requires WellFormed(env)
    ensures UrlCount(Appended(env, seed, finished)) == CountWhere(finished, SavesAt(env))
    decreases |finished|
  {
    if |finished| > 0 {
      var front := finished[..|finished| - 1];
      var i := finished[|finished| - 1];
      AppendedUrls(env, seed, front);
      var tail := if i < |env.numbers| then Appends(env.numbers[i], env.pages[i], env.saveOk, seed + HitSet(env, front)) else [];
      UrlCountAppend(Appended(env, seed, front), tail);
      assert UrlCount(tail) == if SavesAt(env)(i) then 1 else 0;
    }
  }

  /** Each finished candidate that saves its bare URL has its line in the run's output. */
  lemma {:induction false} AppendedHasUrl(env: Env, seed: set<string>, finished: seq<nat>, i: nat)
    requires WellFormed(env) && i in finished && SavesAt(env)(i)
    ensures UrlLine(env.numbers[i]) in Appended(env, seed, finished)
    decreases |finished|
  {
    var front := finished[..|finished| - 1];
    var last := finished[|finished| - 1];
    assert finished == front + [last];
    if i == last {
      assert Appends(env.numbers[i], env.pages[i], env.saveOk, seed + HitSet(env, front)) == [UrlLine(env.numbers[i])];
    } else {
      assert i in front;
      AppendedHasUrl(env, seed, front, i);
    }
  }

  lemma SavedSet(env: Env, fin: seq<nat>)
    requires WellFormed(env) && Distinct(fin)
    requires forall i :: 0 <= i < |env.numbers| ==> i in fin
    ensures CountWhere(fin, SavesAt(env)) == AllSaved(env)
  {
    CountWhereSet(fin, SavesAt(env));
    var a := set k | k in fin && SavesAt(env)(k);
    var b := set i | 0 <= i < |env.pages| && SavesAt(env)(i);
    forall k | k in b
      ensures k in a
    {
      assert k in fin;
    }
    assert a == b;
  }

  /** The outcome of a finished run: every candidate was processed once, the
      dedup set gained exactly the new hits, `hits` counts each new hit once,
      every failed navigation left exactly one error line, and the result file
      gained one hit line per new hit and one bare-URL line per candidate that
      saves it, and nothing else. */
  lemma FinishedRun(r: Run, env: Env, seed: set<string>)
    requires RunInv(r, env, seed) && |r.cursor.workers| > 0 && AllExited(r.cursor.workers)
    ensures r.processed == |env.numbers|
    ensures r.store.existing == seed + AllHits(env)
    ensures r.hits == |AllHits(env) - seed|
    ensures |r.store.errors| == AllThrew(env)
    ensures UrlCount(r.store.results) == AllSaved(env)
    ensures forall i :: 0 <= i < |env.numbers| && SavesAt(env)(i) ==> UrlLine(env.numbers[i]) in r.store.results
    ensures |r.store.results| == |AllHits(env) - seed| + AllSaved(env)
  {
    AllExitedComplete(r.cursor);
    var fin := r.cursor.finished;
    assert HitSet(env, fin) == AllHits(env);
    var ids := HitIds(r.store.results);
    DistinctCard(ids);
    assert (set id | id in ids) == AllHits(env) - seed;
    ThrewSet(env, fin);
    AppendedUrls(env, seed, fin);
    SavedSet(env, fin);
    LinesSplit(r.store.results);
    forall i | 0 <= i < |env.numbers| && SavesAt(env)(i)
      ensures UrlLine(env.numbers[i]) in r.store.results
    {
      AppendedHasUrl(env, seed, fin, i);
    }
  }

  /** The result file after the run: the prior contents, if any, followed by
      the lines this run appended. */
  function FileAfter(prior: Option<string>, lines: seq<ResultLine>): string {
    (if prior.Some? then prior.value else "") + Render(lines)
  }

  /** Cross-run dedup: when no candidate is negative, the next run's startup
      scan of the result file rebuilds exactly the dedup set this run ended
      with, so a hit recorded now is a duplicate in every later run. */
  lemma NextRunSeed(r: Run, env: Env, prior: Option<string>)
    requires RunInv(r, env, Seed(prior))
    requires forall k :: 0 <= k < |env.numbers| ==> env.numbers[k] >= 0
    ensures Seed(Some(FileAfter(prior, r.store.results))) == r.store.existing
  {
    var lines := r.store.results;
    var before := if prior.Some? then prior.value else "";
    assert Seed(Some(before)) == Seed(prior) by {
      if prior.None? {
        assert ScanIds("") == [];
      }
    }
    SeedAfterAppend(before, lines);
    forall k | 0 <= k < |lines|
      ensures lines[k].n >= 0
    {
      var i :| i in r.cursor.finished && Writes(env, i, lines[k]);
    }
    RecoveredAreHits(lines);
  }

  /** Dedup across runs: a second run over the result file the first run left
      never records a hit the first run recorded, so the hit lines of both
      runs together name each candidate at most once. */
  lemma TwoRunsNoDuplicate(r1: Run, env1: Env, prior: Option<string>, r2: Run, env2: Env)
    requires RunInv(r1, env1, Seed(prior))
    requires forall k :: 0 <= k < |env1.numbers| ==> env1.numbers[k] >= 0
    requires RunInv(r2, env2, Seed(Some(FileAfter(prior, r1.store.results))))
    ensures Distinct(HitIds(r1.store.results + r2.store.results))
  {
    NextRunSeed(r1, env1, prior);
    HitIdsAppend(r1.store.results, r2.store.results);
    var a := HitIds(r1.store.results);
    var b := HitIds(r2.store.results);
    forall i, j | 0 <= i < j < |a + b|
      ensures (a + b)[i] != (a + b)[j]
    {
      if j >= |a| && i < |a| {
        assert a[i] in r1.store.existing;
      }
    }
  }

  /** Candidates 100..104, the page of 102 showing the marker, the others
      missing it. */
  function ExampleEnv(clock: nat -> string): (env: Env)
    ensures WellFormed(env)
  {
    var miss := Loaded(Some(200), "");
    Env([100, 101, 102, 103, 104], [miss, miss, Loaded(Some(200), AvailableMarker), miss, miss], false, clock)
  }

  lemma ExampleHits(clock: nat -> string)
    ensures AllHits(ExampleEnv(clock)) == {"102"}
    ensures AllThrew(ExampleEnv(clock)) == 0
  {
    var env := ExampleEnv(clock);
    assert env.pages[2].IsHit() by {
      assert Strings.Contains(AvailableMarker, AvailableMarker);
    }
    assert IntToString(102) == "102" by {
      assert NatToString(102) == "102";
    }
    forall x | x in AllHits(env)
      ensures x == "102"
    {
      var i :| 0 <= i < 5 && env.pages[i].IsHit() && x == IntToString(env.numbers[i]);
      assert i == 2 by {
        assert !Strings.Contains("", AvailableMarker);
      }
    }
    assert "102" in AllHits(env);
    assert (set i | 0 <= i < |env.pages| && env.pages[i].Threw?) == {};
  }

  /** The only line any candidate of the example writes is the hit line of 102. */
  lemma ExampleWrites(clock: nat -> string, i: nat, line: ResultLine)
    requires Writes(ExampleEnv(clock), i, line)
    ensures line == HitLine(102)
  {
    var env := ExampleEnv(clock);
    assert !Strings.Contains("", AvailableMarker);
    assert i == 2;
  }

  lemma {:induction false} HitLinesOnly(lines: seq<ResultLine>, line: ResultLine)
    requires line.HitLine? && forall k :: 0 <= k < |lines| ==> lines[k] == line
    ensures |HitIds(lines)| == |lines|
    decreases |lines|
  {
    if |lines| > 0 {
      HitLinesOnly(lines[1..], line);
    }
  }

  /** Whatever the interleaving and the number of workers, a finished run over
      the example with an empty seed ends with one hit, five processed
      candidates, no error line, the dedup set `{"102"}` and the result file
      holding the single hit line of 102. */
  lemma ExampleOneHit(r: Run, clock: nat -> string)
    requires RunInv(r, ExampleEnv(clock), {}) && |r.cursor.workers| > 0 && AllExited(r.cursor.workers)
    ensures r.hits == 1 && r.processed == 5 && r.store.errors == []
    ensures r.store.existing == {"102"}
    ensures r.store.results == [HitLine(102)]
  {
    var env := ExampleEnv(clock);
    FinishedRun(r, env, {});
    ExampleHits(clock);
    var lines := r.store.results;
    forall k | 0 <= k < |lines|
      ensures lines[k] == HitLine(102)
    {
      var i :| i in r.cursor.finished && Writes(env, i, lines[k]);
      ExampleWrites(clock, i, lines[k]);
    }
    HitLinesOnly(lines, HitLine(102));
  }

  /** `await Promise.all(workers)`: runs worker steps in the order `schedule`
      proposes (any interleaving; a proposal of a worker that has left is
      replaced by the first worker still running) until every worker has
      left. */
  method RunScan(env: Env, concurrency: nat, seed: set<string>, schedule: nat -> nat) returns (r: Run)
    requires WellFormed(env)
    ensures RunInv(r, env, seed) && AllExited(r.cursor.workers)
    ensures concurrency > 0 ==> r.processed == |env.numbers|
    ensures concurrency > 0 ==> forall i :: 0 <= i < |env.numbers| ==> i in r.cursor.finished
    ensures concurrency > 0 ==> r.store.existing == seed + AllHits(env)
    ensures concurrency > 0 ==> r.hits == |AllHits(env) - seed|
    ensures concurrency > 0 ==> |r.store.errors| == AllThrew(env)
    ensures concurrency > 0 ==> UrlCount(r.store.results) == AllSaved(env)
    ensures concurrency > 0 ==> forall i :: 0 <= i < |env.numbers| && SavesAt(env)(i) ==> UrlLine(env.numbers[i]) in r.store.results
    ensures concurrency > 0 ==> |r.store.results| == |AllHits(env) - seed| + AllSaved(env)
    ensures concurrency == 0 ==> r.processed == 0 && r.store == Store(seed, [], [])
  {
    r := Begin(env, concurrency, seed);
    BeginInv(env, concurrency, seed);
    var steps: nat := 0;
    while FirstActive(r.cursor.workers).Some?
      invariant RunInv(r, env, seed)
      invariant |r.cursor.workers| == concurrency
      invariant concurrency == 0 ==> r == Begin(env, concurrency, seed)
      decreases 3 * (r.cursor.len - r.cursor.idx) + Pending(r.cursor.workers)
    {
      var proposed := schedule(steps);
      var w := if proposed < |r.cursor.workers| && !r.cursor.workers[proposed].Exited?
        then proposed else FirstActive(r.cursor.workers).value;
      StepValid(r.cursor, w);
      AdvanceInv(r, w, env, seed);
      r := Advance(r, w, env);
      steps := steps + 1;
    }
    if concurrency > 0 {
      FinishedRun(r, env, seed);
      AllExitedComplete(r.cursor);
    }
  }
}
