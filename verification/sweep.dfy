/**
 A whole run of check-price.js: the fixed range `START..END`, the worker pool
 of `Pool`, and `processOne` of `Fetch` on each claimed candidate; `hits`
 counts the results with `hit` set. There is no dedup set: the output file is
 removed at startup and each candidate is claimed once.

 What `getPageText` settled on for each candidate, whether appending to the
 output file fails, and the clock are inputs.
 */
module Sweep {
  import opened Optional
  import opened ResultFile
  import opened Seqs
  import opened Candidates
  import opened Pool
  import opened Fetch

  datatype SweepEnv = SweepEnv(numbers: seq<int>, pages: seq<Try>, writeFailures: seq<Option<string>>, clock: nat -> string)

  ghost predicate WellFormed(env: SweepEnv) {
    |env.pages| == |env.numbers| && |env.writeFailures| == |env.numbers|
  }

  datatype Sweep = Sweep(cursor: Cursor, logs: Logs, hits: nat)

  /** Both files were removed, `idx = hits = 0`. */
  function Begin(env: SweepEnv, concurrency: nat): Sweep {
    Sweep(Launch(|env.numbers|, concurrency), Logs([], []), 0)
  }

  /** One step of worker `w`; finishing candidate `current` runs
      `processOne(numbers[current])` and then `if (r.hit) hits++`. */
  function Advance(s: Sweep, w: nat, env: SweepEnv): Sweep
    requires WellFormed(env) && Valid(s.cursor) && s.cursor.len == |env.numbers|
    requires w < |s.cursor.workers|
  {
    var (c, e) := Step(s.cursor, w);
    match e
    case Finish(i) =>
      assert s.cursor.workers[w] == Busy(i);
      var (res, logs) := ProcessOne(env.numbers[i], env.pages[i], env.writeFailures[i], env.clock(|s.cursor.finished|), s.logs);
      Sweep(c, logs, if res.Found? && res.hit then s.hits + 1 else s.hits)
    case _ =>
      s.(cursor := c)
  }

  // ---------------------------------------------------------------------
  // The run's invariant
  // ---------------------------------------------------------------------

  /** Whether candidate `i` is a hit: its page holds the snippet and its URL
      was written. */
  function HitAt(env: SweepEnv): nat -> bool {
    (i: nat) => i < |env.pages| && i < |env.writeFailures| &&
      env.pages[i].Text? && Strings.Contains(env.pages[i].text, TargetSnippet) && env.writeFailures[i].None?
  }

  /** Whether candidate `i` left an error line. */
  function FailedAt(env: SweepEnv): nat -> bool {
    (i: nat) => i < |env.pages| && i < |env.writeFailures| &&
      (env.pages[i].Failure? || (Strings.Contains(env.pages[i].text, TargetSnippet) && env.writeFailures[i].Some?))
  }

  /** The URLs of the hits among `finished`, in finishing order. */
  function HitUrls(env: SweepEnv, finished: seq<nat>): seq<string>
    requires WellFormed(env)
    decreases |finished|
  {
    if |finished| == 0 then []
    else
      var i := finished[|finished| - 1];
      HitUrls(env, finished[..|finished| - 1]) +
        (if HitAt(env)(i) && i < |env.numbers| then [BuildUrl(env.numbers[i])] else [])
  }

  lemma HitUrlsAppend(env: SweepEnv, finished: seq<nat>, i: nat)
    requires WellFormed(env) && i < |env.numbers|
    ensures HitUrls(env, finished + [i]) ==
      HitUrls(env, finished) + (if HitAt(env)(i) then [BuildUrl(env.numbers[i])] else [])
  {
    assert (finished + [i])[..|finished|] == finished;
  }

  lemma {:induction false} HitUrlsCount(env: SweepEnv, finished: seq<nat>)
    requires WellFormed(env)
    requires forall k :: 0 <= k < |finished| ==> finished[k] < |env.numbers|
    ensures |HitUrls(env, finished)| == CountWhere(finished, HitAt(env))
    decreases |finished|
  {
    if |finished| > 0 {
      HitUrlsCount(env, finished[..|finished| - 1]);
    }
  }

  ghost predicate SweepInv(s: Sweep, env: SweepEnv) {
    && WellFormed(env)
    && Valid(s.cursor)
    && s.cursor.len == |env.numbers|
    && s.logs.out == HitUrls(env, s.cursor.finished)
    && s.hits == |s.logs.out|
    && |s.logs.errs| == CountWhere(s.cursor.finished, FailedAt(env))
  }

  lemma BeginInv(env: SweepEnv, concurrency: nat)
    requires WellFormed(env)
    ensures SweepInv(Begin(env, concurrency), env)
  {
    LaunchValid(|env.numbers|, concurrency);
  }

  /** What finishing candidate `i` does to the run. */
  lemma FinishShape(s: Sweep, w: nat, env: SweepEnv, i: nat)
    requires WellFormed(env) && Valid(s.cursor) && s.cursor.len == |env.numbers|
    requires w < |s.cursor.workers| && s.cursor.workers[w] == Busy(i)
    ensures i < |env.numbers|
    ensures var out := ProcessOne(env.numbers[i], env.pages[i], env.writeFailures[i], env.clock(|s.cursor.finished|), s.logs);
      Advance(s, w, env) == Sweep(Step(s.cursor, w).0, out.1, if out.0.Found? && out.0.hit then s.hits + 1 else s.hits)
    ensures Valid(Step(s.cursor, w).0) && Step(s.cursor, w).0.len == s.cursor.len
    ensures Step(s.cursor, w).0.finished == s.cursor.finished + [i]
  {
    StepFinish(s.cursor, w);
    StepValid(s.cursor, w);
  }

  lemma FinishInv(s: Sweep, w: nat, env: SweepEnv, i: nat)
    requires SweepInv(s, env) && w < |s.cursor.workers| && s.cursor.workers[w] == Busy(i)
    ensures SweepInv(Advance(s, w, env), env)
  {
    FinishShape(s, w, env, i);
    HitUrlsAppend(env, s.cursor.finished, i);
    CountWhereAppend(s.cursor.finished, i, FailedAt(env));
    assert HitAt(env)(i) == (env.pages[i].Text? && Strings.Contains(env.pages[i].text, TargetSnippet) && env.writeFailures[i].None?);
    assert FailedAt(env)(i) == (env.pages[i].Failure? || (Strings.Contains(env.pages[i].text, TargetSnippet) && env.writeFailures[i].Some?));
  }

  /** A worker step keeps the invariant. */
  lemma AdvanceInv(s: Sweep, w: nat, env: SweepEnv)
    requires SweepInv(s, env) && w < |s.cursor.workers|
    ensures SweepInv(Advance(s, w, env), env)
  {
    StepValid(s.cursor, w);
    if s.cursor.workers[w].Busy? {
      FinishInv(s, w, env, s.cursor.workers[w].cur);
    }
  }

  // ---------------------------------------------------------------------
  // Completion
  // ---------------------------------------------------------------------

  ghost function AllHitIndices(env: SweepEnv): set<nat> {
    set i: nat | i < |env.numbers| && HitAt(env)(i)
  }

  ghost function AllFailedIndices(env: SweepEnv): set<nat> {
    set i: nat | i < |env.numbers| && FailedAt(env)(i)
  }

  lemma CountAll(fin: seq<nat>, len: nat, p: nat -> bool)
    requires Distinct(fin)
    requires forall i :: 0 <= i < len ==> i in fin
    requires forall k :: 0 <= k < |fin| ==> fin[k] < len
    ensures CountWhere(fin, p) == |set i: nat | i < len && p(i)|
  {
    CountWhereSet(fin, p);
    assert (set k | k in fin && p(k)) == (set i: nat | i < len && p(i));
  }

  /** The outcome of a finished run: `hits` is the number of hit candidates,
      the output file holds one URL per hit and the URL of every hit, and the
      error log one line per failed candidate. */
  lemma FinishedSweep(s: Sweep, env: SweepEnv)
    requires SweepInv(s, env) && |s.cursor.workers| > 0 && AllExited(s.cursor.workers)
    ensures s.hits == |s.logs.out| == |AllHitIndices(env)|
    ensures forall i :: 0 <= i < |env.numbers| && HitAt(env)(i) ==> BuildUrl(env.numbers[i]) in s.logs.out
    ensures |s.logs.errs| == |AllFailedIndices(env)|
  {
    AllExitedComplete(s.cursor);
    var fin := s.cursor.finished;
    HitUrlsCount(env, fin);
    CountAll(fin, |env.numbers|, HitAt(env));
    CountAll(fin, |env.numbers|, FailedAt(env));
    forall i | 0 <= i < |env.numbers| && HitAt(env)(i)
      ensures BuildUrl(env.numbers[i]) in s.logs.out
    {
      HitUrlListed(env, fin, i);
    }
  }

  lemma {:induction false} HitUrlListed(env: SweepEnv, finished: seq<nat>, i: nat)
    requires WellFormed(env) && i < |env.numbers| && HitAt(env)(i) && i in finished
    ensures BuildUrl(env.numbers[i]) in HitUrls(env, finished)
    decreases |finished|
  {
    var front := finished[..|finished| - 1];
    assert finished == front + [finished[|finished| - 1]];
    if finished[|finished| - 1] != i {
      HitUrlListed(env, front, i);
    }
  }

  /** `await Promise.all(workers)` under any interleaving `schedule` proposes. */
  method RunSweep(env: SweepEnv, concurrency: nat, schedule: nat -> nat) returns (s: Sweep)
    requires WellFormed(env)
    ensures SweepInv(s, env) && AllExited(s.cursor.workers)
    ensures concurrency > 0 ==> forall i :: 0 <= i < |env.numbers| ==> i in s.cursor.finished
    ensures concurrency > 0 ==> s.hits == |s.logs.out| == |AllHitIndices(env)|
    ensures concurrency > 0 ==> |s.logs.errs| == |AllFailedIndices(env)|
    ensures concurrency == 0 ==> s.hits == 0 && s.logs == Logs([], [])
  {
    s := Begin(env, concurrency);
    BeginInv(env, concurrency);
    var steps: nat := 0;
    while FirstActive(s.cursor.workers).Some?
      invariant SweepInv(s, env)
      invariant |s.cursor.workers| == concurrency
      invariant concurrency == 0 ==> s == Begin(env, concurrency)
      decreases 3 * (s.cursor.len - s.cursor.idx) + Pending(s.cursor.workers)
    {
      var proposed := schedule(steps);
      var w := if proposed < |s.cursor.workers| && !s.cursor.workers[proposed].Exited?
        then proposed else FirstActive(s.cursor.workers).value;
      StepValid(s.cursor, w);
      AdvanceInv(s, w, env);
      s := Advance(s, w, env);
      steps := steps + 1;
    }
    if concurrency > 0 {
      FinishedSweep(s, env);
      AllExitedComplete(s.cursor);
    }
  }

  /** The scanned range of check-price.js: one hundred ascending numbers, each
      claimed once by the three workers. */
  lemma ConfiguredRange()
    ensures |Range(Start, End)| == 100
    ensures Range(Start, End)[0] == 112500 && Range(Start, End)[99] == 112599
    ensures Concurrency > 0 && Retries + 1 == 4
  {
  }
}
