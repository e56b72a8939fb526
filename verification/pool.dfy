/**
 The worker pool of both scanners: `CONCURRENCY` workers share one cursor
 `idx` over the candidate list. A worker that is between candidates tests
 `idx < numbers.length` and, if so, takes `cur = idx++` in the same
 uninterrupted step; it then waits for its candidate to finish, and loops.
 When the test fails it leaves the loop for good.

 The cooperative scheduler is modelled as an arbitrary interleaving of single
 worker steps: claiming the next index, finishing the claimed candidate, or
 leaving.
 */
module Pool {
  import opened Optional
  import opened Seqs

  datatype Worker = Idle | Busy(cur: nat) | Exited

  /** The shared cursor, the workers, and the indices finished so far in
      finishing order. */
  datatype Cursor = Cursor(idx: nat, len: nat, workers: seq<Worker>, finished: seq<nat>)

  /** What one worker step did. */
  datatype Event = Claim(index: nat) | Finish(index: nat) | Leave | Nothing

  /** `Array.from({ length: CONCURRENCY }, (_, i) => worker(i))` with `idx = 0`. */
  function Launch(len: nat, concurrency: nat): Cursor {
    Cursor(0, len, seq(concurrency, _ => Idle), [])
  }

  /** One step of worker `w`. */
  function Step(c: Cursor, w: nat): (out: (Cursor, Event))
    requires w < |c.workers|
    ensures |out.0.workers| == |c.workers| && out.0.len == c.len
  {
    match c.workers[w]
    case Idle =>
      if c.idx < c.len then
        (c.(idx := c.idx + 1, workers := c.workers[w := Busy(c.idx)]), Claim(c.idx))
      else
        (c.(workers := c.workers[w := Exited]), Leave)
    case Busy(i) =>
      (c.(workers := c.workers[w := Idle], finished := c.finished + [i]), Finish(i))
    case Exited =>
      (c, Nothing)
  }

  // ---------------------------------------------------------------------
  // Exactly-once claiming
  // ---------------------------------------------------------------------

  /** Number of workers holding a claimed index. */
  function BusyCount(ws: seq<Worker>): nat
    decreases |ws|
  {
    if |ws| == 0 then 0 else (if ws[0].Busy? then 1 else 0) + BusyCount(ws[1..])
  }

  function Weight(w: Worker): nat {
    match w
    case Idle => 1
    case Busy(_) => 2
    case Exited => 0
  }

  /** What is left to do: every unclaimed index, and every worker not yet gone. */
  function Pending(ws: seq<Worker>): nat
    decreases |ws|
  {
    if |ws| == 0 then 0 else Weight(ws[0]) + Pending(ws[1..])
  }

  lemma {:induction false} CountsUpdate(ws: seq<Worker>, w: nat, x: Worker)
    requires w < |ws|
    ensures BusyCount(ws[w := x]) == BusyCount(ws) - (if ws[w].Busy? then 1 else 0) + (if x.Busy? then 1 else 0)
    ensures Pending(ws[w := x]) == Pending(ws) - Weight(ws[w]) + Weight(x)
    decreases |ws|
  {
    if w > 0 {
      assert ws[w := x][1..] == ws[1..][w - 1 := x];
      CountsUpdate(ws[1..], w - 1, x);
    }
  }

  lemma {:induction false} NoBusyCount(ws: seq<Worker>)
    requires forall w :: 0 <= w < |ws| ==> !ws[w].Busy?
    ensures BusyCount(ws) == 0
    decreases |ws|
  {
    if |ws| > 0 {
      NoBusyCount(ws[1..]);
    }
  }

  ghost predicate AllExited(ws: seq<Worker>) {
    forall w :: 0 <= w < |ws| ==> ws[w].Exited?
  }

  /** The cursor's invariant: indices below `idx` have been claimed, each by
      one worker; every claimed index is either held by exactly one worker or
      finished exactly once; a worker only leaves once the cursor is used up. */
  ghost predicate Valid(c: Cursor) {
    && c.idx <= c.len
    && |c.finished| + BusyCount(c.workers) == c.idx
    && (forall k :: 0 <= k < |c.finished| ==> c.finished[k] < c.idx)
    && Distinct(c.finished)
    && (forall w :: 0 <= w < |c.workers| && c.workers[w].Busy? ==>
          c.workers[w].cur < c.idx && c.workers[w].cur !in c.finished)
    && (forall v, w :: 0 <= v < w < |c.workers| && c.workers[v].Busy? && c.workers[w].Busy? ==>
          c.workers[v].cur != c.workers[w].cur)
    && (forall w :: 0 <= w < |c.workers| && c.workers[w].Exited? ==> c.idx == c.len)
    && (forall i :: 0 <= i < c.idx && i !in c.finished ==>
          exists w :: 0 <= w < |c.workers| && c.workers[w] == Busy(i))
  }

  lemma LaunchValid(len: nat, concurrency: nat)
    ensures Valid(Launch(len, concurrency))
  {
    NoBusyCount(Launch(len, concurrency).workers);
  }

  lemma ClaimValid(c: Cursor, w: nat)
    requires Valid(c) && w < |c.workers| && c.workers[w].Idle? && c.idx < c.len
    ensures Valid(c.(idx := c.idx + 1, workers := c.workers[w := Busy(c.idx)]))
  {
    var d := c.(idx := c.idx + 1, workers := c.workers[w := Busy(c.idx)]);
    CountsUpdate(c.workers, w, Busy(c.idx));
    forall i | 0 <= i < d.idx && i !in d.finished
      ensures exists v :: 0 <= v < |d.workers| && d.workers[v] == Busy(i)
    {
      if i == c.idx {
        assert d.workers[w] == Busy(i);
      } else {
        var v :| 0 <= v < |c.workers| && c.workers[v] == Busy(i);
        assert d.workers[v] == Busy(i);
      }
    }
  }

  lemma LeaveValid(c: Cursor, w: nat)
    requires Valid(c) && w < |c.workers| && c.workers[w].Idle? && c.idx >= c.len
    ensures Valid(c.(workers := c.workers[w := Exited]))
  {
    var d := c.(workers := c.workers[w := Exited]);
    CountsUpdate(c.workers, w, Exited);
    forall i | 0 <= i < d.idx && i !in d.finished
      ensures exists v :: 0 <= v < |d.workers| && d.workers[v] == Busy(i)
    {
      var v :| 0 <= v < |c.workers| && c.workers[v] == Busy(i);
      assert d.workers[v] == Busy(i);
    }
  }

  /** The cursor after worker `w` finishes its claimed index. */
  function Finished(c: Cursor, w: nat): Cursor
    requires w < |c.workers| && c.workers[w].Busy?
  {
    c.(workers := c.workers[w := Idle], finished := c.finished + [c.workers[w].cur])
  }

  /** A busy worker's step finishes its own index, which lies in the list. */
  lemma StepFinish(c: Cursor, w: nat)
    requires Valid(c) && w < |c.workers| && c.workers[w].Busy?
    ensures c.workers[w].cur < c.len
    ensures Step(c, w) == (Finished(c, w), Finish(c.workers[w].cur))
  {
  }

  lemma FinishCounts(c: Cursor, w: nat)
    requires Valid(c) && w < |c.workers| && c.workers[w].Busy?
    ensures |Finished(c, w).finished| + BusyCount(Finished(c, w).workers) == Finished(c, w).idx
    ensures forall k :: 0 <= k < |Finished(c, w).finished| ==> Finished(c, w).finished[k] < Finished(c, w).idx
  {
    CountsUpdate(c.workers, w, Idle);
  }

  lemma FinishDistinct(c: Cursor, w: nat)
    requires Valid(c) && w < |c.workers| && c.workers[w].Busy?
    ensures Distinct(Finished(c, w).finished)
  {
    var f := c.finished;
    var j := c.workers[w].cur;
    assert j !in f;
    forall k, l | 0 <= k < l < |f + [j]|
      ensures (f + [j])[k] != (f + [j])[l]
    {
      if l == |f| {
        assert (f + [j])[k] == f[k];
      }
    }
  }

  lemma FinishBusy(c: Cursor, w: nat)
    requires Valid(c) && w < |c.workers| && c.workers[w].Busy?
    ensures var d := Finished(c, w);
      forall v :: 0 <= v < |d.workers| && d.workers[v].Busy? ==>
        d.workers[v].cur < d.idx && d.workers[v].cur !in d.finished
  {
    var d := Finished(c, w);
    forall v | 0 <= v < |d.workers| && d.workers[v].Busy?
      ensures d.workers[v].cur < d.idx && d.workers[v].cur !in d.finished
    {
      assert v != w && d.workers[v] == c.workers[v];
      if v < w {
        assert c.workers[v].cur != c.workers[w].cur;
      } else {
        assert c.workers[w].cur != c.workers[v].cur;
      }
    }
  }

  lemma FinishWorkers(c: Cursor, w: nat)
    requires Valid(c) && w < |c.workers| && c.workers[w].Busy?
    ensures var d := Finished(c, w);
      forall v, u :: 0 <= v < u < |d.workers| && d.workers[v].Busy? && d.workers[u].Busy? ==>
        d.workers[v].cur != d.workers[u].cur
    ensures var d := Finished(c, w);
      forall v :: 0 <= v < |d.workers| && d.workers[v].Exited? ==> d.idx == d.len
  {
  }

  lemma FinishCovered(c: Cursor, w: nat)
    requires Valid(c) && w < |c.workers| && c.workers[w].Busy?
    ensures var d := Finished(c, w);
      forall i :: 0 <= i < d.idx && i !in d.finished ==>
        exists v :: 0 <= v < |d.workers| && d.workers[v] == Busy(i)
  {
    var d := Finished(c, w);
    forall i | 0 <= i < d.idx && i !in d.finished
      ensures exists v :: 0 <= v < |d.workers| && d.workers[v] == Busy(i)
    {
      var v :| 0 <= v < |c.workers| && c.workers[v] == Busy(i);
      assert d.workers[v] == Busy(i);
    }
  }

  lemma FinishValid(c: Cursor, w: nat)
    requires Valid(c) && w < |c.workers| && c.workers[w].Busy?
    ensures Valid(Finished(c, w))
  {
    FinishCounts(c, w);
    FinishDistinct(c, w);
    FinishBusy(c, w);
    FinishWorkers(c, w);
    FinishCovered(c, w);
  }

  /** Every worker step keeps the invariant, claims the index under the cursor
      or finishes the worker's own index, and makes progress unless the worker
      is already gone. */
  lemma StepValid(c: Cursor, w: nat)
    requires Valid(c) && w < |c.workers|
    ensures Valid(Step(c, w).0)
    ensures Step(c, w).1.Claim? ==> Step(c, w).1.index == c.idx && Step(c, w).0.idx == c.idx + 1
    ensures Step(c, w).1.Finish? ==>
      (c.workers[w] == Busy(Step(c, w).1.index) && Step(c, w).0.finished == c.finished + [Step(c, w).1.index])
    ensures !Step(c, w).1.Finish? ==> Step(c, w).0.finished == c.finished
    ensures !c.workers[w].Exited? ==>
      3 * (c.len - Step(c, w).0.idx) + Pending(Step(c, w).0.workers) < 3 * (c.len - c.idx) + Pending(c.workers)
  {
    match c.workers[w]
    case Idle =>
      if c.idx < c.len {
        ClaimValid(c, w);
        CountsUpdate(c.workers, w, Busy(c.idx));
      } else {
        LeaveValid(c, w);
        CountsUpdate(c.workers, w, Exited);
      }
    case Busy(j) =>
      FinishValid(c, w);
      CountsUpdate(c.workers, w, Idle);
    case Exited =>
  }

  /** The first worker still in its loop, if any. */
  function FirstActive(ws: seq<Worker>): (r: Option<nat>)
    ensures r.Some? ==> r.value < |ws| && !ws[r.value].Exited?
    ensures r.None? ==> AllExited(ws)
    decreases |ws|
  {
    if |ws| == 0 then None
    else if !ws[0].Exited? then Some(0)
    else
      match FirstActive(ws[1..])
      case Some(k) => Some(k + 1)
      case None => None
  }

  /** When every worker of a non-empty pool has left, each index of the
      candidate list was claimed and finished exactly once. */
  lemma AllExitedComplete(c: Cursor)
    requires Valid(c) && |c.workers| > 0 && AllExited(c.workers)
    ensures c.idx == c.len
    ensures |c.finished| == c.len
    ensures forall i :: 0 <= i < c.len ==> i in c.finished
    ensures Distinct(c.finished)
  {
    assert c.workers[0].Exited?;
    NoBusyCount(c.workers);
    forall i | 0 <= i < c.len
      ensures i in c.finished
    {
      assert forall w :: 0 <= w < |c.workers| ==> c.workers[w] != Busy(i);
    }
  }

  // ---------------------------------------------------------------------
  // Counting finished indices
  // ---------------------------------------------------------------------

  /** How many of `xs` satisfy `p`. */
  function CountWhere(xs: seq<nat>, p: nat -> bool): (count: nat)
    ensures count <= |xs|
    decreases |xs|
  {
    if |xs| == 0 then 0
    else CountWhere(xs[..|xs| - 1], p) + (if p(xs[|xs| - 1]) then 1 else 0)
  }

  lemma CountWhereAppend(xs: seq<nat>, i: nat, p: nat -> bool)
    ensures CountWhere(xs + [i], p) == CountWhere(xs, p) + (if p(i) then 1 else 0)
  {
    assert (xs + [i])[..|xs|] == xs;
  }

  /** Over indices without repeats, the count is the size of the set counted. */
  lemma {:induction false} CountWhereSet(xs: seq<nat>, p: nat -> bool)
    requires Distinct(xs)
    ensures CountWhere(xs, p) == |set k | k in xs && p(k)|
    decreases |xs|
  {
    if |xs| > 0 {
      var front := xs[..|xs| - 1];
      var i := xs[|xs| - 1];
      DistinctInit(xs);
      CountWhereSet(front, p);
      var before := set k | k in front && p(k);
      var after := set k | k in xs && p(k);
      assert xs == front + [i];
      if p(i) {
        assert after == before + {i};
      } else {
        assert after == before;
      }
    }
  }
}
