/** The download loop at the end of `main`: a first-in first-out queue of
    `model:param` keys and a per-key attempt counter. Each round pops the
    front key, counts one more attempt for it and pulls it. A success drops
    the key; a failure re-appends it while fewer than three attempts have
    been made, and skips it otherwise. The counter is kept per key string,
    so a key selected twice shares one counter between its copies. The
    `ollama pull` subprocess is an oracle supplied by the caller. */
module Download {

  import opened Seqs

  /** `exec_count < 3` is the retry guard. */
  const MaxAttempts: nat := 3

  datatype Outcome = Succeeded | Requeued | Skipped

  /** One pull as the program reports it: the key, the displayed position
      `total_models - len(selected_models)`, the attempt number and what
      happened next. */
  datatype Pull = Pull(key: string, position: int, attempt: nat, outcome: Outcome)

  /** The loop state: the pending queue, `retry_count`, and `total_models`. */
  datatype Batch = Batch(queue: seq<string>, attempts: map<string, nat>, total: nat)

  /** `retry_count.get(key, 0)`. */
  function Get(attempts: map<string, nat>, key: string): nat
  {
    if key in attempts then attempts[key] else 0
  }

  /** A pull that takes the key out of the queue for good. */
  predicate Final(o: Outcome)
  {
    o != Requeued
  }

  function Start(selection: seq<string>): Batch
  {
    Batch(selection, map[], |selection|)
  }

  /** One round of the loop with the pull's result `ok`. */
  function Step(b: Batch, ok: bool): (r: (Batch, Pull))
    requires b.queue != []
    ensures r.1.key == b.queue[0] && r.0.total == b.total
    ensures r.1.attempt == Get(b.attempts, b.queue[0]) + 1
    ensures Get(r.0.attempts, r.1.key) == r.1.attempt
    ensures forall k :: k != r.1.key ==> Get(r.0.attempts, k) == Get(b.attempts, k)
    ensures r.1.outcome == Succeeded <==> ok
    ensures r.1.outcome == Requeued <==> !ok && r.1.attempt < MaxAttempts
    ensures r.1.position == b.total - (|b.queue| - 1)
    ensures r.0.queue == b.queue[1..] + (if r.1.outcome == Requeued then [r.1.key] else [])
    ensures multiset(r.0.queue) == multiset(b.queue) - (if Final(r.1.outcome) then multiset{r.1.key} else multiset{})
  {
    var key, rest := b.queue[0], b.queue[1..];
    assert b.queue == [key] + rest;
    var attempt := Get(b.attempts, key) + 1;
    var outcome := if ok then Succeeded else if attempt < MaxAttempts then Requeued else Skipped;
    var queue := if outcome == Requeued then rest + [key] else rest;
    (Batch(queue, b.attempts[key := attempt], b.total), Pull(key, b.total - |rest|, attempt, outcome))
  }

  /* ------------------------------------------------------------- budget */

  /** Requeues still open to a key that has been attempted `attempts` times. */
  function Budget(attempts: nat): nat
  {
    if attempts >= MaxAttempts - 1 then 0 else MaxAttempts - 1 - attempts
  }

  function BudgetSum(keys: seq<string>, attempts: map<string, nat>): nat
  {
    if keys == [] then 0 else Budget(Get(attempts, keys[0])) + BudgetSum(keys[1..], attempts)
  }

  /** Changing one key's counter changes the sum by that key's budget alone. */
  lemma {:induction false} BudgetSumUpdate(keys: seq<string>, attempts: map<string, nat>, x: string, v: nat)
    requires NoDup(keys)
    ensures x in keys ==>
      BudgetSum(keys, attempts[x := v]) + Budget(Get(attempts, x)) == BudgetSum(keys, attempts) + Budget(v)
    ensures x !in keys ==> BudgetSum(keys, attempts[x := v]) == BudgetSum(keys, attempts)
    decreases |keys|
  {
    if keys != [] {
      assert NoDup(keys[1..]) by {
        forall i, j | 0 <= i < j < |keys[1..]| ensures keys[1..][i] != keys[1..][j] {
          assert keys[1..][i] == keys[i + 1] && keys[1..][j] == keys[j + 1];
        }
      }
      BudgetSumUpdate(keys[1..], attempts, x, v);
      if keys[0] == x {
        assert x !in keys[1..] by {
          forall i | 0 <= i < |keys[1..]| ensures keys[1..][i] != x {
            assert keys[1..][i] == keys[i + 1];
          }
        }
      } else {
        assert x in keys <==> x in keys[1..] by {
          assert keys == [keys[0]] + keys[1..];
        }
      }
    }
  }

  /** Before any pull every key has its full budget. */
  lemma {:induction false} BudgetSumFresh(keys: seq<string>)
    ensures BudgetSum(keys, map[]) == (MaxAttempts - 1) * |keys|
    decreases |keys|
  {
    if keys != [] {
      BudgetSumFresh(keys[1..]);
    }
  }

  /** Every queued key is one of `keys`. */
  predicate Covered(queue: seq<string>, keys: seq<string>)
  {
    forall i :: 0 <= i < |queue| ==> queue[i] in keys
  }

  function Measure(b: Batch, keys: seq<string>): nat
  {
    |b.queue| + BudgetSum(keys, b.attempts)
  }

  /** Every round shrinks the queue or spends one of the key's requeues. */
  lemma StepDecreases(b: Batch, keys: seq<string>, ok: bool)
    requires b.queue != [] && NoDup(keys) && Covered(b.queue, keys)
    ensures Covered(Step(b, ok).0.queue, keys)
    ensures Measure(Step(b, ok).0, keys) < Measure(b, keys)
  {
    var key := b.queue[0];
    var (next, p) := Step(b, ok);
    assert key in keys;
    BudgetSumUpdate(keys, b.attempts, key, p.attempt);
    assert next.attempts == b.attempts[key := p.attempt];
    forall i | 0 <= i < |next.queue| ensures next.queue[i] in keys {
      if i < |b.queue| - 1 {
        assert next.queue[i] == b.queue[i + 1];
      }
    }
  }

  /** The log of the whole loop with the oracle `pull`: the `n`-th pull of
      the run, for the key it is given, succeeds exactly when `pull(n, key)`. */
  function Run(b: Batch, keys: seq<string>, pull: (nat, string) -> bool, n: nat): seq<Pull>
    requires NoDup(keys) && Covered(b.queue, keys)
    decreases Measure(b, keys)
  {
    if b.queue == [] then []
    else
      var ok := pull(n, b.queue[0]);
      StepDecreases(b, keys, ok);
      [Step(b, ok).1] + Run(Step(b, ok).0, keys, pull, n + 1)
  }

  /* ---------------------------------------------------------------- logs */

  function PullsOf(log: seq<Pull>, key: string): nat
  {
    if log == [] then 0
    else PullsOf(log[..|log| - 1], key) + (if log[|log| - 1].key == key then 1 else 0)
  }

  function FinishedOf(log: seq<Pull>, key: string): nat
  {
    if log == [] then 0
    else FinishedOf(log[..|log| - 1], key) + (if log[|log| - 1].key == key && Final(log[|log| - 1].outcome) then 1 else 0)
  }

  function Finished(log: seq<Pull>): nat
  {
    if log == [] then 0
    else Finished(log[..|log| - 1]) + (if Final(log[|log| - 1].outcome) then 1 else 0)
  }

  lemma LogSnoc(log: seq<Pull>, p: Pull)
    ensures forall k :: PullsOf(log + [p], k) == PullsOf(log, k) + (if p.key == k then 1 else 0)
    ensures forall k :: FinishedOf(log + [p], k) == FinishedOf(log, k) + (if p.key == k && Final(p.outcome) then 1 else 0)
    ensures Finished(log + [p]) == Finished(log) + (if Final(p.outcome) then 1 else 0)
  {
    assert (log + [p])[..|log|] == log;
  }

  /* ---------------------------------------------------------- invariants */

  /** Queue length, counters and finished pulls agree with the selection. */
  ghost predicate Counts(selection: seq<string>, b: Batch, log: seq<Pull>)
  {
    && b.total == |selection|
    && Covered(b.queue, selection)
    && |b.queue| + Finished(log) == |selection|
    && (forall k :: Get(b.attempts, k) == PullsOf(log, k))
    && (forall k :: multiset(b.queue)[k] + FinishedOf(log, k) == multiset(selection)[k])
    && (forall k :: PullsOf(log, k) + Budget(Get(b.attempts, k)) <= FinishedOf(log, k) + MaxAttempts - 1)
  }

  /** What every logged pull reports. */
  ghost predicate WellReported(total: nat, log: seq<Pull>)
  {
    forall i :: 0 <= i < |log| ==>
      && 1 <= log[i].position <= total
      && (log[i].outcome == Requeued ==> log[i].attempt < MaxAttempts)
      && (log[i].outcome == Skipped ==> log[i].attempt >= MaxAttempts)
      && log[i].attempt == PullsOf(log[..i + 1], log[i].key)
  }

  lemma StepCovered(selection: seq<string>, b: Batch, ok: bool)
    requires b.queue != [] && Covered(b.queue, selection)
    ensures Covered(Step(b, ok).0.queue, selection)
  {
    var (next, p) := Step(b, ok);
    forall i | 0 <= i < |next.queue| ensures next.queue[i] in selection {
      if i < |b.queue| - 1 {
        assert next.queue[i] == b.queue[i + 1];
      } else {
        assert next.queue[i] == b.queue[0];
      }
    }
  }

  lemma StepAttempts(b: Batch, log: seq<Pull>, ok: bool)
    requires b.queue != []
    requires forall k :: Get(b.attempts, k) == PullsOf(log, k)
    requires forall k :: PullsOf(log, k) + Budget(Get(b.attempts, k)) <= FinishedOf(log, k) + MaxAttempts - 1
    ensures forall k :: Get(Step(b, ok).0.attempts, k) == PullsOf(log + [Step(b, ok).1], k)
    ensures forall k :: PullsOf(log + [Step(b, ok).1], k) + Budget(Get(Step(b, ok).0.attempts, k))
                          <= FinishedOf(log + [Step(b, ok).1], k) + MaxAttempts - 1
  {
    var (next, p) := Step(b, ok);
    LogSnoc(log, p);
    forall k ensures PullsOf(log + [p], k) + Budget(Get(next.attempts, k)) <= FinishedOf(log + [p], k) + MaxAttempts - 1 {
      if k == p.key {
        assert p.outcome == Requeued ==> Budget(p.attempt) + 1 == Budget(p.attempt - 1);
      }
    }
  }

  lemma StepCounts(selection: seq<string>, b: Batch, log: seq<Pull>, ok: bool)
    requires b.queue != [] && Counts(selection, b, log)
    ensures Counts(selection, Step(b, ok).0, log + [Step(b, ok).1])
  {
    var (next, p) := Step(b, ok);
    LogSnoc(log, p);
    StepCovered(selection, b, ok);
    StepAttempts(b, log, ok);
  }

  lemma StepReported(selection: seq<string>, b: Batch, log: seq<Pull>, ok: bool)
    requires b.queue != [] && Counts(selection, b, log) && WellReported(|selection|, log)
    ensures WellReported(|selection|, log + [Step(b, ok).1])
  {
    var (next, p) := Step(b, ok);
    var log' := log + [p];
    LogSnoc(log, p);
    assert log'[..|log|] == log;
    forall i | 0 <= i < |log'|
      ensures log'[i].attempt == PullsOf(log'[..i + 1], log'[i].key)
    {
      if i < |log| {
        assert log'[..i + 1] == log[..i + 1];
      } else {
        assert log'[..i + 1] == log';
      }
    }
  }

  /** The budget left bounds the pulls still to come. */
  lemma StepBudget(selection: seq<string>, b: Batch, log: seq<Pull>, ok: bool)
    requires b.queue != [] && Covered(b.queue, selection)
    requires |log| + Measure(b, Distinct(selection)) <= |selection| + (MaxAttempts - 1) * |Distinct(selection)|
    ensures |log| + 1 + Measure(Step(b, ok).0, Distinct(selection)) <= |selection| + (MaxAttempts - 1) * |Distinct(selection)|
  {
    var keys := Distinct(selection);
    forall i | 0 <= i < |b.queue| ensures b.queue[i] in keys {
      DistinctMember(selection, b.queue[i]);
    }
    StepDecreases(b, keys, ok);
  }

  /** The pulls so far followed the oracle. */
  ghost predicate FollowsOracle(pull: (nat, string) -> bool, log: seq<Pull>)
  {
    forall i :: 0 <= i < |log| ==> (log[i].outcome == Succeeded <==> pull(i, log[i].key))
  }

  /** The loop invariant: the counts agree, every pull so far was reported
      correctly and followed the oracle, the budget bounds what is left, and
      what is left is exactly the rest of the reference run. */
  ghost predicate Inv(selection: seq<string>, pull: (nat, string) -> bool, b: Batch, log: seq<Pull>)
  {
    && Counts(selection, b, log)
    && WellReported(|selection|, log)
    && Covered(b.queue, Distinct(selection))
    && |log| + Measure(b, Distinct(selection)) <= |selection| + (MaxAttempts - 1) * |Distinct(selection)|
    && FollowsOracle(pull, log)
    && Covered(Start(selection).queue, Distinct(selection))
    && Run(Start(selection), Distinct(selection), pull, 0) == log + Run(b, Distinct(selection), pull, |log|)
  }

  lemma CountsStart(selection: seq<string>)
    ensures Counts(selection, Start(selection), [])
    ensures WellReported(|selection|, [])
  {
  }

  lemma CoveredStart(selection: seq<string>)
    ensures Covered(selection, Distinct(selection))
  {
    forall i | 0 <= i < |selection| ensures selection[i] in Distinct(selection) {
      DistinctMember(selection, selection[i]);
    }
  }

  lemma InvStart(selection: seq<string>, pull: (nat, string) -> bool)
    ensures Inv(selection, pull, Start(selection), [])
  {
    var keys := Distinct(selection);
    CountsStart(selection);
    CoveredStart(selection);
    BudgetSumFresh(keys);
    var run := Run(Start(selection), keys, pull, 0);
    assert [] + run == run;
  }

  /** One round extends the log by the reference run's next pull. */
  lemma StepRun(b: Batch, keys: seq<string>, pull: (nat, string) -> bool, log: seq<Pull>, whole: seq<Pull>)
    requires b.queue != [] && NoDup(keys) && Covered(b.queue, keys)
    requires whole == log + Run(b, keys, pull, |log|)
    ensures var r := Step(b, pull(|log|, b.queue[0]));
      Covered(r.0.queue, keys) && whole == (log + [r.1]) + Run(r.0, keys, pull, |log| + 1)
  {
    var ok := pull(|log|, b.queue[0]);
    var (next, p) := Step(b, ok);
    StepDecreases(b, keys, ok);
    assert Run(b, keys, pull, |log|) == [p] + Run(next, keys, pull, |log| + 1);
    ConcatAssociative(log, [p], Run(next, keys, pull, |log| + 1));
  }

  lemma StepOracle(pull: (nat, string) -> bool, log: seq<Pull>, p: Pull)
    requires FollowsOracle(pull, log)
    requires p.outcome == Succeeded <==> pull(|log|, p.key)
    ensures FollowsOracle(pull, log + [p])
  {
    forall i | 0 <= i < |log| + 1
      ensures (log + [p])[i].outcome == Succeeded <==> pull(i, (log + [p])[i].key)
    {
      if i < |log| {
        assert (log + [p])[i] == log[i];
      }
    }
  }

  lemma StepInv(selection: seq<string>, pull: (nat, string) -> bool, b: Batch, log: seq<Pull>)
    requires b.queue != [] && Inv(selection, pull, b, log)
    ensures var r := Step(b, pull(|log|, b.queue[0]));
      && Inv(selection, pull, r.0, log + [r.1])
      && Measure(r.0, Distinct(selection)) < Measure(b, Distinct(selection))
  {
    var keys := Distinct(selection);
    var ok := pull(|log|, b.queue[0]);
    var (next, p) := Step(b, ok);
    var log' := log + [p];
    assert Counts(selection, next, log') by {
      StepCounts(selection, b, log, ok);
    }
    assert WellReported(|selection|, log') by {
      StepReported(selection, b, log, ok);
    }
    assert |log'| + Measure(next, keys) <= |selection| + (MaxAttempts - 1) * |keys| by {
      StepBudget(selection, b, log, ok);
    }
    assert Covered(next.queue, keys) && Measure(next, keys) < Measure(b, keys) by {
      StepDecreases(b, keys, ok);
    }
    assert Run(Start(selection), keys, pull, 0) == log' + Run(next, keys, pull, |log'|) by {
      StepRun(b, keys, pull, log, Run(Start(selection), keys, pull, 0));
    }
    assert FollowsOracle(pull, log') by {
      StepOracle(pull, log, p);
    }
  }

  /** With the queue empty every selected entry has finished, and no key was
      pulled more often than its entries plus the requeue allowance. */
  lemma CountsDone(selection: seq<string>, b: Batch, log: seq<Pull>)
    requires b.queue == [] && Counts(selection, b, log)
    ensures forall k :: PullsOf(log, k) <= multiset(selection)[k] + MaxAttempts - 1
    ensures forall k :: FinishedOf(log, k) == multiset(selection)[k]
    ensures Finished(log) == |selection|
  {
    forall k ensures FinishedOf(log, k) == multiset(selection)[k] {
      assert multiset(b.queue)[k] == 0;
    }
  }

  /** With the queue empty the run is over and its bounds are reached. */
  lemma InvDone(selection: seq<string>, pull: (nat, string) -> bool, b: Batch, log: seq<Pull>)
    requires b.queue == [] && Inv(selection, pull, b, log)
    ensures log == Run(Start(selection), Distinct(selection), pull, 0)
    ensures |log| <= |selection| + (MaxAttempts - 1) * |Distinct(selection)|
    ensures |log| <= MaxAttempts * |selection|
    ensures forall k :: PullsOf(log, k) <= multiset(selection)[k] + MaxAttempts - 1
    ensures forall k :: FinishedOf(log, k) == multiset(selection)[k]
    ensures Finished(log) == |selection|
  {
    var keys := Distinct(selection);
    assert log == Run(Start(selection), keys, pull, 0) by {
      assert log + [] == log;
    }
    assert |log| <= |selection| + (MaxAttempts - 1) * |keys| && |keys| <= |selection|;
    CountsDone(selection, b, log);
  }

  /** `main`'s download loop: pops, counts, pulls through the oracle and
      requeues or drops, until the queue is empty. */
  method Download(selection: seq<string>, pull: (nat, string) -> bool) returns (log: seq<Pull>)
    ensures log == Run(Start(selection), Distinct(selection), pull, 0)
    ensures |log| <= |selection| + (MaxAttempts - 1) * |Distinct(selection)|
    ensures |log| <= MaxAttempts * |selection|
    ensures forall k :: PullsOf(log, k) <= multiset(selection)[k] + MaxAttempts - 1
    ensures forall k :: FinishedOf(log, k) == multiset(selection)[k]
    ensures Finished(log) == |selection|
    ensures WellReported(|selection|, log)
    ensures FollowsOracle(pull, log)
  {
    var b := Start(selection);
    log := [];
    InvStart(selection, pull);
    while b.queue != []
      invariant Inv(selection, pull, b, log)
      decreases Measure(b, Distinct(selection))
    {
      var ok := pull(|log|, b.queue[0]);
      StepInv(selection, pull, b, log);
      var (next, p) := Step(b, ok);
      b, log := next, log + [p];
    }
    InvDone(selection, pull, b, log);
  }

  /* ----------------------------------------------------------- scenarios */

  /** A key that fails twice is pulled a third time and then succeeds; the
      displayed position stays `1/1` throughout. */
  lemma RetryThenSucceed(key: string)
    ensures Run(Start([key]), [key], (n: nat, k: string) => n >= 2, 0)
      == [Pull(key, 1, 1, Requeued), Pull(key, 1, 2, Requeued), Pull(key, 1, 3, Succeeded)]
  {
    var pull := (n: nat, k: string) => n >= 2;
    var b0, b1, b2, b3 := Start([key]), Batch([key], map[key := 1], 1), Batch([key], map[key := 2], 1), Batch([], map[key := 3], 1);
    assert map[][key := 1] == map[key := 1];
    assert map[key := 1][key := 2] == map[key := 2];
    assert map[key := 2][key := 3] == map[key := 3];
    assert [key][1..] + [key] == [key];
    assert Step(b0, false) == (b1, Pull(key, 1, 1, Requeued));
    assert Step(b1, false) == (b2, Pull(key, 1, 2, Requeued));
    assert Step(b2, true) == (b3, Pull(key, 1, 3, Succeeded));
    assert Run(b3, [key], pull, 3) == [];
    assert Run(b2, [key], pull, 2) == [Pull(key, 1, 3, Succeeded)];
    assert Run(b1, [key], pull, 1) == [Pull(key, 1, 2, Requeued), Pull(key, 1, 3, Succeeded)];
  }

  /** The four rounds of a twice-selected key whose pulls all fail. */
  lemma SharedCounterSteps(key: string)
    ensures Step(Start([key, key]), false) == (Batch([key, key], map[key := 1], 2), Pull(key, 1, 1, Requeued))
    ensures Step(Batch([key, key], map[key := 1], 2), false) == (Batch([key, key], map[key := 2], 2), Pull(key, 1, 2, Requeued))
    ensures Step(Batch([key, key], map[key := 2], 2), false) == (Batch([key], map[key := 3], 2), Pull(key, 1, 3, Skipped))
    ensures Step(Batch([key], map[key := 3], 2), false) == (Batch([], map[key := 4], 2), Pull(key, 2, 4, Skipped))
  {
    assert map[][key := 1] == map[key := 1];
    assert map[key := 1][key := 2] == map[key := 2];
    assert map[key := 2][key := 3] == map[key := 3];
    assert map[key := 3][key := 4] == map[key := 4];
    assert [key, key][1..] + [key] == [key, key];
    assert [key, key][1..] == [key];
  }

  /** A key selected twice shares its counter: when every pull fails it is
      pulled four times, not six, and the second copy is skipped on its
      first pull because the counter already stands at three. */
  lemma SharedCounter(key: string)
    ensures Run(Start([key, key]), [key], (n: nat, k: string) => false, 0)
      == [Pull(key, 1, 1, Requeued), Pull(key, 1, 2, Requeued), Pull(key, 1, 3, Skipped), Pull(key, 2, 4, Skipped)]
  {
    var pull := (n: nat, k: string) => false;
    var b1 := Batch([key, key], map[key := 1], 2);
    var b2 := Batch([key, key], map[key := 2], 2);
    var b3 := Batch([key], map[key := 3], 2);
    var b4 := Batch([], map[key := 4], 2);
    SharedCounterSteps(key);
    assert Run(b4, [key], pull, 4) == [];
    assert Run(b3, [key], pull, 3) == [Pull(key, 2, 4, Skipped)];
    assert Run(b2, [key], pull, 2) == [Pull(key, 1, 3, Skipped), Pull(key, 2, 4, Skipped)];
    assert Run(b1, [key], pull, 1) == [Pull(key, 1, 2, Requeued), Pull(key, 1, 3, Skipped), Pull(key, 2, 4, Skipped)];
  }
}
