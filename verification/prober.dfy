/**
 The worker pool of `determine_limit` (src/lib.rs:91-144) as a sequential
 state machine. Each step lets one worker make its next move, and the
 schedule, a sequence of worker indices, picks the interleaving:

 - an `Idle` worker claims the next level from the shared counter (`fetch_add`)
   and sends its HEAD request;
 - a `Pending` worker receives the reply the oracle gives for its level: a
   success sends it back to claim again, a failure updates the shared result
   under the write lock and stops the worker;
 - a `Done` worker, or an index with no worker, does nothing.

 Receiving a reply and updating the result are one step: between getting
 its reply and taking the write lock a worker touches no shared state, so
 the wait for the lock only reorders updates that are themselves atomic.
 The oracle is a function of the level, which loses nothing: each level is
 claimed exactly once (`CounterHandsOutConsecutiveLevels`), so it is asked
 about each level at most once.
 */
module Prober {
  import opened Results
  import opened Limit

  /** The outcome of a HEAD request once `error_for_status` has been applied. */
  datatype Reply = Success | Failure(error: HttpError)

  datatype Worker = Idle | Pending(level: Level) | Done

  /** One `fetch_add`: which worker took which level. */
  datatype Claim = Claim(worker: nat, level: Level)

  datatype State = State(counter: Level, workers: seq<Worker>, acc: Acc, claims: seq<Claim>)

  /** `num_workers` freshly spawned workers, the counter at 1, the result at `Ok(usize::MAX)`. */
  function Init(n: nat): (s: State)
    ensures |s.workers| == n
    ensures ClaimsConsecutive(s)
    ensures Terminal(s) <==> n == 0
    ensures s.acc.Bound? && s.acc.level == USIZE_MAX
    ensures s.counter == 1 && s.claims == []
    ensures forall i :: 0 <= i < n ==> s.workers[i] == Idle
  {
    var s := State(1, seq(n, _ => Idle), Initial, []);
    assert n > 0 ==> s.workers[0] == Idle;
    s
  }

  /**
   Worker `i` makes its next move. Nothing but worker `i` changes, a stopped
   worker stays stopped, the counter moves only when an idle worker claims,
   and the shared result moves only when a pending worker's request fails.
   */
  function Step(oracle: nat -> Reply, s: State, i: nat): (s': State)
    ensures |s'.workers| == |s.workers|
    ensures forall j :: 0 <= j < |s.workers| && j != i ==> s'.workers[j] == s.workers[j]
    ensures forall j :: 0 <= j < |s.workers| && s.workers[j].Done? ==> s'.workers[j].Done?
    ensures s'.counter == s.counter + 1 <==> i < |s.workers| && s.workers[i].Idle?
    ensures s'.counter == s.counter || s'.counter == s.counter + 1
    ensures s'.acc != s.acc ==> i < |s.workers| && s.workers[i].Pending? && oracle(s.workers[i].level).Failure?
  {
    if i >= |s.workers| then s
    else match s.workers[i]
      case Idle =>
        State(s.counter + 1, s.workers[i := Pending(s.counter)], s.acc, s.claims + [Claim(i, s.counter)])
      case Pending(level) =>
        (match oracle(level)
         case Success => s.(workers := s.workers[i := Idle])
         case Failure(e) => s.(workers := s.workers[i := Done], acc := Update(s.acc, Classify(level, e))))
      case Done => s
  }

  /** The state after the steps of `schedule`, in order. */
  function Run(oracle: nat -> Reply, s: State, schedule: seq<nat>): (s': State)
    ensures |s'.workers| == |s.workers|
    decreases |schedule|
  {
    if |schedule| == 0 then s else Run(oracle, Step(oracle, s, schedule[0]), schedule[1..])
  }

  /** Every worker has stopped, so `try_join_all` has returned. */
  predicate Terminal(s: State) {
    forall i :: 0 <= i < |s.workers| ==> s.workers[i].Done?
  }

  /**
   `determine_limit` after the steps of `schedule`: `None` while some worker
   is still running, otherwise the stored value with one subtracted.
   */
  function DetermineLimit(oracle: nat -> Reply, n: nat, schedule: seq<nat>): (r: Option<Result<nat, HttpError>>)
    ensures r.Some? <==> Terminal(Run(oracle, Init(n), schedule))
    ensures r.Some? ==> r.value == Finish(Run(oracle, Init(n), schedule).acc)
    ensures r.Some? && r.value.Err? ==> !IsClientError(r.value.error)
    ensures r.Some? && r.value.Err? ==> exists l: Level :: oracle(l) == Failure(r.value.error)
  {
    RunKeepsStoredErrorFatal(oracle, Init(n), schedule);
    RunKeepsErrorFromOracle(oracle, Init(n), schedule);
    var s := Run(oracle, Init(n), schedule);
    if Terminal(s) then Some(Finish(s.acc)) else None
  }

  lemma {:induction false} RunAppend(oracle: nat -> Reply, s: State, a: seq<nat>, b: seq<nat>)
    ensures Run(oracle, s, a + b) == Run(oracle, Run(oracle, s, a), b)
    decreases |a|
  {
    if |a| > 0 {
      assert (a + b)[0] == a[0];
      assert (a + b)[1..] == a[1..] + b;
      RunAppend(oracle, Step(oracle, s, a[0]), a[1..], b);
    } else {
      assert a + b == b;
    }
  }

  /** One turn of worker i: its claim followed by its receive. */
  lemma RunOneTurn(oracle: nat -> Reply, s: State, i: nat)
    ensures Run(oracle, s, [i, i]) == Step(oracle, Step(oracle, s, i), i)
  {
    var s1 := Step(oracle, s, i);
    assert [i, i][1..] == [i];
    assert Run(oracle, s, [i, i]) == Run(oracle, s1, [i]);
    assert [i][1..] == [];
    assert Run(oracle, s1, [i]) == Run(oracle, Step(oracle, s1, i), []);
  }

  // ---------------------------------------------------------------------
  // The shared result as a log of updates

  /** What step `i` hands to the shared result: a pending worker's classified failure, or nothing. */
  function StepObservations(oracle: nat -> Reply, s: State, i: nat): (os: seq<Observation>)
    ensures |os| <= 1
    ensures Step(oracle, s, i).acc == Replay(s.acc, os)
  {
    if i < |s.workers| && s.workers[i].Pending? && oracle(s.workers[i].level).Failure? then
      [Classify(s.workers[i].level, oracle(s.workers[i].level).error)]
    else []
  }

  /** The updates the steps of `schedule` make to the shared result, in the order they take the lock. */
  function Observations(oracle: nat -> Reply, s: State, schedule: seq<nat>): seq<Observation>
    decreases |schedule|
  {
    if |schedule| == 0 then []
    else StepObservations(oracle, s, schedule[0]) + Observations(oracle, Step(oracle, s, schedule[0]), schedule[1..])
  }

  /** A run leaves the shared result where replaying its log of updates, in step order, leaves it. */
  lemma {:induction false} RunIsReplay(oracle: nat -> Reply, s: State, schedule: seq<nat>)
    ensures Run(oracle, s, schedule).acc == Replay(s.acc, Observations(oracle, s, schedule))
    decreases |schedule|
  {
    if |schedule| > 0 {
      var s1 := Step(oracle, s, schedule[0]);
      RunIsReplay(oracle, s1, schedule[1..]);
      ReplayAppend(s.acc, StepObservations(oracle, s, schedule[0]), Observations(oracle, s1, schedule[1..]));
    }
  }

  /**
   A finished probe fails exactly when some worker reported a fault, and
   then with the error of the last fault to take the lock.
   */
  lemma ProbeFailsIffFault(oracle: nat -> Reply, n: nat, schedule: seq<nat>)
    requires DetermineLimit(oracle, n, schedule).Some?
    ensures var os := Observations(oracle, Init(n), schedule);
      DetermineLimit(oracle, n, schedule).value.Err? <==> exists k :: 0 <= k < |os| && os[k].Fault?
    ensures var os := Observations(oracle, Init(n), schedule);
      forall k :: 0 <= k < |os| && os[k].Fault? && (forall j :: k < j < |os| ==> os[j].Boundary?) ==>
        DetermineLimit(oracle, n, schedule).value == Err(os[k].error)
  {
    RunIsReplay(oracle, Init(n), schedule);
    ReplayFails(Initial, Observations(oracle, Init(n), schedule));
  }

  /** Once an error is stored, every continuation of the run that finishes returns an error. */
  lemma ErrorSticks(oracle: nat -> Reply, n: nat, prefix: seq<nat>, rest: seq<nat>)
    requires Run(oracle, Init(n), prefix).acc.Fail?
    ensures Run(oracle, Init(n), prefix + rest).acc.Fail?
    ensures DetermineLimit(oracle, n, prefix + rest).Some? ==> DetermineLimit(oracle, n, prefix + rest).value.Err?
  {
    var s := Run(oracle, Init(n), prefix);
    RunAppend(oracle, Init(n), prefix, rest);
    RunIsReplay(oracle, s, rest);
    ReplayFails(s.acc, Observations(oracle, s, rest));
  }

  /**
   When every worker stopped at a boundary, the order in which the updates
   took the lock does not matter: two finished runs that reported the same
   boundaries, in any order, return the same result.
   */
  lemma BoundaryOrderIrrelevant(oracle: nat -> Reply, n: nat, a: seq<nat>, b: seq<nat>)
    requires AllBoundaries(Observations(oracle, Init(n), a))
    requires multiset(Observations(oracle, Init(n), a)) == multiset(Observations(oracle, Init(n), b))
    requires DetermineLimit(oracle, n, a).Some? && DetermineLimit(oracle, n, b).Some?
    ensures DetermineLimit(oracle, n, a) == DetermineLimit(oracle, n, b)
  {
    RunIsReplay(oracle, Init(n), a);
    RunIsReplay(oracle, Init(n), b);
    ReplayBoundariesOrderFree(USIZE_MAX, Observations(oracle, Init(n), a), Observations(oracle, Init(n), b));
  }

  // ---------------------------------------------------------------------
  // The shared counter

  /**
   The claim log is 1, 2, 3, ... in order with nothing skipped or repeated,
   the counter is the next value to hand out, and each pending worker holds
   the level it claimed itself.
   */
  ghost predicate ClaimsConsecutive(s: State) {
    && s.counter == |s.claims| + 1
    && (forall k :: 0 <= k < |s.claims| ==> s.claims[k].level == k + 1 && s.claims[k].worker < |s.workers|)
    && (forall i :: 0 <= i < |s.workers| && s.workers[i].Pending? ==>
          s.workers[i].level < s.counter && s.claims[s.workers[i].level - 1].worker == i)
  }

  lemma StepKeepsClaimsConsecutive(oracle: nat -> Reply, s: State, i: nat)
    requires ClaimsConsecutive(s)
    ensures ClaimsConsecutive(Step(oracle, s, i))
  {
  }

  lemma {:induction false} RunKeepsClaimsConsecutive(oracle: nat -> Reply, s: State, schedule: seq<nat>)
    requires ClaimsConsecutive(s)
    ensures ClaimsConsecutive(Run(oracle, s, schedule))
    decreases |schedule|
  {
    if |schedule| > 0 {
      StepKeepsClaimsConsecutive(oracle, s, schedule[0]);
      RunKeepsClaimsConsecutive(oracle, Step(oracle, s, schedule[0]), schedule[1..]);
    }
  }

  /**
   In every reachable state the counter has handed out 1, 2, ..., counter - 1
   exactly once each, and no two pending workers hold the same level.
   */
  lemma CounterHandsOutConsecutiveLevels(oracle: nat -> Reply, n: nat, schedule: seq<nat>)
    ensures var s := Run(oracle, Init(n), schedule);
      && s.counter == |s.claims| + 1
      && (forall k :: 0 <= k < |s.claims| ==> s.claims[k].level == k + 1)
      && (forall i, j :: 0 <= i < j < |s.workers| && s.workers[i].Pending? && s.workers[j].Pending? ==>
            s.workers[i].level != s.workers[j].level)
  {
    RunKeepsClaimsConsecutive(oracle, Init(n), schedule);
  }

  // ---------------------------------------------------------------------
  // Boundary failures never surface

  ghost predicate StoredErrorIsFatal(s: State) {
    s.acc.Fail? ==> !IsClientError(s.acc.error)
  }

  lemma {:induction false} RunKeepsStoredErrorFatal(oracle: nat -> Reply, s: State, schedule: seq<nat>)
    requires StoredErrorIsFatal(s)
    ensures StoredErrorIsFatal(Run(oracle, s, schedule))
    decreases |schedule|
  {
    if |schedule| > 0 {
      RunKeepsStoredErrorFatal(oracle, Step(oracle, s, schedule[0]), schedule[1..]);
    }
  }

  /** A stored error is one the server actually returned, for some level. */
  ghost predicate StoredErrorFromOracle(oracle: nat -> Reply, s: State) {
    s.acc.Fail? ==> exists l: Level :: oracle(l) == Failure(s.acc.error)
  }

  lemma {:induction false} RunKeepsErrorFromOracle(oracle: nat -> Reply, s: State, schedule: seq<nat>)
    requires StoredErrorFromOracle(oracle, s)
    ensures StoredErrorFromOracle(oracle, Run(oracle, s, schedule))
    decreases |schedule|
  {
    if |schedule| > 0 {
      var s' := Step(oracle, s, schedule[0]);
      assert StoredErrorFromOracle(oracle, s') by {
        if s'.acc.Fail? && s'.acc != s.acc {
          var level := s.workers[schedule[0]].level;
          assert oracle(level) == Failure(s'.acc.error);
        }
      }
      RunKeepsErrorFromOracle(oracle, s', schedule[1..]);
    }
  }

  /** An error the probe returns is passed through unchanged from the server's reply to some level. */
  lemma ErrorCameFromServer(oracle: nat -> Reply, n: nat, schedule: seq<nat>)
    ensures var r := DetermineLimit(oracle, n, schedule);
      r.Some? && r.value.Err? ==> exists l: Level :: oracle(l) == Failure(r.value.error)
  {
    RunKeepsErrorFromOracle(oracle, Init(n), schedule);
  }

  /** A client error is only ever used as a boundary: an error the probe returns is never one. */
  lemma ErrorIsNeverClientError(oracle: nat -> Reply, n: nat, schedule: seq<nat>)
    ensures var r := DetermineLimit(oracle, n, schedule);
      r.Some? && r.value.Err? ==> !IsClientError(r.value.error)
  {
    RunKeepsStoredErrorFatal(oracle, Init(n), schedule);
  }

  // ---------------------------------------------------------------------
  // No workers

  lemma {:induction false} RunWithoutWorkers(oracle: nat -> Reply, schedule: seq<nat>)
    ensures Run(oracle, Init(0), schedule) == Init(0)
    decreases |schedule|
  {
    if |schedule| > 0 {
      RunWithoutWorkers(oracle, schedule[1..]);
    }
  }

  /** With zero workers nothing is probed and the sentinel comes back, less one. */
  lemma NoWorkersGiveSentinel(oracle: nat -> Reply, schedule: seq<nat>)
    ensures DetermineLimit(oracle, 0, schedule) == Some(Ok(USIZE_MAX - 1))
  {
    RunWithoutWorkers(oracle, schedule);
  }

  // ---------------------------------------------------------------------
  // A contiguous range of valid levels

  /** Levels 1..=v exist and every level past v answers with a client error. */
  ghost predicate Contiguous(oracle: nat -> Reply, v: nat) {
    && (forall l :: 1 <= l <= v ==> oracle(l) == Success)
    && (forall l :: v < l ==> oracle(l).Failure? && IsClientError(oracle(l).error))
  }

  ghost predicate PendingBelowCounter(s: State) {
    forall i :: 0 <= i < |s.workers| && s.workers[i].Pending? ==> s.workers[i].level < s.counter
  }

  ghost predicate NoPending(s: State, level: Level) {
    forall i :: 0 <= i < |s.workers| ==> s.workers[i] != Pending(level)
  }

  /**
   The invariant behind the main result: the stored value stays a bound of
   at least v + 1, a worker has stopped only once v + 1 was claimed, and once
   the claim of v + 1 has been answered the bound is exactly v + 1.
   */
  ghost predicate LimitInvariant(v: nat, s: State) {
    && PendingBelowCounter(s)
    && s.acc.Bound? && v + 1 <= s.acc.level
    && (forall i :: 0 <= i < |s.workers| && s.workers[i].Done? ==> v + 1 < s.counter)
    && (v + 1 < s.counter && NoPending(s, v + 1) ==> s.acc.level == v + 1)
  }

  lemma StepKeepsLimitInvariant(oracle: nat -> Reply, v: nat, s: State, i: nat)
    requires Contiguous(oracle, v)
    requires LimitInvariant(v, s)
    ensures LimitInvariant(v, Step(oracle, s, i))
  {
    var s' := Step(oracle, s, i);
    if i < |s.workers| {
      match s.workers[i]
      case Idle =>
        if v + 1 < s'.counter && NoPending(s', v + 1) {
          assert s.counter != v + 1 by {
            assert s'.workers[i] == Pending(s.counter);
          }
          assert NoPending(s, v + 1) by {
            forall j | 0 <= j < |s.workers| ensures s.workers[j] != Pending(v + 1) {
              if j != i {
                assert s.workers[j] == s'.workers[j];
              }
            }
          }
        }
      case Pending(level) =>
        if level <= v {
          assert oracle(level) == Success;
          if v + 1 < s'.counter && NoPending(s', v + 1) {
            assert NoPending(s, v + 1) by {
              forall j | 0 <= j < |s.workers| ensures s.workers[j] != Pending(v + 1) {
                if j != i {
                  assert s.workers[j] == s'.workers[j];
                }
              }
            }
          }
        } else {
          assert oracle(level).Failure? && IsClientError(oracle(level).error);
          if v + 1 < s'.counter && NoPending(s', v + 1) && level != v + 1 {
            assert NoPending(s, v + 1) by {
              forall j | 0 <= j < |s.workers| ensures s.workers[j] != Pending(v + 1) {
                if j != i {
                  assert s.workers[j] == s'.workers[j];
                }
              }
            }
          }
        }
      case Done =>
    }
  }

  lemma {:induction false} RunKeepsLimitInvariant(oracle: nat -> Reply, v: nat, s: State, schedule: seq<nat>)
    requires Contiguous(oracle, v)
    requires LimitInvariant(v, s)
    ensures LimitInvariant(v, Run(oracle, s, schedule))
    decreases |schedule|
  {
    if |schedule| > 0 {
      StepKeepsLimitInvariant(oracle, v, s, schedule[0]);
      RunKeepsLimitInvariant(oracle, v, Step(oracle, s, schedule[0]), schedule[1..]);
    }
  }

  /**
   If levels 1..=v exist and every level past them is a client error, then
   with at least one worker every interleaving that finishes returns `Ok(v)`.
   */
  lemma ProbeFindsLimit(oracle: nat -> Reply, v: nat, n: nat, schedule: seq<nat>)
    requires Contiguous(oracle, v)
    requires v < USIZE_MAX
    requires 1 <= n
    requires Terminal(Run(oracle, Init(n), schedule))
    ensures DetermineLimit(oracle, n, schedule) == Some(Ok(v))
  {
    RunKeepsLimitInvariant(oracle, v, Init(n), schedule);
    var s := Run(oracle, Init(n), schedule);
    assert s.workers[0].Done?;
  }

  // ---------------------------------------------------------------------
  // A fault past the valid range

  /**
   The invariant behind the fault result: a worker has stopped only once
   level k + 1 was claimed, and once that claim has been answered the stored
   value is an error.
   */
  ghost predicate FaultInvariant(k: nat, s: State) {
    && PendingBelowCounter(s)
    && (forall i :: 0 <= i < |s.workers| && s.workers[i].Done? ==> k + 1 < s.counter)
    && (k + 1 < s.counter && NoPending(s, k + 1) ==> s.acc.Fail?)
  }

  lemma StepKeepsFaultInvariant(oracle: nat -> Reply, k: nat, s: State, i: nat)
    requires forall l :: 1 <= l <= k ==> oracle(l) == Success
    requires oracle(k + 1).Failure? && !IsClientError(oracle(k + 1).error)
    requires FaultInvariant(k, s)
    ensures FaultInvariant(k, Step(oracle, s, i))
  {
    var s' := Step(oracle, s, i);
    if i < |s.workers| {
      match s.workers[i]
      case Idle =>
        if k + 1 < s'.counter && NoPending(s', k + 1) {
          assert s.counter != k + 1 by {
            assert s'.workers[i] == Pending(s.counter);
          }
          assert NoPending(s, k + 1) by {
            forall j | 0 <= j < |s.workers| ensures s.workers[j] != Pending(k + 1) {
              if j != i {
                assert s.workers[j] == s'.workers[j];
              }
            }
          }
        }
      case Pending(level) =>
        if level != k + 1 {
          if level <= k {
            assert oracle(level) == Success;
          }
          if k + 1 < s'.counter && NoPending(s', k + 1) {
            assert NoPending(s, k + 1) by {
              forall j | 0 <= j < |s.workers| ensures s.workers[j] != Pending(k + 1) {
                if j != i {
                  assert s.workers[j] == s'.workers[j];
                }
              }
            }
          }
        }
      case Done =>
    }
  }

  lemma {:induction false} RunKeepsFaultInvariant(oracle: nat -> Reply, k: nat, s: State, schedule: seq<nat>)
    requires forall l :: 1 <= l <= k ==> oracle(l) == Success
    requires oracle(k + 1).Failure? && !IsClientError(oracle(k + 1).error)
    requires FaultInvariant(k, s)
    ensures FaultInvariant(k, Run(oracle, s, schedule))
    decreases |schedule|
  {
    if |schedule| > 0 {
      StepKeepsFaultInvariant(oracle, k, s, schedule[0]);
      RunKeepsFaultInvariant(oracle, k, Step(oracle, s, schedule[0]), schedule[1..]);
    }
  }

  /**
   If levels 1..=k exist and level k + 1 fails with anything but a client
   error, every finished run fails, although successes were seen first.
   */
  lemma ProbeReportsFault(oracle: nat -> Reply, k: nat, n: nat, schedule: seq<nat>)
    requires forall l :: 1 <= l <= k ==> oracle(l) == Success
    requires oracle(k + 1).Failure? && !IsClientError(oracle(k + 1).error)
    requires 1 <= n
    requires Terminal(Run(oracle, Init(n), schedule))
    ensures DetermineLimit(oracle, n, schedule).Some?
    ensures DetermineLimit(oracle, n, schedule).value.Err?
    ensures !IsClientError(DetermineLimit(oracle, n, schedule).value.error)
    ensures (forall l :: k + 1 < l && oracle(l).Failure? ==> IsClientError(oracle(l).error)) ==>
              DetermineLimit(oracle, n, schedule).value.error == oracle(k + 1).error
  {
    RunKeepsFaultInvariant(oracle, k, Init(n), schedule);
    var s := Run(oracle, Init(n), schedule);
    assert s.workers[0].Done?;
    ErrorIsNeverClientError(oracle, n, schedule);
    RunKeepsErrorFromOracle(oracle, Init(n), schedule);
    var l: Level :| oracle(l) == Failure(s.acc.error);
    assert l == k + 1 || (k + 1 < l && oracle(l).Failure?);
  }

  // ---------------------------------------------------------------------
  // Some interleaving finishes

  /** Worker i takes `count` turns of claim-then-receive. */
  function Turns(i: nat, count: nat): (schedule: seq<nat>)
    ensures |schedule| == 2 * count
    ensures forall k :: 0 <= k < |schedule| ==> schedule[k] == i
  {
    seq(2 * count, _ => i)
  }

  /** Worker 0 runs until it stops; then workers 1, 2, ..., n - 1 each take one turn. */
  function SequentialSchedule(v: nat, n: nat): seq<nat>
    requires 1 <= n
  {
    Turns(0, v + 1) + Stragglers(1, n)
  }

  function Stragglers(from: nat, n: nat): seq<nat>
    decreases n - from
  {
    if from >= n then [] else Turns(from, 1) + Stragglers(from + 1, n)
  }

  /** Turns on levels that exist only move the counter. */
  lemma {:induction false} SuccessfulTurns(oracle: nat -> Reply, s: State, i: nat, count: nat)
    requires i < |s.workers| && s.workers[i] == Idle
    requires forall l :: s.counter <= l < s.counter + count ==> oracle(l) == Success
    ensures Run(oracle, s, Turns(i, count)).counter == s.counter + count
    ensures Run(oracle, s, Turns(i, count)).workers == s.workers
    ensures Run(oracle, s, Turns(i, count)).acc == s.acc
    decreases count
  {
    if count > 0 {
      var s1 := Step(oracle, s, i);
      var s2 := Step(oracle, s1, i);
      assert s2.workers == s.workers;
      assert Turns(i, count) == [i, i] + Turns(i, count - 1);
      RunAppend(oracle, s, [i, i], Turns(i, count - 1));
      RunOneTurn(oracle, s, i);
      SuccessfulTurns(oracle, s2, i, count - 1);
    }
  }

  /** A turn on a level past the range stops the worker and keeps the stored value a bound. */
  lemma StoppingTurn(oracle: nat -> Reply, v: nat, s: State, i: nat)
    requires Contiguous(oracle, v)
    requires i < |s.workers| && s.workers[i] == Idle && v < s.counter
    ensures Run(oracle, s, Turns(i, 1)).counter == s.counter + 1
    ensures Run(oracle, s, Turns(i, 1)).workers == s.workers[i := Done]
  {
    assert Turns(i, 1) == [i, i];
    RunOneTurn(oracle, s, i);
    assert oracle(s.counter).Failure?;
  }

  lemma {:induction false} StragglersStop(oracle: nat -> Reply, v: nat, s: State, from: nat)
    requires Contiguous(oracle, v)
    requires from <= |s.workers| && v < s.counter
    requires forall i :: 0 <= i < from ==> s.workers[i].Done?
    requires forall i :: from <= i < |s.workers| ==> s.workers[i] == Idle
    ensures Terminal(Run(oracle, s, Stragglers(from, |s.workers|)))
    decreases |s.workers| - from
  {
    if from < |s.workers| {
      var s1 := Run(oracle, s, Turns(from, 1));
      StoppingTurn(oracle, v, s, from);
      RunAppend(oracle, s, Turns(from, 1), Stragglers(from + 1, |s.workers|));
      StragglersStop(oracle, v, s1, from + 1);
    }
  }

  /**
   The main result is not vacuous: for every contiguous oracle and every
   positive worker count some interleaving finishes.
   */
  lemma SequentialScheduleFinishes(oracle: nat -> Reply, v: nat, n: nat)
    requires Contiguous(oracle, v)
    requires 1 <= n
    ensures Terminal(Run(oracle, Init(n), SequentialSchedule(v, n)))
  {
    var s0 := Init(n);
    assert Turns(0, v + 1) == Turns(0, v) + Turns(0, 1);
    RunAppend(oracle, s0, Turns(0, v), Turns(0, 1));
    SuccessfulTurns(oracle, s0, 0, v);
    var s1 := Run(oracle, s0, Turns(0, v));
    StoppingTurn(oracle, v, s1, 0);
    var s2 := Run(oracle, s1, Turns(0, 1));
    RunAppend(oracle, s0, Turns(0, v + 1), Stragglers(1, n));
    StragglersStop(oracle, v, s2, 1);
  }
}
