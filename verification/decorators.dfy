/** utils/decorators.py: `retry_on_fail` and `time_it`.

    A decorated function is given as `body`, where `body(k)` is what the k-th call
    of the wrapped function does (attempts are numbered from 1, as in
    `range(1, retries + 1)`). Every call receives the wrapper's own arguments, so the
    only thing that varies between attempts is the state of the world, which `body`
    already encodes. Sleeps are events carrying the delay in milliseconds. */
module Decorators {
  import opened Outcomes

  /** The attempt failed with something `except Exception` catches. */
  predicate FailsWithException<T>(r: Run<T>)
  {
    r.outcome.Err? && r.outcome.exc.IsException()
  }

  /** `retry_on_fail(retries, delay)(func)` called once. */
  function Retry<T>(retries: int, delay: nat, op: string, body: nat -> Run<T>): (r: Run<T>)
    ensures retries < 1 ==> r == Run(Err(NoneRaised), [])
    ensures retries >= 1 ==> |r.trace| > 0 && r.trace[0] == Call(op)
  {
    RetryFrom(1, None, retries, delay, op, body)
  }

  /** The loop of `wrapped` from `attempt` on, `last` being `last_exc`. */
  function RetryFrom<T>(attempt: nat, last: Option<Exc>, retries: int, delay: nat, op: string,
                        body: nat -> Run<T>): (r: Run<T>)
    decreases retries - attempt
  {
    if attempt > retries then
      Run(Err(if last.Some? then last.value else NoneRaised), [])
    else
      var b := body(attempt);
      var head := [Call(op)] + b.trace;
      if !FailsWithException(b) then
        Run(b.outcome, head)
      else
        var rest := RetryFrom(attempt + 1, Some(b.outcome.exc), retries, delay, op, body);
        Run(rest.outcome, head + [AttemptFailed(op, attempt, retries), Sleep(op, delay)] + rest.trace)
  }

  /** The events attempt `k` leaves behind when it fails and is followed by a sleep. */
  function FailedAttempt<T>(k: nat, retries: int, delay: nat, op: string, body: nat -> Run<T>): seq<Event>
  {
    [Call(op)] + body(k).trace + [AttemptFailed(op, k, retries), Sleep(op, delay)]
  }

  /** The first attempt from `lo` on that does not fail with an Exception, given that
      attempt `hi` does not. */
  function FirstStop<T>(body: nat -> Run<T>, lo: nat, hi: nat): (j: nat)
    requires lo <= hi && !FailsWithException(body(hi))
    ensures lo <= j <= hi && !FailsWithException(body(j))
    ensures forall i :: lo <= i < j ==> FailsWithException(body(i))
    decreases hi - lo
  {
    if !FailsWithException(body(lo)) then lo else FirstStop(body, lo + 1, hi)
  }

  /** Reference trace of attempts `lo .. hi - 1`, all failing. */
  function FailedAttempts<T>(lo: nat, hi: nat, retries: int, delay: nat, op: string,
                             body: nat -> Run<T>): seq<Event>
    decreases hi as int - lo as int
  {
    if lo >= hi then [] else FailedAttempt(lo, retries, delay, op, body) + FailedAttempts(lo + 1, hi, retries, delay, op, body)
  }

  lemma {:induction false} RetryFromFirstStop<T>(a: nat, k: nat, last: Option<Exc>, retries: int, delay: nat,
                                                 op: string, body: nat -> Run<T>)
    requires 1 <= a <= k <= retries
    requires forall j :: a <= j < k ==> FailsWithException(body(j))
    requires !FailsWithException(body(k))
    ensures RetryFrom(a, last, retries, delay, op, body)
         == Run(body(k).outcome, FailedAttempts(a, k, retries, delay, op, body) + [Call(op)] + body(k).trace)
    decreases k - a
  {
    if a < k {
      RetryFromFirstStop(a + 1, k, Some(body(a).outcome.exc), retries, delay, op, body);
      var f := FailedAttempt(a, retries, delay, op, body);
      var rest := FailedAttempts(a + 1, k, retries, delay, op, body);
      assert FailedAttempts(a, k, retries, delay, op, body) == f + rest;
      assert f + (rest + [Call(op)] + body(k).trace) == f + rest + [Call(op)] + body(k).trace;
    }
  }

  /** The first attempt does not raise an Exception: the wrapper calls the function
      once and ends with its outcome. */
  lemma RetryFirstSucceeds<T>(retries: int, delay: nat, op: string, body: nat -> Run<T>)
    requires retries >= 1 && !FailsWithException(body(1))
    ensures Retry(retries, delay, op, body) == Run(body(1).outcome, [Call(op)] + body(1).trace)
  {
    RetryFromFirstStop(1, 1, None, retries, delay, op, body);
    assert FailedAttempts(1, 1, retries, delay, op, body) == [];
  }

  /** Attempts 1..k-1 raise Exceptions and attempt k does not (it returns, or raises a
      BaseException outside Exception): the wrapper ends with attempt k's outcome after
      exactly the first k calls, k-1 of them followed by a sleep. */
  lemma RetryStopsAtFirstNonFailure<T>(retries: int, delay: nat, op: string, body: nat -> Run<T>, k: nat)
    requires 1 <= k <= retries
    requires forall j :: 1 <= j < k ==> FailsWithException(body(j))
    requires !FailsWithException(body(k))
    ensures Retry(retries, delay, op, body)
         == Run(body(k).outcome, FailedAttempts(1, k, retries, delay, op, body) + [Call(op)] + body(k).trace)
  {
    RetryFromFirstStop(1, k, None, retries, delay, op, body);
  }

  lemma {:induction false} RetryFromAllFail<T>(a: nat, last: Option<Exc>, retries: int, delay: nat,
                                               op: string, body: nat -> Run<T>)
    requires 1 <= a <= retries
    requires forall j :: a <= j <= retries ==> FailsWithException(body(j))
    ensures RetryFrom(a, last, retries, delay, op, body)
         == Run(body(retries).outcome, FailedAttempts(a, retries + 1, retries, delay, op, body))
    decreases retries - a
  {
    var f := FailedAttempt(a, retries, delay, op, body);
    if a < retries {
      RetryFromAllFail(a + 1, Some(body(a).outcome.exc), retries, delay, op, body);
    } else {
      assert FailedAttempts(a + 1, retries + 1, retries, delay, op, body) == [];
      assert FailedAttempts(a, retries + 1, retries, delay, op, body) == f;
    }
  }

  /** All `retries` attempts raise Exceptions: the function is called `retries` times, a
      sleep follows every failure including the last, and the wrapper raises the final
      attempt's exception object. */
  lemma RetryExhausted<T>(retries: int, delay: nat, op: string, body: nat -> Run<T>)
    requires retries >= 1
    requires forall j :: 1 <= j <= retries ==> FailsWithException(body(j))
    ensures Retry(retries, delay, op, body)
         == Run(body(retries).outcome, FailedAttempts(1, retries + 1, retries, delay, op, body))
  {
    RetryFromAllFail(1, None, retries, delay, op, body);
  }

  lemma {:induction false} RetryFromOutcome<T>(a: nat, last: Option<Exc>, retries: int, delay: nat, op: string,
                                               body: nat -> Run<T>)
    requires 1 <= a <= retries + 1
    requires a == 1 || (body(a - 1).outcome.Err? && last == Some(body(a - 1).outcome.exc))
    requires a == 1 ==> retries >= 1
    ensures exists k :: 1 <= k <= retries && RetryFrom(a, last, retries, delay, op, body).outcome == body(k).outcome
    decreases retries - a
  {
    if a > retries {
      assert RetryFrom(a, last, retries, delay, op, body).outcome == body(a - 1).outcome;
    } else if !FailsWithException(body(a)) {
      assert RetryFrom(a, last, retries, delay, op, body).outcome == body(a).outcome;
    } else {
      RetryFromOutcome(a + 1, Some(body(a).outcome.exc), retries, delay, op, body);
    }
  }

  /** Whatever the wrapper ends with (a value or an exception object) is what one of
      its attempts ended with: it invents no result and no exception of its own. */
  lemma RetryOutcomeFromAttempt<T>(retries: int, delay: nat, op: string, body: nat -> Run<T>)
    requires retries >= 1
    ensures exists k :: 1 <= k <= retries && Retry(retries, delay, op, body).outcome == body(k).outcome
  {
    RetryFromOutcome(1, None, retries, delay, op, body);
  }

  /** The event `e` is one the retry wrapper itself emits for `op`. */
  predicate OwnEvent(op: string, e: Event)
  {
    (e.Call? && e.op == op) || (e.AttemptFailed? && e.op == op) || (e.Sleep? && e.op == op)
  }

  predicate IsCallOf(op: string, e: Event) { e.Call? && e.op == op }
  predicate IsSleepOf(op: string, e: Event) { e.Sleep? && e.op == op }

  /** How often `p` holds in one failed attempt's events. */
  lemma FailedAttemptCount<T>(k: nat, retries: int, delay: nat, op: string, body: nat -> Run<T>, p: Event -> bool)
    ensures CountWhere(FailedAttempt(k, retries, delay, op, body), p)
         == (if p(Call(op)) then 1 else 0) + CountWhere(body(k).trace, p)
          + (if p(AttemptFailed(op, k, retries)) then 1 else 0) + (if p(Sleep(op, delay)) then 1 else 0)
  {
    var b := body(k).trace;
    CountWhereAppend([Call(op)] + b, [AttemptFailed(op, k, retries)] + [Sleep(op, delay)], p);
    CountWhereAppend([Call(op)], b, p);
    CountWhereAppend([AttemptFailed(op, k, retries)], [Sleep(op, delay)], p);
    CountSingle(Call(op), p);
    CountSingle(AttemptFailed(op, k, retries), p);
    CountSingle(Sleep(op, delay), p);
    assert [AttemptFailed(op, k, retries), Sleep(op, delay)] == [AttemptFailed(op, k, retries)] + [Sleep(op, delay)];
  }

  /** How often `p` holds in the reference trace of failed attempts, when it holds
      `c` times in every failed attempt's events. */
  lemma {:induction false} CountFailedAttempts<T>(lo: nat, hi: nat, retries: int, delay: nat, op: string,
                                                  body: nat -> Run<T>, p: Event -> bool, c: nat)
    requires lo <= hi
    requires forall j :: lo <= j < hi ==> CountWhere(FailedAttempt(j, retries, delay, op, body), p) == c
    ensures CountWhere(FailedAttempts(lo, hi, retries, delay, op, body), p) == c * (hi - lo)
    decreases hi - lo
  {
    if lo < hi {
      CountWhereAppend(FailedAttempt(lo, retries, delay, op, body), FailedAttempts(lo + 1, hi, retries, delay, op, body), p);
      CountFailedAttempts(lo + 1, hi, retries, delay, op, body, p, c);
      assert c * (hi - lo) == c + c * (hi - (lo + 1));
    }
  }

  /** Attempt k is the first that does not raise an Exception: a property of events
      that none of the wrapper's own events has, and that `c` events of every failed
      attempt have, is had by `(k - 1) * c` events plus those of attempt k. */
  lemma RetryStopCount<T>(retries: int, delay: nat, op: string, body: nat -> Run<T>, k: nat, p: Event -> bool, c: nat)
    requires 1 <= k <= retries
    requires forall j :: 1 <= j < k ==> FailsWithException(body(j))
    requires !FailsWithException(body(k))
    requires forall j :: 1 <= j < k ==> CountWhere(body(j).trace, p) == c
    requires !p(Call(op)) && !p(Sleep(op, delay)) && forall i: int :: !p(AttemptFailed(op, i, retries))
    ensures CountWhere(Retry(retries, delay, op, body).trace, p) == (k - 1) * c + CountWhere(body(k).trace, p)
  {
    RetryStopsAtFirstNonFailure(retries, delay, op, body, k);
    var pre := FailedAttempts(1, k, retries, delay, op, body);
    forall j | 1 <= j < k ensures CountWhere(FailedAttempt(j, retries, delay, op, body), p) == c {
      FailedAttemptCount(j, retries, delay, op, body, p);
    }
    CountFailedAttempts(1, k, retries, delay, op, body, p, c);
    CountWhereAppend(pre + [Call(op)], body(k).trace, p);
    CountWhereAppend(pre, [Call(op)], p);
    CountSingle(Call(op), p);
  }

  /** All attempts fail: a property of events that none of the wrapper's own events
      has, and that `c` events of every attempt have, is had by `retries * c` events. */
  lemma RetryExhaustedCount<T>(retries: int, delay: nat, op: string, body: nat -> Run<T>, p: Event -> bool, c: nat)
    requires retries >= 1
    requires forall j :: 1 <= j <= retries ==> FailsWithException(body(j))
    requires forall j :: 1 <= j <= retries ==> CountWhere(body(j).trace, p) == c
    requires !p(Call(op)) && !p(Sleep(op, delay)) && forall k: int :: !p(AttemptFailed(op, k, retries))
    ensures CountWhere(Retry(retries, delay, op, body).trace, p) == retries * c
  {
    RetryExhausted(retries, delay, op, body);
    forall j | 1 <= j < retries + 1 ensures CountWhere(FailedAttempt(j, retries, delay, op, body), p) == c {
      FailedAttemptCount(j, retries, delay, op, body, p);
    }
    CountFailedAttempts(1, retries + 1, retries, delay, op, body, p, c);
  }

  /** The wrapper's own calls and sleeps, when attempt k is the first that does not
      raise an Exception: exactly k calls and k-1 sleeps (attempts never call the
      wrapper itself). */
  lemma RetryCountsOnStop<T>(retries: int, delay: nat, op: string, body: nat -> Run<T>, k: nat)
    requires 1 <= k <= retries
    requires forall j :: 1 <= j < k ==> FailsWithException(body(j))
    requires !FailsWithException(body(k))
    requires forall j :: CountWhere(body(j).trace, e => OwnEvent(op, e)) == 0
    ensures CountWhere(Retry(retries, delay, op, body).trace, e => IsCallOf(op, e)) == k
    ensures CountWhere(Retry(retries, delay, op, body).trace, e => IsSleepOf(op, e)) == k - 1
  {
    RetryStopsAtFirstNonFailure(retries, delay, op, body, k);
    var pre := FailedAttempts(1, k, retries, delay, op, body);
    var call: Event -> bool := e => IsCallOf(op, e);
    var sleep: Event -> bool := e => IsSleepOf(op, e);
    forall j | true
      ensures CountWhere(FailedAttempt(j, retries, delay, op, body), call) == 1
      ensures CountWhere(FailedAttempt(j, retries, delay, op, body), sleep) == 1
      ensures CountWhere(body(j).trace, call) == 0 && CountWhere(body(j).trace, sleep) == 0
    {
      NoOwnEventsMeansNone(body(j).trace, op);
      FailedAttemptCount(j, retries, delay, op, body, call);
      FailedAttemptCount(j, retries, delay, op, body, sleep);
    }
    CountFailedAttempts(1, k, retries, delay, op, body, call, 1);
    CountFailedAttempts(1, k, retries, delay, op, body, sleep, 1);
    CountSingle(Call(op), call);
    CountSingle(Call(op), sleep);
    CountWhereAppend(pre + [Call(op)], body(k).trace, call);
    CountWhereAppend(pre, [Call(op)], call);
    CountWhereAppend(pre + [Call(op)], body(k).trace, sleep);
    CountWhereAppend(pre, [Call(op)], sleep);
  }

  lemma {:induction false} NoOwnEventsMeansNone(t: seq<Event>, op: string)
    requires CountWhere(t, e => OwnEvent(op, e)) == 0
    ensures CountWhere(t, e => IsCallOf(op, e)) == 0
    ensures CountWhere(t, e => IsSleepOf(op, e)) == 0
  {
    if |t| > 0 {
      NoOwnEventsMeansNone(t[1..], op);
    }
  }

  /** A property of single events that every attempt's events and the wrapper's own
      events have holds of the whole retried call. */
  lemma {:induction false} RetryFromKeeps<T>(a: nat, last: Option<Exc>, retries: int, delay: nat, op: string,
                                             body: nat -> Run<T>, q: Event -> bool)
    requires forall j, i :: 0 <= i < |body(j).trace| ==> q(body(j).trace[i])
    requires q(Call(op)) && q(Sleep(op, delay)) && forall k: int :: q(AttemptFailed(op, k, retries))
    ensures forall i :: 0 <= i < |RetryFrom(a, last, retries, delay, op, body).trace| ==>
              q(RetryFrom(a, last, retries, delay, op, body).trace[i])
    decreases retries - a
  {
    if a <= retries {
      var b := body(a);
      if FailsWithException(b) {
        RetryFromKeeps(a + 1, Some(b.outcome.exc), retries, delay, op, body, q);
      }
    }
  }

  lemma RetryKeeps<T>(retries: int, delay: nat, op: string, body: nat -> Run<T>, q: Event -> bool)
    requires forall j, i :: 0 <= i < |body(j).trace| ==> q(body(j).trace[i])
    requires q(Call(op)) && q(Sleep(op, delay)) && forall k: int :: q(AttemptFailed(op, k, retries))
    ensures forall i :: 0 <= i < |Retry(retries, delay, op, body).trace| ==> q(Retry(retries, delay, op, body).trace[i])
  {
    RetryFromKeeps(1, None, retries, delay, op, body, q);
  }

  /** `time_it(func)` called once: the wrapped outcome (value or exception) passes
      through unchanged and the elapsed-time line is logged in the `finally` clause. */
  function TimeIt<T>(op: string, r: Run<T>): (t: Run<T>)
    ensures t.outcome == r.outcome
    ensures |t.trace| == |r.trace| + 1 && t.trace[..|r.trace|] == r.trace
    ensures Artifacts(t.trace) == Artifacts(r.trace)
  {
    ArtifactsAppend(r.trace, [Elapsed(op)]);
    Run(r.outcome, r.trace + [Elapsed(op)])
  }
}
