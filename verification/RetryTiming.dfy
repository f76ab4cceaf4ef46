/** Time spent by the batch-write driver: the backoff range and the total elapsed time. */
module RetryTiming {
  import opened Wrappers
  import opened BatchResults
  import opened RetryDriver

  const U64_LIMIT: nat := 0x1_0000_0000_0000_0000
  const BASE_MS: nat := 10
  const CAP_MS: nat := 500

  /** Milliseconds from the start of the call to the end of attempt `m - 1`. */
  function ElapsedAfter(script: seq<Turn>, m: nat): nat
    requires m <= |script|
  {
    if m == 0 then 0
    else ElapsedAfter(script, m - 1) + (if m == 1 then 0 else script[m - 1].sleptMs) + script[m - 1].tookMs
  }

  /** Milliseconds slept before attempts `1 .. m - 1`. */
  function SleptBefore(script: seq<Turn>, m: nat): nat
    requires m <= |script|
  {
    if m <= 1 then 0 else SleptBefore(script, m - 1) + script[m - 1].sleptMs
  }

  /**
   A world whose clock is right, whose sleeps overshoot the drawn backoff by at most `overshoot`,
   whose sends take at most `sendMs`, and whose jitter is drawn from the Full Jitter range.
   */
  ghost predicate Punctual(script: seq<Turn>, overshoot: nat, sendMs: nat) {
    forall k :: 0 <= k < |script| ==>
      && script[k].tookMs <= sendMs
      && (k > 0 ==>
            && script[k].elapsedMs == ElapsedAfter(script, k)
            && script[k].backoffMs <= MaxBackoffMs(k - 1, BASE_MS, CAP_MS)
            && script[k].sleptMs <= script[k].backoffMs + overshoot)
  }

  /** The shift is capped, so the u64 product cannot overflow, and the cap of 500 ms binds from attempt 6 on. */
  lemma BackoffRange(attempt: nat)
    ensures BASE_MS * Pow2(if attempt < 6 then attempt else 6) < U64_LIMIT
    ensures MaxBackoffMs(attempt, BASE_MS, CAP_MS) <= CAP_MS
    ensures attempt < 6 ==> MaxBackoffMs(attempt, BASE_MS, CAP_MS) == BASE_MS * Pow2(attempt)
    ensures attempt >= 6 ==> MaxBackoffMs(attempt, BASE_MS, CAP_MS) == CAP_MS
  {
    assert Pow2(0) == 1 && Pow2(1) == 2 && Pow2(2) == 4 && Pow2(3) == 8;
    assert Pow2(4) == 16 && Pow2(5) == 32 && Pow2(6) == 64;
  }

  /**
   With a timeout configured, a run ends less than one send after the timeout: the guard bounds
   when an attempt may start, and nothing bounds the attempt itself.
   */
  lemma TotalTimeBound(script: seq<Turn>, maxRetries: nat, timeoutMs: nat, trace: seq<Send>, truncated: bool,
                       overshoot: nat, sendMs: nat)
    requires Drives(script, maxRetries, timeoutMs, trace, truncated)
    requires timeoutMs > 0 && Punctual(script, overshoot, sendMs)
    ensures ElapsedAfter(script, |trace|) < timeoutMs + overshoot + sendMs
  {
    var m := |trace|;
    if m > 1 {
      assert RetryBudgetPermits(script[m - 1].elapsedMs, script[m - 1].backoffMs, timeoutMs);
    } else {
      assert ElapsedAfter(script, 1) == ElapsedAfter(script, 0) + script[0].tookMs;
    }
  }

  /**
   When retries are cut off, and when they are not, by the clock alone. A run is truncated only when the
   next backoff would end at the deadline or beyond it, and every retry that is made starts before it;
   without a timeout nothing is cut off.
   */
  lemma CutOffExactlyAtDeadline(script: seq<Turn>, maxRetries: nat, timeoutMs: nat, trace: seq<Send>, truncated: bool,
                                overshoot: nat, sendMs: nat)
    requires Drives(script, maxRetries, timeoutMs, trace, truncated) && Punctual(script, overshoot, sendMs)
    ensures truncated ==>
              && 1 <= |trace| <= maxRetries && timeoutMs > 0
              && ElapsedAfter(script, |trace|) + script[|trace|].backoffMs >= timeoutMs
    ensures forall k: nat :: 1 <= k < |trace| && timeoutMs > 0 ==>
              ElapsedAfter(script, k) + script[k].backoffMs < timeoutMs
    ensures !truncated && |trace| <= maxRetries ==> Finished(trace)
  {
    forall k: nat | 1 <= k < |trace| && timeoutMs > 0
      ensures ElapsedAfter(script, k) + script[k].backoffMs < timeoutMs
    {
      assert RetryBudgetPermits(script[k].elapsedMs, script[k].backoffMs, timeoutMs);
    }
  }

  /** Two turns: a send that takes `e` ms and is lost, then a backoff of `b` ms and a send that takes `sendMs`. */
  function LostThen(e: nat, b: nat, sendMs: nat): seq<Turn> {
    [Turn(0, 0, 0, e, Failure(0)), Turn(e, b, b, sendMs, Failure(0))]
  }

  lemma LostThenPunctual(e: nat, b: nat, sendMs: nat)
    requires b <= BASE_MS && e <= sendMs
    ensures Punctual(LostThen(e, b, sendMs), 0, sendMs)
  {
    BackoffRange(0);
    assert Pow2(0) == 1;
    assert ElapsedAfter(LostThen(e, b, sendMs), 1) == e;
  }

  /** After a first send that is lost, the run is underway and not finished. */
  lemma LostOnce(script: seq<Turn>, timeoutMs: nat, send: Send)
    requires |script| >= 1 && send == Send(None, script[0].reply) && send.reply.Failure?
    ensures Underway(script, timeoutMs, [send]) && !Responded([send]) && !Finished([send])
  {
    assert [] + [send] == [send];
    UnderwayStep(script, timeoutMs, [], send);
    FirstReplySnoc([], send);
  }

  /**
   The deadline decides for every elapsed time and every backoff that the first retry can draw: the retry
   is made exactly when the backoff ends before the deadline.
   */
  lemma DeadlineDecides(timeoutMs: nat, e: nat, b: nat, sendMs: nat)
    requires timeoutMs > 0 && b <= BASE_MS && e <= sendMs
    ensures Punctual(LostThen(e, b, sendMs), 0, sendMs)
    ensures e + b < timeoutMs ==>
              exists trace: seq<Send> :: |trace| == 2 && Drives(LostThen(e, b, sendMs), 1, timeoutMs, trace, false)
    ensures e + b >= timeoutMs ==>
              exists trace: seq<Send> :: |trace| == 1 && Drives(LostThen(e, b, sendMs), 1, timeoutMs, trace, true)
  {
    var script, send := LostThen(e, b, sendMs), Send(None, Failure(0));
    LostThenPunctual(e, b, sendMs);
    LostOnce(script, timeoutMs, send);
    assert [send] + [send] == [send, send];
    if e + b < timeoutMs {
      UnderwayStep(script, timeoutMs, [send], send);
      assert Drives(script, 1, timeoutMs, [send, send], false);
    } else {
      assert Drives(script, 1, timeoutMs, [send], true);
    }
  }

  /** `TotalTimeBound` is tight at every backoff: with exact sleeps, some run uses all of `timeoutMs + sendMs - 1`. */
  lemma TotalTimeBoundTight(timeoutMs: nat, b: nat, sendMs: nat)
    requires b < timeoutMs <= sendMs + b + 1 && b <= BASE_MS
    ensures exists script: seq<Turn>, trace: seq<Send> ::
              && Drives(script, 1, timeoutMs, trace, false) && Punctual(script, 0, sendMs) && script[1].backoffMs == b
              && ElapsedAfter(script, |trace|) == timeoutMs - 1 + sendMs
  {
    var e := timeoutMs - 1 - b;
    DeadlineDecides(timeoutMs, e, b, sendMs);
    var script := LostThen(e, b, sendMs);
    var trace: seq<Send> :| |trace| == 2 && Drives(script, 1, timeoutMs, trace, false);
    assert ElapsedAfter(script, 1) == e;
    assert ElapsedAfter(script, 2) == timeoutMs - 1 + sendMs;
  }

  /** Closed form of the most that `r` backoffs can add up to. */
  function WorstBackoffTotal(r: nat): nat {
    if r <= 6 then BASE_MS * (Pow2(r) - 1) else 630 + CAP_MS * (r - 6)
  }

  lemma {:induction false} WorstBackoffStep(r: nat)
    ensures WorstBackoffTotal(r + 1) == WorstBackoffTotal(r) + MaxBackoffMs(r, BASE_MS, CAP_MS)
  {
    BackoffRange(r);
    assert Pow2(6) == 64 by {
      assert Pow2(3) == 8 && Pow2(4) == 16 && Pow2(5) == 32;
    }
    if r < 6 {
      assert Pow2(r + 1) == 2 * Pow2(r);
    }
  }

  /** The sleeps before `r` retries add up to at most the closed form: 630 + 500 (r - 6) ms for r >= 6. */
  lemma {:induction false} TotalSleepBound(script: seq<Turn>, sendMs: nat, r: nat)
    requires Punctual(script, 0, sendMs) && r + 1 <= |script|
    ensures SleptBefore(script, r + 1) <= WorstBackoffTotal(r)
    ensures r >= 6 ==> WorstBackoffTotal(r) == 630 + 500 * (r - 6)
  {
    if r == 0 {
    } else {
      TotalSleepBound(script, sendMs, r - 1);
      WorstBackoffStep(r - 1);
    }
    if r == 6 {
      assert Pow2(3) == 8 && Pow2(4) == 16 && Pow2(5) == 32 && Pow2(6) == 64;
    }
  }
}
