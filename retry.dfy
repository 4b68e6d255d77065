/**
 * The `db_operation` decorator of `drive_bot/database.py`: up to three
 * attempts, each opening a fresh connection, running the wrapped operation
 * and committing; a "locked" OperationalError is retried after a linear
 * back-off, every other failure ends the call. What each attempt's wrapped
 * call does is not computed here: it is supplied as one `Attempt` per
 * attempt number. The events the wrapper causes are returned as a trace.
 */
module Retry {
  import opened Strings

  /** `max_retries = 3`. */
  const MaxRetries: nat := 3

  /** The exception classes the wrapper tells apart. */
  datatype DbError =
    | OperationalError(message: string)   // sqlite3.OperationalError
    | DatabaseError(message: string)      // any other sqlite3.Error
    | OtherError(message: string)         // an exception that is no sqlite3.Error

  /** What one attempt's connect, wrapped call and commit come to: the wrapped
      call returned (and the commit went through), or something raised. */
  datatype Attempt<R> = Returned(value: R) | Raised(error: DbError)

  /** What the wrapper does to the connection and the clock. */
  datatype Event = Connect(attempt: nat) | Commit | Rollback | Close | Sleep(ms: nat)

  /** What the caller sees: the wrapped call's result, `None`, or an
      exception that propagates out of the wrapper. */
  datatype Outcome<R> = Done(value: R) | NoResult | Escaped(error: DbError)

  /** `"locked" in str(e)` for an OperationalError. */
  predicate IsLockError(e: DbError) {
    e.OperationalError? && Contains(e.message, "locked")
  }

  /** `(attempt + 1) * 0.5` seconds, in milliseconds. */
  function BackoffMs(attempt: nat): nat {
    500 * (attempt + 1)
  }

  datatype Run<R> = Run(outcome: Outcome<R>, trace: seq<Event>)

  /** Attempt `attempt` failed with a lock error and is not the last one, so
      the wrapper sleeps and tries again. */
  predicate Retries<R>(steps: seq<Attempt<R>>, attempt: nat)
    requires attempt < |steps|
  {
    steps[attempt].Raised? && IsLockError(steps[attempt].error) && attempt < MaxRetries - 1
  }

  /** An attempt after which the wrapper does not try again: the result is
      committed and returned, or the error is handled (rolled back only for
      a `sqlite3.Error` that is no OperationalError) or let escape; the
      connection is closed in every case. */
  function Final<R>(step: Attempt<R>, attempt: nat): Run<R> {
    match step
    case Returned(v) => Run(Done(v), [Connect(attempt), Commit, Close])
    case Raised(e) =>
      if e.OperationalError? then Run(NoResult, [Connect(attempt), Close])
      else if e.DatabaseError? then Run(NoResult, [Connect(attempt), Rollback, Close])
      else Run(Escaped(e), [Connect(attempt), Close])
  }

  /** The events of a retried attempt: connect, wait, close. */
  function Block(attempt: nat): seq<Event> {
    [Connect(attempt), Sleep(BackoffMs(attempt)), Close]
  }

  /** The wrapper's behaviour from attempt number `attempt` on, after the
      events `done` of the earlier attempts. */
  function RunFrom<R>(steps: seq<Attempt<R>>, attempt: nat, done: seq<Event>): Run<R>
    requires |steps| == MaxRetries && attempt <= MaxRetries
    decreases MaxRetries - attempt
  {
    if attempt == MaxRetries then Run(NoResult, done)
    else if Retries(steps, attempt) then RunFrom(steps, attempt + 1, done + Block(attempt))
    else
      var last := Final(steps[attempt], attempt);
      Run(last.outcome, done + last.trace)
  }

  /** What a call of the wrapped operation comes to. */
  function Wrapper<R>(steps: seq<Attempt<R>>): Run<R>
    requires |steps| == MaxRetries
  {
    RunFrom(steps, 0, [])
  }

  /** One pass of the loop body: connect, run the wrapped call, commit, and
      handle what was raised; the `finally` clause closes the connection.
      `retry` says whether the loop goes round again. */
  method TryOnce<R>(step: Attempt<R>, attempt: nat) returns (outcome: Outcome<R>, events: seq<Event>, retry: bool)
    ensures retry <==> step.Raised? && IsLockError(step.error) && attempt < MaxRetries - 1
    ensures retry ==> events == Block(attempt)
    ensures !retry ==> outcome == Final(step, attempt).outcome && events == Final(step, attempt).trace
  {
    events := [Connect(attempt)];
    retry := false;
    outcome := NoResult;
    match step {
      case Returned(v) =>
        events := events + [Commit];
        outcome := Done(v);
      case Raised(e) =>
        if e.OperationalError? {
          if Contains(e.message, "locked") && attempt < MaxRetries - 1 {
            events := events + [Sleep(BackoffMs(attempt))];
            retry := true;
          }
        } else if e.DatabaseError? {
          events := events + [Rollback];
        } else {
          outcome := Escaped(e);
        }
    }
    events := events + [Close];
  }

  /** The wrapper itself. `steps[i]` is what attempt `i` would come to. */
  method DbOperation<R>(steps: seq<Attempt<R>>) returns (outcome: Outcome<R>, trace: seq<Event>)
    requires |steps| == MaxRetries
    ensures outcome == Wrapper(steps).outcome
    ensures trace == Wrapper(steps).trace
  {
    trace := [];
    var attempt: nat := 0;
    while attempt < MaxRetries
      invariant attempt <= MaxRetries
      invariant RunFrom(steps, attempt, trace) == Wrapper(steps)
    {
      var events, retry;
      outcome, events, retry := TryOnce(steps[attempt], attempt);
      trace := trace + events;
      if !retry {
        return;
      }
      attempt := attempt + 1;
    }
    outcome := NoResult;
  }

  /** The events of attempts `0` to `n - 1`, all of them retried. */
  function Blocks(n: nat): seq<Event> {
    if n == 0 then [] else Blocks(n - 1) + Block(n - 1)
  }

  /** Retried attempt `j` takes up positions `3j` to `3j + 2`. */
  lemma {:induction false} BlocksShape(n: nat)
    ensures |Blocks(n)| == 3 * n
    ensures forall i :: 0 <= i < |Blocks(n)| ==> Blocks(n)[i] == Block(i / 3)[i % 3]
  {
    if n > 0 {
      BlocksShape(n - 1);
      var b := Blocks(n);
      forall i | 0 <= i < |b| ensures b[i] == Block(i / 3)[i % 3] {
        if i >= 3 * (n - 1) {
          assert i / 3 == n - 1;
        }
      }
    }
  }

  /** The attempt at which the wrapper stops retrying. */
  function Stop<R>(steps: seq<Attempt<R>>, attempt: nat): (k: nat)
    requires |steps| == MaxRetries && attempt < MaxRetries
    ensures attempt <= k < MaxRetries && !Retries(steps, k)
    ensures forall j :: attempt <= j < k ==> Retries(steps, j)
    decreases MaxRetries - attempt
  {
    if Retries(steps, attempt) then Stop(steps, attempt + 1) else attempt
  }

  /** The wrapper retries up to attempt `k`, then performs one final
      attempt: its trace is `k` retried blocks followed by that attempt's
      events, and it returns that attempt's outcome. */
  lemma {:induction false} RunFromClosedForm<R>(steps: seq<Attempt<R>>, a: nat)
    requires |steps| == MaxRetries && a < MaxRetries
    ensures var k := Stop(steps, a);
            RunFrom(steps, a, Blocks(a)) ==
              Run(Final(steps[k], k).outcome, Blocks(k) + Final(steps[k], k).trace)
    decreases MaxRetries - a
  {
    if Retries(steps, a) {
      RunFromClosedForm(steps, a + 1);
    }
  }

  /** The final attempt's events: a single connect, first, and a close, last;
      a commit exactly when the wrapped call returned; a rollback exactly on
      a `sqlite3.Error` that is no OperationalError; no wait. */
  lemma FinalFacts<R>(step: Attempt<R>, attempt: nat)
    ensures var r := Final(step, attempt);
            && 2 <= |r.trace| <= 3 && r.trace[0] == Connect(attempt) && r.trace[|r.trace| - 1] == Close
            && (r.outcome.Done? <==> step.Returned?)
            && (step.Returned? ==> r.outcome.value == step.value)
            && (r.outcome.Escaped? <==> step.Raised? && step.error.OtherError?)
            && (forall i :: 0 < i < |r.trace| ==> !r.trace[i].Connect? && !r.trace[i].Sleep?)
            && (forall i :: 0 <= i < |r.trace| ==> (r.trace[i] == Commit <==> i == 1 && step.Returned?))
            && (forall i :: 0 <= i < |r.trace| ==>
                  (r.trace[i] == Rollback <==> i == 1 && step.Raised? && step.error.DatabaseError?))
  {
  }

  /** The wrapper's whole run in closed form, from attempt 0. */
  lemma WrapperClosedForm<R>(steps: seq<Attempt<R>>)
    requires |steps| == MaxRetries
    ensures var k := Stop(steps, 0);
            && Wrapper(steps).outcome == Final(steps[k], k).outcome
            && Wrapper(steps).trace == Blocks(k) + Final(steps[k], k).trace
            && |Blocks(k)| == 3 * k
  {
    RunFromClosedForm(steps, 0);
    BlocksShape(Stop(steps, 0));
  }

  /** At most three attempts, numbered in order: attempt `j` connects at
      position `3j` of the trace and nowhere else, and only numbers below
      three occur. */
  lemma AttemptsBounded<R>(steps: seq<Attempt<R>>)
    requires |steps| == MaxRetries
    ensures var t := Wrapper(steps).trace;
            && t[0] == Connect(0)
            && forall i :: 0 <= i < |t| && t[i].Connect? ==>
                 t[i].attempt < MaxRetries && i == 3 * t[i].attempt
  {
    var k := Stop(steps, 0);
    WrapperClosedForm(steps);
    BlocksShape(k);
    FinalFacts(steps[k], k);
    var t := Wrapper(steps).trace;
    var last := Final(steps[k], k).trace;
    if k == 0 {
      assert t[0] == last[0];
    } else {
      assert t[0] == Blocks(k)[0];
    }
    forall i | 0 <= i < |t| && t[i].Connect? ensures t[i].attempt < MaxRetries && i == 3 * t[i].attempt {
      if i >= 3 * k {
        assert t[i] == last[i - 3 * k];
      } else {
        assert t[i] == Blocks(k)[i];
      }
    }
  }

  /** Every connection opened is closed before the next one is opened and
      before the wrapper returns. */
  lemma EveryConnectionClosed<R>(steps: seq<Attempt<R>>)
    requires |steps| == MaxRetries
    ensures var t := Wrapper(steps).trace;
            && t[|t| - 1] == Close
            && forall i :: 0 < i < |t| && t[i].Connect? ==> t[i - 1] == Close
  {
    var k := Stop(steps, 0);
    WrapperClosedForm(steps);
    BlocksShape(k);
    FinalFacts(steps[k], k);
    var t := Wrapper(steps).trace;
    var last := Final(steps[k], k).trace;
    assert t[|t| - 1] == last[|last| - 1];
    forall i | 3 * k < i < |t| ensures !t[i].Connect? {
      assert t[i] == last[i - 3 * k];
    }
    forall i | 0 < i < |t| && t[i].Connect? ensures t[i - 1] == Close {
      if i == 3 * k {
        assert t[i - 1] == Blocks(k)[i - 1];
      } else {
        assert t[i] == Blocks(k)[i] && t[i - 1] == Blocks(k)[i - 1];
      }
    }
  }

  /** The commit happens at most once, exactly when the caller gets the
      wrapped call's result, and that result is what the wrapped call
      returned on the last attempt, every earlier attempt having failed with
      a lock error. */
  lemma CommitOnlyOnReturn<R>(steps: seq<Attempt<R>>)
    requires |steps| == MaxRetries
    ensures var r := Wrapper(steps);
            && (Commit in r.trace <==> r.outcome.Done?)
            && (forall i, j :: 0 <= i < j < |r.trace| && r.trace[i] == Commit ==> r.trace[j] != Commit)
            && (r.outcome.Done? ==>
                  var k := Stop(steps, 0);
                  steps[k] == Returned(r.outcome.value) && forall j :: 0 <= j < k ==> IsLockError(steps[j].error))
  {
    var k := Stop(steps, 0);
    WrapperClosedForm(steps);
    BlocksShape(k);
    FinalFacts(steps[k], k);
    var t := Wrapper(steps).trace;
    var last := Final(steps[k], k).trace;
    forall i | 0 <= i < |t| ensures t[i] == Commit <==> i == 3 * k + 1 && steps[k].Returned? {
      if i >= 3 * k {
        assert t[i] == last[i - 3 * k];
      } else {
        assert t[i] == Blocks(k)[i];
      }
    }
    if steps[k].Returned? {
      assert t[3 * k + 1] == Commit;
    }
  }

  /** A retry happens only after a "locked" OperationalError, and never
      after the third attempt: if attempt `b` connects, every attempt before
      it raised a lock error. */
  lemma RetryOnlyOnLock<R>(steps: seq<Attempt<R>>, b: nat)
    requires |steps| == MaxRetries && Connect(b) in Wrapper(steps).trace
    ensures b < MaxRetries
    ensures forall j :: 0 <= j < b ==> steps[j].Raised? && IsLockError(steps[j].error)
  {
    var k := Stop(steps, 0);
    AttemptsBounded(steps);
    var t := Wrapper(steps).trace;
    var i :| 0 <= i < |t| && t[i] == Connect(b);
    assert i == 3 * b;
    assert b <= k by {
      WrapperClosedForm(steps);
      FinalFacts(steps[k], k);
    }
  }

  /** Any failure other than a lock error ends the call at once, with no
      retry and without the wrapped call's result; only a `sqlite3.Error`
      that is no OperationalError is rolled back, and only an exception
      that is no `sqlite3.Error` escapes. */
  lemma NoRetryAfterOtherFailure<R>(steps: seq<Attempt<R>>, a: nat)
    requires |steps| == MaxRetries && a < MaxRetries
    requires steps[a].Raised? && !IsLockError(steps[a].error)
    requires forall j :: 0 <= j < a ==> Retries(steps, j)
    ensures Stop(steps, 0) == a
    ensures !Wrapper(steps).outcome.Done?
    ensures Wrapper(steps).outcome.Escaped? <==> steps[a].error.OtherError?
    ensures Rollback in Wrapper(steps).trace <==> steps[a].error.DatabaseError?
  {
    var k := Stop(steps, 0);
    WrapperClosedForm(steps);
    BlocksShape(k);
    FinalFacts(steps[k], k);
    assert k == a;
    var t := Wrapper(steps).trace;
    var last := Final(steps[k], k).trace;
    forall i | 0 <= i < |t| ensures t[i] == Rollback <==> i == 3 * k + 1 && steps[a].error.DatabaseError? {
      if i >= 3 * k {
        assert t[i] == last[i - 3 * k];
      } else {
        assert t[i] == Blocks(k)[i];
      }
    }
    if steps[a].error.DatabaseError? {
      assert t[3 * k + 1] == Rollback;
    }
  }

  /** Every wait comes straight after the connection of the attempt being
      retried and lasts `500 * (attempt + 1)` ms, so the waits are 500 ms
      and then 1000 ms. */
  lemma BackoffIsLinear<R>(steps: seq<Attempt<R>>)
    requires |steps| == MaxRetries
    ensures var t := Wrapper(steps).trace;
            forall i :: 0 <= i < |t| && t[i].Sleep? ==>
              i > 0 && t[i - 1].Connect? && t[i].ms == BackoffMs(t[i - 1].attempt)
              && t[i - 1].attempt < MaxRetries - 1
  {
    var k := Stop(steps, 0);
    WrapperClosedForm(steps);
    BlocksShape(k);
    FinalFacts(steps[k], k);
    var t := Wrapper(steps).trace;
    var last := Final(steps[k], k).trace;
    forall i | 3 * k <= i < |t| ensures !t[i].Sleep? {
      assert t[i] == last[i - 3 * k];
    }
    forall i | 0 <= i < |t| && t[i].Sleep?
      ensures i > 0 && t[i - 1].Connect? && t[i].ms == BackoffMs(t[i - 1].attempt)
              && t[i - 1].attempt < MaxRetries - 1
    {
      if i < 3 * k {
        assert t[i] == Blocks(k)[i] && t[i - 1] == Blocks(k)[i - 1];
      }
    }
  }

  /** Two lock errors and then a successful call: the caller gets the result
      and exactly one commit happens, after waits of 500 ms and 1000 ms. */
  lemma LockedTwiceThenSuccess<R>(m1: string, m2: string, v: R)
    requires Contains(m1, "locked") && Contains(m2, "locked")
    ensures var r := Wrapper([Raised(OperationalError(m1)), Raised(OperationalError(m2)), Returned(v)]);
            r.outcome == Done(v)
            && r.trace == [Connect(0), Sleep(500), Close, Connect(1), Sleep(1000), Close,
                           Connect(2), Commit, Close]
  {
  }

  /** Lock errors on all three attempts: the caller gets `None` and nothing
      is committed, so no partial write becomes visible. */
  lemma LockedThroughout<R>(m1: string, m2: string, m3: string)
    requires Contains(m1, "locked") && Contains(m2, "locked") && Contains(m3, "locked")
    ensures var r := Wrapper<R>([Raised(OperationalError(m1)), Raised(OperationalError(m2)),
                                 Raised(OperationalError(m3))]);
            r.outcome == NoResult
            && r.trace == [Connect(0), Sleep(500), Close, Connect(1), Sleep(1000), Close,
                           Connect(2), Close]
  {
  }
}
