/**
 * Retry until success. The source retries by calling itself again after
 * every failure, with no bound. Here each attempt has been classified into a
 * `Step`, and the remote's behaviour is a finite script of attempts: if the
 * script ends before an attempt succeeds, the call has not returned within
 * the attempts modelled (it hangs or is still retrying).
 */
module Retry {

  /** A wait before retrying: a fixed number of seconds, or `random.randint(lo, hi)` seconds. */
  datatype Backoff = Fixed(seconds: nat) | Uniform(lo: nat, hi: nat)

  /** One classified attempt: it returned a value, or it failed and is retried after a wait. */
  datatype Step<T> = Done(value: T) | Again(backoff: Backoff)

  /** The outcome of retrying: the value and the waits taken before it, or only waits. */
  datatype Outcome<T> = Succeeded(value: T, waits: seq<Backoff>) | NotReturned(waits: seq<Backoff>)

  function AddWait<T>(b: Backoff, o: Outcome<T>): Outcome<T> {
    o.(waits := [b] + o.waits)
  }

  /** The waits taken by a run of failed attempts. */
  function Waits<T>(steps: seq<Step<T>>): seq<Backoff>
    requires forall i :: 0 <= i < |steps| ==> steps[i].Again?
  {
    seq(|steps|, i requires 0 <= i < |steps| => steps[i].backoff)
  }

  /** Attempts are re-issued until the first one that succeeds. */
  function RetryOutcome<T>(steps: seq<Step<T>>): Outcome<T>
    decreases |steps|
  {
    if |steps| == 0 then NotReturned([])
    else match steps[0]
      case Done(v) => Succeeded(v, [])
      case Again(b) => AddWait(b, RetryOutcome(steps[1..]))
  }

  /**
   * Retry convergence: failing `|failures|` times and then succeeding returns
   * exactly what the successful attempt returned, after one wait per failure;
   * later attempts are never made.
   */
  lemma {:induction false} RetryConverges<T>(failures: seq<Step<T>>, v: T, later: seq<Step<T>>)
    requires forall i :: 0 <= i < |failures| ==> failures[i].Again?
    ensures RetryOutcome(failures + [Done(v)] + later) == Succeeded(v, Waits(failures))
    decreases |failures|
  {
    var steps := failures + [Done(v)] + later;
    if |failures| > 0 {
      assert steps[1..] == failures[1..] + [Done(v)] + later;
      RetryConverges(failures[1..], v, later);
      assert Waits(failures) == [failures[0].backoff] + Waits(failures[1..]);
    }
  }

  /** A retried call returns exactly when some attempt succeeds, and then with the first success. */
  lemma {:induction false} RetrySucceedsIff<T>(steps: seq<Step<T>>)
    ensures RetryOutcome(steps).Succeeded? <==> exists k :: 0 <= k < |steps| && steps[k].Done?
    ensures RetryOutcome(steps).Succeeded? ==>
      exists k :: 0 <= k < |steps| && steps[k].Done? && RetryOutcome(steps).value == steps[k].value
                  && (forall j :: 0 <= j < k ==> steps[j].Again?)
    ensures |RetryOutcome(steps).waits| <= |steps|
    decreases |steps|
  {
    if |steps| > 0 {
      RetrySucceedsIff(steps[1..]);
      if steps[0].Again? {
        if exists k :: 0 <= k < |steps| && steps[k].Done? {
          var k :| 0 <= k < |steps| && steps[k].Done?;
          assert steps[1..][k - 1].Done?;
        }
        if RetryOutcome(steps).Succeeded? {
          var k :| 0 <= k < |steps[1..]| && steps[1..][k].Done? && RetryOutcome(steps[1..]).value == steps[1..][k].value
                   && (forall j :: 0 <= j < k ==> steps[1..][j].Again?);
          assert steps[k + 1].Done?;
          assert forall j :: 0 <= j < k + 1 ==> steps[j].Again? by {
            forall j | 0 <= j < k + 1 ensures steps[j].Again? {
              if j > 0 { assert steps[j] == steps[1..][j - 1]; }
            }
          }
        }
      } else {
        assert steps[0].Done?;
      }
    }
  }

  /** The retry loop: re-issue the attempt, recording each wait, until one succeeds. */
  method RunRetry<T>(steps: seq<Step<T>>) returns (r: Outcome<T>)
    ensures r == RetryOutcome(steps)
  {
    var waits: seq<Backoff> := [];
    var i := 0;
    while i < |steps|
      invariant 0 <= i <= |steps|
      invariant RetryOutcome(steps) == RetryOutcome(steps[i..]).(waits := waits + RetryOutcome(steps[i..]).waits)
    {
      match steps[i]
      case Done(v) =>
        return Succeeded(v, waits);
      case Again(b) =>
        assert steps[i..][1..] == steps[i + 1..];
        waits := waits + [b];
        i := i + 1;
    }
    r := NotReturned(waits);
  }
}
