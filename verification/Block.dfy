/** The block instruction: polling a condition until it holds or a timeout passes
    (proc_runtime_block in src/runtime/proc_runtime_instructions_FreeRTOS.c).
 */
module Block {
  import opened ProcTypes

  /** What the environment answers in one execution: the k-th reading of the clock, and the
      verdict of the k-th poll. */
  datatype Environment = Environment(clock: nat -> nat, verdict: nat -> Verdict)

  /** The clock never runs back, and a poll that does not end the wait is followed by a
      sleep of at least one period before the next reading. */
  ghost predicate Fair(e: Environment, period: nat) {
    && (forall k: nat :: e.clock(k) <= e.clock(k + 1))
    && (forall k: nat :: Waits(e.verdict(k)) ==> e.clock(k + 1) + period <= e.clock(k + 2))
  }

  /** Verdicts after which the loop goes on: a type mismatch is one of them. */
  predicate Waits(f: IfElseFlag) {
    !f.FlagTrue? && !f.FlagErr?
  }

  /** The wait ends well with poll `k`: the polls before it went on waiting, it holds, and
      the clock is short of the deadline before it and after it. */
  ghost predicate MetAt(e: Environment, timeout: nat, k: nat) {
    && (forall j: nat :: j < k ==> Waits(e.verdict(j)))
    && e.verdict(k) == FlagTrue
    && e.clock(k + 1) < e.clock(0) + timeout && e.clock(k + 2) < e.clock(0) + timeout
  }

  lemma {:induction false} ClockMonotone(e: Environment, period: nat, j: nat, k: nat)
    requires Fair(e, period) && j <= k
    ensures e.clock(j) <= e.clock(k)
    decreases k - j
  {
    if j < k {
      ClockMonotone(e, period, j + 1, k);
    }
  }

  /** Tick counters run from 0 to `range`; where the one before the first reading started. */
  function Start(e: Environment, range: nat): int
    requires range > 0
  {
    e.clock(0) - e.clock(0) % range
  }

  /** The sum that forms the deadline does not leave the range of the counter. */
  predicate DeadlineFits(e: Environment, timeout: nat, range: nat)
    requires range > 0
  {
    e.clock(0) % range + timeout < range
  }

  /** The counter itself does not start over before it has been read behind the deadline. */
  ghost predicate NoRestart(e: Environment, timeout: nat, range: nat)
    requires range > 0
  {
    && e.clock(2) < Start(e, range) + range
    && (DeadlineFits(e, timeout, range) ==>
          forall k: nat :: e.clock(k) < e.clock(0) + timeout ==> e.clock(k + 2) < Start(e, range) + range)
  }

  /** What the counter shows at a time before it starts over. */
  lemma Shown(e: Environment, range: nat, t: nat)
    requires range > 0 && e.clock(0) <= t < Start(e, range) + range
    ensures t % range == t - Start(e, range)
  {
    var c, q := e.clock(0), e.clock(0) / range;
    assert Start(e, range) == range * q;
    assert t == range * q + (t - range * q);
    RemainderIsUnique(t, range, q, t - range * q);
  }

  lemma RemainderIsUnique(t: nat, m: nat, q: nat, r: nat)
    requires r < m && t == m * q + r
    ensures t % m == r
  {
    var d := t / m - q;
    assert m * d == r - t % m by {
      assert t == m * (t / m) + t % m;
    }
  }

  /** The loop, with the deadline on the counter. */
  method PollUntilDeadline(e: Environment, timeout: nat, period: nat, range: nat) returns (ret: int, polls: nat)
    requires period > 0 && Fair(e, period) && timeout < range && NoRestart(e, timeout, range)
    ensures ret == 0 || ret == -1
    ensures ret == 0 <==> DeadlineFits(e, timeout, range) && exists k: nat :: MetAt(e, timeout, k)
    ensures ret == 0 ==> polls > 0 && e.verdict(polls - 1) == FlagTrue
    ensures polls > 0 ==> DeadlineFits(e, timeout, range) && period * (polls - 1) < timeout
  {
    hide Start, Fair, NoRestart, MetAt;
    var deadline := (e.clock(0) % range + timeout) % range;
    Deadline(e, timeout, range);
    InOrder(e, timeout, period, range, 0);
    polls := 0;
    assert period * 0 == 0;
    var readings := 2;
    Shown(e, range, e.clock(1));
    var now := e.clock(1) % range;
    while now < deadline
      invariant readings == polls + 2 && now == e.clock(polls + 1) - Start(e, range)
      invariant e.clock(0) <= e.clock(polls + 1) <= e.clock(polls + 2) < Start(e, range) + range
      invariant forall j: nat :: j < polls ==> Waits(e.verdict(j))
      invariant e.clock(0) + period * polls <= e.clock(polls + 1)
      invariant polls > 0 ==> DeadlineFits(e, timeout, range) && period * (polls - 1) < timeout
      decreases deadline - now
    {
      assert period * (polls + 1) == period * polls + period;
      InOrder(e, timeout, period, range, polls + 1);
      var result := e.verdict(polls);
      polls := polls + 1;
      if result == FlagErr {
        EndsUnmet(e, timeout, polls - 1);
        return -1, polls;
      } else if result == FlagTrue {
        break;
      }
      Shown(e, range, e.clock(readings));
      now := e.clock(readings) % range;
      readings := readings + 1;
    }
    Shown(e, range, e.clock(readings));
    if now < deadline {
      EndsMet(e, timeout, polls - 1);
    } else if DeadlineFits(e, timeout, range) {
      NotMetInTime(e, timeout, period, polls);
    }
    if e.clock(readings) % range >= deadline {
      return -1, polls;
    }
    return 0, polls;
  }

  /** The readings around reading `k`, if the deadline is not reached by then. */
  lemma InOrder(e: Environment, timeout: nat, period: nat, range: nat, k: nat)
    requires range > 0 && Fair(e, period) && NoRestart(e, timeout, range)
    ensures e.clock(0) <= e.clock(k) <= e.clock(k + 1) <= e.clock(k + 2)
    ensures k > 0 && Waits(e.verdict(k - 1)) ==> e.clock(k) + period <= e.clock(k + 1)
    ensures e.clock(2) < Start(e, range) + range
    ensures DeadlineFits(e, timeout, range) && e.clock(k) < e.clock(0) + timeout ==>
              e.clock(k + 2) < Start(e, range) + range
  {
    ClockMonotone(e, period, 0, k);
    assert k > 0 ==> e.clock(k - 1 + 1) == e.clock(k) && e.clock(k - 1 + 2) == e.clock(k + 1);
  }

  lemma MetInWords(e: Environment, timeout: nat)
    ensures (exists k: nat :: MetAt(e, timeout, k)) <==>
              exists k: nat ::
                && (forall j: nat :: j < k ==> e.verdict(j) == FlagFalse || e.verdict(j) == FlagErrType)
                && e.verdict(k) == FlagTrue
                && e.clock(k + 1) < e.clock(0) + timeout && e.clock(k + 2) < e.clock(0) + timeout
  {
    forall k: nat
      ensures MetAt(e, timeout, k) <==>
                && (forall j: nat :: j < k ==> e.verdict(j) == FlagFalse || e.verdict(j) == FlagErrType)
                && e.verdict(k) == FlagTrue
                && e.clock(k + 1) < e.clock(0) + timeout && e.clock(k + 2) < e.clock(0) + timeout
    {
      assert forall j: nat :: Waits(e.verdict(j)) <==> e.verdict(j) == FlagFalse || e.verdict(j) == FlagErrType;
    }
  }

  /** After an error the condition is never met. */
  lemma EndsUnmet(e: Environment, timeout: nat, k: nat)
    requires e.verdict(k) == FlagErr && forall j: nat :: j < k ==> Waits(e.verdict(j))
    ensures !exists i: nat :: MetAt(e, timeout, i)
  {
  }

  /** The first poll that holds is the only one that can meet the condition. */
  lemma EndsMet(e: Environment, timeout: nat, k: nat)
    requires e.verdict(k) == FlagTrue && forall j: nat :: j < k ==> Waits(e.verdict(j))
    requires e.clock(k + 1) < e.clock(0) + timeout
    ensures (exists i: nat :: MetAt(e, timeout, i)) <==> e.clock(k + 2) < e.clock(0) + timeout
  {
    if e.clock(k + 2) < e.clock(0) + timeout {
      assert MetAt(e, timeout, k);
    }
  }

  /** Where the deadline stands on the counter: ahead by the timeout if it fits, and behind
      the first reading otherwise. */
  lemma Deadline(e: Environment, timeout: nat, range: nat)
    requires timeout < range
    ensures var deadline := (e.clock(0) % range + timeout) % range;
            if DeadlineFits(e, timeout, range) then deadline == e.clock(0) + timeout - Start(e, range)
            else deadline < e.clock(0) - Start(e, range)
  {
    var c := e.clock(0) % range;
    if DeadlineFits(e, timeout, range) {
      RemainderIsUnique(c + timeout, range, 0, c + timeout);
    } else {
      RemainderIsUnique(c + timeout, range, 1, c + timeout - range);
    }
  }

  lemma NotMetInTime(e: Environment, timeout: nat, period: nat, polls: nat)
    requires Fair(e, period) && e.clock(polls + 1) >= e.clock(0) + timeout
    requires forall j: nat :: j < polls ==> Waits(e.verdict(j))
    ensures !exists k: nat :: MetAt(e, timeout, k)
    ensures e.clock(polls + 2) >= e.clock(0) + timeout
  {
    forall k: nat
      ensures !MetAt(e, timeout, k)
    {
      if k >= polls {
        ClockMonotone(e, period, polls + 1, k + 1);
      }
    }
  }

  /** If the deadline fits the counter, the wait ends within timeout / period polls, rounded
      up, and succeeds exactly when the condition is met before the deadline. If it does
      not, the condition is never polled and the wait fails at once. */
  method ProcRuntimeBlock(e: Environment, timeout: nat, period: nat, range: nat) returns (ret: int, polls: nat)
    requires period > 0 && Fair(e, period) && timeout < range && NoRestart(e, timeout, range)
    ensures ret == 0 || ret == -1
    ensures ret == 0 <==>
              && e.clock(0) % range + timeout < range
              && exists k: nat ::
                   && (forall j: nat :: j < k ==> e.verdict(j) == FlagFalse || e.verdict(j) == FlagErrType)
                   && e.verdict(k) == FlagTrue
                   && e.clock(k + 1) < e.clock(0) + timeout && e.clock(k + 2) < e.clock(0) + timeout
    ensures ret == 0 ==> polls > 0 && e.verdict(polls - 1) == FlagTrue
    ensures (forall k: nat :: e.verdict(k) == FlagErrType) ==> ret == -1
    ensures polls > 0 ==> e.clock(0) % range + timeout < range && period * (polls - 1) < timeout
  {
    ret, polls := PollUntilDeadline(e, timeout, period, range);
    MetInWords(e, timeout);
  }

  /** Near the end of the range the wait fails although the condition holds all along: a
      16-bit counter at 65000 and a timeout of 1000 ticks. */
  method WaitAcrossRestart() returns (e: Environment, ret: int, polls: nat)
    ensures e.clock(0) == 65000 && forall k: nat :: e.verdict(k) == FlagTrue
    ensures MetAt(e, 1000, 0) && ret == -1 && polls == 0
  {
    e := Environment((k: nat) => if k < 3 then 65000 + k else 65003, (k: nat) => FlagTrue);
    ret, polls := PollUntilDeadline(e, 1000, 1, 0x1_0000);
  }
}
