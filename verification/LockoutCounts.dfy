/** How many failures lock a name, for how long, and what it is told (server/common/accounts.py). */
module LockoutCounts {
  import opened Options
  import opened LoginLockouts

  /** Wrong attempts on one name at these times. */
  function WrongAt(name: string, times: seq<real>): (attempts: seq<Attempt>)
    ensures |attempts| == |times|
  {
    seq(|times|, i requires 0 <= i < |times| => Attempt(name, times[i], Wrong))
  }

  /** Up to the limit each failure counts; the one that reaches it starts the count anew and sets the lock. */
  lemma {:induction false} FailuresCount(policy: Policy, name: string, times: seq<real>)
    requires policy.limit > 0 && policy.lockout > 0.0 && 1 <= |times| <= policy.limit
    requires forall i :: 0 <= i < |times| ==> times[i] >= 0.0
    ensures Get(Run(policy, map[], WrongAt(name, times)), name) == Some(
        if |times| < policy.limit then Row(|times|, 0.0) else Row(0, times[|times| - 1] + policy.lockout))
    decreases |times|
  {
    var (init, last) := (times[..|times| - 1], times[|times| - 1]);
    var attempts := WrongAt(name, times);
    assert attempts[..|attempts| - 1] == WrongAt(name, init);
    assert attempts[|attempts| - 1] == Attempt(name, last, Wrong);
    if init != [] {
      FailuresCount(policy, name, init);
    }
  }

  /** Of the first failures in a row exactly the one that reaches the limit is answered with a lock. */
  lemma FirstLock(policy: Policy, name: string, times: seq<real>, now: real)
    requires policy.limit > 0 && policy.lockout > 0.0 && |times| < policy.limit
    requires now >= 0.0 && forall i :: 0 <= i < |times| ==> times[i] >= 0.0
    ensures AnswerTo(policy, Get(Run(policy, map[], WrongAt(name, times)), name), Attempt(name, now, Wrong))
      == if |times| + 1 < policy.limit then Checked(Wrong) else Locked(RetryAfter(policy.lockout))
  {
    if times != [] {
      FailuresCount(policy, name, times);
    }
  }

  /**
   While a lock runs every login is told the rest of it and changes nothing; afterwards the name
   is as good as new.
   */
  lemma LockRuns(policy: Policy, until: real, a: Attempt)
    requires until > 0.0 && !a.verdict.Cleared?
    ensures a.now < until ==>
      && AnswerTo(policy, Some(Row(0, until)), a) == Locked(RetryAfter(until - a.now))
      && After(policy, Some(Row(0, until)), a) == Some(Row(0, until))
    ensures a.now >= until ==>
      && AnswerTo(policy, Some(Row(0, until)), a) == AnswerTo(policy, None, a)
      && After(policy, Some(Row(0, until)), a) == After(policy, None, a)
  {
  }

  /** A right password forgets the failures, and an account that is barred neither forgets nor adds any. */
  lemma OtherVerdicts(policy: Policy, failures: int, a: Attempt)
    requires a.now >= 0.0
    ensures a.verdict.Right? || a.verdict.Cleared? ==> After(policy, Some(Row(failures, 0.0)), a) == None
    ensures a.verdict.Barred? ==> After(policy, Some(Row(failures, 0.0)), a) == Some(Row(failures, 0.0))
    ensures !a.verdict.Wrong? ==> AnswerTo(policy, Some(Row(failures, 0.0)), a) == Checked(a.verdict)
  {
  }

  /** A limit or a time that is not positive turns the locks off. */
  lemma {:induction false} LocksOff(policy: Policy, attempts: seq<Attempt>, a: Attempt)
    requires policy.limit <= 0 || policy.lockout <= 0.0
    ensures Run(policy, map[], attempts) == map[]
    ensures AnswerTo(policy, Get(Run(policy, map[], attempts), a.name), a) == Checked(a.verdict)
  {
    if attempts != [] {
      LocksOff(policy, attempts[..|attempts| - 1], a);
    }
  }

  /** The advised wait is a whole number of seconds, at least one, and less than a second too long. */
  lemma AdvisedWait(wait: real)
    ensures RetryAfter(wait) >= 1
    ensures wait >= 1.0 ==> wait - 0.001 < RetryAfter(wait) as real < wait + 1.0
    ensures wait < 1.0 ==> RetryAfter(wait) == 1
  {
  }

  /** Logins of one name say nothing about another. */
  lemma {:induction false} NamesApart(policy: Policy, attempts: seq<Attempt>, name: string)
    ensures Get(Run(policy, map[], attempts), name) == Get(Run(policy, map[], Own(attempts, name)), name)
  {
    if attempts != [] {
      var (init, last) := (attempts[..|attempts| - 1], attempts[|attempts| - 1]);
      NamesApart(policy, init, name);
      if last.name == name {
        var own := Own(attempts, name);
        assert own[..|own| - 1] == Own(init, name);
      } else {
        assert Own(attempts, name) == Own(init, name);
      }
    }
  }

  function Own(attempts: seq<Attempt>, name: string): seq<Attempt> {
    if attempts == [] then []
    else
      var last := attempts[|attempts| - 1];
      Own(attempts[..|attempts| - 1], name) + if last.name == name then [last] else []
  }
}
