/** Counting failed logins and locking a name (server/common/accounts.py, authenticate_candidates). */
module LoginLockouts {
  import opened Options

  datatype Policy = Policy(limit: int, lockout: real)

  datatype Row = Row(failures: int, lockedUntil: real)

  type Table = map<string, Row>

  /**
   What the account says when its turn comes; `Barred` is a banned or disabled account.
   `Cleared` is no login: a new password or a new account forgets the failures of its name.
   */
  datatype Verdict = Right | Wrong | Barred | Cleared

  datatype Answer = Locked(retryAfter: int) | Checked(verdict: Verdict)

  /** A login under a normalised name. */
  datatype Attempt = Attempt(name: string, now: real, verdict: Verdict)

  function Failures(row: Option<Row>): int {
    if row.Some? then row.value.failures else 0
  }

  function RetryAfter(wait: real): int {
    var rounded := (wait + 0.999).Floor;
    if rounded < 1 then 1 else rounded
  }

  /** The row when the lock test lets an attempt pass; None stands for a locked name. */
  function Unlocked(row: Option<Row>, now: real): Option<Option<Row>> {
    match row
    case None => Some(None)
    case Some(r) =>
      if r.lockedUntil > now then None
      else if r.lockedUntil > 0.0 then Some(None)
      else Some(row)
  }

  function Noted(policy: Policy, row: Option<Row>, now: real): Option<Row> {
    if policy.limit <= 0 || policy.lockout <= 0.0 then row
    else
      var failures := Failures(row) + 1;
      if failures >= policy.limit then Some(Row(0, now + policy.lockout)) else Some(Row(failures, 0.0))
  }

  /** The row of the name after an attempt. */
  function After(policy: Policy, row: Option<Row>, a: Attempt): Option<Row> {
    if a.verdict.Cleared? then None
    else
      match Unlocked(row, a.now)
      case None => row
      case Some(open) =>
        match a.verdict
        case Wrong => Noted(policy, open, a.now)
        case Barred => open
        case _ => None
  }

  /** Whether one more failure locks the name. */
  predicate Locks(policy: Policy, row: Option<Row>) {
    policy.limit > 0 && policy.lockout > 0.0 && Failures(row) + 1 >= policy.limit
  }

  /** What the client is told. */
  function AnswerTo(policy: Policy, row: Option<Row>, a: Attempt): Answer {
    match Unlocked(row, a.now)
    case None => Locked(RetryAfter(if row.Some? then row.value.lockedUntil - a.now else 0.0))
    case Some(passed) =>
      if a.verdict.Wrong? && Locks(policy, passed) then Locked(RetryAfter(policy.lockout)) else Checked(a.verdict)
  }

  /** Whether the password was looked at, or the failures were cleared. */
  predicate IsChecked(row: Option<Row>, a: Attempt) {
    a.verdict.Cleared? || (Unlocked(row, a.now).Some? && !a.verdict.Barred?)
  }

  function Get(table: Table, name: string): Option<Row> {
    if name in table then Some(table[name]) else None
  }

  function Put(table: Table, name: string, row: Option<Row>): Table {
    match row
    case None => table - {name}
    case Some(r) => table[name := r]
  }

  function Run(policy: Policy, table: Table, attempts: seq<Attempt>): Table {
    if attempts == [] then table
    else
      var before := Run(policy, table, attempts[..|attempts| - 1]);
      var a := attempts[|attempts| - 1];
      Put(before, a.name, After(policy, Get(before, a.name), a))
  }

  /** The attempts on a name whose password was looked at, and the times its failures were cleared. */
  function Checks(policy: Policy, table: Table, attempts: seq<Attempt>, name: string): seq<Attempt> {
    if attempts == [] then []
    else
      var (init, a) := (attempts[..|attempts| - 1], attempts[|attempts| - 1]);
      Checks(policy, table, init, name)
      + (if a.name == name && IsChecked(Get(Run(policy, table, init), name), a) then [a] else [])
  }

  predicate Chronological(attempts: seq<Attempt>) {
    forall i, j :: 0 <= i < j < |attempts| ==> attempts[i].now <= attempts[j].now
  }

  // ----- how fast a name can be tried

  predicate AllWrong(checks: seq<Attempt>, lo: nat, hi: nat) {
    forall k :: lo <= k < hi <= |checks| ==> checks[k].verdict.Wrong?
  }

  /** Of any `limit` + 1 checks in a row that all fail, the last comes at least `lockout` after the first. */
  ghost predicate Spread(policy: Policy, checks: seq<Attempt>) {
    forall i, j :: 0 <= i < j < |checks| && j == i + policy.limit && AllWrong(checks, i, j + 1) ==>
      checks[j].now >= checks[i].now + policy.lockout
  }

  /**
   The check before the `f` failures that are being counted is no part of them: it was right, or
   it locked the name.
   */
  ghost predicate Gate(policy: Policy, row: Option<Row>, checks: seq<Attempt>, f: nat, clock: real)
    requires f <= |checks|
  {
    var p := |checks| - f;
    p == 0 || !checks[p - 1].verdict.Wrong?
    || (if f > 0 then checks[p].now >= checks[p - 1].now + policy.lockout
        else
          var until := checks[p - 1].now + policy.lockout;
          clock >= until || (row.Some? && row.value.lockedUntil >= until))
  }

  ghost predicate Before(checks: seq<Attempt>, clock: real) {
    forall k :: 0 <= k < |checks| ==> checks[k].now <= clock
  }

  /** What the row remembers of the checks: the last failures, and the lock before them. */
  ghost predicate Remembers(policy: Policy, row: Option<Row>, checks: seq<Attempt>, clock: real) {
    var f := Failures(row);
    && 0 <= f < policy.limit && f <= |checks| && AllWrong(checks, |checks| - f, |checks|)
    && Before(checks, clock) && Gate(policy, row, checks, f, clock)
  }

  lemma LaterClock(policy: Policy, row: Option<Row>, checks: seq<Attempt>, clock: real, later: real)
    requires Remembers(policy, row, checks, clock) && clock <= later
    ensures Remembers(policy, row, checks, later)
  {
  }

  lemma UnlockedRemembers(policy: Policy, row: Option<Row>, checks: seq<Attempt>, now: real)
    requires Remembers(policy, row, checks, now) && Unlocked(row, now).Some?
    requires row.Some? && row.value.lockedUntil > 0.0 ==> row.value.failures == 0
    ensures Remembers(policy, Unlocked(row, now).value, checks, now)
    ensures Failures(Unlocked(row, now).value) == 0 && checks != [] && checks[|checks| - 1].verdict.Wrong? ==>
      now >= checks[|checks| - 1].now + policy.lockout
  {
  }

  lemma WrongStaysSpread(policy: Policy, row: Option<Row>, checks: seq<Attempt>, a: Attempt)
    requires policy.limit > 0 && policy.lockout > 0.0
    requires Remembers(policy, row, checks, a.now) && Spread(policy, checks) && Chronological(checks)
    requires Failures(row) == 0 && checks != [] && checks[|checks| - 1].verdict.Wrong? ==>
      a.now >= checks[|checks| - 1].now + policy.lockout
    ensures Spread(policy, checks + [a])
  {
    var (all, n) := (checks + [a], |checks|);
    forall i, j | 0 <= i < j < |all| && j == i + policy.limit && AllWrong(all, i, j + 1)
      ensures all[j].now >= all[i].now + policy.lockout
    {
      if j < n {
        WrongBefore(checks, a, i, j + 1);
      } else {
        var p := n - Failures(row);
        assert i < p && all[p - 1].verdict.Wrong?;
        assert checks[i].now <= checks[p - 1].now;
      }
    }
  }

  lemma WrongBefore(checks: seq<Attempt>, a: Attempt, lo: nat, hi: nat)
    requires hi <= |checks| && AllWrong(checks + [a], lo, hi)
    ensures AllWrong(checks, lo, hi)
  {
    assert forall k :: lo <= k < hi ==> (checks + [a])[k] == checks[k];
  }

  lemma WrongIsRemembered(policy: Policy, row: Option<Row>, checks: seq<Attempt>, a: Attempt)
    requires policy.limit > 0 && policy.lockout > 0.0 && a.verdict.Wrong?
    requires Remembers(policy, row, checks, a.now)
    requires Failures(row) == 0 && checks != [] && checks[|checks| - 1].verdict.Wrong? ==>
      a.now >= checks[|checks| - 1].now + policy.lockout
    ensures Remembers(policy, Noted(policy, row, a.now), checks + [a], a.now)
  {
    var (all, f) := (checks + [a], Failures(row));
    var next := Noted(policy, row, a.now);
    WrongMore(checks, a, |checks| - f);
    if f + 1 < policy.limit {
      assert Failures(next) == f + 1;
      assert |all| - (f + 1) == |checks| - f;
      assert Gate(policy, next, all, f + 1, a.now);
    } else {
      assert Failures(next) == 0;
      assert Gate(policy, next, all, 0, a.now);
    }
  }

  lemma WrongMore(checks: seq<Attempt>, a: Attempt, lo: nat)
    requires lo <= |checks| && AllWrong(checks, lo, |checks|) && a.verdict.Wrong?
    ensures AllWrong(checks + [a], lo, |checks + [a]|)
  {
  }

  /** Locks are set together with a count of zero, and counts are kept without a lock. */
  predicate Shaped(row: Option<Row>) {
    row.Some? && row.value.lockedUntil > 0.0 ==> row.value.failures == 0
  }

  ghost predicate Consistent(policy: Policy, row: Option<Row>, checks: seq<Attempt>, clock: real) {
    Remembers(policy, row, checks, clock) && Spread(policy, checks) && Chronological(checks) && Shaped(row)
  }

  lemma WrongStaysConsistent(policy: Policy, row: Option<Row>, checks: seq<Attempt>, a: Attempt)
    requires policy.limit > 0 && policy.lockout > 0.0 && a.verdict.Wrong?
    requires Consistent(policy, row, checks, a.now) && Unlocked(row, a.now).Some?
    ensures Consistent(policy, Noted(policy, Unlocked(row, a.now).value, a.now), checks + [a], a.now)
  {
    var passed := Unlocked(row, a.now).value;
    UnlockedRemembers(policy, row, checks, a.now);
    WrongStaysSpread(policy, passed, checks, a);
    WrongIsRemembered(policy, passed, checks, a);
  }

  lemma StepRemembers(policy: Policy, row: Option<Row>, checks: seq<Attempt>, a: Attempt)
    requires policy.limit > 0 && policy.lockout > 0.0 && Consistent(policy, row, checks, a.now)
    ensures Consistent(policy, After(policy, row, a), if IsChecked(row, a) then checks + [a] else checks, a.now)
  {
    if a.verdict.Cleared? {
      RightForgets(policy, checks, a);
    } else if Unlocked(row, a.now).Some? {
      match a.verdict
      case Wrong => WrongStaysConsistent(policy, row, checks, a);
      case Barred => UnlockedRemembers(policy, row, checks, a.now);
      case _ => RightForgets(policy, checks, a);
    }
  }

  lemma RightForgets(policy: Policy, checks: seq<Attempt>, a: Attempt)
    requires policy.limit > 0 && (a.verdict.Right? || a.verdict.Cleared?) && Spread(policy, checks)
      && Chronological(checks)
    requires forall k :: 0 <= k < |checks| ==> checks[k].now <= a.now
    ensures Spread(policy, checks + [a]) && Chronological(checks + [a])
    ensures Remembers(policy, None, checks + [a], a.now)
  {
    var all := checks + [a];
    forall i, j | 0 <= i < j < |all| && j == i + policy.limit && AllWrong(all, i, j + 1)
      ensures all[j].now >= all[i].now + policy.lockout
    {
      assert all[j].verdict.Wrong?;
      assert forall k :: i <= k < j + 1 ==> all[k] == checks[k];
      assert AllWrong(checks, i, j + 1);
    }
  }

  lemma {:induction false} RunRemembers(policy: Policy, attempts: seq<Attempt>, name: string, clock: real)
    requires policy.limit > 0 && policy.lockout > 0.0 && Chronological(attempts)
    requires forall k :: 0 <= k < |attempts| ==> attempts[k].now <= clock
    ensures var (row, checks) := (Get(Run(policy, map[], attempts), name), Checks(policy, map[], attempts, name));
            Consistent(policy, row, checks, clock)
    decreases |attempts|
  {
    if attempts != [] {
      var (init, a) := (attempts[..|attempts| - 1], attempts[|attempts| - 1]);
      RunRemembers(policy, init, name, a.now);
      var (row, checks) := (Get(Run(policy, map[], init), name), Checks(policy, map[], init, name));
      var all := Checks(policy, map[], attempts, name);
      if a.name == name {
        StepRemembers(policy, row, checks, a);
        assert all == if IsChecked(row, a) then checks + [a] else checks;
        LaterClock(policy, After(policy, row, a), all, a.now, clock);
      } else {
        assert all == checks;
        LaterClock(policy, row, checks, a.now, clock);
      }
    }
  }

  /**
   Over any run of logins and clearings on any names, with a clock that never goes back: of
   any `limit` + 1 passwords tried in a row for one name, all wrong and with no clearing
   between, the last is tried at least the lockout time after the first.
   */
  lemma GuessesAreSpread(policy: Policy, attempts: seq<Attempt>, name: string)
    requires policy.limit > 0 && policy.lockout > 0.0 && Chronological(attempts)
    ensures Spread(policy, Checks(policy, map[], attempts, name))
  {
    RunRemembers(policy, attempts, name, if attempts == [] then 0.0 else attempts[|attempts| - 1].now);
  }

  /**
   Waiting as long as a locked answer says is enough exactly when the rest is at most a second or
   does not end in its first thousandth.
   */
  lemma WaitIsEnoughIff(wait: real)
    requires wait > 0.0
    ensures RetryAfter(wait) as real >= wait <==>
      wait <= 1.0 || wait == wait.Floor as real || wait - wait.Floor as real >= 0.001
  {
    var rest := wait - wait.Floor as real;
    FloorIs(wait + 0.999, if rest >= 0.001 then wait.Floor + 1 else wait.Floor);
  }

  lemma FloorIs(x: real, n: int)
    requires n as real <= x < n as real + 1.0
    ensures x.Floor == n
  {
  }

  class FailureTable {
    const policy: Policy
    var rows: Table

    constructor (policy: Policy)
      ensures this.policy == policy && rows == map[]
    {
      this.policy := policy;
      rows := map[];
    }

    /** The lock test, which forgets a lock that has run out. */
    method FailureState(name: string, now: real) returns (locked: Option<Answer>)
      modifies this
      ensures locked.None? <==> Unlocked(old(Get(rows, name)), now).Some?
      ensures locked.None? ==> rows == Put(old(rows), name, Unlocked(old(Get(rows, name)), now).value)
      ensures locked.Some? ==>
        rows == old(rows) && locked.value == Locked(RetryAfter(old(rows[name].lockedUntil) - now))
    {
      locked := None;
      if name in rows {
        var lockedUntil := rows[name].lockedUntil;
        if lockedUntil <= now {
          if lockedUntil > 0.0 {
            rows := rows - {name};
          }
          return;
        }
        locked := Some(Locked(RetryAfter(lockedUntil - now)));
      }
    }

    method NoteFailure(name: string, now: real) returns (locked: bool)
      modifies this
      ensures rows == Put(old(rows), name, Noted(policy, old(Get(rows, name)), now))
      ensures locked == Locks(policy, old(Get(rows, name)))
    {
      if policy.limit <= 0 || policy.lockout <= 0.0 {
        return false;
      }
      var failures := (if name in rows then rows[name].failures else 0) + 1;
      locked := failures >= policy.limit;
      rows := rows[name := if locked then Row(0, now + policy.lockout) else Row(failures, 0.0)];
    }

    /** A new password, or a new account of that name. */
    method ForgetFailures(name: string, ghost now: real)
      modifies this
      ensures rows == Put(old(rows), name, After(policy, old(Get(rows, name)), Attempt(name, now, Cleared)))
    {
      rows := rows - {name};
    }

    method Authenticate(a: Attempt) returns (answer: Answer)
      requires !a.verdict.Cleared?
      modifies this
      ensures rows == Put(old(rows), a.name, After(policy, old(Get(rows, a.name)), a))
      ensures answer == AnswerTo(policy, old(Get(rows, a.name)), a)
    {
      var locked := FailureState(a.name, a.now);
      if locked.Some? {
        return locked.value;
      }
      answer := Checked(a.verdict);
      match a.verdict
      case Right => rows := rows - {a.name};
      case Cleared =>
      case Wrong =>
        var nowLocked := NoteFailure(a.name, a.now);
        if nowLocked {
          answer := Locked(RetryAfter(policy.lockout));
        }
      case Barred =>
    }
  }
}
