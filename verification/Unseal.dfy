/** The lockout in front of unsealing: after five failures in a row, one attempt a minute.

    The counter file is state read and written around each call. The clock is read once for the
    check and once more when a failure is recorded. */
module Unseal {
  import opened Prelude

  const UNSEAL_FAIL_LOCKOUT: nat := 5
  const LOCKOUT_SECS: nat := 60

  datatype Counter = Counter(count: nat, lastFail: nat)

  /** One call: the two clock readings, whether the metadata can be loaded, and what the backend
      would say. */
  datatype Attempt = Attempt(check: nat, record: nat, metaOk: bool, backendOk: bool)

  datatype Outcome = LockedOut | NoMeta | Failed | Unsealed

  predicate Locked(c: Counter, now: nat) {
    c.count >= UNSEAL_FAIL_LOCKOUT && SaturatingSub(now, c.lastFail) < LOCKOUT_SECS
  }

  function Verdict(c: Counter, a: Attempt): Outcome {
    if Locked(c, a.check) then LockedOut
    else if !a.metaOk then NoMeta
    else if a.backendOk then Unsealed
    else Failed
  }

  function Next(c: Counter, a: Attempt): Counter {
    match Verdict(c, a)
    case LockedOut => c
    case NoMeta => c
    case Unsealed => Counter(0, 0)
    case Failed => Counter(SaturatingAdd(c.count, 1, U32_MAX), a.record)
  }

  class Sealed {
    var counter: Counter

    constructor ()
      ensures counter == Counter(0, 0)
    {
      counter := Counter(0, 0);
    }

    method CheckDosLimit(now: nat) returns (ok: bool)
      ensures ok <==> !Locked(counter, now)
    {
      ok := true;
      if counter.count >= UNSEAL_FAIL_LOCKOUT {
        if SaturatingSub(now, counter.lastFail) < LOCKOUT_SECS {
          ok := false;
        }
      }
    }

    method IncrementFailCounter(now: nat)
      modifies this
      ensures counter == Counter(SaturatingAdd(old(counter).count, 1, U32_MAX), now)
    {
      counter := Counter(SaturatingAdd(counter.count, 1, U32_MAX), now);
    }

    method Unseal(a: Attempt) returns (r: Outcome)
      modifies this
      ensures r == Verdict(old(counter), a) && counter == Next(old(counter), a)
    {
      var ok := CheckDosLimit(a.check);
      if !ok {
        return LockedOut;
      }
      if !a.metaOk {
        return NoMeta;
      }
      if a.backendOk {
        counter := Counter(0, 0);
        return Unsealed;
      }
      IncrementFailCounter(a.record);
      r := Failed;
    }
  }

  // ---- runs ----

  /** The counter after the first `n` attempts, from zero. */
  function After(attempts: seq<Attempt>, n: nat): Counter
    requires n <= |attempts|
  {
    if n == 0 then Counter(0, 0) else Next(After(attempts, n - 1), attempts[n - 1])
  }

  function OutcomeOf(attempts: seq<Attempt>, i: nat): Outcome
    requires i < |attempts|
  {
    Verdict(After(attempts, i), attempts[i])
  }

  /** The attempt is handed to the backend. */
  predicate Reaches(attempts: seq<Attempt>, i: nat)
    requires i < |attempts|
  {
    OutcomeOf(attempts, i) == Failed || OutcomeOf(attempts, i) == Unsealed
  }

  /** How many of the first `n` attempts reach the backend with a check in [lo, hi]. */
  function Reached(attempts: seq<Attempt>, n: nat, lo: nat, hi: nat): nat
    requires n <= |attempts|
  {
    if n == 0 then 0
    else
      Reached(attempts, n - 1, lo, hi)
      + if lo <= attempts[n - 1].check <= hi && Reaches(attempts, n - 1) then 1 else 0
  }

  ghost predicate NotBefore(attempts: seq<Attempt>, i: nat, j: nat)
    requires i < |attempts| && j < |attempts|
  {
    attempts[i].record <= attempts[j].check
  }

  /** Calls come one after another and the clock never goes backwards. */
  ghost predicate Sequential(attempts: seq<Attempt>) {
    && (forall i :: 0 <= i < |attempts| ==> attempts[i].check <= attempts[i].record)
    && (forall i, j :: 0 <= i < j < |attempts| ==> NotBefore(attempts, i, j))
  }

  ghost predicate NoSuccess(attempts: seq<Attempt>) {
    forall i :: 0 <= i < |attempts| ==> OutcomeOf(attempts, i) != Unsealed
  }

  /** Each attempt beyond the fifth that reaches the backend costs a minute since `lo`. */
  ghost predicate Paced(attempts: seq<Attempt>, n: nat, lo: nat, hi: nat)
    requires n <= |attempts|
  {
    var m, c := Reached(attempts, n, lo, hi), After(attempts, n);
    && c.count >= Min(m, UNSEAL_FAIL_LOCKOUT)
    && (m > UNSEAL_FAIL_LOCKOUT ==>
          lo + LOCKOUT_SECS * (m - UNSEAL_FAIL_LOCKOUT) <= Min(c.lastFail, hi))
    && (m > 0 ==> lo <= c.lastFail)
  }

  lemma {:induction false} AttemptsArePaced(attempts: seq<Attempt>, n: nat, lo: nat, hi: nat)
    requires n <= |attempts| && Sequential(attempts) && NoSuccess(attempts)
    requires forall i :: 0 <= i < n ==> attempts[i].check <= hi
    ensures Paced(attempts, n, lo, hi)
  {
    if n > 0 {
      AttemptsArePaced(attempts, n - 1, lo, hi);
      assert OutcomeOf(attempts, n - 1) != Unsealed;
      LastFailIsPast(attempts, n - 1);
    }
  }

  lemma {:induction false} LastFailIsPast(attempts: seq<Attempt>, n: nat)
    requires n < |attempts| && Sequential(attempts)
    ensures After(attempts, n).lastFail <= attempts[n].check
  {
    if n > 0 {
      assert NotBefore(attempts, n - 1, n);
      LastFailIsPast(attempts, n - 1);
    }
  }

  lemma {:induction false} ReachedIsBounded(attempts: seq<Attempt>, n: nat, lo: nat, t: nat)
    requires n <= |attempts| && Sequential(attempts) && NoSuccess(attempts)
    ensures Reached(attempts, n, lo, lo + t) <= UNSEAL_FAIL_LOCKOUT + t / LOCKOUT_SECS
  {
    if n > 0 {
      if attempts[n - 1].check > lo + t {
        ReachedIsBounded(attempts, n - 1, lo, t);
      } else {
        forall i | 0 <= i < n
          ensures attempts[i].check <= lo + t
        {
          if i < n - 1 {
            assert NotBefore(attempts, i, n - 1);
          }
        }
        AttemptsArePaced(attempts, n, lo, lo + t);
      }
    }
  }

  /** Without a success, at most 5 + floor(t / 60) attempts reach the backend in any t seconds. */
  lemma LockoutBound(attempts: seq<Attempt>, lo: nat, t: nat)
    requires Sequential(attempts) && NoSuccess(attempts)
    ensures Reached(attempts, |attempts|, lo, lo + t) <= 5 + t / 60
  {
    ReachedIsBounded(attempts, |attempts|, lo, t);
  }

  // ---- who is locked out ----

  /** How many of the first `n` attempts failed since the last success. */
  function Streak(attempts: seq<Attempt>, n: nat): nat
    requires n <= |attempts|
  {
    if n == 0 then 0
    else
      match OutcomeOf(attempts, n - 1)
      case Unsealed => 0
      case Failed => Streak(attempts, n - 1) + 1
      case _ => Streak(attempts, n - 1)
  }

  /** Attempt `j` is the last of the first `n` that failed, and none succeeded since. */
  ghost predicate LastFailedIs(attempts: seq<Attempt>, n: nat, j: nat)
    requires n <= |attempts|
  {
    && j < n && OutcomeOf(attempts, j) == Failed
    && forall k :: j < k < n ==> OutcomeOf(attempts, k) == LockedOut || OutcomeOf(attempts, k) == NoMeta
  }

  lemma {:induction false} CounterTells(attempts: seq<Attempt>, n: nat) returns (j: nat)
    requires n <= |attempts|
    ensures After(attempts, n).count == Min(Streak(attempts, n), 0xFFFF_FFFF)
    ensures Streak(attempts, n) > 0 ==>
              LastFailedIs(attempts, n, j) && After(attempts, n).lastFail == attempts[j].record
  {
    j := 0;
    if n > 0 {
      j := CounterTells(attempts, n - 1);
      if OutcomeOf(attempts, n - 1) == Failed {
        j := n - 1;
      }
    }
  }

  /** An attempt is locked out exactly when at least five failed since the last success and it comes
      less than a minute after the last of them; otherwise metadata and backend decide. */
  lemma LockedOutIff(attempts: seq<Attempt>, i: nat)
    requires i < |attempts|
    ensures OutcomeOf(attempts, i) == LockedOut <==>
            && Streak(attempts, i) >= 5
            && exists j: nat :: LastFailedIs(attempts, i, j) && attempts[i].check < attempts[j].record + 60
    ensures OutcomeOf(attempts, i) != LockedOut ==>
            OutcomeOf(attempts, i) ==
            if !attempts[i].metaOk then NoMeta else if attempts[i].backendOk then Unsealed else Failed
  {
    var j := CounterTells(attempts, i);
    forall k | LastFailedIs(attempts, i, k) && LastFailedIs(attempts, i, j)
      ensures k == j
    {
    }
  }

  // ---- the bound is reached ----

  /** Five attempts at once, then one a minute. */
  function Persistent(n: nat): seq<Attempt> {
    seq(n, i requires i >= 0 => var now := LOCKOUT_SECS * SaturatingSub(i, 4); Attempt(now, now, true, false))
  }

  lemma {:induction false} PersistentReaches(n: nat, i: nat, t: nat)
    requires i <= n <= 5 + t / 60
    ensures After(Persistent(n), i) ==
            Counter(Min(i, U32_MAX), if i == 0 then 0 else LOCKOUT_SECS * SaturatingSub(i - 1, 4))
    ensures Reached(Persistent(n), i, 0, t) == i
  {
    if i > 0 {
      PersistentReaches(n, i - 1, t);
      assert Persistent(n)[i - 1].check <= t;
    }
  }

  /** The bound is the best one for every t. */
  lemma LockoutBoundIsReached(t: nat) returns (attempts: seq<Attempt>)
    ensures Sequential(attempts) && NoSuccess(attempts)
    ensures Reached(attempts, |attempts|, 0, t) == 5 + t / 60
  {
    var n := 5 + t / 60;
    attempts := Persistent(n);
    PersistentReaches(n, n, t);
    forall i | 0 <= i < n
      ensures OutcomeOf(attempts, i) != Unsealed
    {
      PersistentReaches(n, i, t);
    }
  }
}
