/** The server's account lockout, on the password-failure path of a login. */
module AccountLockout {
  import opened Prelude

  /** (failures, seconds) in ascending order of failures. */
  const LOCKOUT_THRESHOLDS: seq<(int, int)> := [(5, 60), (10, 300), (15, 1800)]

  /** `lockedUntil` is None when the stored text is empty or unreadable. */
  datatype Account = Account(failedLogins: int, lockedUntil: Option<int>)

  /** The duration beside the last threshold reached, or zero when none is. */
  function LastReached(table: seq<(int, int)>, failed: int): int {
    if |table| == 0 then 0
    else
      var (threshold, secs) := table[|table| - 1];
      if failed >= threshold then secs else LastReached(table[..|table| - 1], failed)
  }

  predicate Ascending(table: seq<(int, int)>) {
    forall i, j :: 0 <= i < j < |table| ==> table[i].0 < table[j].0
  }

  /** In an ascending table an entry decides exactly from its threshold up to the next one. */
  lemma {:induction false} LastReachedMeans(table: seq<(int, int)>, failed: int, i: nat)
    requires Ascending(table) && i < |table|
    ensures table[i].0 <= failed && (i + 1 < |table| ==> failed < table[i + 1].0) ==>
      LastReached(table, failed) == table[i].1
    ensures failed < table[0].0 ==> LastReached(table, failed) == 0
  {
    var n := |table| - 1;
    if i < n {
      LastReachedMeans(table[..n], failed, i);
    } else if n > 0 {
      LastReachedMeans(table[..n], failed, 0);
    }
  }

  function LockoutDuration(failed: int): int {
    if failed >= 15 then 1800 else if failed >= 10 then 300 else if failed >= 5 then 60 else 0
  }

  lemma ThresholdsDecide(failed: int)
    ensures LastReached(LOCKOUT_THRESHOLDS, failed) == LockoutDuration(failed)
  {
    LastReachedMeans(LOCKOUT_THRESHOLDS, failed, if failed >= 15 then 2 else if failed >= 10 then 1 else 0);
  }

  method GetLockoutDuration(failed: int) returns (duration: int)
    ensures duration == LockoutDuration(failed)
  {
    duration := 0;
    for i := 0 to |LOCKOUT_THRESHOLDS|
      invariant duration == LastReached(LOCKOUT_THRESHOLDS[..i], failed)
    {
      assert LOCKOUT_THRESHOLDS[..i + 1][..i] == LOCKOUT_THRESHOLDS[..i];
      var (threshold, secs) := LOCKOUT_THRESHOLDS[i];
      if failed >= threshold {
        duration := secs;
      }
    }
    assert LOCKOUT_THRESHOLDS[..|LOCKOUT_THRESHOLDS|] == LOCKOUT_THRESHOLDS;
    ThresholdsDecide(failed);
  }

  predicate IsLocked(a: Account, now: real) {
    a.lockedUntil.Some? && now < a.lockedUntil.value as real
  }

  /** One request for an existing account: the lock is looked at at `check`, a failure is stamped at `stamp`. */
  datatype Try = Try(check: real, stamp: real, passwordOk: bool)
  datatype Outcome = Locked | WrongPassword | PasswordAccepted

  class User {
    var account: Account

    /** A failure re-arms the lock; the stored instant loses its fraction of a second. */
    method Login(x: Try) returns (outcome: Outcome)
      modifies this
      ensures (outcome, account) == Attempted(old(account), x)
    {
      if IsLocked(account, x.check) { return Locked; }
      if !x.passwordOk {
        account := account.(failedLogins := account.failedLogins + 1);
        var secs := GetLockoutDuration(account.failedLogins);
        if secs > 0 {
          account := account.(lockedUntil := Some((x.stamp + secs as real).Floor));
        }
        return WrongPassword;
      }
      account := Account(0, None);
      return PasswordAccepted;
    }
  }

  function Attempted(a: Account, x: Try): (Outcome, Account) {
    if IsLocked(a, x.check) then (Locked, a)
    else if x.passwordOk then (PasswordAccepted, Account(0, None))
    else
      var failed := a.failedLogins + 1;
      var secs := LockoutDuration(failed);
      (WrongPassword,
       Account(failed, if secs > 0 then Some((x.stamp + secs as real).Floor) else a.lockedUntil))
  }

  function AccountAfter(a: Account, xs: seq<Try>): Account {
    if |xs| == 0 then a else Attempted(AccountAfter(a, xs[..|xs| - 1]), xs[|xs| - 1]).1
  }

  /** The times at which a wrong password was checked and counted since the last accepted one. */
  function Wrong(a: Account, xs: seq<Try>): seq<real> {
    if |xs| == 0 then []
    else
      var before, x := xs[..|xs| - 1], xs[|xs| - 1];
      match Attempted(AccountAfter(a, before), x).0
      case Locked => Wrong(a, before)
      case PasswordAccepted => []
      case WrongPassword => Wrong(a, before) + [x.check]
  }

  predicate Clocked(xs: seq<Try>) {
    && (forall i :: 0 <= i < |xs| ==> xs[i].check <= xs[i].stamp)
    && (forall i :: 0 < i < |xs| ==> xs[i - 1].stamp <= xs[i].check)
  }

  /** Each wrong password waits out the lock of the one before, less the second lost to truncation. */
  predicate Spaced(times: seq<real>) {
    forall i :: 0 < i < |times| ==>
      times[i] >= times[i - 1] && (i >= 5 ==> times[i] > times[i - 1] + (LockoutDuration(i) - 1) as real)
  }

  predicate Armed(a: Account, times: seq<real>, now: real) {
    && a.failedLogins == |times| && Spaced(times)
    && (|times| > 0 ==> times[|times| - 1] <= now)
    && (|times| >= 5 ==>
          a.lockedUntil.Some? && a.lockedUntil.value as real > times[|times| - 1] + (LockoutDuration(|times|) - 1) as real)
  }

  lemma FailureArms(a: Account, times: seq<real>, x: Try)
    requires Armed(a, times, x.check) && x.check <= x.stamp && Attempted(a, x).0 == WrongPassword
    ensures Armed(Attempted(a, x).1, times + [x.check], x.stamp)
  {
  }

  lemma {:induction false} EveryFailureArms(xs: seq<Try>, now: real)
    requires Clocked(xs) && (|xs| > 0 ==> xs[|xs| - 1].stamp <= now)
    ensures Armed(AccountAfter(Account(0, None), xs), Wrong(Account(0, None), xs), now)
  {
    if |xs| > 0 {
      var before, x := xs[..|xs| - 1], xs[|xs| - 1];
      EveryFailureArms(before, x.check);
      var a := AccountAfter(Account(0, None), before);
      if Attempted(a, x).0 == WrongPassword {
        FailureArms(a, Wrong(Account(0, None), before), x);
      }
    }
  }

  /** Seconds that must have passed between the fifth and the n-th wrong password. */
  function Delay(n: int): int {
    if n <= 5 then 0 else Delay(n - 1) + LockoutDuration(n - 1) - 1
  }

  lemma {:induction false} DelayClosedForm(n: int)
    requires n > 15
    ensures Delay(n) == 5 * 59 + 5 * 299 + (n - 15) * 1799
  {
    if n == 16 {
      assert Delay(10) == 5 * 59;
      assert Delay(15) == Delay(10) + 5 * 299;
    } else {
      DelayClosedForm(n - 1);
    }
  }

  lemma {:induction false} SpacedDelays(times: seq<real>, n: int)
    requires Spaced(times) && 5 < n <= |times|
    ensures times[n - 1] > times[4] + Delay(n) as real
  {
    if n > 6 {
      SpacedDelays(times, n - 1);
    }
  }

  /**
   The lockout bound: the n-th consecutive wrong password, n > 15, is checked more than
   5*59 + 5*299 + (n-15)*1799 seconds after the fifth.
   */
  lemma LockoutBound(xs: seq<Try>, n: int)
    requires Clocked(xs)
    requires 15 < n <= |Wrong(Account(0, None), xs)|
    ensures var times := Wrong(Account(0, None), xs);
      times[n - 1] > times[4] + (5 * 59 + 5 * 299 + (n - 15) * 1799) as real
  {
    EveryFailureArms(xs, xs[|xs| - 1].stamp);
    SpacedDelays(Wrong(Account(0, None), xs), n);
    DelayClosedForm(n);
  }

  // ----- what a try is answered -----

  /** When each wrong password since the last accepted one was stamped. */
  function Stamps(a: Account, xs: seq<Try>): seq<real> {
    if |xs| == 0 then []
    else
      var before, x := xs[..|xs| - 1], xs[|xs| - 1];
      match Attempted(AccountAfter(a, before), x).0
      case Locked => Stamps(a, before)
      case PasswordAccepted => []
      case WrongPassword => Stamps(a, before) + [x.stamp]
  }

  /** `n` wrong passwords in a row, the last stamped at `stamp`, lock the account at `now`. */
  predicate LocksOut(n: int, stamp: real, now: real) {
    || (5 <= n < 10 && now < (stamp + 60.0).Floor as real)
    || (10 <= n < 15 && now < (stamp + 300.0).Floor as real)
    || (15 <= n && now < (stamp + 1800.0).Floor as real)
  }

  /** The account records how many wrong passwords came in a row, and the lock of the newest once there are five. */
  lemma {:induction false} AccountRecordsStamps(xs: seq<Try>)
    ensures var a, stamps := AccountAfter(Account(0, None), xs), Stamps(Account(0, None), xs);
      && a.failedLogins == |stamps|
      && a.lockedUntil == if |stamps| < 5 then None
                          else Some((stamps[|stamps| - 1] + LockoutDuration(|stamps|) as real).Floor)
  {
    if |xs| > 0 {
      AccountRecordsStamps(xs[..|xs| - 1]);
    }
  }

  /**
   Over every run, whatever the clock does: a try is refused exactly when the wrong passwords before it
   lock the account at its check, whatever its own password; otherwise the password decides.
   */
  lemma AnswersReadOffStamps(xs: seq<Try>, x: Try)
    ensures var stamps := Stamps(Account(0, None), xs); var n := |stamps|;
      Attempted(AccountAfter(Account(0, None), xs), x).0 ==
        if n > 0 && LocksOut(n, stamps[n - 1], x.check) then Locked
        else if x.passwordOk then PasswordAccepted else WrongPassword
  {
    AccountRecordsStamps(xs);
    var stamps := Stamps(Account(0, None), xs);
    var n := |stamps|;
    LockReadOff(AccountAfter(Account(0, None), xs), n, if n > 0 then stamps[n - 1] else 0.0, x.check);
  }

  lemma LockReadOff(a: Account, n: nat, stamp: real, now: real)
    requires a.lockedUntil == if n < 5 then None else Some((stamp + LockoutDuration(n) as real).Floor)
    ensures IsLocked(a, now) <==> LocksOut(n, stamp, now)
  {
    assert 5 <= n < 10 ==> LockoutDuration(n) as real == 60.0;
    assert 10 <= n < 15 ==> LockoutDuration(n) as real == 300.0;
    assert 15 <= n ==> LockoutDuration(n) as real == 1800.0;
  }
}
