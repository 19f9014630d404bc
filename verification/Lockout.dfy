/**
 AuthService's account lockout for one account that every login addresses by the same
 identifiers. Logins run one at a time; each reads the clock when it checks the account
 and again when it records a failure.
 */
module Lockout {
  import opened Common

  const MAX_FAILED_ATTEMPTS: nat := 5
  const LOCKOUT: Millis := 30 * 60 * 1000

  datatype Status = ACTIVE | LOCKED | INACTIVE

  datatype Account = Account(status: Status, failedLoginAttempts: nat, lockedUntil: Option<Millis>)

  datatype Method = Password | Pin

  // checkedAt and recordedAt are the two clock readings; correct says whether the presented
  // credential matches; usable whether the account has a credential of this kind at all
  // (for a PIN, also that the account is a worker's).
  datatype Login = Login(how: Method, usable: bool, correct: bool, checkedAt: Millis, recordedAt: Millis)

  // Refused is thrown before any credential comparison; Unusable is a password login to an
  // account without a password.
  datatype Outcome = Accepted | WrongCredential | Refused | Unusable

  // checkAccountStatus: None when it throws, otherwise the account, unlocked if its time is up.
  function CheckAccountStatus(a: Account, now: Millis): Option<Account> {
    match a.status
    case INACTIVE => None
    case LOCKED => if a.lockedUntil.Some? && now > a.lockedUntil.value then Some(Account(ACTIVE, 0, None)) else None
    case ACTIVE => Some(a)
  }

  function HandleFailedLogin(a: Account, now: Millis): Account {
    var n := a.failedLoginAttempts + 1;
    if n >= MAX_FAILED_ATTEMPTS then Account(LOCKED, n, Some(now + LOCKOUT)) else a.(failedLoginAttempts := n)
  }

  function Attempt(a: Account, l: Login): (Outcome, Account) {
    if !l.usable then
      match l.how
      case Password => (Unusable, HandleFailedLogin(a, l.recordedAt))
      case Pin => (Refused, a)
    else
      match CheckAccountStatus(a, l.checkedAt)
      case None => (Refused, a)
      case Some(b) =>
        if l.correct then (Accepted, b.(failedLoginAttempts := 0)) else (WrongCredential, HandleFailedLogin(b, l.recordedAt))
  }

  // ---------- the service ----------

  class AuthService {
    var status: Status
    var failedLoginAttempts: nat
    var lockedUntil: Option<Millis>

    ghost function User(): Account
      reads this
    {
      Account(status, failedLoginAttempts, lockedUntil)
    }

    constructor ()
      ensures User() == Account(ACTIVE, 0, None)
    {
      status, failedLoginAttempts, lockedUntil := ACTIVE, 0, None;
    }

    // An account that passes is active with attempts left; one that does not is inactive, or
    // locked with its time not up, and stays exactly so.
    method CheckStatus(now: Millis) returns (passed: bool)
      modifies this
      ensures passed == CheckAccountStatus(old(User()), now).Some?
      ensures User() == if passed then CheckAccountStatus(old(User()), now).value else old(User())
      ensures passed ==> status == ACTIVE && (Sound(old(User()), now) ==> failedLoginAttempts < MAX_FAILED_ATTEMPTS)
      ensures !passed && Sound(old(User()), now) ==> status == INACTIVE || (status == LOCKED && now <= lockedUntil.value <= now + LOCKOUT)
      ensures Sound(old(User()), now) ==> Sound(User(), now)
    {
      if status == INACTIVE {
        return false;
      }
      if status == LOCKED {
        if lockedUntil.Some? && now > lockedUntil.value {
          status, failedLoginAttempts, lockedUntil := ACTIVE, 0, None;
        } else {
          return false;
        }
      }
      passed := true;
    }

    // The account is locked for the full time exactly when no attempt is left; nothing shortens
    // a lock.
    method RecordFailure(now: Millis)
      modifies this
      ensures User() == HandleFailedLogin(old(User()), now)
      ensures Sound(old(User()), now) ==> Sound(User(), now)
      ensures old(status) == ACTIVE ==> (status == LOCKED <==> old(failedLoginAttempts) >= MAX_FAILED_ATTEMPTS - 1)
      ensures old(status) == ACTIVE && status == LOCKED ==> forall t :: now <= t <= now + LOCKOUT ==> CheckAccountStatus(User(), t).None?
      ensures Sound(old(User()), now) && old(status) == LOCKED ==>
                forall t :: CheckAccountStatus(old(User()), t).None? ==> CheckAccountStatus(User(), t).None?
    {
      var n := failedLoginAttempts + 1;
      if n >= MAX_FAILED_ATTEMPTS {
        failedLoginAttempts, status, lockedUntil := n, LOCKED, Some(now + LOCKOUT);
      } else {
        failedLoginAttempts := n;
      }
    }

    method ResetFailedAttempts()
      modifies this
      ensures User() == old(User()).(failedLoginAttempts := 0)
    {
      failedLoginAttempts := 0;
    }

    // Whether the account lets a login go on at this time.
    ghost predicate Open(now: Millis)
      reads this
    {
      status == ACTIVE || (status == LOCKED && lockedUntil.Some? && now > lockedUntil.value)
    }

    // A login is accepted exactly when the account has a password, is open, and the password is
    // the right one; only a wrong one, or none to compare with, is counted against the account.
    method LoginWithPassword(hasPassword: bool, correct: bool, checkedAt: Millis, recordedAt: Millis) returns (r: Outcome)
      modifies this
      ensures r == Unusable <==> !hasPassword
      ensures r == Accepted <==> hasPassword && correct && old(Open(checkedAt))
      ensures r == WrongCredential <==> hasPassword && !correct && old(Open(checkedAt))
      ensures r == Refused <==> hasPassword && !old(Open(checkedAt))
      ensures r == Accepted ==> status == ACTIVE && failedLoginAttempts == 0
      ensures r == Refused ==> User() == old(User())
      ensures r == WrongCredential || r == Unusable ==>
                failedLoginAttempts == (if old(status) == LOCKED && r == WrongCredential then 0 else old(failedLoginAttempts)) + 1
      ensures r == WrongCredential || r == Unusable ==>
                if failedLoginAttempts >= 5 then status == LOCKED && lockedUntil == Some(recordedAt + 1_800_000)
                else status == if r == WrongCredential then ACTIVE else old(status)
      ensures (r, User()) == Attempt(old(User()), Login(Password, hasPassword, correct, checkedAt, recordedAt))
    {
      if !hasPassword {
        RecordFailure(recordedAt);
        return Unusable;
      }
      var passed := CheckStatus(checkedAt);
      if !passed {
        return Refused;
      }
      if !correct {
        RecordFailure(recordedAt);
        return WrongCredential;
      }
      ResetFailedAttempts();
      r := Accepted;
    }

    // As for passwords, but for workers only, and nothing is counted without a PIN to compare.
    method LoginWithPin(isWorker: bool, hasPin: bool, correct: bool, checkedAt: Millis, recordedAt: Millis) returns (r: Outcome)
      modifies this
      ensures r == Accepted <==> isWorker && hasPin && correct && old(Open(checkedAt))
      ensures r == WrongCredential <==> isWorker && hasPin && !correct && old(Open(checkedAt))
      ensures r == Refused <==> !isWorker || !hasPin || !old(Open(checkedAt))
      ensures r == Accepted ==> status == ACTIVE && failedLoginAttempts == 0
      ensures r == Refused ==> User() == old(User())
      ensures r == WrongCredential ==> failedLoginAttempts == (if old(status) == LOCKED then 0 else old(failedLoginAttempts)) + 1
      ensures r == WrongCredential ==>
                if failedLoginAttempts >= 5 then status == LOCKED && lockedUntil == Some(recordedAt + 1_800_000) else status == ACTIVE
      ensures (r, User()) == Attempt(old(User()), Login(Pin, isWorker && hasPin, correct, checkedAt, recordedAt))
    {
      if !isWorker {
        return Refused;
      }
      if !hasPin {
        return Refused;
      }
      var passed := CheckStatus(checkedAt);
      if !passed {
        return Refused;
      }
      if !correct {
        RecordFailure(recordedAt);
        return WrongCredential;
      }
      ResetFailedAttempts();
      r := Accepted;
    }
  }

  // ---------- runs ----------

  // What holds of the account at any instant from `now` on, until the next login.
  ghost predicate Sound(a: Account, now: Millis) {
    && (a.status == ACTIVE ==> a.failedLoginAttempts < MAX_FAILED_ATTEMPTS)
    && (a.status == LOCKED ==> a.lockedUntil.Some? && a.lockedUntil.value <= now + LOCKOUT)
  }

  // Every login, successful or not, keeps it.
  lemma {:induction false} SoundOverRuns(a: Account, ls: seq<Login>, now: Millis)
    requires Sound(a, now) && Sequential(ls) && (ls != [] ==> now <= ls[0].checkedAt)
    ensures Sound(AccountAfter(a, ls), if ls == [] then now else ls[|ls|-1].recordedAt)
    decreases |ls|
  {
    if ls != [] {
      SoundOverRuns(Attempt(a, ls[0]).1, ls[1..], ls[0].recordedAt);
    }
  }

  // Sequential logins: no clock reading is earlier than one before it.
  ghost predicate Sequential(ls: seq<Login>) {
    && (forall i :: 0 <= i < |ls| ==> ls[i].checkedAt <= ls[i].recordedAt)
    && (forall i, j :: 0 <= i < j < |ls| ==> ls[i].recordedAt <= ls[j].checkedAt)
  }

  function AccountAfter(a: Account, ls: seq<Login>): Account
    decreases |ls|
  {
    if ls == [] then a else AccountAfter(Attempt(a, ls[0]).1, ls[1..])
  }

  // Failures since the last accepted login or the last time a lock ran out, on an account
  // that starts out clean.
  function Streak(ls: seq<Login>): nat
    decreases |ls|
  {
    if ls == [] then 0
    else
      var front, a, l := Streak(ls[..|ls|-1]), AccountAfter(CLEAN, ls[..|ls|-1]), ls[|ls|-1];
      match Attempt(a, l).0
      case Accepted => 0
      case Refused => front
      case Unusable => front + 1
      case WrongCredential => if a.status == LOCKED then 1 else front + 1
  }

  const CLEAN: Account := Account(ACTIVE, 0, None)

  lemma {:induction false} AccountAfterLast(a: Account, ls: seq<Login>)
    requires ls != []
    ensures AccountAfter(a, ls) == Attempt(AccountAfter(a, ls[..|ls|-1]), ls[|ls|-1]).1
    decreases |ls|
  {
    if |ls| > 1 {
      AccountAfterLast(Attempt(a, ls[0]).1, ls[1..]);
      assert ls[1..][..|ls|-2] == ls[..|ls|-1][1..];
    }
  }

  // The counter is that streak, and the account is locked exactly from the fifth failure of
  // a streak until a login after the lock has run out.
  lemma {:induction false} LockedIffFiveInAStreak(ls: seq<Login>)
    ensures AccountAfter(CLEAN, ls).failedLoginAttempts == Streak(ls)
    ensures AccountAfter(CLEAN, ls).status == if Streak(ls) >= MAX_FAILED_ATTEMPTS then LOCKED else ACTIVE
    decreases |ls|
  {
    if ls != [] {
      LockedIffFiveInAStreak(ls[..|ls|-1]);
      AccountAfterLast(CLEAN, ls);
    }
  }

  // Failed logins with a credential comparison that may lie between `from` and `till`: the
  // comparison is made after the account is checked and before the failure is recorded.
  function FailedComparisons(a: Account, ls: seq<Login>, from: Millis, till: Millis): nat
    decreases |ls|
  {
    if ls == [] then 0
    else
      (if Attempt(a, ls[0]).0.WrongCredential? && from <= ls[0].recordedAt && ls[0].checkedAt <= till then 1 else 0)
      + FailedComparisons(Attempt(a, ls[0]).1, ls[1..], from, till)
  }

  ghost predicate NoSuccess(a: Account, ls: seq<Login>)
    decreases |ls|
  {
    ls == [] || (!Attempt(a, ls[0]).0.Accepted? && NoSuccess(Attempt(a, ls[0]).1, ls[1..]))
  }

  // How many more failed comparisons the lockout leaves room for between now and till.
  ghost function Budget(a: Account, now: Millis, till: Millis): nat {
    if till < now then 0
    else match a.status
      case INACTIVE => 5 * ((till - now) / LOCKOUT)
      case ACTIVE => (if a.failedLoginAttempts < 5 then 5 - a.failedLoginAttempts else 0) + 5 * ((till - now) / LOCKOUT)
      case LOCKED =>
        var start := if a.lockedUntil.None? || a.lockedUntil.value < now then now else a.lockedUntil.value;
        if till < start then 0 else 5 + 5 * ((till - start) / LOCKOUT)
  }

  lemma BudgetAfterFailure(a: Account, failedAt: Millis, now: Millis, till: Millis)
    requires a.status == ACTIVE && a.failedLoginAttempts < MAX_FAILED_ATTEMPTS && now <= failedAt <= till
    ensures 1 + Budget(HandleFailedLogin(a, failedAt), failedAt, till) <= Budget(a, now, till)
  {
  }

  lemma BudgetAfterUnlock(a: Account, unlockedAt: Millis, now: Millis, till: Millis)
    requires a.status == LOCKED && a.lockedUntil.Some? && a.lockedUntil.value < unlockedAt && now <= unlockedAt
    ensures Budget(Account(ACTIVE, 0, None), unlockedAt, till) <= Budget(a, now, till)
  {
  }

  // A fresh lock leaves five comparisons for every full period from now.
  lemma BudgetOfFreshLock(n: nat, at: Millis, till: Millis)
    ensures Budget(Account(LOCKED, n, Some(at + LOCKOUT)), at, till) == if till < at then 0 else 5 * ((till - at) / LOCKOUT)
  {
    if at + LOCKOUT <= till {
      assert (till - at) / LOCKOUT == (till - (at + LOCKOUT)) / LOCKOUT + 1;
    }
  }

  lemma BudgetAfterUnusable(a: Account, failedAt: Millis, now: Millis, till: Millis)
    requires Sound(a, now) && now <= failedAt
    ensures Budget(HandleFailedLogin(a, failedAt), failedAt, till) <= Budget(a, now, till)
  {
    BudgetWaits(a, now, failedAt, till);
    if a.failedLoginAttempts + 1 >= MAX_FAILED_ATTEMPTS {
      BudgetOfFreshLock(a.failedLoginAttempts + 1, failedAt, till);
      if a.status == LOCKED && failedAt + LOCKOUT <= till {
        PeriodsMonotone(till - (failedAt + LOCKOUT), till - if a.lockedUntil.value < failedAt then failedAt else a.lockedUntil.value);
      }
    }
  }

  // Whoever passes the check has a comparison left.
  lemma BudgetAtCheck(a: Account, now: Millis, till: Millis)
    requires a.status == ACTIVE && a.failedLoginAttempts < MAX_FAILED_ATTEMPTS && now <= till
    ensures Budget(a, now, till) >= 1
  {
  }

  lemma PeriodsMonotone(less: nat, more: nat)
    requires less <= more
    ensures less / LOCKOUT <= more / LOCKOUT
  {
  }

  lemma BudgetWaits(a: Account, now: Millis, later: Millis, till: Millis)
    requires now <= later
    ensures Budget(a, later, till) <= Budget(a, now, till)
  {
    if later <= till {
      PeriodsMonotone(till - later, till - now);
      if a.status == LOCKED && a.lockedUntil.Some? && now <= a.lockedUntil.value < later {
        PeriodsMonotone(till - later, till - a.lockedUntil.value);
      }
    }
  }

  lemma BudgetStep(a: Account, l: Login, now: Millis, till: Millis)
    requires Sound(a, now) && now <= l.checkedAt <= l.recordedAt
    requires !Attempt(a, l).0.Accepted?
    ensures Sound(Attempt(a, l).1, l.recordedAt)
    ensures (if Attempt(a, l).0.WrongCredential? && l.checkedAt <= till then 1 else 0)
            + Budget(Attempt(a, l).1, l.recordedAt, till) <= Budget(a, now, till)
  {
    BudgetWaits(a, now, l.recordedAt, till);
    if Attempt(a, l).0.Unusable? {
      BudgetAfterUnusable(a, l.recordedAt, now, till);
    } else if Attempt(a, l).0.WrongCredential? {
      var b := CheckAccountStatus(a, l.checkedAt).value;
      if a.status == LOCKED {
        BudgetAfterUnlock(a, l.checkedAt, now, till);
      } else {
        BudgetWaits(a, now, l.checkedAt, till);
      }
      if l.recordedAt <= till {
        BudgetAfterFailure(b, l.recordedAt, l.checkedAt, till);
      } else if l.checkedAt <= till {
        BudgetAtCheck(b, l.checkedAt, till);
      }
    }
  }

  lemma {:induction false} CountWithinBudget(a: Account, ls: seq<Login>, now: Millis, from: Millis, till: Millis)
    requires Sound(a, now) && Sequential(ls) && NoSuccess(a, ls)
    requires ls != [] ==> now <= ls[0].checkedAt
    ensures FailedComparisons(a, ls, from, till) <= Budget(a, now, till)
    decreases |ls|
  {
    if ls != [] {
      BudgetStep(a, ls[0], now, till);
      CountWithinBudget(Attempt(a, ls[0]).1, ls[1..], ls[0].recordedAt, from, till);
    }
  }

  // A failure recorded at or after `from` leaves a full round at most, itself included.
  lemma BudgetAcross(a: Account, l: Login, now: Millis, from: Millis, till: Millis)
    requires Sound(a, now) && now <= l.checkedAt <= l.recordedAt && from <= l.recordedAt && from <= till
    requires Attempt(a, l).0.WrongCredential?
    ensures 1 + Budget(Attempt(a, l).1, l.recordedAt, till) <= 5 * (1 + (till - from) / LOCKOUT)
  {
    var b := CheckAccountStatus(a, l.checkedAt).value;
    if l.recordedAt <= till {
      BudgetAfterFailure(b, l.recordedAt, l.recordedAt, till);
      BudgetBound(b, l.recordedAt, from, till);
    }
  }

  // However the logins are spaced, with none succeeding, a span of time holds at most five
  // failed credential comparisons plus five for every full lockout period it contains.
  lemma {:induction false} GuessBound(a: Account, ls: seq<Login>, now: Millis, from: Millis, till: Millis)
    requires Sound(a, now) && Sequential(ls) && NoSuccess(a, ls) && from <= till
    requires ls != [] ==> now <= ls[0].checkedAt
    ensures FailedComparisons(a, ls, from, till) <= 5 * (1 + (till - from) / 1_800_000)
    decreases |ls|
  {
    if ls != [] {
      var l, after := ls[0], Attempt(a, ls[0]).1;
      BudgetStep(a, l, now, till);
      if l.recordedAt < from {
        GuessBound(after, ls[1..], l.recordedAt, from, till);
      } else {
        CountWithinBudget(after, ls[1..], l.recordedAt, from, till);
        if Attempt(a, l).0.WrongCredential? {
          BudgetAcross(a, l, now, from, till);
        } else {
          BudgetBound(after, l.recordedAt, from, till);
        }
      }
    }
  }

  lemma BudgetBound(a: Account, now: Millis, from: Millis, till: Millis)
    requires from <= now && from <= till
    ensures Budget(a, now, till) <= 5 * (1 + (till - from) / LOCKOUT)
  {
  }

  // ---------- deactivated accounts ----------

  // Password logins to an account without a password.
  function Unusables(ls: seq<Login>): nat
    decreases |ls|
  {
    if ls == [] then 0 else (if ls[0].how == Password && !ls[0].usable then 1 else 0) + Unusables(ls[1..])
  }

  // Logins leave an inactive account inactive exactly while the password logins that find no
  // password have not brought its counter to five.
  lemma {:induction false} InactiveStaysIff(a: Account, ls: seq<Login>)
    requires a.status == INACTIVE
    ensures AccountAfter(a, ls).status == INACTIVE <==> Unusables(ls) == 0 || a.failedLoginAttempts + Unusables(ls) < MAX_FAILED_ATTEMPTS
    decreases |ls|
  {
    if ls != [] {
      var b := Attempt(a, ls[0]).1;
      if b.status == INACTIVE {
        InactiveStaysIff(b, ls[1..]);
      } else {
        NeverInactiveAgain(b, ls[1..]);
      }
    }
  }

  lemma {:induction false} NeverInactiveAgain(a: Account, ls: seq<Login>)
    requires a.status != INACTIVE
    ensures AccountAfter(a, ls).status != INACTIVE
    decreases |ls|
  {
    if ls != [] {
      NeverInactiveAgain(Attempt(a, ls[0]).1, ls[1..]);
    }
  }

  lemma {:induction false} UnusableRun(a: Account, ls: seq<Login>, at: Millis)
    requires a.status == INACTIVE && a.failedLoginAttempts + |ls| == MAX_FAILED_ATTEMPTS && ls != []
    requires forall i :: 0 <= i < |ls| ==> ls[i] == Login(Password, false, false, at, at)
    ensures AccountAfter(a, ls) == Account(LOCKED, MAX_FAILED_ATTEMPTS, Some(at + LOCKOUT))
    decreases |ls|
  {
    var b := Attempt(a, ls[0]).1;
    if |ls| == 1 {
      assert ls[1..] == [];
    } else {
      UnusableRun(b, ls[1..], at);
    }
  }

  // After that the lock runs out like any other: a worker's PIN then reactivates the account.
  lemma InactiveMayReturn(at: Millis)
    ensures var five := seq(5, _ => Login(Password, false, false, at, at));
            var pin := Login(Pin, true, true, at + LOCKOUT + 1, at + LOCKOUT + 1);
            Attempt(AccountAfter(Account(INACTIVE, 0, None), five), pin) == (Accepted, Account(ACTIVE, 0, None))
  {
    UnusableRun(Account(INACTIVE, 0, None), seq(5, _ => Login(Password, false, false, at, at)), at);
  }
}
