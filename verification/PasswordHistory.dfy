/**
 UserService.changePassword on an account with a staff profile. bcrypt.compare is equality,
 so a hash is the password itself.
 */
module PasswordHistory {
  import opened Common

  type Password = string

  type UserId = string
  type SessionId = string

  datatype Account = Account(current: Option<Password>, history: seq<Password>)

  datatype Session = Session(user: UserId, revokedAt: Option<Millis>)

  // The user's sessions but the one in use end now, unless they had ended before; an empty id
  // names none.
  function EndOthers(sessions: map<SessionId, Session>, user: UserId, kept: Option<SessionId>, now: Millis): map<SessionId, Session> {
    map id | id in sessions ::
      if sessions[id].user == user && sessions[id].revokedAt.None? && !(kept.Some? && kept.value != "" && kept.value == id)
      then sessions[id].(revokedAt := Some(now)) else sessions[id]
  }

  datatype Change = Changed | NoPassword | WrongPassword | Weak | SameAsCurrent | UsedBefore

  predicate HasIn(s: string, lo: char, hi: char) {
    exists i :: 0 <= i < |s| && lo <= s[i] <= hi
  }

  predicate IsSpecial(c: char) {
    c in {'!', '@', '#', '$', '%', '^', '&', '*', '(', ')', '_', '+', '-', '=', '[',
          ']', '{', '}', ';', '\'', ':', '\"', '\\', '|', ',', '.', '<', '>', '/', '?'}
  }

  predicate HasSpecial(s: string) {
    exists i :: 0 <= i < |s| && IsSpecial(s[i])
  }

  // validatePasswordStrength
  predicate Strong(s: string) {
    |s| >= 8 && HasIn(s, 'A', 'Z') && HasIn(s, 'a', 'z') && HasIn(s, '0', '9') && HasSpecial(s)
  }

  // The special characters are the ASCII punctuation but for the backquote and the tilde.
  lemma SpecialMeans(c: char)
    ensures IsSpecial(c) <==> '!' <= c <= '/' || ':' <= c <= '@' || '[' <= c <= '_' || '{' <= c <= '}'
  {
  }

  ghost predicate Contains(s: string, kind: char -> bool) {
    exists c :: c in s && kind(c)
  }

  lemma HasInMeans(s: string, lo: char, hi: char)
    ensures HasIn(s, lo, hi) <==> Contains(s, c => lo <= c <= hi)
  {
    if i :| 0 <= i < |s| && lo <= s[i] <= hi {
      assert s[i] in s;
    }
  }

  lemma HasSpecialMeans(s: string)
    ensures HasSpecial(s) <==> Contains(s, c => '!' <= c <= '/' || ':' <= c <= '@' || '[' <= c <= '_' || '{' <= c <= '}')
  {
    forall c { SpecialMeans(c); }
    if i :| 0 <= i < |s| && IsSpecial(s[i]) {
      assert s[i] in s;
    }
  }

  // Which passwords are strong enough: eight characters, with one of each of four kinds.
  lemma StrongMeans(s: string)
    ensures Strong(s) <==>
              && |s| >= 8
              && Contains(s, c => 'A' <= c <= 'Z') && Contains(s, c => 'a' <= c <= 'z') && Contains(s, c => '0' <= c <= '9')
              && Contains(s, c => '!' <= c <= '/' || ':' <= c <= '@' || '[' <= c <= '_' || '{' <= c <= '}')
  {
    HasInMeans(s, 'A', 'Z');
    HasInMeans(s, 'a', 'z');
    HasInMeans(s, '0', '9');
    HasSpecialMeans(s);
  }

  function Newest<T>(s: seq<T>, n: nat): seq<T> {
    if |s| <= n then s else s[..n]
  }

  class UserService {
    var passwordHash: Option<Password>
    var passwordHistory: seq<Password>
    var sessions: map<SessionId, Session>
    const id: UserId

    ghost function User(): Account
      reads this
    {
      Account(passwordHash, passwordHistory)
    }

    constructor (id: UserId, passwordHash: Option<Password>, passwordHistory: seq<Password>, sessions: map<SessionId, Session>)
      ensures User() == Account(passwordHash, passwordHistory) && this.sessions == sessions && this.id == id
    {
      this.id, this.passwordHash, this.passwordHistory, this.sessions := id, passwordHash, passwordHistory, sessions;
    }

    // The checks of changePassword run in this order; only a change that passes all writes, and
    // it leaves the user no live session but the current one.
    method ChangePassword(currentPassword: Password, newPassword: Password, currentSession: Option<SessionId>, now: Millis) returns (r: Change)
      modifies this
      ensures r == Verdict(old(User()), currentPassword, newPassword)
      ensures r == NoPassword <==> old(passwordHash).None?
      ensures r == WrongPassword <==> old(passwordHash).Some? && currentPassword != old(passwordHash).value
      ensures r == Weak <==> old(passwordHash) == Some(currentPassword) && !Strong(newPassword)
      ensures r == UsedBefore <==>
                && old(passwordHash) == Some(currentPassword) && Strong(newPassword)
                && newPassword != currentPassword && newPassword in old(passwordHistory)
      ensures r == SameAsCurrent <==> old(passwordHash) == Some(currentPassword) && newPassword == currentPassword && Strong(newPassword)
      ensures r == Changed <==>
                && old(passwordHash) == Some(currentPassword) && newPassword != currentPassword && newPassword !in old(passwordHistory)
                && Strong(newPassword)
      ensures r == Changed ==> passwordHash == Some(newPassword)
      ensures User() == if r.Changed? then After(old(User()), newPassword) else old(User())
      ensures r.Changed? ==> forall s :: s in sessions && sessions[s].user == id && sessions[s].revokedAt.None? ==> Some(s) == currentSession
      ensures r.Changed? ==> sessions.Keys == old(sessions.Keys)
      ensures forall s :: s in old(sessions) && (!r.Changed? || old(sessions)[s].user != id || old(sessions)[s].revokedAt.Some?) ==>
                s in sessions && sessions[s] == old(sessions)[s]
      ensures r.Changed? ==> forall s :: s in old(sessions) && old(sessions)[s].user == id && old(sessions)[s].revokedAt.None? ==>
                sessions[s] == if Some(s) == currentSession && s != "" then old(sessions)[s] else Session(id, Some(now))
      ensures sessions == if r.Changed? then EndOthers(old(sessions), id, currentSession, now) else old(sessions)
    {
      if passwordHash.None? {
        return NoPassword;
      }
      if currentPassword != passwordHash.value {
        return WrongPassword;
      }
      if !Strong(newPassword) {
        return Weak;
      }
      if newPassword == passwordHash.value {
        return SameAsCurrent;
      }
      for i := 0 to |passwordHistory|
        invariant newPassword !in passwordHistory[..i]
      {
        if newPassword == passwordHistory[i] {
          return UsedBefore;
        }
        assert passwordHistory[..i+1] == passwordHistory[..i] + [passwordHistory[i]];
      }
      assert passwordHistory[..|passwordHistory|] == passwordHistory;
      passwordHistory := Newest([passwordHash.value] + passwordHistory, 3);
      passwordHash := Some(newPassword);
      sessions := EndOthers(sessions, id, currentSession, now);
      r := Changed;
    }
  }

  function Verdict(a: Account, currentPassword: Password, newPassword: Password): Change {
    if a.current.None? then NoPassword
    else if currentPassword != a.current.value then WrongPassword
    else if !Strong(newPassword) then Weak
    else if newPassword == a.current.value then SameAsCurrent
    else if newPassword in a.history then UsedBefore
    else Changed
  }

  function After(a: Account, newPassword: Password): Account
    requires a.current.Some?
  {
    Account(Some(newPassword), Newest([a.current.value] + a.history, 3))
  }

  // ---------- runs of successful changes ----------

  // ps is the sequence of passwords the account has had since it was first set, oldest
  // first; each later one passed the checks of its change.
  ghost predicate Lifetime(ps: seq<Password>)
    decreases |ps|
  {
    && ps != []
    && (|ps| > 1 ==>
          && Lifetime(ps[..|ps|-1])
          && Verdict(AccountOf(ps[..|ps|-1]), ps[|ps|-2], ps[|ps|-1]).Changed?)
  }

  function AccountOf(ps: seq<Password>): (a: Account)
    requires ps != []
    ensures a.current.Some?
    decreases |ps|
  {
    if |ps| == 1 then Account(Some(ps[0]), []) else After(AccountOf(ps[..|ps|-1]), ps[|ps|-1])
  }

  // The i-th newest former password, 0 being the one just replaced.
  function Former(ps: seq<Password>, i: nat): Password
    requires i + 1 < |ps|
  {
    ps[|ps| - 2 - i]
  }

  // The stored history is exactly the newest min(n, 3) former passwords, newest first.
  lemma {:induction false} HistoryIsNewestThree(ps: seq<Password>)
    requires ps != []
    ensures AccountOf(ps).current == Some(ps[|ps|-1])
    ensures |AccountOf(ps).history| == if |ps| - 1 < 3 then |ps| - 1 else 3
    ensures forall i :: 0 <= i < |AccountOf(ps).history| ==> AccountOf(ps).history[i] == Former(ps, i)
    decreases |ps|
  {
    if |ps| > 1 {
      HistoryIsNewestThree(ps[..|ps|-1]);
    }
  }

  lemma {:induction false} LifetimePrefix(ps: seq<Password>, n: nat)
    requires Lifetime(ps) && 1 <= n <= |ps|
    ensures Lifetime(ps[..n])
    decreases |ps|
  {
    if n == |ps| {
      assert ps[..n] == ps;
    } else {
      LifetimePrefix(ps[..|ps|-1], n);
      assert ps[..|ps|-1][..n] == ps[..n];
    }
  }

  ghost predicate Known(a: Account, p: Password) {
    a.current == Some(p) || p in a.history
  }

  lemma LastWasNew(ps: seq<Password>, before: seq<Password>)
    requires Lifetime(ps) && |ps| > 1 && before == ps[..|ps|-1]
    ensures !Known(AccountOf(before), ps[|ps|-1])
  {
  }

  lemma {:induction false} RecentIsKnown(ps: seq<Password>, i: nat)
    requires i < |ps| <= i + 4
    ensures Known(AccountOf(ps), ps[i])
  {
    HistoryIsNewestThree(ps);
    if i < |ps| - 1 {
      assert AccountOf(ps).history[|ps| - 2 - i] == Former(ps, |ps| - 2 - i);
    }
  }

  lemma {:induction false} LastDiffers(ps: seq<Password>, i: nat)
    requires Lifetime(ps) && i < |ps| - 1 <= i + 4
    ensures ps[i] != ps[|ps|-1]
  {
    var before := ps[..|ps|-1];
    LastWasNew(ps, before);
    RecentIsKnown(before, i);
  }

  // Any five consecutive passwords are pairwise distinct.
  lemma {:induction false} FiveInARowDiffer(ps: seq<Password>, i: nat, j: nat)
    requires Lifetime(ps) && i < j < |ps| && j - i <= 4
    ensures ps[i] != ps[j]
  {
    LifetimePrefix(ps, j + 1);
    LastDiffers(ps[..j+1], i);
  }

  // Five is the most that can be promised: the sixth may be the first again.
  lemma {:induction false} SixthMayRepeat(p0: Password, p1: Password, p2: Password, p3: Password, p4: Password)
    requires Strong(p0) && Strong(p1) && Strong(p2) && Strong(p3) && Strong(p4)
    requires p0 != p1 && p0 != p2 && p0 != p3 && p0 != p4 && p1 != p2 && p1 != p3 && p1 != p4
    requires p2 != p3 && p2 != p4 && p3 != p4
    ensures Lifetime([p0, p1, p2, p3, p4, p0])
  {
    var ps := [p0, p1, p2, p3, p4, p0];
    HistoryIsNewestThree(ps[..5]);
    HistoryIsNewestThree(ps[..4]);
    HistoryIsNewestThree(ps[..3]);
    HistoryIsNewestThree(ps[..2]);
    HistoryIsNewestThree(ps[..1]);
    assert ps[..5][..4] == ps[..4] && ps[..4][..3] == ps[..3] && ps[..3][..2] == ps[..2] && ps[..2][..1] == ps[..1];
    assert Lifetime(ps[..1]);
    assert Lifetime(ps[..2]);
    assert Lifetime(ps[..3]);
    assert Lifetime(ps[..4]);
    assert Lifetime(ps[..5]);
  }
}
