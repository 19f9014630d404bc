/**
 SessionService and the refresh path of TokenService: one operation at a time, every
 generated token new. bcrypt.compare is equality, so a session carries its token.
 */
module Sessions {
  import opened Common

  type UserId = string
  type Token = string
  type SessionId = string

  const REFRESH_TTL: Millis := 7 * 24 * 60 * 60 * 1000

  datatype Session = Session(user: UserId, token: Token, expiresAt: Millis, revokedAt: Option<Millis>)

  // The session table, and what the properties below speak of: who logged in, login by
  // login; the login each session's chain of rotations began with; the tokens generated;
  // the tokens accepted.
  datatype State = State(
    sessions: map<SessionId, Session>,
    logins: seq<UserId>,
    origin: map<SessionId, nat>,
    issued: set<Token>,
    accepted: set<Token>)

  predicate Unrevoked(s: State, id: SessionId) {
    id in s.sessions && s.sessions[id].revokedAt.None?
  }

  // What findByRefreshToken accepts at `now`.
  predicate Matches(s: State, id: SessionId, token: Token, now: Millis) {
    Unrevoked(s, id) && s.sessions[id].expiresAt > now && s.sessions[id].token == token
  }

  datatype Event =
    | Login(id: SessionId, user: UserId, token: Token, now: Millis)
    | Refresh(id: SessionId, presented: Token, newId: SessionId, token: Token, now: Millis)
    | Revoke(gone: set<SessionId>, now: Millis)

  ghost predicate Enabled(s: State, e: Event) {
    match e
    case Login(id, _, token, _) => id !in s.sessions && token !in s.issued
    case Refresh(id, presented, newId, token, now) => Matches(s, id, presented, now) && newId !in s.sessions && token !in s.issued
    case Revoke(gone, _) => gone <= s.sessions.Keys
  }

  function Create(s: State, id: SessionId, user: UserId, token: Token, now: Millis, origin: nat): State {
    s.(sessions := s.sessions[id := Session(user, token, now + REFRESH_TTL, None)],
       origin := s.origin[id := origin],
       issued := s.issued + {token})
  }

  function RevokeAll(s: State, gone: set<SessionId>, now: Millis): State {
    s.(sessions := map id | id in s.sessions ::
         if id in gone then s.sessions[id].(revokedAt := Some(now)) else s.sessions[id])
  }

  function LogIn(s: State, id: SessionId, user: UserId, token: Token, now: Millis): State {
    Create(s.(logins := s.logins + [user]), id, user, token, now, |s.logins|)
  }

  // rotateRefreshToken, on behalf of a presented token.
  function Rotate(s: State, id: SessionId, newId: SessionId, token: Token, now: Millis): State
    requires id in s.sessions
  {
    var chain := if id in s.origin then s.origin[id] else 0;
    var t := Create(RevokeAll(s, {id}, now), newId, s.sessions[id].user, token, now, chain);
    t.(accepted := s.accepted + {s.sessions[id].token})
  }

  ghost function Apply(s: State, e: Event): State
    requires Enabled(s, e)
  {
    match e
    case Login(id, user, token, now) => LogIn(s, id, user, token, now)
    case Refresh(id, presented, newId, token, now) => Rotate(s, id, newId, token, now)
    case Revoke(gone, now) => RevokeAll(s, gone, now)
  }

  // ---------- what every operation keeps ----------

  ghost predicate ChainsRooted(s: State) {
    && s.origin.Keys == s.sessions.Keys
    && forall id :: id in s.sessions ==> s.origin[id] < |s.logins| && s.logins[s.origin[id]] == s.sessions[id].user
  }

  ghost predicate TokensUnique(s: State) {
    && (forall id :: id in s.sessions ==> s.sessions[id].token in s.issued)
    && (forall i, j :: i in s.sessions && j in s.sessions && s.sessions[i].token == s.sessions[j].token ==> i == j)
  }

  ghost predicate OneUnrevokedPerChain(s: State) {
    && s.origin.Keys == s.sessions.Keys
    && forall i, j :: Unrevoked(s, i) && Unrevoked(s, j) && s.origin[i] == s.origin[j] ==> i == j
  }

  ghost predicate AcceptedAreSpent(s: State) {
    && s.accepted <= s.issued
    && forall id :: Unrevoked(s, id) ==> s.sessions[id].token !in s.accepted
  }

  ghost predicate Consistent(s: State) {
    ChainsRooted(s) && TokensUnique(s) && OneUnrevokedPerChain(s) && AcceptedAreSpent(s)
  }

  lemma CreateKeepsTokens(s: State, id: SessionId, user: UserId, token: Token, now: Millis, origin: nat)
    requires TokensUnique(s) && id !in s.sessions && token !in s.issued
    ensures TokensUnique(Create(s, id, user, token, now, origin))
  {
    var t := Create(s, id, user, token, now, origin);
    forall i, j | i in t.sessions && j in t.sessions && t.sessions[i].token == t.sessions[j].token ensures i == j {
      assert i != id ==> i in s.sessions && s.sessions[i].token in s.issued;
      assert j != id ==> j in s.sessions && s.sessions[j].token in s.issued;
    }
  }

  lemma CreateKeepsChains(s: State, id: SessionId, user: UserId, token: Token, now: Millis, origin: nat)
    requires OneUnrevokedPerChain(s) && id !in s.sessions
    requires forall i :: Unrevoked(s, i) ==> s.origin[i] != origin
    ensures OneUnrevokedPerChain(Create(s, id, user, token, now, origin))
  {
    var t := Create(s, id, user, token, now, origin);
    forall i, j | Unrevoked(t, i) && Unrevoked(t, j) && t.origin[i] == t.origin[j] ensures i == j {
      assert i != id ==> Unrevoked(s, i);
      assert j != id ==> Unrevoked(s, j);
    }
  }

  lemma CreateKeepsSpent(s: State, id: SessionId, user: UserId, token: Token, now: Millis, origin: nat)
    requires AcceptedAreSpent(s) && id !in s.sessions && token !in s.issued
    ensures AcceptedAreSpent(Create(s, id, user, token, now, origin))
  {
    var t := Create(s, id, user, token, now, origin);
    forall i | Unrevoked(t, i) ensures t.sessions[i].token !in t.accepted {
      assert i != id ==> Unrevoked(s, i);
    }
  }

  lemma CreateConsistent(s: State, id: SessionId, user: UserId, token: Token, now: Millis, origin: nat)
    requires Consistent(s) && id !in s.sessions && token !in s.issued
    requires origin < |s.logins| && s.logins[origin] == user
    requires forall i :: Unrevoked(s, i) ==> s.origin[i] != origin
    ensures Consistent(Create(s, id, user, token, now, origin))
  {
    CreateKeepsTokens(s, id, user, token, now, origin);
    CreateKeepsChains(s, id, user, token, now, origin);
    CreateKeepsSpent(s, id, user, token, now, origin);
  }

  lemma RevokedOnly(s: State, gone: set<SessionId>, now: Millis)
    ensures var t := RevokeAll(s, gone, now);
            (forall id :: Unrevoked(t, id) <==> Unrevoked(s, id) && id !in gone) &&
            t.sessions.Keys == s.sessions.Keys &&
            forall id :: id in s.sessions ==> t.sessions[id].token == s.sessions[id].token && t.sessions[id].user == s.sessions[id].user
  {
  }

  lemma RevokeConsistent(s: State, gone: set<SessionId>, now: Millis)
    requires Consistent(s)
    ensures Consistent(RevokeAll(s, gone, now))
    ensures forall id :: Unrevoked(RevokeAll(s, gone, now), id) <==> Unrevoked(s, id) && id !in gone
  {
    RevokedOnly(s, gone, now);
    var t := RevokeAll(s, gone, now);
    assert TokensUnique(t) by {
      forall i, j | i in t.sessions && j in t.sessions && t.sessions[i].token == t.sessions[j].token ensures i == j {
        assert s.sessions[i].token == s.sessions[j].token;
      }
    }
    assert OneUnrevokedPerChain(t);
    assert AcceptedAreSpent(t);
  }

  lemma LogInConsistent(s: State, id: SessionId, user: UserId, token: Token, now: Millis)
    requires Consistent(s) && id !in s.sessions && token !in s.issued
    ensures Consistent(LogIn(s, id, user, token, now))
  {
    var t := s.(logins := s.logins + [user]);
    forall i | Unrevoked(t, i) ensures t.origin[i] != |s.logins| { assert Unrevoked(s, i); }
    assert Consistent(t) by {
      forall i ensures Unrevoked(t, i) <==> Unrevoked(s, i) {}
    }
    CreateConsistent(t, id, user, token, now, |s.logins|);
  }

  // Accepting the token of a session that is no longer unrevoked.
  lemma AcceptConsistent(s: State, id: SessionId)
    requires Consistent(s) && id in s.sessions && !Unrevoked(s, id)
    ensures Consistent(s.(accepted := s.accepted + {s.sessions[id].token}))
  {
    var t := s.(accepted := s.accepted + {s.sessions[id].token});
    forall i ensures Unrevoked(t, i) <==> Unrevoked(s, i) {}
    forall i | Unrevoked(t, i) ensures t.sessions[i].token !in t.accepted {
      assert Unrevoked(s, i);
    }
  }

  lemma RotateConsistent(s: State, id: SessionId, newId: SessionId, token: Token, now: Millis)
    requires Consistent(s) && Unrevoked(s, id) && newId !in s.sessions && token !in s.issued
    ensures Consistent(Rotate(s, id, newId, token, now))
  {
    var r := RevokeAll(s, {id}, now);
    RevokeConsistent(s, {id}, now);
    CreateConsistent(r, newId, s.sessions[id].user, token, now, s.origin[id]);
    var c := Create(r, newId, s.sessions[id].user, token, now, s.origin[id]);
    assert !Unrevoked(c, id) && c.sessions[id].token == s.sessions[id].token;
    AcceptConsistent(c, id);
  }

  lemma StepConsistent(s: State, e: Event)
    requires Consistent(s) && Enabled(s, e)
    ensures Consistent(Apply(s, e))
  {
    match e
    case Login(id, user, token, now) => LogInConsistent(s, id, user, token, now);
    case Revoke(gone, now) => RevokeConsistent(s, gone, now);
    case Refresh(id, presented, newId, token, now) => RotateConsistent(s, id, newId, token, now);
  }

  // ---------- runs ----------

  const EMPTY: State := State(map[], [], map[], {}, {})

  ghost predicate Run(r: seq<State>, es: seq<Event>) {
    && |r| == |es| + 1
    && r[0] == EMPTY
    && forall i :: 0 <= i < |es| ==> Enabled(r[i], es[i]) && r[i+1] == Apply(r[i], es[i])
  }

  lemma {:induction false} ConsistentOverRuns(r: seq<State>, es: seq<Event>, i: nat)
    requires Run(r, es) && i < |r|
    ensures Consistent(r[i])
  {
    if i > 0 {
      ConsistentOverRuns(r, es, i - 1);
      assert r[i-1+1] == Apply(r[i-1], es[i-1]);
      StepConsistent(r[i-1], es[i-1]);
    }
  }

  lemma {:induction false} AcceptedGrows(r: seq<State>, es: seq<Event>, i: nat, j: nat)
    requires Run(r, es) && i <= j < |r|
    ensures r[i].accepted <= r[j].accepted
    decreases j
  {
    if i < j {
      AcceptedGrows(r, es, i, j - 1);
      assert r[j-1+1] == Apply(r[j-1], es[j-1]);
    }
  }

  // A refresh token that was accepted once is never accepted again.
  lemma TokenAcceptedOnce(r: seq<State>, es: seq<Event>, i: nat, j: nat)
    requires Run(r, es) && i < j < |es| && es[i].Refresh? && es[j].Refresh?
    ensures es[i].presented != es[j].presented
  {
    assert es[i].presented in r[i+1].accepted;
    AcceptedGrows(r, es, i + 1, j);
    ConsistentOverRuns(r, es, j);
  }

  // Sessions are never removed, and only their revocation changes.
  lemma {:induction false} SessionPersists(r: seq<State>, es: seq<Event>, i: nat, j: nat, id: SessionId)
    requires Run(r, es) && i <= j < |r| && id in r[i].sessions
    ensures id in r[j].sessions && r[j].sessions[id] == r[i].sessions[id].(revokedAt := r[j].sessions[id].revokedAt)
    decreases j
  {
    if i < j {
      SessionPersists(r, es, i, j - 1, id);
      assert r[j-1+1] == Apply(r[j-1], es[j-1]);
    }
  }

  // The session an event creates, if it creates one.
  function Created(e: Event): Option<SessionId> {
    match e
    case Login(id, _, _, _) => Some(id)
    case Refresh(_, _, newId, _, _) => Some(newId)
    case Revoke(_, _) => None
  }

  // A token is accepted for the very session it was issued with, and only within seven days
  // of that.
  lemma TokenLifetime(r: seq<State>, es: seq<Event>, i: nat, j: nat)
    requires Run(r, es) && i < j < |es| && Created(es[i]).Some? && es[j].Refresh? && es[j].presented == es[i].token
    ensures Some(es[j].id) == Created(es[i]) && es[j].now < es[i].now + 604_800_000
  {
    var id := Created(es[i]).value;
    assert r[i+1] == Apply(r[i], es[i]) && id in r[i+1].sessions;
    SessionPersists(r, es, i + 1, j, id);
    ConsistentOverRuns(r, es, j);
    assert Matches(r[j], es[j].id, es[j].presented, es[j].now);
  }

  // Nothing in es[i..j] ends this session.
  ghost predicate LeftAlone(es: seq<Event>, i: nat, j: nat, id: SessionId)
    requires j <= |es|
  {
    forall m :: i <= m < j ==> !(es[m].Revoke? && id in es[m].gone) && !(es[m].Refresh? && es[m].id == id)
  }

  lemma {:induction false} UnrevokedUntil(r: seq<State>, es: seq<Event>, i: nat, j: nat, id: SessionId)
    requires Run(r, es) && i <= j < |r| && id in r[i].sessions && r[i].sessions[id].revokedAt.None?
    requires LeftAlone(es, i, j, id)
    ensures id in r[j].sessions && r[j].sessions[id] == r[i].sessions[id]
    decreases j
  {
    if i < j {
      UnrevokedUntil(r, es, i, j - 1, id);
      assert r[j-1+1] == Apply(r[j-1], es[j-1]);
    }
  }

  // And for those seven days it is accepted, unless the session has been ended or rotated.
  lemma TokenServesItsTime(r: seq<State>, es: seq<Event>, i: nat, j: nat, now: Millis)
    requires Run(r, es) && i < j < |r| && Created(es[i]).Some? && LeftAlone(es, i + 1, j, Created(es[i]).value)
    ensures Matches(r[j], Created(es[i]).value, es[i].token, now) <==> now < es[i].now + 604_800_000
  {
    var id := Created(es[i]).value;
    assert r[i+1] == Apply(r[i], es[i]) && id in r[i+1].sessions;
    UnrevokedUntil(r, es, i + 1, j, id);
  }

  ghost function LoginsOf(s: State, u: UserId): set<nat> {
    set n: nat | n < |s.logins| && s.logins[n] == u
  }

  ghost function UnrevokedOf(s: State, u: UserId): set<SessionId> {
    set id | id in s.sessions && Unrevoked(s, id) && s.sessions[id].user == u
  }

  lemma {:induction false} InjectionBound(s: State, ids: set<SessionId>, logins: set<nat>)
    requires OneUnrevokedPerChain(s)
    requires forall id :: id in ids ==> Unrevoked(s, id) && s.origin[id] in logins
    ensures |ids| <= |logins|
    decreases ids
  {
    if ids != {} {
      var id :| id in ids;
      forall other | other in ids - {id} ensures s.origin[other] in logins - {s.origin[id]} {
        assert Unrevoked(s, other) && Unrevoked(s, id);
      }
      InjectionBound(s, ids - {id}, logins - {s.origin[id]});
    }
  }

  // A user never has more usable sessions than they logged in times.
  lemma SessionsBoundedByLogins(r: seq<State>, es: seq<Event>, i: nat, u: UserId)
    requires Run(r, es) && i < |r|
    ensures |UnrevokedOf(r[i], u)| <= |LoginsOf(r[i], u)|
  {
    ConsistentOverRuns(r, es, i);
    InjectionBound(r[i], UnrevokedOf(r[i], u), LoginsOf(r[i], u));
  }

  // ---------- the service ----------

  datatype RefreshResult = Refreshed(id: SessionId) | InvalidToken | UserNotFound

  class SessionService {
    var sessions: map<SessionId, Session>
    ghost var logins: seq<UserId>
    ghost var origin: map<SessionId, nat>
    ghost var issued: set<Token>
    ghost var accepted: set<Token>

    ghost function Now(): State
      reads this
    {
      State(sessions, logins, origin, issued, accepted)
    }

    constructor ()
      ensures Now() == EMPTY
    {
      sessions, logins, origin, issued, accepted := map[], [], map[], {}, {};
    }

    // `id` and `token` are the generated values; `chain` is the login the session belongs to.
    method CreateSession(id: SessionId, user: UserId, token: Token, now: Millis, ghost chain: nat)
      modifies this`sessions, this`origin, this`issued
      ensures Now() == Create(old(Now()), id, user, token, now, chain)
    {
      sessions := sessions[id := Session(user, token, now + REFRESH_TTL, None)];
      origin := origin[id := chain];
      issued := issued + {token};
    }

    method CreateLoginSession(id: SessionId, user: UserId, token: Token, now: Millis)
      requires Consistent(Now()) && Enabled(Now(), Login(id, user, token, now))
      modifies this
      ensures Now() == Apply(old(Now()), Login(id, user, token, now))
      ensures sessions == old(sessions)[id := Session(user, token, now + 604_800_000, None)]
      ensures Consistent(Now())
    {
      LogInConsistent(Now(), id, user, token, now);
      logins := logins + [user];
      CreateSession(id, user, token, now, |logins| - 1);
    }

    method FindByRefreshToken(token: Token, now: Millis) returns (found: Option<SessionId>)
      ensures found.Some? ==> Matches(Now(), found.value, token, now)
      ensures found.Some? ==>
                && found.value in sessions && sessions[found.value].token == token
                && sessions[found.value].revokedAt.None? && now < sessions[found.value].expiresAt
      ensures found.None? ==>
                forall id :: id in sessions && sessions[id].token == token ==> sessions[id].revokedAt.Some? || sessions[id].expiresAt <= now
      ensures found.None? ==> forall id :: !Matches(Now(), id, token, now)
    {
      var rows := AnyOrder(set id | id in sessions && sessions[id].revokedAt.None? && sessions[id].expiresAt > now);
      for i := 0 to |rows|
        invariant forall id :: id in rows ==> id in sessions
        invariant forall h :: 0 <= h < i ==> rows[h] in rows && sessions[rows[h]].token != token
      {
        assert rows[i] in rows;
        if sessions[rows[i]].token == token {
          return Some(rows[i]);
        }
      }
      found := None;
      forall id ensures !Matches(Now(), id, token, now) {
        if id in rows { var h :| 0 <= h < |rows| && rows[h] == id; }
      }
      forall id | id in sessions && sessions[id].token == token ensures sessions[id].revokedAt.Some? || sessions[id].expiresAt <= now {
        assert !Matches(Now(), id, token, now);
      }
    }

    method RevokeSession(id: SessionId, now: Millis) returns (found: bool)
      modifies this`sessions
      ensures found == (id in old(sessions))
      ensures Now() == RevokeAll(old(Now()), {id}, now)
      ensures sessions == if found then old(sessions)[id := old(sessions)[id].(revokedAt := Some(now))] else old(sessions)
    {
      found := id in sessions;
      if found {
        sessions := sessions[id := sessions[id].(revokedAt := Some(now))];
      }
      assert sessions == RevokeAll(old(Now()), {id}, now).sessions;
    }

    method RevokeAllUserSessions(user: UserId, except: Option<SessionId>, now: Millis)
      modifies this`sessions
      ensures sessions.Keys == old(sessions.Keys)
      ensures forall id :: id in sessions ==>
                sessions[id] == if old(sessions)[id].user == user && old(sessions)[id].revokedAt.None? && Some(id) != except
                                then old(sessions)[id].(revokedAt := Some(now)) else old(sessions)[id]
      ensures Now() == RevokeAll(old(Now()), UnrevokedOf(old(Now()), user) - (if except.Some? then {except.value} else {}), now)
    {
      sessions := map id | id in sessions ::
        if sessions[id].revokedAt.None? && sessions[id].user == user && Some(id) != except
        then sessions[id].(revokedAt := Some(now)) else sessions[id];
      assert forall id :: id in UnrevokedOf(old(Now()), user) - (if except.Some? then {except.value} else {}) <==>
                          id in old(sessions) && old(sessions)[id].revokedAt.None? && old(sessions)[id].user == user && Some(id) != except;
    }

    // refreshAccessToken: find the session, check its user, rotate. `newId` and `newToken`
    // are the generated values, `users` the users in the database.
    method RefreshAccessToken(presented: Token, users: set<UserId>, newId: SessionId, newToken: Token, now: Millis)
      returns (r: RefreshResult)
      requires Consistent(Now()) && newId !in sessions && newToken !in issued
      modifies this
      ensures Consistent(Now())
      ensures r.InvalidToken? <==> forall id :: !Matches(old(Now()), id, presented, now)
      ensures !r.Refreshed? ==> Now() == old(Now())
      ensures r.Refreshed? ==>
                Enabled(old(Now()), Refresh(r.id, presented, newId, newToken, now)) &&
                old(sessions)[r.id].user in users &&
                Now() == Apply(old(Now()), Refresh(r.id, presented, newId, newToken, now))
      ensures r.Refreshed? ==> presented !in old(accepted) && presented in accepted
      ensures r.Refreshed? ==>
                && r.id in old(sessions)
                && sessions == old(sessions)[r.id := old(sessions)[r.id].(revokedAt := Some(now))]
                                         [newId := Session(old(sessions)[r.id].user, newToken, now + 604_800_000, None)]
      ensures forall id :: Matches(old(Now()), id, presented, now) ==>
                (if old(sessions)[id].user in users then r == Refreshed(id) else r == UserNotFound)
    {
      var found := FindByRefreshToken(presented, now);
      if found.None? {
        return InvalidToken;
      }
      var id := found.value;
      var user := sessions[id].user;
      if user !in users {
        return UserNotFound;
      }
      RotateConsistent(Now(), id, newId, newToken, now);
      ghost var chain := origin[id];
      var _ := RevokeSession(id, now);
      CreateSession(newId, user, newToken, now, chain);
      accepted := accepted + {presented};
      r := Refreshed(id);
    }
  }
}
