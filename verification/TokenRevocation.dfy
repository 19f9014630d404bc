/**
 TokenService.revokeToken and validateAccessToken, with Redis answering. A token is its
 decoded payload; `signed` says whether its signature verifies.
 */
module TokenRevocation {
  import opened Common

  type Seconds = nat

  // jti of None is absent; JavaScript takes the empty string for absent as well.
  datatype Token = Token(jti: Option<string>, exp: Option<Seconds>, fingerprint: string, signed: bool)

  datatype Verdict = Valid | BadSignature | Expired | Blacklisted | FingerprintMismatch

  // Blacklist key -> instant at which Redis drops it.
  type Blacklist = map<string, Millis>

  predicate HasJti(t: Token) {
    t.jti.Some? && t.jti.value != ""
  }

  // Section 4.1.4 of RFC 7519: not accepted on or after the expiration time.
  predicate IsExpired(t: Token, now: Millis) {
    t.exp.Some? && now / 1000 >= t.exp.value
  }

  predicate IsBlacklisted(b: Blacklist, jti: string, now: Millis) {
    jti in b && now < b[jti]
  }

  function Validate(b: Blacklist, t: Token, now: Millis, current: string): Verdict {
    if !t.signed then BadSignature
    else if IsExpired(t, now) then Expired
    else if HasJti(t) && IsBlacklisted(b, t.jti.value, now) then Blacklisted
    else if current != t.fingerprint then FingerprintMismatch
    else Valid
  }

  // The time to live is computed from the clock at readAt and starts to run at setAt.
  function Revoke(b: Blacklist, t: Token, readAt: Millis, setAt: Millis, accessTokenExpiry: Seconds): Blacklist {
    if !HasJti(t) then b
    else
      var now := readAt / 1000;
      var exp := if t.exp.None? || t.exp.value == 0 then now + accessTokenExpiry else t.exp.value;
      if exp > now then b[t.jti.value := setAt + (exp - now) * 1000] else b
  }

  class TokenService {
    var blacklist: Blacklist
    const accessTokenExpiry: Seconds

    constructor (accessTokenExpiry: Seconds)
      ensures blacklist == map[] && this.accessTokenExpiry == accessTokenExpiry
    {
      blacklist, this.accessTokenExpiry := map[], accessTokenExpiry;
    }

    method RevokeToken(t: Token, readAt: Millis, setAt: Millis)
      requires readAt <= setAt
      modifies this`blacklist
      ensures blacklist == Revoke(old(blacklist), t, readAt, setAt, accessTokenExpiry)
      ensures forall j :: Some(j) != t.jti || j == "" ==>
                (j in blacklist <==> j in old(blacklist)) && (j in blacklist ==> blacklist[j] == old(blacklist)[j])
      ensures HasJti(t) && t.exp.Some? && t.exp.value > readAt / 1000 ==>
                t.jti.value in blacklist && blacklist[t.jti.value] == setAt + (t.exp.value - readAt / 1000) * 1000
      ensures HasJti(t) && (t.exp.None? || t.exp.value == 0) && accessTokenExpiry > 0 ==>
                t.jti.value in blacklist && blacklist[t.jti.value] == setAt + accessTokenExpiry * 1000
      ensures t.exp.Some? && t.exp.value != 0 && t.exp.value <= readAt / 1000 ==> blacklist == old(blacklist)
      ensures HasJti(t) && t.exp.Some? && Held(old(blacklist), t, readAt) ==> Held(blacklist, t, setAt)
    {
      if t.jti.None? || t.jti.value == "" {
        return;
      }
      var now := readAt / 1000;
      var exp := now + accessTokenExpiry;
      if t.exp.Some? && t.exp.value != 0 {
        exp := t.exp.value;
      }
      var ttl := if exp - now > 0 then exp - now else 0;
      if ttl > 0 {
        blacklist := blacklist[t.jti.value := setAt + ttl * 1000];
      }
    }

    method ValidateAccessToken(t: Token, now: Millis, current: string) returns (r: Verdict)
      ensures r == Validate(blacklist, t, now, current)
      ensures r == BadSignature <==> !t.signed
      ensures r == Expired <==> t.signed && t.exp.Some? && t.exp.value * 1000 <= now
      ensures r == Blacklisted <==>
                && t.signed && (t.exp.None? || now < t.exp.value * 1000)
                && t.jti.Some? && t.jti.value != "" && t.jti.value in blacklist && now < blacklist[t.jti.value]
      ensures r == Valid <==>
                && t.signed && (t.exp.None? || now < t.exp.value * 1000)
                && !(t.jti.Some? && t.jti.value != "" && t.jti.value in blacklist && now < blacklist[t.jti.value])
                && t.fingerprint == current
      ensures HasJti(t) && t.exp.Some? && Held(blacklist, t, now) ==> r != Valid
    {
      if !t.signed {
        return BadSignature;
      }
      if t.exp.Some? && now / 1000 >= t.exp.value {
        return Expired;
      }
      if t.jti.Some? && t.jti.value != "" {
        if t.jti.value in blacklist && now < blacklist[t.jti.value] {
          return Blacklisted;
        }
      }
      if current != t.fingerprint {
        return FingerprintMismatch;
      }
      r := Valid;
    }
  }

  // From `now` on the token is expired, or stays blacklisted until it is.
  ghost predicate Held(b: Blacklist, t: Token, now: Millis) {
    && HasJti(t) && t.exp.Some?
    && (now >= t.exp.value * 1000 || (t.jti.value in b && t.exp.value * 1000 <= b[t.jti.value]))
  }

  // Seconds are rounded down when the time to live is computed, so the entry outlives exp.
  lemma RevokeHolds(b: Blacklist, t: Token, readAt: Millis, setAt: Millis, accessTokenExpiry: Seconds)
    requires HasJti(t) && t.exp.Some? && readAt <= setAt
    ensures Held(Revoke(b, t, readAt, setAt, accessTokenExpiry), t, setAt)
  {
  }

  datatype Revocation = Revocation(token: Token, readAt: Millis, setAt: Millis)

  function RevokeAll(b: Blacklist, rs: seq<Revocation>, accessTokenExpiry: Seconds): Blacklist
    decreases |rs|
  {
    if rs == [] then b
    else RevokeAll(Revoke(b, rs[0].token, rs[0].readAt, rs[0].setAt, accessTokenExpiry), rs[1..], accessTokenExpiry)
  }

  // Revocations one after another; a jti names one token.
  ghost predicate Sequential(rs: seq<Revocation>) {
    && (forall i :: 0 <= i < |rs| ==> rs[i].readAt <= rs[i].setAt)
    && (forall i, j :: 0 <= i < j < |rs| ==> rs[i].setAt <= rs[j].readAt)
    && (forall i, j :: 0 <= i < |rs| && 0 <= j < |rs| && rs[i].token.jti == rs[j].token.jti ==> rs[i].token == rs[j].token)
  }

  lemma {:induction false} HeldOverRevocations(b: Blacklist, t: Token, now: Millis, rs: seq<Revocation>, accessTokenExpiry: Seconds)
    requires Held(b, t, now) && Sequential(rs)
    requires forall i :: 0 <= i < |rs| ==> now <= rs[i].readAt && (rs[i].token.jti == t.jti ==> rs[i].token == t)
    ensures Held(RevokeAll(b, rs, accessTokenExpiry), t, if rs == [] then now else rs[|rs|-1].setAt)
    decreases |rs|
  {
    if rs != [] {
      var b1 := Revoke(b, rs[0].token, rs[0].readAt, rs[0].setAt, accessTokenExpiry);
      if rs[0].token == t {
        RevokeHolds(b, t, rs[0].readAt, rs[0].setAt, accessTokenExpiry);
      }
      assert Held(b1, t, rs[0].setAt);
      HeldOverRevocations(b1, t, rs[0].setAt, rs[1..], accessTokenExpiry);
    }
  }

  // Once a revocation completes, its token is rejected at every later instant, whatever is
  // revoked afterwards.
  lemma RevocationIsPermanent(b: Blacklist, rs: seq<Revocation>, now: Millis, current: string, accessTokenExpiry: Seconds)
    requires rs != [] && Sequential(rs) && HasJti(rs[0].token) && rs[0].token.exp.Some?
    requires rs[|rs|-1].setAt <= now
    ensures Validate(RevokeAll(b, rs, accessTokenExpiry), rs[0].token, now, current) != Valid
  {
    var r := rs[0];
    var b1 := Revoke(b, r.token, r.readAt, r.setAt, accessTokenExpiry);
    RevokeHolds(b, r.token, r.readAt, r.setAt, accessTokenExpiry);
    HeldOverRevocations(b1, r.token, r.setAt, rs[1..], accessTokenExpiry);
  }

  // For a token that would otherwise pass, revocation is for good exactly when the token
  // names its expiry: one without is blacklisted for the default lifetime only.
  lemma PermanentIffExpires(b: Blacklist, t: Token, readAt: Millis, setAt: Millis, accessTokenExpiry: Seconds)
    requires t.signed && HasJti(t) && readAt <= setAt && accessTokenExpiry > 0
    ensures t.exp.Some? <==>
              forall now :: setAt <= now ==>
                Validate(Revoke(b, t, readAt, setAt, accessTokenExpiry), t, now, t.fingerprint) != Valid
  {
    var b1 := Revoke(b, t, readAt, setAt, accessTokenExpiry);
    if t.exp.Some? {
      RevokeHolds(b, t, readAt, setAt, accessTokenExpiry);
    } else {
      assert Validate(b1, t, b1[t.jti.value], t.fingerprint) == Valid;
    }
  }
}
