/**
 PermissionService, PermissionCacheService and DelegationValidatorService over the stores
 they share. One operation runs at a time and Redis answers; time may pass between any two
 awaited steps.
 */
module PermissionService {
  import opened Common
  import opened Ordering
  import opened Grants
  import opened Snapshots

  const CACHE_TTL: Millis := 300_000

  datatype CacheEntry = CacheEntry(modules: Modules, expiresAt: Millis)

  datatype Validation = GranterNotFound | Valid | Invalid(missing: seq<ModulePermission>)

  datatype GrantResult = Granted | Forbidden(why: Validation) | RecipientNotFound

  // validateDelegation, given the permission set the cache serves for the granter.
  function Validate(users: map<UserId, Level>, granter: UserId, ps: seq<ModulePermission>, held: Modules): Validation {
    if granter !in users then GranterNotFound
    else match users[granter]
      case OWNER => Valid
      case WORKER => Invalid(ps)
      case MANAGER => if Missing(held, ps) == [] then Valid else Invalid(Missing(held, ps))
  }

  // What this granter may hand on, holding these modules: an owner anything, a worker nothing, a
  // manager what they hold.
  ghost predicate MayHandOn(level: Level, held: Modules, m: ModuleName, a: Action) {
    level == OWNER || (level == MANAGER && m in held && a in held[m])
  }

  // The pairs asked for that this granter may not hand on.
  ghost predicate NotToHandOn(missing: seq<ModulePermission>, ps: seq<ModulePermission>, level: Level, held: Modules) {
    forall m, a :: Mentions(missing, m, a) <==> Mentions(ps, m, a) && !MayHandOn(level, held, m, a)
  }

  // A request goes through exactly when its granter is known, no worker, and may hand on all of
  // it; a refusal of a known granter mentions exactly the pairs asked for that they may not.
  lemma ValidateIsGoldenRule(users: map<UserId, Level>, granter: UserId, ps: seq<ModulePermission>, held: Modules)
    ensures var v := Validate(users, granter, ps, held);
            (v == GranterNotFound <==> granter !in users) &&
            (v == Valid <==>
               granter in users && users[granter] != WORKER && forall m, a :: Mentions(ps, m, a) ==> MayHandOn(users[granter], held, m, a)) &&
            (granter in users && users[granter] == WORKER ==> v == Invalid(ps)) &&
            (v.Invalid? ==> granter in users && NotToHandOn(v.missing, ps, users[granter], held))
  {
    GoldenRule(held, ps);
    MissingExact(held, ps);
  }

  // The audit record of a change made by an operation: which of the two sets it holds is
  // settled by the cache entry `cached` found when the operation began, unless that entry
  // expires while the operation runs (between lo and hi).
  ghost predicate Recording(s: Snapshot, u: UserId, reason: Reason, before: Table, after: Table,
                            cached: Option<CacheEntry>, lo: Millis, hi: Millis)
  {
    && s.user == u && s.reason == reason
    && (s.modules == View(before, u) || s.modules == View(after, u))
    && (cached.Some? && hi < cached.value.expiresAt ==> s.modules == View(before, u))
    && (cached.None? || cached.value.expiresAt <= lo ==> s.modules == View(after, u))
  }

  // What a read between lo and hi makes of a user's cache entry: a live one stays, or there is
  // a new one.
  ghost predicate Warm(before: Option<CacheEntry>, after: Option<CacheEntry>, lo: Millis, hi: Millis) {
    && after.Some?
    && if before.Some? && before == after then lo < after.value.expiresAt
       else lo + CACHE_TTL <= after.value.expiresAt && (before.Some? ==> before.value.expiresAt <= hi)
  }

  // The audit record of a manager's grant to itself. Its own entry was read to validate the
  // grant, so within 300 s it is warm, and the record holds the earlier set.
  ghost predicate RecordingSelf(s: Snapshot, u: UserId, before: Table, after: Table, cached: Option<CacheEntry>, lo: Millis, hi: Millis) {
    && s.user == u && s.reason == PERMISSION_GRANT
    && (s.modules == View(before, u) || s.modules == View(after, u))
    && (cached.Some? && hi < cached.value.expiresAt ==> s.modules == View(before, u))
    && (cached.None? || cached.value.expiresAt <= lo ==> hi < lo + CACHE_TTL ==> s.modules == View(before, u))
  }

  lemma SelfRecording(s: Snapshot, u: UserId, before: Table, after: Table, cached: Option<CacheEntry>, warm: Option<CacheEntry>,
                      lo: Millis, mid: Millis, hi: Millis)
    requires Recording(s, u, PERMISSION_GRANT, before, after, warm, mid, hi) && Warm(cached, warm, lo, mid) && lo <= mid <= hi
    ensures RecordingSelf(s, u, before, after, cached, lo, hi)
  {
  }

  // The loop of validateDelegation over the entries asked for.
  method CollectMissing(held: Modules, ps: seq<ModulePermission>) returns (missing: seq<ModulePermission>)
    ensures missing == Missing(held, ps)
  {
    missing := [];
    for i := 0 to |ps|
      invariant missing == Missing(held, ps[..i])
    {
      var lacking := MissingActions(ActionsOf(held, ps[i].name), ps[i].actions);
      MissingStep(held, ps, i);
      if |lacking| > 0 {
        missing := missing + [ModulePermission(ps[i].name, lacking)];
      }
    }
    assert ps[..|ps|] == ps;
  }

  class PermissionService {
    var users: map<UserId, Level>
    var table: Table
    var redis: map<UserId, CacheEntry>
    var snapshots: seq<Snapshot>
    var clock: Millis

    constructor (users: map<UserId, Level>, table: Table, clock: Millis)
      ensures this.users == users && this.table == table && this.clock == clock
      ensures redis == map[] && snapshots == [] && Coherent({})
    {
      this.users, this.table, this.clock := users, table, clock;
      redis, snapshots := map[], [];
    }

    ghost predicate Live(u: UserId)
      reads this
    {
      u in redis && clock < redis[u].expiresAt
    }

    ghost function Cached(u: UserId): Option<CacheEntry>
      reads this
    {
      if u in redis then Some(redis[u]) else None
    }

    // Every live cache entry outside `stale` equals the view of the table.
    ghost predicate Coherent(stale: set<UserId>)
      reads this
    {
      forall u :: Live(u) && u !in stale ==> redis[u].modules == View(table, u)
    }

    // Time passes while a call is awaited; entries may expire meanwhile.
    method Elapse()
      modifies this`clock
      ensures old(clock) <= clock
    {
      var later: Millis :| clock <= later;
      clock := later;
    }

    method FetchPermissionsFromDatabase(u: UserId) returns (modules: Modules)
      ensures modules == View(table, u)
    {
      var rows := AnyOrder(set k | k in table && k.user == u && Active(table, k));
      modules := map[];
      for i := 0 to |rows|
        invariant forall k :: k in rows ==> k in table && k.user == u
        invariant forall m :: m in modules <==> RowKey(u, m) in rows[..i]
        invariant forall m :: m in modules ==> modules[m] == SortStrings(table[RowKey(u, m)].actions)
      {
        assert rows[i] in rows;
        assert rows[..i+1] == rows[..i] + [rows[i]];
        modules := modules[rows[i].name := SortStrings(table[rows[i]].actions)];
      }
      assert rows[..|rows|] == rows;
      forall m ensures m in modules <==> m in View(table, u)
        ensures m in modules && m in View(table, u) ==> modules[m] == View(table, u)[m]
      {
        ViewOf(table, u, m);
      }
    }

    // Cache-aside read.
    method GetPermissions(u: UserId, ghost stale: set<UserId>) returns (p: Modules)
      requires Coherent(stale)
      modifies this`redis, this`clock
      ensures old(clock) <= clock
      ensures Coherent(stale)
      ensures || (old(Live(u)) && p == old(redis[u].modules) && redis == old(redis))
              || (p == View(table, u) && u in redis && redis == old(redis)[u := CacheEntry(p, redis[u].expiresAt)]
                  && old(clock) + 300_000 <= redis[u].expiresAt <= clock + 300_000)
      ensures old(Live(u)) && clock < old(redis[u].expiresAt) ==> p == old(redis[u].modules) && redis == old(redis)
    {
      Elapse();
      if u in redis && clock < redis[u].expiresAt {
        return redis[u].modules;
      }
      p := FetchPermissionsFromDatabase(u);
      Elapse();
      redis := redis[u := CacheEntry(p, clock + CACHE_TTL)];
    }

    method InvalidateCache(u: UserId)
      modifies this`redis, this`clock
      ensures old(clock) <= clock
      ensures redis == old(redis) - {u}
    {
      Elapse();
      redis := redis - {u};
    }

    method InvalidateCacheBulk(us: seq<UserId>)
      modifies this`redis, this`clock
      ensures old(clock) <= clock
      ensures redis == old(redis) - Elems(us)
    {
      for i := 0 to |us|
        invariant old(clock) <= clock
        invariant redis == old(redis) - Elems(us[..i])
      {
        assert us[..i+1] == us[..i] + [us[i]];
        InvalidateCache(us[i]);
      }
      assert us[..|us|] == us;
    }

    // The audit record holds whatever the cache serves: when it is warm, the set from
    // before the change being recorded.
    method CreateSnapshot(u: UserId, reason: Reason, ghost stale: set<UserId>)
      requires Coherent(stale)
      modifies this`redis, this`clock, this`snapshots
      ensures old(clock) <= clock
      ensures Coherent(stale)
      ensures |snapshots| == |old(snapshots)| + 1 && snapshots[..|old(snapshots)|] == old(snapshots)
      ensures var s := snapshots[|snapshots|-1];
              s.user == u && s.reason == reason &&
              (s.modules == View(table, u) || (old(Live(u)) && s.modules == old(redis[u].modules))) &&
              (old(Live(u)) && clock < old(redis[u].expiresAt) ==> s.modules == old(redis[u].modules)) &&
              (!old(Live(u)) ==> s.modules == View(table, u))
      ensures redis == old(redis) ||
              (u in redis && redis == old(redis)[u := CacheEntry(View(table, u), redis[u].expiresAt)])
    {
      var p := GetPermissions(u, stale);
      snapshots := snapshots + [Snapshot(u, p, reason)];
    }

    // The transaction of one cascade level: every listed row is revoked at one instant.
    method RevokeRows(rows: seq<RowKey>) returns (affected: seq<UserId>)
      requires forall k :: k in rows ==> k in table
      modifies this`table
      ensures RevokedExactly(old(table), table, Elems(rows), clock, clock)
      ensures Elems(affected) == Holders(Elems(rows))
    {
      affected := [];
      for i := 0 to |rows|
        invariant forall k :: k in rows ==> k in table
        invariant RevokedExactly(old(table), table, Elems(rows[..i]), clock, clock)
        invariant Elems(affected) == Holders(Elems(rows[..i]))
      {
        var k := rows[i];
        assert Elems(rows[..i+1]) == Elems(rows[..i]) + {k} by { assert rows[..i+1] == rows[..i] + [k]; }
        RevokeOneMore(old(table), table, Elems(rows[..i]), k, clock);
        table := table[k := table[k].(revokedAt := Some(clock))];
        if k.user !in affected {
          affected := affected + [k.user];
        }
        assert Holders(Elems(rows[..i+1])) == Holders(Elems(rows[..i])) + {k.user};
      }
      assert rows[..|rows|] == rows;
    }

    // The live entries of these users are as `was` or as the table has it.
    ghost predicate AtWorst(us: seq<UserId>, was: Table)
      reads this
    {
      forall v :: v in us && Live(v) ==> redis[v].modules == View(was, v) || redis[v].modules == View(table, v)
    }

    method RecordCascade(v: UserId, affected: seq<UserId>, ghost stale: set<UserId>, ghost was: Table)
      requires v in affected && Coherent(stale) && AtWorst(affected, was)
      modifies this`redis, this`clock, this`snapshots
      ensures old(clock) <= clock
      ensures Coherent(stale) && AtWorst(affected, was)
      ensures Recorded(old(snapshots), snapshots, {v})
      ensures LevelSnapshots(old(snapshots), snapshots, was, table, Elems(affected))
    {
      CreateSnapshot(v, CASCADE_REVOKE, stale);
      assert AtWorst(affected, was) by {
        forall x | x in affected && Live(x) ensures redis[x].modules == View(was, x) || redis[x].modules == View(table, x) {
          if x != v {
            assert old(Live(x));
          }
        }
      }
      OneSnapshot(old(snapshots), snapshots, was, table, Elems(affected), v);
    }

    // Snapshots for the affected users, then invalidation of their entries.
    method RecordAndInvalidate(affected: seq<UserId>, ghost stale: set<UserId>, ghost was: Table)
      requires Coherent(stale + Elems(affected)) && AtWorst(affected, was)
      modifies this`redis, this`clock, this`snapshots
      ensures old(clock) <= clock
      ensures Coherent(stale)
      ensures Recorded(old(snapshots), snapshots, Elems(affected))
      ensures LevelSnapshots(old(snapshots), snapshots, was, table, Elems(affected))
    {
      for j := 0 to |affected|
        invariant old(clock) <= clock
        invariant Coherent(stale + Elems(affected)) && AtWorst(affected, was)
        invariant Recorded(old(snapshots), snapshots, Elems(affected[..j]))
        invariant LevelSnapshots(old(snapshots), snapshots, was, table, Elems(affected))
      {
        assert Elems(affected[..j+1]) == Elems(affected[..j]) + {affected[j]} by {
          assert affected[..j+1] == affected[..j] + [affected[j]];
        }
        ghost var before := snapshots;
        RecordCascade(affected[j], affected, stale + Elems(affected), was);
        RecordedCompose(old(snapshots), before, snapshots, Elems(affected[..j]), {affected[j]});
        LevelSnapshotsCompose(old(snapshots), before, snapshots, was, table, Elems(affected));
      }
      assert affected[..|affected|] == affected;
      InvalidateCacheBulk(affected);
    }

    // These users hold none of the listed modules any more.
    ghost predicate Clear(us: set<UserId>, names: seq<ModuleName>)
      reads this
    {
      forall k :: k in Edges(table, names) ==> k.user !in us
    }

    // One level of the cascade: the rows u granted, up to the recursive calls.
    method RevokeLevel(u: UserId, names: seq<ModuleName>, ghost stale: set<UserId>) returns (affected: seq<UserId>)
      requires Coherent(stale) && Clear(stale, names)
      modifies this`table, this`redis, this`clock, this`snapshots
      ensures old(clock) <= clock
      ensures RevokedExactly(old(table), table, OutRows(old(table), names, u), old(clock), clock)
      ensures Elems(affected) == Holders(OutRows(old(table), names, u))
      ensures Coherent(stale)
      ensures Recorded(old(snapshots), snapshots, Elems(affected))
      ensures LevelSnapshots(old(snapshots), snapshots, old(table), table, Elems(affected))
    {
      var rows := AnyOrder(OutRows(table, names, u));
      if rows == [] {
        return [];
      }
      Elapse();
      affected := RevokeRows(rows);
      assert Elems(rows) == OutRows(old(table), names, u);
      OtherViewsKept(old(table), table, Elems(rows), clock, clock, Elems(affected));
      forall v | v in affected ensures v !in stale {
        assert v in Elems(affected);
        var k :| k in OutRows(old(table), names, u) && k.user == v;
      }
      RecordAndInvalidate(affected, stale, old(table));
    }

    // cascadeRevokePermissions. `stale` names the users whose entries the caller has yet to
    // invalidate: none but the user being revoked, whose own rows are gone by then.
    method CascadeRevokePermissions(u: UserId, names: seq<ModuleName>, ghost stale: set<UserId>)
      requires Coherent(stale) && Clear(stale, names)
      modifies this`table, this`redis, this`clock, this`snapshots
      ensures old(clock) <= clock
      ensures RevokedExactly(old(table), table, CascadeSet(old(table), names, u), old(clock), clock)
      ensures Coherent(stale)
      ensures Recorded(old(snapshots), snapshots, Holders(CascadeSet(old(table), names, u)))
      ensures Explained(old(snapshots), snapshots, old(table), names, u, CascadeSet(old(table), names, u))
      decreases Edges(table, names)
    {
      ghost var t0, d, due := table, OutRows(table, names, u), CascadeSet(table, names, u);
      var affected := RevokeLevel(u, names, stale);
      LevelExplained(old(snapshots), snapshots, t0, table, names, u, due, old(clock), clock);
      CascadeStart(t0, names, u, affected);
      for i := 0 to |affected|
        invariant old(clock) <= clock
        invariant RevokedExactly(t0, table, d, old(clock), clock)
        invariant CascadeProgress(t0, names, u, d, affected[i..])
        invariant OutRows(t0, names, u) <= d
        invariant Coherent(stale)
        invariant Recorded(old(snapshots), snapshots, Holders(d))
        invariant Explained(old(snapshots), snapshots, t0, names, u, due)
      {
        assert affected[i] in Elems(affected);
        ghost var t1, d1, time, before := table, d, clock, snapshots;
        CascadeShrinks(t0, t1, names, u, d, old(clock), clock);
        EdgesAfterRevoke(t0, t1, names, d, old(clock), clock);
        CascadeRevokePermissions(affected[i], names, stale);
        d := d1 + CascadeSet(t1, names, affected[i]);
        CascadeAdvance(t0, t1, table, names, u, d1, affected[i..], old(clock), time, clock);
        RecordedCompose(old(snapshots), before, snapshots, Holders(d1), Holders(CascadeSet(t1, names, affected[i])));
        PendingReachable(t0, names, u, affected[i]);
        ExplainedLifts(before, snapshots, t0, t1, names, u, affected[i], d1, CascadeSet(t1, names, affected[i]), due, old(clock), time);
        ExplainedCompose(old(snapshots), before, snapshots, t0, names, u, due);
        assert affected[i..][1..] == affected[i+1..];
      }
      ClosedCoversCascade(t0, names, u, d);
      assert d == CascadeSet(t0, names, u);
    }

    // The user's own rows, and the audit record of their loss.
    method RevokeOwnRows(u: UserId, names: seq<ModuleName>)
      requires Coherent({})
      modifies this`table, this`redis, this`clock, this`snapshots
      ensures old(clock) <= clock
      ensures RevokedExactly(old(table), table, OwnRows(old(table), names, u), old(clock), clock)
      ensures Coherent({u})
      ensures |snapshots| == |old(snapshots)| + 1 && old(snapshots) <= snapshots
      ensures Recording(snapshots[|snapshots|-1], u, PERMISSION_REVOKE, old(table), table, old(Cached(u)), old(clock), clock)
    {
      Elapse();
      var rows := AnyOrder(OwnRows(table, names, u));
      var _ := RevokeRows(rows);
      assert Elems(rows) == OwnRows(old(table), names, u);
      OtherViewsKept(old(table), table, Elems(rows), clock, clock, {u});
      CreateSnapshot(u, PERMISSION_REVOKE, {u});
    }

    // The cascade of a revocation that found the table as t0 and has revoked u's own rows.
    method CascadeBelow(u: UserId, names: seq<ModuleName>, ghost t0: Table, ghost lo: Millis)
      requires Coherent({u}) && RevokedExactly(t0, table, OwnRows(t0, names, u), lo, clock) && lo <= clock
      modifies this`table, this`redis, this`clock, this`snapshots
      ensures old(clock) <= clock
      ensures RevokedExactly(t0, table, OwnRows(t0, names, u) + CascadeSet(t0, names, u), lo, clock)
      ensures View(table, u) == View(old(table), u)
      ensures Coherent({u})
      ensures Recorded(old(snapshots), snapshots, Holders(CascadeSet(t0, names, u) - OwnRows(t0, names, u)))
      ensures Explained(old(snapshots), snapshots, t0, names, u, OwnRows(t0, names, u) + CascadeSet(t0, names, u))
      ensures Covered(t0, users) ==> Covered(table, users)
    {
      ghost var t1, time, before := table, clock, snapshots;
      EdgesAfterRevoke(t0, t1, names, OwnRows(t0, names, u), lo, clock);
      CascadeRevokePermissions(u, names, {u});
      RevokeExplained(before, snapshots, t0, t1, names, u, lo, time);
      RevokeFinish(t0, t1, table, names, u, lo, time, clock);
      RevokeKeepsCoverage(t0, table, users, names, u, lo, clock);
    }

    method RevokePermissions(u: UserId, names: seq<ModuleName>)
      requires Coherent({})
      modifies this`table, this`redis, this`clock, this`snapshots
      ensures old(clock) <= clock
      ensures RevokedExactly(old(table), table,
                OwnRows(old(table), names, u) + CascadeSet(old(table), names, u), old(clock), clock)
      ensures Coherent({})
      ensures |old(snapshots)| < |snapshots| && old(snapshots) <= snapshots
      ensures Recording(snapshots[|old(snapshots)|], u, PERMISSION_REVOKE,
                old(table), table, old(Cached(u)), old(clock), clock)
      ensures Recorded(old(snapshots), snapshots, Holders(CascadeSet(old(table), names, u) - OwnRows(old(table), names, u)))
      ensures Explained(snapshots[..|old(snapshots)|+1], snapshots, old(table), names, u,
                OwnRows(old(table), names, u) + CascadeSet(old(table), names, u))
      ensures Covered(old(table), users) ==> Covered(table, users)
    {
      ghost var t0 := table;
      RevokeOwnRows(u, names);
      CascadeBelow(u, names, t0, old(clock));
      InvalidateCache(u);
    }

    // ---------- granting ----------

    method ValidateDelegation(granter: UserId, ps: seq<ModulePermission>) returns (v: Validation)
      requires Coherent({})
      modifies this`redis, this`clock
      ensures old(clock) <= clock
      ensures Coherent({})
      ensures v == Validate(users, granter, ps, View(table, granter))
      ensures v == GranterNotFound <==> granter !in users
      ensures granter in users && users[granter] == WORKER ==> v == Invalid(ps)
      ensures granter in users && users[granter] == OWNER ==> v == Valid
      ensures v.Invalid? ==> granter in users && NotToHandOn(v.missing, ps, users[granter], View(table, granter))
      ensures forall u :: u != granter ==> Cached(u) == old(Cached(u))
      ensures if granter in users && users[granter].MANAGER? then Warm(old(Cached(granter)), Cached(granter), old(clock), clock)
              else Cached(granter) == old(Cached(granter))
    {
      ValidateIsGoldenRule(users, granter, ps, View(table, granter));
      if granter !in users {
        return GranterNotFound;
      }
      if users[granter].OWNER? {
        return Valid;
      }
      if users[granter].WORKER? {
        return Invalid(ps);
      }
      var held := GetPermissions(granter, {});
      var missing := CollectMissing(held, ps);
      v := if |missing| > 0 then Invalid(missing) else Valid;
    }

    // The transaction of a grant.
    method UpsertRows(recipient: UserId, ps: seq<ModulePermission>, granter: UserId)
      modifies this`table
      ensures table == UpsertAll(old(table), recipient, ps, granter, clock)
      ensures forall u :: u != recipient ==> View(table, u) == View(old(table), u)
    {
      for i := 0 to |ps|
        invariant table == UpsertAll(old(table), recipient, ps[..i], granter, clock)
      {
        assert ps[..i+1][..i] == ps[..i];
        table := Upsert(table, recipient, ps[i], granter, clock);
      }
      assert ps[..|ps|] == ps;
      GrantKeepsOtherViews(old(table), recipient, ps, granter, clock);
    }

    // The part of a grant that follows validation.
    method ApplyGrant(recipient: UserId, ps: seq<ModulePermission>, granter: UserId) returns (at: Millis)
      requires Coherent({})
      modifies this`table, this`redis, this`clock, this`snapshots
      ensures old(clock) <= at <= clock
      ensures Coherent({})
      ensures table == UpsertAll(old(table), recipient, ps, granter, at)
      ensures |snapshots| == |old(snapshots)| + 1 && old(snapshots) <= snapshots
      ensures Recording(snapshots[|old(snapshots)|], recipient, PERMISSION_GRANT, old(table), table,
                old(Cached(recipient)), old(clock), clock)
    {
      Elapse();
      at := clock;
      UpsertRows(recipient, ps, granter);
      assert Coherent({recipient});
      CreateSnapshot(recipient, PERMISSION_GRANT, {recipient});
      InvalidateCache(recipient);
    }

    method GrantPermissions(recipient: UserId, ps: seq<ModulePermission>, granter: UserId) returns (r: GrantResult)
      requires Coherent({})
      modifies this`table, this`redis, this`clock, this`snapshots
      ensures old(clock) <= clock
      ensures Coherent({})
      ensures var v := Validate(users, granter, ps, View(old(table), granter));
              r == if !v.Valid? then Forbidden(v) else if recipient !in users then RecipientNotFound else Granted
      ensures granter !in users ==> r == Forbidden(GranterNotFound)
      ensures granter in users && users[granter] == WORKER ==> r == Forbidden(Invalid(ps))
      ensures granter in users && users[granter] == OWNER ==> r == if recipient in users then Granted else RecipientNotFound
      ensures !r.Granted? ==> table == old(table) && snapshots == old(snapshots)
      ensures r.Granted? ==>
                |snapshots| == |old(snapshots)| + 1 && old(snapshots) <= snapshots &&
                exists at :: old(clock) <= at <= clock && table == UpsertAll(old(table), recipient, ps, granter, at)
      ensures r.Granted? && (recipient != granter || users[granter].OWNER?) ==>
                Recording(snapshots[|old(snapshots)|], recipient, PERMISSION_GRANT, old(table), table,
                  old(Cached(recipient)), old(clock), clock)
      ensures r.Granted? && recipient == granter && users[granter].MANAGER? ==>
                RecordingSelf(snapshots[|old(snapshots)|], recipient, old(table), table, old(Cached(recipient)), old(clock), clock)
    {
      var v := ValidateDelegation(granter, ps);
      if !v.Valid? {
        return Forbidden(v);
      }
      if recipient !in users {
        return RecipientNotFound;
      }
      ghost var warm, mid := Cached(recipient), clock;
      var _ := ApplyGrant(recipient, ps, granter);
      if recipient == granter && users[granter].MANAGER? {
        SelfRecording(snapshots[|old(snapshots)|], recipient, old(table), table, old(Cached(recipient)), warm, old(clock), mid, clock);
      }
      r := Granted;
    }

    // hasPermission of the delegation validator, checkModulePermission of the engine.
    method HasPermission(u: UserId, m: ModuleName, a: Action) returns (held: bool)
      requires Coherent({})
      modifies this`redis, this`clock
      ensures old(clock) <= clock && Coherent({})
      ensures held <==> a in ActionsOf(View(table, u), m)
    {
      var p := GetPermissions(u, {});
      held := m in p && a in p[m];
    }
  }
}
