/**
 The permission services under any interleaving. A read is split into its database fetch
 and its cache fill, invalidations may be lost, a grant commits with whatever permission
 set the granter was served at any earlier time, and rows may be revoked at any moment.
 */
module PermissionRuns {
  import opened Common
  import opened Ordering
  import opened Grants
  import opened PermissionService

  // What a read handed out, with the instants of its fetch, of its cache fill and of the answer.
  datatype Served = Served(user: UserId, modules: Modules, fetchedAt: Millis, filledAt: Millis, at: Millis)

  datatype Pending = Pending(user: UserId, modules: Modules, fetchedAt: Millis)

  datatype Cached = Cached(modules: Modules, fetchedAt: Millis, filledAt: Millis)

  datatype Grant = Grant(granter: UserId, level: Level, recipient: UserId, permission: ModulePermission)

  datatype State = State(
    users: map<UserId, Level>,
    table: Table,
    cache: map<UserId, Cached>,
    pending: multiset<Pending>,
    served: set<Served>,
    snapshots: set<Served>,
    grants: seq<Grant>,
    clock: Millis)

  datatype Event =
    | Tick(later: Millis)
    | AddUser(user: UserId, level: Level)
    | Fetch(user: UserId)
    | Fill(read: Pending)
    | FillFails(read: Pending)
    | Hit(user: UserId)
    | Invalidate(user: UserId)
    | TakeSnapshot(source: Served)
    | CommitGrant(granter: UserId, recipient: UserId, permission: ModulePermission, basis: Served)
    | Revoke(rows: set<RowKey>)

  ghost predicate Initial(s: State) {
    s.table == map[] && s.cache == map[] && s.pending == multiset{} && s.served == {} && s.snapshots == {} && s.grants == []
  }

  ghost predicate Enabled(s: State, e: Event) {
    match e
    case Tick(later) => s.clock <= later
    case AddUser(u, _) => u !in s.users
    case Fetch(_) => true
    case Fill(p) => p in s.pending
    case FillFails(p) => p in s.pending
    case Hit(u) => u in s.cache && s.clock < s.cache[u].filledAt + CACHE_TTL
    case Invalidate(_) => true
    case TakeSnapshot(r) => r in s.served
    // One upsert of a grant. A manager's request was validated against `basis`, a set it
    // was served at some earlier time; the other levels need none.
    case CommitGrant(granter, recipient, p, basis) =>
      && recipient in s.users
      && (granter in s.users && s.users[granter].MANAGER? ==> basis in s.served && basis.user == granter)
      && Validate(s.users, granter, [p], basis.modules).Valid?
    case Revoke(rows) => rows <= s.table.Keys
  }

  ghost function Apply(s: State, e: Event): State
    requires Enabled(s, e)
  {
    match e
    case Tick(later) => s.(clock := later)
    case AddUser(u, level) => s.(users := s.users[u := level])
    case Fetch(u) => s.(pending := s.pending + multiset{Pending(u, View(s.table, u), s.clock)})
    case Fill(p) =>
      s.(pending := s.pending - multiset{p},
         cache := s.cache[p.user := Cached(p.modules, p.fetchedAt, s.clock)],
         served := s.served + {Served(p.user, p.modules, p.fetchedAt, s.clock, s.clock)})
    case FillFails(p) =>
      s.(pending := s.pending - multiset{p},
         served := s.served + {Served(p.user, p.modules, p.fetchedAt, s.clock, s.clock)})
    case Hit(u) =>
      var c := s.cache[u];
      s.(served := s.served + {Served(u, c.modules, c.fetchedAt, c.filledAt, s.clock)})
    case Invalidate(u) => s.(cache := s.cache - {u})
    case TakeSnapshot(r) => s.(snapshots := s.snapshots + {r})
    case CommitGrant(granter, recipient, p, _) =>
      s.(table := Upsert(s.table, recipient, p, granter, s.clock),
         grants := s.grants + [Grant(granter, s.users[granter], recipient, p)])
    case Revoke(rows) =>
      s.(table := map k | k in s.table :: if k in rows then s.table[k].(revokedAt := Some(s.clock)) else s.table[k])
  }

  ghost predicate Run(r: seq<State>, es: seq<Event>) {
    && |r| == |es| + 1
    && Initial(r[0])
    && forall i :: 0 <= i < |es| ==> Enabled(r[i], es[i]) && r[i+1] == Apply(r[i], es[i])
  }

  // A request that passes as a whole passes entry by entry, so committing a grant of many
  // modules is a run of CommitGrant events over the same basis. The same event covers an
  // owner's initial rows, which the owner grants to themselves.
  lemma RequestPassesPerEntry(users: map<UserId, Level>, granter: UserId, ps: seq<ModulePermission>, held: Modules, p: ModulePermission)
    requires Validate(users, granter, ps, held).Valid? && p in ps
    ensures Validate(users, granter, [p], held).Valid?
  {
    GoldenRule(held, ps);
    GoldenRule(held, [p]);
    forall m, a | Mentions([p], m, a) ensures Mentions(ps, m, a) {
      var q :| q in [p] && q.name == m && a in q.actions;
      assert q in ps;
    }
  }

  // ---------- provenance ----------

  // A chain of recorded grants of (m, a): the newest one to u, each older one to the granter
  // of the next newer one, the oldest one made by an owner.
  ghost predicate Chain(log: seq<Grant>, c: seq<nat>, u: UserId, m: ModuleName, a: Action) {
    && c != []
    && (forall i :: 0 <= i < |c| ==> c[i] < |log| && log[c[i]].permission.name == m && a in log[c[i]].permission.actions)
    && log[c[0]].recipient == u
    && (forall i :: 0 <= i < |c| - 1 ==>
          c[i+1] < c[i] && log[c[i]].level.MANAGER? && log[c[i]].granter == log[c[i+1]].recipient)
    && log[c[|c|-1]].level.OWNER?
  }

  ghost predicate Traced(log: seq<Grant>, u: UserId, m: ModuleName, a: Action) {
    exists c :: Chain(log, c, u, m, a)
  }

  ghost predicate AllTraced(log: seq<Grant>, u: UserId, ms: Modules) {
    forall m, a :: m in ms && a in ms[m] ==> Traced(log, u, m, a)
  }

  ghost predicate RowsTraced(log: seq<Grant>, t: Table) {
    forall k, a :: k in t && a in t[k].actions ==> Traced(log, k.user, k.name, a)
  }

  ghost predicate Provenance(s: State) {
    && RowsTraced(s.grants, s.table)
    && (forall u :: u in s.cache ==> AllTraced(s.grants, u, s.cache[u].modules))
    && (forall p :: p in s.pending ==> AllTraced(s.grants, p.user, p.modules))
    && (forall r :: r in s.served ==> AllTraced(s.grants, r.user, r.modules))
    && (forall r :: r in s.snapshots ==> AllTraced(s.grants, r.user, r.modules))
  }

  lemma TracedGrows(log: seq<Grant>, g: Grant, u: UserId, m: ModuleName, a: Action)
    requires Traced(log, u, m, a)
    ensures Traced(log + [g], u, m, a)
  {
    var c :| Chain(log, c, u, m, a);
    assert Chain(log + [g], c, u, m, a);
  }

  lemma AllTracedGrows(log: seq<Grant>, g: Grant, u: UserId, ms: Modules)
    requires AllTraced(log, u, ms)
    ensures AllTraced(log + [g], u, ms)
  {
    forall m, a | m in ms && a in ms[m] ensures Traced(log + [g], u, m, a) {
      TracedGrows(log, g, u, m, a);
    }
  }

  lemma ViewTraced(log: seq<Grant>, t: Table, u: UserId)
    requires RowsTraced(log, t)
    ensures AllTraced(log, u, View(t, u))
  {
    forall m, a | m in View(t, u) && a in View(t, u)[m] ensures Traced(log, u, m, a) {
      ViewOf(t, u, m);
      SortMembers(t[RowKey(u, m)].actions);
    }
  }

  lemma ChainByOwner(log: seq<Grant>, g: Grant, a: Action)
    requires g.level.OWNER? && a in g.permission.actions
    ensures Traced(log + [g], g.recipient, g.permission.name, a)
  {
    assert Chain(log + [g], [|log|], g.recipient, g.permission.name, a);
  }

  lemma ChainByManager(log: seq<Grant>, g: Grant, a: Action)
    requires g.level.MANAGER? && a in g.permission.actions
    requires Traced(log, g.granter, g.permission.name, a)
    ensures Traced(log + [g], g.recipient, g.permission.name, a)
  {
    var c :| Chain(log, c, g.granter, g.permission.name, a);
    var n, c' := |log|, [|log|] + c;
    forall i | 0 <= i < |c'| - 1 ensures c'[i+1] < c'[i] && (log + [g])[c'[i]].level.MANAGER?
      && (log + [g])[c'[i]].granter == (log + [g])[c'[i+1]].recipient
    {
      assert c'[i+1] == c[i];
      if i > 0 { assert c'[i] == c[i-1]; }
    }
    forall i | 0 <= i < |c'| ensures c'[i] < n + 1 && (log + [g])[c'[i]].permission.name == g.permission.name
      && a in (log + [g])[c'[i]].permission.actions
    {
      if i > 0 { assert c'[i] == c[i-1]; }
    }
    assert Chain(log + [g], c', g.recipient, g.permission.name, a);
  }

  // The grant being committed is itself traced: its granter is an owner, or was served
  // every action it hands on.
  lemma NewGrantTraced(s: State, granter: UserId, recipient: UserId, p: ModulePermission, basis: Served, a: Action)
    requires Provenance(s) && Enabled(s, CommitGrant(granter, recipient, p, basis)) && a in p.actions
    ensures Traced(s.grants + [Grant(granter, s.users[granter], recipient, p)], recipient, p.name, a)
  {
    var g := Grant(granter, s.users[granter], recipient, p);
    if g.level.OWNER? {
      ChainByOwner(s.grants, g, a);
    } else {
      GoldenRule(basis.modules, [p]);
      assert p in [p];
      assert Mentions([p], p.name, a);
      ChainByManager(s.grants, g, a);
    }
  }

  lemma GrantKeepsProvenance(s: State, e: Event)
    requires Provenance(s) && Enabled(s, e) && e.CommitGrant?
    ensures Provenance(Apply(s, e))
  {
    var s' := Apply(s, e);
    var g := s'.grants[|s.grants|];
    forall k, a | k in s'.table && a in s'.table[k].actions ensures Traced(s'.grants, k.user, k.name, a) {
      if k == RowKey(e.recipient, e.permission.name) {
        NewGrantTraced(s, e.granter, e.recipient, e.permission, e.basis, a);
      } else {
        TracedGrows(s.grants, g, k.user, k.name, a);
      }
    }
    forall u: UserId, ms: Modules | AllTraced(s.grants, u, ms) ensures AllTraced(s'.grants, u, ms) {
      AllTracedGrows(s.grants, g, u, ms);
    }
  }

  lemma RevokeKeepsRowsTraced(s: State, rows: set<RowKey>)
    requires RowsTraced(s.grants, s.table) && rows <= s.table.Keys
    ensures RowsTraced(s.grants, Apply(s, Revoke(rows)).table)
  {
    var t := Apply(s, Revoke(rows)).table;
    forall k, a | k in t && a in t[k].actions ensures Traced(s.grants, k.user, k.name, a) {
      assert t[k].actions == s.table[k].actions;
    }
  }

  lemma StepKeepsProvenance(s: State, e: Event)
    requires Provenance(s) && Enabled(s, e)
    ensures Provenance(Apply(s, e))
  {
    match e
    case CommitGrant(_, _, _, _) => GrantKeepsProvenance(s, e);
    case Fetch(u) => ViewTraced(s.grants, s.table, u);
    case Revoke(rows) => RevokeKeepsRowsTraced(s, rows);
    case _ =>
  }

  // In every reachable state, however reads, grants, revocations and invalidations interleave,
  // whatever a row, a cache entry, an answer or a snapshot holds goes back to an owner.
  lemma {:induction false} ProvenanceOverRuns(r: seq<State>, es: seq<Event>, i: nat)
    requires Run(r, es) && i < |r|
    ensures Provenance(r[i])
  {
    if i > 0 {
      ProvenanceOverRuns(r, es, i - 1);
      assert r[i-1+1] == Apply(r[i-1], es[i-1]);
      StepKeepsProvenance(r[i-1], es[i-1]);
    }
  }

  // ---------- staleness ----------

  // `modules` was the database's view of u at the instant `at`, in some state up to r[i].
  ghost predicate WasView(r: seq<State>, i: nat, u: UserId, modules: Modules, at: Millis)
    requires i < |r|
  {
    exists j :: 0 <= j <= i && r[j].clock == at && View(r[j].table, u) == modules
  }

  ghost predicate PendingFresh(r: seq<State>, i: nat, p: Pending)
    requires i < |r|
  {
    WasView(r, i, p.user, p.modules, p.fetchedAt) && p.fetchedAt <= r[i].clock
  }

  ghost predicate CachedFresh(r: seq<State>, i: nat, u: UserId, c: Cached)
    requires i < |r|
  {
    WasView(r, i, u, c.modules, c.fetchedAt) && c.fetchedAt <= c.filledAt <= r[i].clock
  }

  ghost predicate ServedFresh(r: seq<State>, i: nat, v: Served)
    requires i < |r|
  {
    WasView(r, i, v.user, v.modules, v.fetchedAt) && v.fetchedAt <= v.filledAt <= v.at < v.filledAt + CACHE_TTL
  }

  ghost predicate Fresh(r: seq<State>, i: nat)
    requires i < |r|
  {
    && (forall p :: p in r[i].pending ==> PendingFresh(r, i, p))
    && (forall u :: u in r[i].cache ==> CachedFresh(r, i, u, r[i].cache[u]))
    && (forall v :: v in r[i].served ==> ServedFresh(r, i, v))
  }

  lemma WasViewLater(r: seq<State>, i: nat, u: UserId, ms: Modules, at: Millis)
    requires 0 < i < |r| && WasView(r, i - 1, u, ms, at)
    ensures WasView(r, i, u, ms, at)
  {
    var j :| 0 <= j <= i - 1 && r[j].clock == at && View(r[j].table, u) == ms;
  }

  lemma FreshPending(r: seq<State>, i: nat, e: Event)
    requires 0 < i < |r| && Fresh(r, i - 1) && Enabled(r[i-1], e) && r[i] == Apply(r[i-1], e)
    ensures forall p :: p in r[i].pending ==> PendingFresh(r, i, p)
  {
    forall p | p in r[i].pending ensures PendingFresh(r, i, p) {
      if p in r[i-1].pending {
        assert PendingFresh(r, i - 1, p);
        WasViewLater(r, i, p.user, p.modules, p.fetchedAt);
      } else {
        assert e.Fetch? && r[i].table == r[i-1].table && r[i].clock == r[i-1].clock;
        assert WasView(r, i, p.user, p.modules, p.fetchedAt);
      }
    }
  }

  lemma FreshCached(r: seq<State>, i: nat, e: Event)
    requires 0 < i < |r| && Fresh(r, i - 1) && Enabled(r[i-1], e) && r[i] == Apply(r[i-1], e)
    ensures forall u :: u in r[i].cache ==> CachedFresh(r, i, u, r[i].cache[u])
  {
    forall u | u in r[i].cache ensures CachedFresh(r, i, u, r[i].cache[u]) {
      var c := r[i].cache[u];
      if u in r[i-1].cache && c == r[i-1].cache[u] {
        assert CachedFresh(r, i - 1, u, c);
      } else {
        assert e.Fill? && PendingFresh(r, i - 1, e.read) && e.read.user == u;
      }
      WasViewLater(r, i, u, c.modules, c.fetchedAt);
    }
  }

  lemma FreshServed(r: seq<State>, i: nat, e: Event)
    requires 0 < i < |r| && Fresh(r, i - 1) && Enabled(r[i-1], e) && r[i] == Apply(r[i-1], e)
    ensures forall v :: v in r[i].served ==> ServedFresh(r, i, v)
  {
    forall v | v in r[i].served ensures ServedFresh(r, i, v) {
      if v in r[i-1].served {
        assert ServedFresh(r, i - 1, v);
      } else if e.Hit? {
        assert CachedFresh(r, i - 1, e.user, r[i-1].cache[e.user]);
      } else {
        assert (e.Fill? || e.FillFails?) && PendingFresh(r, i - 1, e.read);
      }
      WasViewLater(r, i, v.user, v.modules, v.fetchedAt);
    }
  }

  lemma {:induction false} FreshOverRuns(r: seq<State>, es: seq<Event>, i: nat)
    requires Run(r, es) && i < |r|
    ensures Fresh(r, i)
  {
    if i > 0 {
      FreshOverRuns(r, es, i - 1);
      var e := es[i-1];
      assert r[i-1+1] == Apply(r[i-1], e);
      FreshPending(r, i, e);
      FreshCached(r, i, e);
      FreshServed(r, i, e);
    }
  }

  // Every permission set ever served was the database's view of that user at an instant
  // less than 300 s plus its own fetch-to-fill gap before it was served.
  lemma BoundedStaleness(r: seq<State>, es: seq<Event>, i: nat)
    requires Run(r, es) && i < |r|
    ensures forall v :: v in r[i].served ==>
              exists j :: 0 <= j <= i && View(r[j].table, v.user) == v.modules &&
                r[j].clock <= v.at < r[j].clock + 300_000 + (v.filledAt - v.fetchedAt)
  {
    FreshOverRuns(r, es, i);
    forall v | v in r[i].served
      ensures exists j :: 0 <= j <= i && View(r[j].table, v.user) == v.modules &&
                r[j].clock <= v.at < r[j].clock + 300_000 + (v.filledAt - v.fetchedAt)
    {
      assert ServedFresh(r, i, v);
      var j :| 0 <= j <= i && r[j].clock == v.fetchedAt && View(r[j].table, v.user) == v.modules;
    }
  }
}
