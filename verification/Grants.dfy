/**
 The permission table and the functions the permission services apply to it.
 Rows are keyed by (user, module), which the schema declares unique
 (prisma/schema.prisma:134); the row's `id` column only names that pair again.
 */
module Grants {
  import opened Common
  import opened Ordering

  type UserId = string
  type ModuleName = string
  type Action = string

  datatype RowKey = RowKey(user: UserId, name: ModuleName)

  datatype Row = Row(actions: seq<Action>, grantedBy: UserId, grantedAt: Millis, revokedAt: Option<Millis>)

  type Table = map<RowKey, Row>

  datatype ModulePermission = ModulePermission(name: ModuleName, actions: seq<Action>)

  // The `modules` record of a permission set.
  type Modules = map<ModuleName, seq<Action>>

  predicate Active(t: Table, k: RowKey) {
    k in t && t[k].revokedAt.None?
  }

  // ---------- reading ----------

  // The permission set of a user as the table holds it. Actions come out sorted: the
  // fingerprint calculation sorts each action array of the record in place.
  function View(t: Table, u: UserId): Modules {
    map k | k in t && k.user == u && Active(t, k) :: k.name := SortStrings(t[k].actions)
  }

  function ActionsOf(ms: Modules, m: ModuleName): seq<Action> {
    if m in ms then ms[m] else []
  }

  lemma ViewOf(t: Table, u: UserId, m: ModuleName)
    ensures m in View(t, u) <==> RowKey(u, m) in t && t[RowKey(u, m)].revokedAt == None
    ensures m in View(t, u) ==> View(t, u)[m] == SortStrings(t[RowKey(u, m)].actions)
  {
    if m in View(t, u) {
      assert exists k :: k in t && k.user == u && Active(t, k) && k.name == m;
      assert RowKey(u, m) in t;
    }
    if Active(t, RowKey(u, m)) {
      var k := RowKey(u, m);
      assert k in t && k.user == u && Active(t, k) && k.name == m;
    }
  }

  // A view depends on the user's own rows alone.
  lemma ViewFrame(t0: Table, t1: Table, u: UserId)
    requires forall k: RowKey :: k.user == u ==> (k in t0 <==> k in t1) && (k in t0 ==> t0[k] == t1[k])
    ensures View(t0, u) == View(t1, u)
  {
    forall m: ModuleName ensures m in View(t0, u) <==> m in View(t1, u)
      ensures m in View(t0, u) && m in View(t1, u) ==> View(t0, u)[m] == View(t1, u)[m]
    {
      ViewOf(t0, u, m);
      ViewOf(t1, u, m);
      assert RowKey(u, m).user == u;
    }
  }

  // ---------- granting ----------

  // One upsert: the row is created, or its actions, granter and times are replaced.
  function Upsert(t: Table, recipient: UserId, p: ModulePermission, granter: UserId, at: Millis): Table {
    t[RowKey(recipient, p.name) := Row(p.actions, granter, at, None)]
  }

  function UpsertAll(t: Table, recipient: UserId, ps: seq<ModulePermission>, granter: UserId, at: Millis): Table
    decreases |ps|
  {
    if ps == [] then t
    else Upsert(UpsertAll(t, recipient, ps[..|ps|-1], granter, at), recipient, ps[|ps|-1], granter, at)
  }

  // The last entry of a request that names a module, if any.
  function LastFor(ps: seq<ModulePermission>, m: ModuleName): (r: Option<ModulePermission>)
    ensures r.Some? <==> exists p :: p in ps && p.name == m
    ensures r.Some? ==> exists i :: 0 <= i < |ps| && ps[i] == r.value && forall j :: i < j < |ps| ==> ps[j].name != m
    ensures r.Some? ==> r.value in ps && r.value.name == m
    decreases |ps|
  {
    if ps == [] then None
    else
      assert ps == ps[..|ps|-1] + [ps[|ps|-1]];
      if ps[|ps|-1].name == m then Some(ps[|ps|-1]) else LastFor(ps[..|ps|-1], m)
  }

  // What a grant leaves behind: the last entry named for a module decides its row; rows
  // of other users and of unnamed modules are untouched.
  lemma {:induction false} UpsertAllRow(t: Table, recipient: UserId, ps: seq<ModulePermission>, granter: UserId, at: Millis, k: RowKey)
    ensures var r := UpsertAll(t, recipient, ps, granter, at);
            if k.user == recipient && LastFor(ps, k.name).Some?
            then k in r && r[k] == Row(LastFor(ps, k.name).value.actions, granter, at, None)
            else (k in r <==> k in t) && (k in t ==> r[k] == t[k])
    decreases |ps|
  {
    if ps != [] {
      UpsertAllRow(t, recipient, ps[..|ps|-1], granter, at, k);
    }
  }

  lemma GrantKeepsOtherViews(t: Table, recipient: UserId, ps: seq<ModulePermission>, granter: UserId, at: Millis)
    ensures forall u :: u != recipient ==> View(UpsertAll(t, recipient, ps, granter, at), u) == View(t, u)
  {
    forall u | u != recipient ensures View(UpsertAll(t, recipient, ps, granter, at), u) == View(t, u) {
      forall k: RowKey { UpsertAllRow(t, recipient, ps, granter, at, k); }
      ViewFrame(t, UpsertAll(t, recipient, ps, granter, at), u);
    }
  }

  // ---------- coverage by the granter's current row ----------

  ghost predicate ByManager(users: map<UserId, Level>, r: Row) {
    r.grantedBy in users && users[r.grantedBy].MANAGER?
  }

  // A row a manager granted holds nothing the manager's own active row does not hold.
  ghost predicate RowCovered(t: Table, users: map<UserId, Level>, k: RowKey)
    requires k in t
  {
    ByManager(users, t[k]) ==>
      var g := RowKey(t[k].grantedBy, k.name);
      Active(t, g) && forall a :: a in t[k].actions ==> a in t[g].actions
  }

  ghost predicate Covered(t: Table, users: map<UserId, Level>) {
    forall k :: Active(t, k) ==> RowCovered(t, users, k)
  }

  // The Golden Rule is checked when a row is written, and no more: a grant keeps coverage
  // exactly when its granter's row covers it and it leaves the recipient enough for what
  // the recipient granted on. A re-grant with fewer actions does not.
  lemma GrantKeepsCoverageIff(t: Table, users: map<UserId, Level>, recipient: UserId, p: ModulePermission, granter: UserId, at: Millis)
    requires Covered(t, users)
    ensures Covered(Upsert(t, recipient, p, granter, at), users) <==>
              && (granter in users && users[granter].MANAGER? && granter != recipient ==>
                    Active(t, RowKey(granter, p.name)) && forall a :: a in p.actions ==> a in t[RowKey(granter, p.name)].actions)
              && (recipient in users && users[recipient].MANAGER? ==>
                    forall k, a :: Active(t, k) && k.name == p.name && k.user != recipient && t[k].grantedBy == recipient && a in t[k].actions
                                   ==> a in p.actions)
  {
    var t1, mine := Upsert(t, recipient, p, granter, at), RowKey(recipient, p.name);
    if Covered(t1, users) {
      assert Active(t1, mine) && RowCovered(t1, users, mine);
      forall k, a | Active(t, k) && k.name == p.name && k.user != recipient && t[k].grantedBy == recipient && a in t[k].actions
                    && recipient in users && users[recipient].MANAGER?
        ensures a in p.actions
      {
        assert Active(t1, k) && RowCovered(t1, users, k);
      }
    } else {
      var k :| Active(t1, k) && !RowCovered(t1, users, k);
      if k != mine {
        assert Active(t, k) && RowCovered(t, users, k);
      }
    }
  }

  lemma CoverageIsNotKept()
    ensures exists t: Table, users: map<UserId, Level>, p: ModulePermission ::
              Covered(t, users) && "o" in users && users["o"].OWNER? && !Covered(Upsert(t, "m", p, "o", 2), users)
  {
    var users := map["o" := OWNER, "m" := MANAGER, "w" := WORKER];
    var k, g := RowKey("w", "x"), RowKey("m", "x");
    var t: Table := map[g := Row(["a"], "o", 0, None), k := Row(["a"], "m", 1, None)];
    var p := ModulePermission("x", []);
    assert "o" != "m" && "m" != "w" && "a" in t[k].actions;
    assert Covered(t, users) && "o" in users && users["o"].OWNER?;
    assert !Covered(Upsert(t, "m", p, "o", 2), users) by {
      assert Active(Upsert(t, "m", p, "o", 2), k) && !RowCovered(Upsert(t, "m", p, "o", 2), users, k);
    }
  }

  // ---------- the Golden Rule ----------

  function MissingActions(held: seq<Action>, wanted: seq<Action>): seq<Action>
    decreases |wanted|
  {
    if wanted == [] then []
    else MissingActions(held, wanted[..|wanted|-1]) + if wanted[|wanted|-1] in held then [] else [wanted[|wanted|-1]]
  }

  lemma {:induction false} MissingActionsMembers(held: seq<Action>, wanted: seq<Action>, a: Action)
    ensures a in MissingActions(held, wanted) <==> a in wanted && a !in held
    decreases |wanted|
  {
    if wanted != [] {
      MissingActionsMembers(held, wanted[..|wanted|-1], a);
      assert wanted == wanted[..|wanted|-1] + [wanted[|wanted|-1]];
    }
  }

  lemma MissingActionsEmptyIff(held: seq<Action>, wanted: seq<Action>)
    ensures MissingActions(held, wanted) == [] <==> forall a :: a in wanted ==> a in held
  {
    var r := MissingActions(held, wanted);
    if r != [] {
      assert r[0] in r;
      MissingActionsMembers(held, wanted, r[0]);
    } else {
      forall a | a in wanted ensures a in held { MissingActionsMembers(held, wanted, a); }
    }
  }

  // The entries a manager lacks, in the order asked, each cut down to the lacking actions.
  function Missing(held: Modules, ps: seq<ModulePermission>): seq<ModulePermission>
    decreases |ps|
  {
    if ps == [] then []
    else
      var last := ps[|ps|-1];
      var lacking := MissingActions(ActionsOf(held, last.name), last.actions);
      Missing(held, ps[..|ps|-1]) + if lacking == [] then [] else [ModulePermission(last.name, lacking)]
  }

  lemma MissingStep(held: Modules, ps: seq<ModulePermission>, i: nat)
    requires i < |ps|
    ensures var lacking := MissingActions(ActionsOf(held, ps[i].name), ps[i].actions);
            Missing(held, ps[..i+1]) == Missing(held, ps[..i]) + if lacking == [] then [] else [ModulePermission(ps[i].name, lacking)]
  {
    assert ps[..i+1][..i] == ps[..i];
  }

  ghost predicate Mentions(ps: seq<ModulePermission>, m: ModuleName, a: Action) {
    exists p :: p in ps && p.name == m && a in p.actions
  }

  // The missing set is exact: a pair is reported iff it was asked for and is not held,
  // and no entry is reported empty.
  lemma {:induction false} MissingExact(held: Modules, ps: seq<ModulePermission>)
    ensures forall m, a :: Mentions(Missing(held, ps), m, a) <==> Mentions(ps, m, a) && a !in ActionsOf(held, m)
    ensures forall p :: p in Missing(held, ps) ==> p.actions != []
    decreases |ps|
  {
    if ps != [] {
      var front, last := ps[..|ps|-1], ps[|ps|-1];
      assert ps == front + [last];
      MissingExact(held, front);
      var lacking := MissingActions(ActionsOf(held, last.name), last.actions);
      var tail := if lacking == [] then [] else [ModulePermission(last.name, lacking)];
      forall m, a ensures Mentions(Missing(held, ps), m, a) <==> Mentions(ps, m, a) && a !in ActionsOf(held, m) {
        MissingActionsMembers(ActionsOf(held, last.name), last.actions, a);
        MentionsConcat(Missing(held, front), tail, m, a);
        MentionsConcat(front, [last], m, a);
        assert Mentions([last], m, a) <==> last.name == m && a in last.actions by {
          if last.name == m && a in last.actions { assert last in [last]; }
        }
        assert Mentions(tail, m, a) <==> last.name == m && a in lacking by {
          if last.name == m && a in lacking { assert ModulePermission(last.name, lacking) in tail; }
        }
      }
    }
  }

  lemma MentionsConcat(ps: seq<ModulePermission>, qs: seq<ModulePermission>, m: ModuleName, a: Action)
    ensures Mentions(ps + qs, m, a) <==> Mentions(ps, m, a) || Mentions(qs, m, a)
  {
    if Mentions(ps, m, a) {
      var p :| p in ps && p.name == m && a in p.actions;
      assert p in ps + qs;
    }
    if Mentions(qs, m, a) {
      var p :| p in qs && p.name == m && a in p.actions;
      assert p in ps + qs;
    }
  }

  // The Golden Rule: nothing is missing iff every pair asked for is held.
  lemma GoldenRule(held: Modules, ps: seq<ModulePermission>)
    ensures Missing(held, ps) == [] <==> forall m, a :: Mentions(ps, m, a) ==> a in ActionsOf(held, m)
  {
    MissingExact(held, ps);
    var r := Missing(held, ps);
    if r != [] {
      var p := r[0];
      assert p in r && p.actions[0] in p.actions;
      assert Mentions(r, p.name, p.actions[0]);
    } else {
      forall m, a | Mentions(ps, m, a) ensures a in ActionsOf(held, m) {
        assert !Mentions(r, m, a);
      }
    }
  }

  // ---------- revoking ----------

  // t1 is t0 with exactly the rows of d revoked, at times between lo and hi.
  ghost predicate RevokedExactly(t0: Table, t1: Table, d: set<RowKey>, lo: Millis, hi: Millis) {
    && t1.Keys == t0.Keys
    && d <= t0.Keys
    && (forall k :: k in t0 && k !in d ==> t1[k] == t0[k])
    && (forall k :: k in d ==>
          t1[k].revokedAt.Some? && lo <= t1[k].revokedAt.value <= hi && t1[k] == t0[k].(revokedAt := t1[k].revokedAt))
  }

  lemma RevokedCompose(t0: Table, t1: Table, t2: Table, d1: set<RowKey>, d2: set<RowKey>, lo: Millis, mid: Millis, hi: Millis)
    requires RevokedExactly(t0, t1, d1, lo, mid) && RevokedExactly(t1, t2, d2, mid, hi) && lo <= mid <= hi
    ensures RevokedExactly(t0, t2, d1 + d2, lo, hi)
  {
    assert d2 <= t0.Keys;
    forall k | k in d1 + d2
      ensures t2[k].revokedAt.Some? && lo <= t2[k].revokedAt.value <= hi && t2[k] == t0[k].(revokedAt := t2[k].revokedAt)
    {
      assert k in t0;
    }
  }

  lemma RevokeOneMore(t0: Table, t1: Table, d: set<RowKey>, k: RowKey, at: Millis)
    requires RevokedExactly(t0, t1, d, at, at) && k in t1
    ensures RevokedExactly(t0, t1[k := t1[k].(revokedAt := Some(at))], d + {k}, at, at)
  {
    assert k !in d ==> t1[k] == t0[k];
  }

  // Active rows in the listed modules: the edges granter -> user of the delegation graph.
  function Edges(t: Table, names: seq<ModuleName>): set<RowKey> {
    set k | k in t && Active(t, k) && k.name in names
  }

  function OwnRows(t: Table, names: seq<ModuleName>, u: UserId): set<RowKey> {
    set k | k in Edges(t, names) && k.user == u
  }

  function OutRows(t: Table, names: seq<ModuleName>, u: UserId): set<RowKey> {
    set k | k in Edges(t, names) && t[k].grantedBy == u
  }

  ghost predicate Step(t: Table, names: seq<ModuleName>, u: UserId, v: UserId) {
    exists k :: k in OutRows(t, names, u) && k.user == v
  }

  // p is a walk along active delegations in the listed modules.
  ghost predicate Walk(t: Table, names: seq<ModuleName>, p: seq<UserId>) {
    && p != []
    && forall i :: 0 <= i < |p| - 1 ==> Step(t, names, p[i], p[i+1])
  }

  ghost predicate Reachable(t: Table, names: seq<ModuleName>, u: UserId, v: UserId) {
    exists p :: Walk(t, names, p) && p[0] == u && p[|p|-1] == v
  }

  // The rows a cascade from u has to revoke: those whose granter is reachable from u.
  ghost function CascadeSet(t: Table, names: seq<ModuleName>, u: UserId): set<RowKey> {
    set k | k in Edges(t, names) && Reachable(t, names, u, t[k].grantedBy)
  }

  lemma ReachableSelf(t: Table, names: seq<ModuleName>, u: UserId)
    ensures Reachable(t, names, u, u)
  {
    assert Walk(t, names, [u]);
  }

  lemma ReachableStep(t: Table, names: seq<ModuleName>, u: UserId, k: RowKey)
    requires k in CascadeSet(t, names, u)
    ensures Reachable(t, names, u, k.user)
  {
    var p :| Walk(t, names, p) && p[0] == u && p[|p|-1] == t[k].grantedBy;
    assert k in OutRows(t, names, p[|p|-1]);
    assert Walk(t, names, p + [k.user]);
  }

  lemma ReachableTransitive(t: Table, names: seq<ModuleName>, u: UserId, v: UserId, w: UserId)
    requires Reachable(t, names, u, v) && Reachable(t, names, v, w)
    ensures Reachable(t, names, u, w)
  {
    var p :| Walk(t, names, p) && p[0] == u && p[|p|-1] == v;
    var q :| Walk(t, names, q) && q[0] == v && q[|q|-1] == w;
    var r := p + q[1..];
    forall i | 0 <= i < |r| - 1 ensures Step(t, names, r[i], r[i+1]) {
      if i >= |p| - 1 {
        var j := i - (|p| - 1);
        assert r[i] == q[j] && r[i+1] == q[j+1];
      }
    }
    assert Walk(t, names, r) && r[|r|-1] == w;
  }

  // Revoking rows only removes edges, so it only removes reachability.
  lemma ReachableMonotone(t0: Table, t1: Table, names: seq<ModuleName>, u: UserId, v: UserId)
    requires Reachable(t1, names, u, v)
    requires forall k :: k in Edges(t1, names) ==> k in Edges(t0, names) && t0[k].grantedBy == t1[k].grantedBy
    ensures Reachable(t0, names, u, v)
  {
    var p :| Walk(t1, names, p) && p[0] == u && p[|p|-1] == v;
    forall i | 0 <= i < |p| - 1 ensures Step(t0, names, p[i], p[i+1]) {
      assert Step(t1, names, p[i], p[i+1]);
      var k :| k in OutRows(t1, names, p[i]) && k.user == p[i+1];
      assert k in OutRows(t0, names, p[i]);
    }
    assert Walk(t0, names, p);
  }

  // A set of edges that holds u's grants and the grants of everyone it reaches is complete.
  ghost predicate ClosedFrom(t: Table, names: seq<ModuleName>, u: UserId, d: set<RowKey>) {
    && OutRows(t, names, u) <= d
    && forall k :: k in d ==> OutRows(t, names, k.user) <= d
  }

  lemma {:induction false} ClosedCoversWalk(t: Table, names: seq<ModuleName>, u: UserId, d: set<RowKey>, p: seq<UserId>)
    requires ClosedFrom(t, names, u, d)
    requires Walk(t, names, p) && p[0] == u
    ensures OutRows(t, names, p[|p|-1]) <= d
    decreases |p|
  {
    if |p| > 1 {
      var q := p[..|p|-1];
      assert Walk(t, names, q);
      ClosedCoversWalk(t, names, u, d, q);
      assert Step(t, names, p[|p|-2], p[|p|-1]);
    }
  }

  lemma ClosedCoversCascade(t: Table, names: seq<ModuleName>, u: UserId, d: set<RowKey>)
    requires ClosedFrom(t, names, u, d)
    ensures CascadeSet(t, names, u) <= d
  {
    forall k | k in CascadeSet(t, names, u) ensures k in d {
      var p :| Walk(t, names, p) && p[0] == u && p[|p|-1] == t[k].grantedBy;
      ClosedCoversWalk(t, names, u, d, p);
      assert k in OutRows(t, names, p[|p|-1]);
    }
  }

  lemma CascadeIsClosed(t: Table, names: seq<ModuleName>, u: UserId)
    ensures ClosedFrom(t, names, u, CascadeSet(t, names, u))
  {
    ReachableSelf(t, names, u);
    forall k, e | k in CascadeSet(t, names, u) && e in OutRows(t, names, k.user)
      ensures e in CascadeSet(t, names, u)
    {
      ReachableStep(t, names, u, k);
    }
  }

  // A listed row that is not revoked and was granted by u, or by a user with a row in d, is in d.
  ghost predicate HandedDown(t: Table, names: seq<ModuleName>, u: UserId, d: set<RowKey>) {
    forall k :: k in t && t[k].revokedAt == None && k.name in names && (t[k].grantedBy == u || HoldsIn(d, t[k].grantedBy)) ==> k in d
  }

  ghost predicate HoldsIn(d: set<RowKey>, u: UserId) {
    exists k :: k in d && k.user == u
  }

  lemma HandedDownIsClosed(t: Table, names: seq<ModuleName>, u: UserId, d: set<RowKey>)
    requires HandedDown(t, names, u, d)
    ensures ClosedFrom(t, names, u, d)
  {
    forall k, e | k in d && e in OutRows(t, names, k.user) ensures e in d {
      assert HoldsIn(d, t[e].grantedBy);
    }
  }

  // The cascade from u is the least set that what was handed down by u stays within. A
  // revocation takes the user's own listed rows besides.
  lemma CascadeIsLeast(t: Table, names: seq<ModuleName>, u: UserId, d: set<RowKey>)
    ensures HandedDown(t, names, u, CascadeSet(t, names, u))
    ensures HandedDown(t, names, u, d) ==> CascadeSet(t, names, u) <= d
    ensures OwnRows(t, names, u) == set k | k in t && k.user == u && k.name in names && t[k].revokedAt == None
  {
    var c := CascadeSet(t, names, u);
    CascadeIsClosed(t, names, u);
    forall k | k in t && t[k].revokedAt == None && k.name in names && (t[k].grantedBy == u || HoldsIn(c, t[k].grantedBy)) ensures k in c {
      if t[k].grantedBy != u {
        var e :| e in c && e.user == t[k].grantedBy;
        assert k in OutRows(t, names, e.user);
      } else {
        assert k in OutRows(t, names, u);
      }
    }
    if HandedDown(t, names, u, d) {
      HandedDownIsClosed(t, names, u, d);
      ClosedCoversCascade(t, names, u, d);
    }
  }

  // ---------- the cascade, step by step ----------

  lemma EdgesAfterRevoke(t0: Table, t1: Table, names: seq<ModuleName>, d: set<RowKey>, lo: Millis, hi: Millis)
    requires RevokedExactly(t0, t1, d, lo, hi)
    ensures Edges(t1, names) == Edges(t0, names) - d
    ensures forall k :: k in t0 ==> t1[k].grantedBy == t0[k].grantedBy
  {
    forall k ensures k in Edges(t1, names) <==> k in Edges(t0, names) - d {
      if k in d { assert t1[k].revokedAt.Some?; }
    }
  }

  // With the rows of d already gone, a further cascade from a reachable user v stays
  // within the cascade from u and completes the grants of v and of everyone it reaches.
  lemma CascadeFrom(t0: Table, t1: Table, names: seq<ModuleName>, u: UserId, d: set<RowKey>, v: UserId, lo: Millis, hi: Millis)
    requires RevokedExactly(t0, t1, d, lo, hi)
    requires Reachable(t0, names, u, v)
    ensures CascadeSet(t1, names, v) <= CascadeSet(t0, names, u)
    ensures OutRows(t0, names, v) <= d + CascadeSet(t1, names, v)
    ensures forall k :: k in CascadeSet(t1, names, v) ==> OutRows(t0, names, k.user) <= d + CascadeSet(t1, names, v)
  {
    EdgesAfterRevoke(t0, t1, names, d, lo, hi);
    forall k | k in CascadeSet(t1, names, v) ensures k in CascadeSet(t0, names, u) {
      ReachableMonotone(t0, t1, names, v, t1[k].grantedBy);
      ReachableTransitive(t0, names, u, v, t0[k].grantedBy);
    }
    CascadeIsClosed(t1, names, v);
    forall w, e | OutRows(t1, names, w) <= CascadeSet(t1, names, v) && e in OutRows(t0, names, w)
      ensures e in d + CascadeSet(t1, names, v)
    {
      if e !in d { assert e in OutRows(t1, names, w); }
    }
  }

  // The users who held the rows of d.
  function Holders(d: set<RowKey>): set<UserId> {
    set k | k in d :: k.user
  }

  // What the traversal keeps: d was due to go, and whoever held a row of d has lost all
  // their own grants already or is still to be visited.
  ghost predicate CascadeProgress(t: Table, names: seq<ModuleName>, u: UserId, d: set<RowKey>, pending: seq<UserId>) {
    && d <= CascadeSet(t, names, u)
    && forall k :: k in d ==> k.user in pending || OutRows(t, names, k.user) <= d
  }

  lemma CascadeStart(t: Table, names: seq<ModuleName>, u: UserId, affected: seq<UserId>)
    requires Elems(affected) == Holders(OutRows(t, names, u))
    ensures CascadeProgress(t, names, u, OutRows(t, names, u), affected)
  {
    ReachableSelf(t, names, u);
    forall k | k in OutRows(t, names, u) ensures k.user in affected {
      assert k.user in Holders(OutRows(t, names, u));
    }
  }

  // A user still to be visited holds a row that is due to go.
  lemma PendingReachable(t: Table, names: seq<ModuleName>, u: UserId, v: UserId)
    requires v in Holders(OutRows(t, names, u))
    ensures Reachable(t, names, u, v)
  {
    var k :| k in OutRows(t, names, u) && k.user == v;
    ReachableSelf(t, names, u);
    ReachableStep(t, names, u, k);
  }

  // One visit: from t0 the rows d are gone in t1, and the visit of the first pending user
  // takes t1 to t2.
  lemma CascadeAdvance(t0: Table, t1: Table, t2: Table, names: seq<ModuleName>, u: UserId, d: set<RowKey>, pending: seq<UserId>,
                       lo: Millis, mid: Millis, hi: Millis)
    requires lo <= mid <= hi && RevokedExactly(t0, t1, d, lo, mid)
    requires pending != [] && pending[0] in Holders(OutRows(t0, names, u)) && CascadeProgress(t0, names, u, d, pending)
    requires RevokedExactly(t1, t2, CascadeSet(t1, names, pending[0]), mid, hi)
    ensures RevokedExactly(t0, t2, d + CascadeSet(t1, names, pending[0]), lo, hi)
    ensures CascadeProgress(t0, names, u, d + CascadeSet(t1, names, pending[0]), pending[1..])
    ensures Holders(d + CascadeSet(t1, names, pending[0])) == Holders(d) + Holders(CascadeSet(t1, names, pending[0]))
  {
    PendingReachable(t0, names, u, pending[0]);
    RevokedCompose(t0, t1, t2, d, CascadeSet(t1, names, pending[0]), lo, mid, hi);
    CascadeStep(t0, t1, names, u, d, pending, lo, mid);
  }

  lemma CascadeStep(t0: Table, t1: Table, names: seq<ModuleName>, u: UserId, d: set<RowKey>, pending: seq<UserId>, lo: Millis, hi: Millis)
    requires RevokedExactly(t0, t1, d, lo, hi)
    requires pending != [] && Reachable(t0, names, u, pending[0])
    requires CascadeProgress(t0, names, u, d, pending)
    ensures CascadeProgress(t0, names, u, d + CascadeSet(t1, names, pending[0]), pending[1..])
  {
    var v := pending[0];
    CascadeFrom(t0, t1, names, u, d, v, lo, hi);
    forall k | k in d + CascadeSet(t1, names, v)
      ensures k.user in pending[1..] || OutRows(t0, names, k.user) <= d + CascadeSet(t1, names, v)
    {
      assert pending == [v] + pending[1..];
    }
  }

  // Termination: once u's grants are gone, fewer active rows of the listed modules remain.
  lemma CascadeShrinks(t0: Table, t1: Table, names: seq<ModuleName>, u: UserId, d: set<RowKey>, lo: Millis, hi: Millis)
    requires RevokedExactly(t0, t1, d, lo, hi)
    requires OutRows(t0, names, u) <= d && OutRows(t0, names, u) != {}
    ensures Edges(t1, names) < Edges(t0, names)
  {
    EdgesAfterRevoke(t0, t1, names, d, lo, hi);
    var k :| k in OutRows(t0, names, u);
    assert k in Edges(t0, names) && k !in Edges(t1, names);
  }

  // Revoking u's own rows first changes nothing about what the cascade from u covers.
  lemma OwnRowsDoNotMatter(t0: Table, t1: Table, names: seq<ModuleName>, u: UserId, lo: Millis, hi: Millis)
    requires RevokedExactly(t0, t1, OwnRows(t0, names, u), lo, hi)
    ensures CascadeSet(t1, names, u) == CascadeSet(t0, names, u) - OwnRows(t0, names, u)
  {
    var own := OwnRows(t0, names, u);
    ReachableSelf(t0, names, u);
    CascadeFrom(t0, t1, names, u, own, u, lo, hi);
    assert ClosedFrom(t0, names, u, own + CascadeSet(t1, names, u));
    ClosedCoversCascade(t0, names, u, own + CascadeSet(t1, names, u));
    EdgesAfterRevoke(t0, t1, names, own, lo, hi);
  }

  // Revoking rows of the listed users leaves everybody else's view alone.
  lemma OtherViewsKept(t0: Table, t1: Table, d: set<RowKey>, lo: Millis, hi: Millis, us: set<UserId>)
    requires RevokedExactly(t0, t1, d, lo, hi)
    requires forall k :: k in d ==> k.user in us
    ensures forall u :: u !in us ==> View(t1, u) == View(t0, u)
  {
    forall u | u !in us ensures View(t1, u) == View(t0, u) {
      ViewFrame(t0, t1, u);
    }
  }

  // The table with the rows of d out of the way.
  function Gone(t: Table, d: set<RowKey>): Table {
    map k | k in t && k !in d :: t[k]
  }

  // Revoked rows and absent rows look alike to a view.
  lemma ViewGone(t0: Table, t1: Table, d1: set<RowKey>, d: set<RowKey>, lo: Millis, hi: Millis, u: UserId)
    requires RevokedExactly(t0, t1, d1, lo, hi)
    ensures View(Gone(t1, d), u) == View(Gone(t0, d1 + d), u)
  {
    var a, b := Gone(t1, d), Gone(t0, d1 + d);
    forall m: ModuleName ensures m in View(a, u) <==> m in View(b, u)
      ensures m in View(a, u) && m in View(b, u) ==> View(a, u)[m] == View(b, u)[m]
    {
      ViewOf(a, u, m);
      ViewOf(b, u, m);
      assert RowKey(u, m) in d1 ==> t1[RowKey(u, m)].revokedAt.Some?;
    }
  }

  lemma ViewRevoked(t0: Table, t1: Table, d: set<RowKey>, lo: Millis, hi: Millis, u: UserId)
    requires RevokedExactly(t0, t1, d, lo, hi)
    ensures View(t1, u) == View(Gone(t0, d), u) && View(t0, u) == View(Gone(t0, {}), u)
  {
    assert Gone(t1, {}) == t1 && Gone(t0, {}) == t0 && d + {} == d;
    ViewGone(t0, t1, d, {}, lo, hi, u);
  }

  // The whole revocation: u's own rows take t0 to t1, the cascade takes t1 to t2.
  lemma RevokeFinish(t0: Table, t1: Table, t2: Table, names: seq<ModuleName>, u: UserId, lo: Millis, mid: Millis, hi: Millis)
    requires lo <= mid <= hi && RevokedExactly(t0, t1, OwnRows(t0, names, u), lo, mid)
    requires RevokedExactly(t1, t2, CascadeSet(t1, names, u), mid, hi)
    ensures RevokedExactly(t0, t2, OwnRows(t0, names, u) + CascadeSet(t0, names, u), lo, hi)
    ensures CascadeSet(t1, names, u) == CascadeSet(t0, names, u) - OwnRows(t0, names, u)
    ensures View(t2, u) == View(t1, u)
  {
    OwnRowsDoNotMatter(t0, t1, names, u, lo, mid);
    RevokedCompose(t0, t1, t2, OwnRows(t0, names, u), CascadeSet(t1, names, u), lo, mid, hi);
    assert OwnRows(t0, names, u) + CascadeSet(t1, names, u) == OwnRows(t0, names, u) + CascadeSet(t0, names, u);
    EdgesAfterRevoke(t0, t1, names, OwnRows(t0, names, u), lo, mid);
    forall k | k in CascadeSet(t1, names, u) ensures k.user != u {
      assert k in Edges(t1, names);
    }
    OtherViewsKept(t1, t2, CascadeSet(t1, names, u), mid, hi, Holders(CascadeSet(t1, names, u)));
  }

  // After a revocation nothing it should have taken is left: revoking again finds no row.
  lemma RevokeIsComplete(t0: Table, t1: Table, names: seq<ModuleName>, u: UserId, lo: Millis, hi: Millis)
    requires RevokedExactly(t0, t1, OwnRows(t0, names, u) + CascadeSet(t0, names, u), lo, hi)
    ensures OwnRows(t1, names, u) == {} && CascadeSet(t1, names, u) == {}
  {
    EdgesAfterRevoke(t0, t1, names, OwnRows(t0, names, u) + CascadeSet(t0, names, u), lo, hi);
    CascadeMonotone(t0, t1, names, u);
  }

  // Nobody the revocation reaches keeps a listed module they held through it.
  lemma RevokedModulesAreGone(t0: Table, t1: Table, names: seq<ModuleName>, u: UserId, lo: Millis, hi: Millis)
    requires RevokedExactly(t0, t1, OwnRows(t0, names, u) + CascadeSet(t0, names, u), lo, hi)
    ensures forall m :: m in names ==> m !in View(t1, u)
    ensures forall k :: k in CascadeSet(t0, names, u) ==> k.name !in View(t1, k.user)
  {
    RevokeIsComplete(t0, t1, names, u, lo, hi);
    forall m | m in names ensures m !in View(t1, u) {
      ViewOf(t1, u, m);
      assert Active(t1, RowKey(u, m)) ==> RowKey(u, m) in OwnRows(t1, names, u);
    }
    forall k | k in CascadeSet(t0, names, u) ensures k.name !in View(t1, k.user) {
      ViewOf(t1, k.user, k.name);
    }
  }

  // Every other module of every other user stays as it was.
  lemma OtherModulesKept(t0: Table, t1: Table, names: seq<ModuleName>, u: UserId, lo: Millis, hi: Millis, k: RowKey)
    requires RevokedExactly(t0, t1, OwnRows(t0, names, u) + CascadeSet(t0, names, u), lo, hi)
    requires k !in OwnRows(t0, names, u) + CascadeSet(t0, names, u)
    ensures k.name in View(t1, k.user) <==> k.name in View(t0, k.user)
    ensures ActionsOf(View(t1, k.user), k.name) == ActionsOf(View(t0, k.user), k.name)
  {
    ViewOf(t0, k.user, k.name);
    ViewOf(t1, k.user, k.name);
  }

  // What the cascade is for: a table whose rows are covered stays so through a revocation.
  lemma RevokeKeepsCoverage(t0: Table, t1: Table, users: map<UserId, Level>, names: seq<ModuleName>, u: UserId, lo: Millis, hi: Millis)
    requires RevokedExactly(t0, t1, OwnRows(t0, names, u) + CascadeSet(t0, names, u), lo, hi)
    ensures Covered(t0, users) ==> Covered(t1, users)
  {
    CascadeIsClosed(t0, names, u);
    var gone := OwnRows(t0, names, u) + CascadeSet(t0, names, u);
    forall k | Covered(t0, users) && Active(t1, k) ensures RowCovered(t1, users, k) {
      assert k !in gone && Active(t0, k) && RowCovered(t0, users, k);
      var g := RowKey(t0[k].grantedBy, k.name);
      assert g in gone ==> k in OutRows(t0, names, g.user);
    }
  }

  lemma CascadeMonotone(t0: Table, t1: Table, names: seq<ModuleName>, u: UserId)
    requires forall k :: k in Edges(t1, names) ==> k in Edges(t0, names) && t0[k].grantedBy == t1[k].grantedBy
    ensures CascadeSet(t1, names, u) <= CascadeSet(t0, names, u)
  {
    forall k | k in CascadeSet(t1, names, u) ensures k in CascadeSet(t0, names, u) {
      ReachableMonotone(t0, t1, names, u, t1[k].grantedBy);
    }
  }

  // Revoking two lists together takes at least what revoking each alone would take.
  lemma CascadeOfUnion(t: Table, names: seq<ModuleName>, more: seq<ModuleName>, u: UserId)
    ensures CascadeSet(t, names, u) + CascadeSet(t, more, u) <= CascadeSet(t, names + more, u)
  {
    forall k | k in CascadeSet(t, names, u) ensures k in CascadeSet(t, names + more, u) {
      WalkWiden(t, names, names + more, u, t[k].grantedBy);
    }
    forall k | k in CascadeSet(t, more, u) ensures k in CascadeSet(t, names + more, u) {
      WalkWiden(t, more, names + more, u, t[k].grantedBy);
    }
  }

  lemma WalkWiden(t: Table, names: seq<ModuleName>, wider: seq<ModuleName>, u: UserId, v: UserId)
    requires Reachable(t, names, u, v) && Elems(names) <= Elems(wider)
    ensures Reachable(t, wider, u, v)
  {
    var p :| Walk(t, names, p) && p[0] == u && p[|p|-1] == v;
    forall i | 0 <= i < |p| - 1 ensures Step(t, wider, p[i], p[i+1]) {
      assert Step(t, names, p[i], p[i+1]);
      var k :| k in OutRows(t, names, p[i]) && k.user == p[i+1];
      assert k.name in Elems(names);
      assert k in OutRows(t, wider, p[i]);
    }
    assert Walk(t, wider, p);
  }

  // It takes exactly that much when what the two take apart is closed already: when nobody
  // who loses a row granted a row of either list that stays. Otherwise it takes more.
  lemma CascadeOfUnionIff(t: Table, names: seq<ModuleName>, more: seq<ModuleName>, u: UserId)
    ensures var apart := CascadeSet(t, names, u) + CascadeSet(t, more, u);
            CascadeSet(t, names + more, u) == apart <==> forall k :: k in apart ==> OutRows(t, names + more, k.user) <= apart
  {
    var both, apart := names + more, CascadeSet(t, names, u) + CascadeSet(t, more, u);
    CascadeOfUnion(t, names, more, u);
    if forall k :: k in apart ==> OutRows(t, both, k.user) <= apart {
      CascadeIsClosed(t, names, u);
      CascadeIsClosed(t, more, u);
      assert OutRows(t, both, u) <= OutRows(t, names, u) + OutRows(t, more, u);
      ClosedCoversCascade(t, both, u, apart);
    } else {
      CascadeIsClosed(t, both, u);
    }
  }

  // Whoever granted a row that goes is the user being revoked or loses a listed module too.
  lemma GranterLosesToo(t: Table, names: seq<ModuleName>, u: UserId, k: RowKey)
    requires k in CascadeSet(t, names, u) && t[k].grantedBy != u
    ensures exists e :: e in CascadeSet(t, names, u) && e.user == t[k].grantedBy
  {
    var p :| Walk(t, names, p) && p[0] == u && p[|p|-1] == t[k].grantedBy;
    var q := p[..|p|-1];
    assert Step(t, names, p[|p|-2], p[|p|-2+1]);
    var e :| e in OutRows(t, names, p[|p|-2]) && e.user == t[k].grantedBy;
    assert forall i :: 0 <= i < |q| - 1 ==> Step(t, names, p[i], p[i+1]);
    assert Walk(t, names, q) && q[|q|-1] == t[e].grantedBy;
  }

  // With one module listed that is the very module: nobody loses it whose granter keeps it.
  lemma GranterLosesTheModule(t: Table, name: ModuleName, u: UserId, k: RowKey)
    requires k in CascadeSet(t, [name], u) && t[k].grantedBy != u
    ensures RowKey(t[k].grantedBy, name) in CascadeSet(t, [name], u)
  {
    GranterLosesToo(t, [name], u, k);
    var e :| e in CascadeSet(t, [name], u) && e.user == t[k].grantedBy;
    assert e.name == name;
  }

  // k goes although its granter keeps the module.
  ghost predicate LosesWhatGranterKeeps(t: Table, names: seq<ModuleName>, u: UserId, k: RowKey) {
    && k in CascadeSet(t, names, u) && t[k].grantedBy != u
    && Active(t, RowKey(t[k].grantedBy, k.name))
    && RowKey(t[k].grantedBy, k.name) !in OwnRows(t, names, u) + CascadeSet(t, names, u)
  }

  // u gave v the module x; an owner o gave v the module y, which v handed on to w.
  ghost predicate ChainOfTwo(t: Table, u: UserId, v: UserId, w: UserId, o: UserId, x: ModuleName, y: ModuleName) {
    && u != v && u != w && v != w && o != u && o != v && o != w && x != y
    && t.Keys == {RowKey(u, x), RowKey(v, x), RowKey(v, y), RowKey(w, y)} && (forall k :: k in t ==> Active(t, k))
    && t[RowKey(u, x)].grantedBy == o && t[RowKey(v, x)].grantedBy == u
    && t[RowKey(v, y)].grantedBy == o && t[RowKey(w, y)].grantedBy == v
  }

  lemma ChainOfTwoApart(t: Table, u: UserId, v: UserId, w: UserId, o: UserId, x: ModuleName, y: ModuleName)
    requires ChainOfTwo(t, u, v, w, o, x, y)
    ensures RowKey(w, y) !in CascadeSet(t, [x], u) + CascadeSet(t, [y], u)
  {
    ClosedCoversCascade(t, [x], u, {RowKey(v, x)});
    ClosedCoversCascade(t, [y], u, {});
  }

  lemma ChainOfTwoTogether(t: Table, u: UserId, v: UserId, w: UserId, o: UserId, x: ModuleName, y: ModuleName)
    requires ChainOfTwo(t, u, v, w, o, x, y)
    ensures LosesWhatGranterKeeps(t, [x] + [y], u, RowKey(w, y))
  {
    var both := [x] + [y];
    assert RowKey(v, x) in OutRows(t, both, u);
    ReachableSelf(t, both, u);
    ReachableStep(t, both, u, RowKey(v, x));
    assert RowKey(w, y) in CascadeSet(t, both, u);
    ClosedCoversCascade(t, both, u, {RowKey(v, x), RowKey(w, y)});
  }

  function ChainTable(u: UserId, v: UserId, w: UserId, o: UserId, x: ModuleName, y: ModuleName): Table {
    map[RowKey(u, x) := Row(["read"], o, 0, None), RowKey(v, x) := Row(["read"], u, 1, None),
        RowKey(v, y) := Row(["write"], o, 2, None), RowKey(w, y) := Row(["write"], v, 3, None)]
  }

  lemma ChainTableIsChain(u: UserId, v: UserId, w: UserId, o: UserId, x: ModuleName, y: ModuleName)
    requires u != v && u != w && v != w && o != u && o != v && o != w && x != y
    ensures ChainOfTwo(ChainTable(u, v, w, o, x, y), u, v, w, o, x, y)
    ensures Covered(ChainTable(u, v, w, o, x, y), map[o := OWNER, u := MANAGER, v := MANAGER, w := WORKER])
    ensures RowKey(w, y) in ChainTable(u, v, w, o, x, y) && ChainTable(u, v, w, o, x, y)[RowKey(w, y)].actions != []
  {
    var t := ChainTable(u, v, w, o, x, y);
    assert RowKey(u, x) != RowKey(v, x) && RowKey(v, x) != RowKey(v, y) && RowKey(v, y) != RowKey(w, y) && RowKey(u, x) != RowKey(w, y);
  }

  // Revoking x and y together takes k, which its granter keeps and which revoking x and
  // revoking y leave alone.
  ghost predicate TakesMoreTogether(t: Table, u: UserId, x: ModuleName, y: ModuleName, k: RowKey) {
    && LosesWhatGranterKeeps(t, [x] + [y], u, k)
    && k !in CascadeSet(t, [x], u) + CascadeSet(t, [y], u)
  }

  lemma ChainTakesMore(u: UserId, v: UserId, w: UserId, o: UserId, x: ModuleName, y: ModuleName)
    requires u != v && u != w && v != w && o != u && o != v && o != w && x != y
    ensures TakesMoreTogether(ChainTable(u, v, w, o, x, y), u, x, y, RowKey(w, y))
  {
    ChainTableIsChain(u, v, w, o, x, y);
    ChainOfTwoApart(ChainTable(u, v, w, o, x, y), u, v, w, o, x, y);
    ChainOfTwoTogether(ChainTable(u, v, w, o, x, y), u, v, w, o, x, y);
  }

  // With two modules listed it need not be: in a table whose every row is covered, revoking x
  // and y from u can take y from w, while v, who gave it and got it from an owner, keeps it.
  lemma CascadeIsNotPerModule(u: UserId, v: UserId, w: UserId, o: UserId, x: ModuleName, y: ModuleName)
    requires u != v && u != w && v != w && o != u && o != v && o != w && x != y
    ensures exists t: Table, users: map<UserId, Level> ::
              && Covered(t, users) && RowKey(w, y) in t && t[RowKey(w, y)].actions != [] && t[RowKey(w, y)].grantedBy == v
              && TakesMoreTogether(t, u, x, y, RowKey(w, y))
  {
    ChainTableIsChain(u, v, w, o, x, y);
    ChainTakesMore(u, v, w, o, x, y);
    assert TakesMoreTogether(ChainTable(u, v, w, o, x, y), u, x, y, RowKey(w, y));
  }
}
