/**
 The audit records of permission changes, and what the ones a cascade leaves behind hold.
 */
module Snapshots {
  import opened Common
  import opened Grants

  datatype Reason = PERMISSION_GRANT | PERMISSION_REVOKE | CASCADE_REVOKE

  datatype Snapshot = Snapshot(user: UserId, modules: Modules, reason: Reason)

  // `after` extends `before` and records a cascade revocation for each of `who`.
  ghost predicate Recorded(before: seq<Snapshot>, after: seq<Snapshot>, who: set<UserId>) {
    && before <= after
    && forall v :: v in who ==> exists i :: |before| <= i < |after| && after[i].user == v && after[i].reason == CASCADE_REVOKE
  }

  lemma RecordedCompose(a: seq<Snapshot>, b: seq<Snapshot>, c: seq<Snapshot>, v: set<UserId>, w: set<UserId>)
    requires Recorded(a, b, v) && Recorded(b, c, w)
    ensures Recorded(a, c, v + w)
    ensures forall x: set<UserId> :: x == v + w ==> Recorded(a, c, x)
  {
    forall u | u in v + w ensures exists i :: |a| <= i < |c| && c[i].user == u && c[i].reason == CASCADE_REVOKE {
      if u in v {
        var i :| |a| <= i < |b| && b[i].user == u && b[i].reason == CASCADE_REVOKE;
        assert c[i] == b[i];
      }
    }
  }

  // What a cascade snapshot of v holds, in terms of the table t the whole operation started
  // from: the view from before or after one level, the level of a user w that u reaches,
  // begun with the rows of d out of the way; v lost a row at that level.
  ghost predicate FromLevel(v: UserId, modules: Modules, t: Table, names: seq<ModuleName>, u: UserId, d: set<RowKey>, w: UserId) {
    && Reachable(t, names, u, w)
    && v in Holders(OutRows(t, names, w) - d)
    && (modules == View(Gone(t, d), v) || modules == View(Gone(t, d + OutRows(t, names, w)), v))
  }

  ghost predicate CascadeSnapshot(s: Snapshot, t: Table, names: seq<ModuleName>, u: UserId, due: set<RowKey>) {
    s.reason == CASCADE_REVOKE && exists d, w :: d <= due && FromLevel(s.user, s.modules, t, names, u, d, w)
  }

  // Everything `after` adds to `before` is such a snapshot.
  ghost predicate Explained(before: seq<Snapshot>, after: seq<Snapshot>, t: Table, names: seq<ModuleName>, u: UserId, due: set<RowKey>) {
    |before| <= |after| && forall i :: |before| <= i < |after| ==> CascadeSnapshot(after[i], t, names, u, due)
  }

  lemma OutRowsLeft(t0: Table, t1: Table, names: seq<ModuleName>, d1: set<RowKey>, d: set<RowKey>, w: UserId, lo: Millis, hi: Millis)
    requires RevokedExactly(t0, t1, d1, lo, hi)
    ensures OutRows(t1, names, w) - d == OutRows(t0, names, w) - (d1 + d)
    ensures d1 + (d + OutRows(t1, names, w)) == (d1 + d) + OutRows(t0, names, w)
  {
    EdgesAfterRevoke(t0, t1, names, d1, lo, hi);
    assert OutRows(t1, names, w) == OutRows(t0, names, w) - d1;
  }

  lemma ReachableAcross(t0: Table, t1: Table, names: seq<ModuleName>, d1: set<RowKey>, u: UserId, v: UserId, w: UserId, lo: Millis, hi: Millis)
    requires RevokedExactly(t0, t1, d1, lo, hi) && Reachable(t0, names, u, v) && Reachable(t1, names, v, w)
    ensures Reachable(t0, names, u, w)
  {
    EdgesAfterRevoke(t0, t1, names, d1, lo, hi);
    ReachableMonotone(t0, t1, names, v, w);
    ReachableTransitive(t0, names, u, v, w);
  }

  // A level of a cascade from v, run once the rows of d1 are gone, is a level of the cascade
  // from u.
  lemma LevelLifts(x: UserId, modules: Modules, t0: Table, t1: Table, names: seq<ModuleName>, u: UserId, v: UserId,
                   d1: set<RowKey>, d: set<RowKey>, w: UserId, lo: Millis, hi: Millis)
    requires RevokedExactly(t0, t1, d1, lo, hi) && Reachable(t0, names, u, v)
    requires FromLevel(x, modules, t1, names, v, d, w)
    ensures FromLevel(x, modules, t0, names, u, d1 + d, w)
  {
    ReachableAcross(t0, t1, names, d1, u, v, w, lo, hi);
    OutRowsLeft(t0, t1, names, d1, d, w, lo, hi);
    ViewGone(t0, t1, d1, d, lo, hi, x);
    ViewGone(t0, t1, d1, d + OutRows(t1, names, w), lo, hi, x);
  }

  lemma SnapshotLifts(s: Snapshot, t0: Table, t1: Table, names: seq<ModuleName>, u: UserId, v: UserId, d1: set<RowKey>,
                      due: set<RowKey>, all: set<RowKey>, lo: Millis, hi: Millis)
    requires RevokedExactly(t0, t1, d1, lo, hi) && Reachable(t0, names, u, v)
    requires CascadeSnapshot(s, t1, names, v, due) && d1 + due <= all
    ensures CascadeSnapshot(s, t0, names, u, all)
  {
    var d, w :| d <= due && FromLevel(s.user, s.modules, t1, names, v, d, w);
    LevelLifts(s.user, s.modules, t0, t1, names, u, v, d1, d, w, lo, hi);
    assert d1 + d <= all;
  }

  lemma ExplainedLifts(before: seq<Snapshot>, after: seq<Snapshot>, t0: Table, t1: Table, names: seq<ModuleName>, u: UserId, v: UserId,
                       d1: set<RowKey>, due: set<RowKey>, all: set<RowKey>, lo: Millis, hi: Millis)
    requires RevokedExactly(t0, t1, d1, lo, hi) && Reachable(t0, names, u, v)
    requires Explained(before, after, t1, names, v, due) && d1 + due <= all
    ensures Explained(before, after, t0, names, u, all)
  {
    forall i | |before| <= i < |after| ensures CascadeSnapshot(after[i], t0, names, u, all) {
      SnapshotLifts(after[i], t0, t1, names, u, v, d1, due, all, lo, hi);
    }
  }

  lemma ExplainedCompose(a: seq<Snapshot>, b: seq<Snapshot>, c: seq<Snapshot>, t: Table, names: seq<ModuleName>, u: UserId, due: set<RowKey>)
    requires b <= c && Explained(a, b, t, names, u, due) && Explained(b, c, t, names, u, due)
    ensures Explained(a, c, t, names, u, due)
  {
    forall i | |a| <= i < |c| ensures CascadeSnapshot(c[i], t, names, u, due) {
      if i < |b| { assert c[i] == b[i]; }
    }
  }

  // The snapshots of one level.
  ghost predicate LevelSnapshots(before: seq<Snapshot>, after: seq<Snapshot>, t0: Table, t1: Table, who: set<UserId>) {
    |before| <= |after| &&
    forall i :: |before| <= i < |after| ==>
      && after[i].user in who && after[i].reason == CASCADE_REVOKE
      && (after[i].modules == View(t0, after[i].user) || after[i].modules == View(t1, after[i].user))
  }

  lemma OneSnapshot(before: seq<Snapshot>, after: seq<Snapshot>, t0: Table, t1: Table, who: set<UserId>, v: UserId)
    requires |after| == |before| + 1 && after[..|before|] == before && v in who
    requires var s := after[|before|];
             s.user == v && s.reason == CASCADE_REVOKE && (s.modules == View(t0, v) || s.modules == View(t1, v))
    ensures Recorded(before, after, {v}) && LevelSnapshots(before, after, t0, t1, who)
  {
  }

  lemma LevelSnapshotsCompose(a: seq<Snapshot>, b: seq<Snapshot>, c: seq<Snapshot>, t0: Table, t1: Table, who: set<UserId>)
    requires b <= c && LevelSnapshots(a, b, t0, t1, who) && LevelSnapshots(b, c, t0, t1, who)
    ensures LevelSnapshots(a, c, t0, t1, who)
  {
    forall i | |a| <= i < |c|
      ensures c[i].user in who && c[i].reason == CASCADE_REVOKE && (c[i].modules == View(t0, c[i].user) || c[i].modules == View(t1, c[i].user))
    {
      if i < |b| { assert c[i] == b[i]; }
    }
  }

  // The first level of a cascade begins with nothing out of the way.
  lemma FirstLevel(v: UserId, modules: Modules, t0: Table, t1: Table, names: seq<ModuleName>, u: UserId, lo: Millis, hi: Millis)
    requires RevokedExactly(t0, t1, OutRows(t0, names, u), lo, hi)
    requires v in Holders(OutRows(t0, names, u)) && (modules == View(t0, v) || modules == View(t1, v))
    ensures FromLevel(v, modules, t0, names, u, {}, u)
  {
    ReachableSelf(t0, names, u);
    ViewRevoked(t0, t1, OutRows(t0, names, u), lo, hi, v);
    assert OutRows(t0, names, u) - {} == OutRows(t0, names, u) && {} + OutRows(t0, names, u) == OutRows(t0, names, u);
  }

  lemma LevelExplained(before: seq<Snapshot>, after: seq<Snapshot>, t0: Table, t1: Table, names: seq<ModuleName>, u: UserId,
                       due: set<RowKey>, lo: Millis, hi: Millis)
    requires RevokedExactly(t0, t1, OutRows(t0, names, u), lo, hi)
    requires LevelSnapshots(before, after, t0, t1, Holders(OutRows(t0, names, u)))
    ensures Explained(before, after, t0, names, u, due)
  {
    forall i | |before| <= i < |after| ensures CascadeSnapshot(after[i], t0, names, u, due) {
      var none: set<RowKey> := {};
      FirstLevel(after[i].user, after[i].modules, t0, t1, names, u, lo, hi);
      assert none <= due;
    }
  }

  // The cascade of a revocation, run once the user's own rows are gone.
  lemma RevokeExplained(before: seq<Snapshot>, after: seq<Snapshot>, t0: Table, t1: Table, names: seq<ModuleName>, u: UserId, lo: Millis, hi: Millis)
    requires RevokedExactly(t0, t1, OwnRows(t0, names, u), lo, hi)
    requires Explained(before, after, t1, names, u, CascadeSet(t1, names, u))
    ensures Explained(before, after, t0, names, u, OwnRows(t0, names, u) + CascadeSet(t0, names, u))
  {
    var own, all := OwnRows(t0, names, u), OwnRows(t0, names, u) + CascadeSet(t0, names, u);
    ReachableSelf(t0, names, u);
    OwnRowsDoNotMatter(t0, t1, names, u, lo, hi);
    ExplainedLifts(before, after, t0, t1, names, u, u, own, CascadeSet(t1, names, u), all, lo, hi);
  }
}
