/**
 The permission map utilities: subset, merge, difference, conversion to and from
 "module:action" strings, and the required/missing pair. The order in which the entries of
 a record are visited is left open.
 */
module PermissionAlgebra {
  import opened Common
  import opened Grants
  import F = Fingerprint

  // ---------- subset, merge, difference ----------

  ghost predicate Subset(a: Modules, b: Modules) {
    forall m :: m in a ==> m in b && forall x :: x in a[m] ==> x in b[m]
  }

  // [...new Set(s)]: first occurrences, in order.
  function Dedup(s: seq<string>): seq<string>
    decreases |s|
  {
    if s == [] then []
    else
      var front, x := Dedup(s[..|s|-1]), s[|s|-1];
      if x in front then front else front + [x]
  }

  function Merge(a: Modules, b: Modules): Modules {
    map m | m in a.Keys + b.Keys ::
      if m in a && m in b then Dedup(a[m] + b[m]) else if m in a then a[m] else b[m]
  }

  function Difference(a: Modules, b: Modules): Modules {
    map m | m in a && MissingActions(ActionsOf(b, m), a[m]) != [] :: MissingActions(ActionsOf(b, m), a[m])
  }

  lemma {:induction false} DedupMembers(s: seq<string>, x: string)
    ensures x in Dedup(s) <==> x in s
    decreases |s|
  {
    if s != [] {
      DedupMembers(s[..|s|-1], x);
      assert s == s[..|s|-1] + [s[|s|-1]];
    }
  }

  lemma MergeMembers(a: Modules, b: Modules, m: string, x: string)
    ensures m in Merge(a, b) && x in Merge(a, b)[m] <==> (m in a && x in a[m]) || (m in b && x in b[m])
  {
    if m in a && m in b {
      DedupMembers(a[m] + b[m], x);
    }
  }

  lemma {:induction false} DedupDistinct(s: seq<string>)
    ensures F.Distinct(Dedup(s))
    decreases |s|
  {
    if s != [] {
      DedupDistinct(s[..|s|-1]);
    }
  }

  // A module of one record only keeps its list as it stands; lists of the same module are
  // joined without repetition.
  lemma MergeExact(a: Modules, b: Modules, m: string)
    ensures m in Merge(a, b) <==> m in a || m in b
    ensures m in a && m !in b ==> Merge(a, b)[m] == a[m]
    ensures m !in a && m in b ==> Merge(a, b)[m] == b[m]
    ensures m in a && m in b ==> F.Distinct(Merge(a, b)[m]) && forall x :: x in Merge(a, b)[m] <==> x in a[m] || x in b[m]
  {
    if m in a && m in b {
      DedupDistinct(a[m] + b[m]);
      forall x ensures x in Merge(a, b)[m] <==> x in a[m] || x in b[m] {
        DedupMembers(a[m] + b[m], x);
      }
    }
  }

  // The difference holds the actions of a that b lacks, and lists no module without one.
  lemma DifferenceExact(a: Modules, b: Modules, m: string, x: string)
    ensures m in Difference(a, b) && x in Difference(a, b)[m] <==> m in a && x in a[m] && !(m in b && x in b[m])
    ensures m in Difference(a, b) ==> Difference(a, b)[m] != []
  {
    if m in a {
      MissingActionsMembers(ActionsOf(b, m), a[m], x);
    }
  }

  // Merge is the least upper bound of its arguments under subset.
  lemma MergeIsLeastUpperBound(a: Modules, b: Modules, c: Modules)
    ensures Subset(a, Merge(a, b)) && Subset(b, Merge(a, b))
    ensures Subset(Merge(a, b), c) <==> Subset(a, c) && Subset(b, c)
  {
    forall m, x ensures m in Merge(a, b) && x in Merge(a, b)[m] <==> (m in a && x in a[m]) || (m in b && x in b[m]) {
      MergeMembers(a, b, m, x);
    }
  }

  // The difference is empty exactly when only modules without actions stand in the way of
  // subset; for non-empty action lists, exactly when subset holds.
  lemma DifferenceEmptyIff(a: Modules, b: Modules)
    ensures Subset(a, b) <==> Difference(a, b) == map[] && a.Keys <= b.Keys
    ensures (forall m :: m in a ==> a[m] != []) ==> (Subset(a, b) <==> Difference(a, b) == map[])
  {
    forall m | m in a
      ensures m in Difference(a, b) <==> !(forall x :: x in a[m] ==> x in ActionsOf(b, m))
    {
      MissingActionsEmptyIff(ActionsOf(b, m), a[m]);
    }
    if forall m :: m in a ==> m !in Difference(a, b) {
      assert Difference(a, b) == map[];
      forall m | m in a && a[m] != [] ensures m in b {
        assert a[m][0] in a[m];
      }
    }
  }

  // Adding back what is missing covers a, exactly when every module of a that has no
  // actions is in b: an empty list never reaches the difference.
  lemma MergeDifferenceCoversIff(a: Modules, b: Modules)
    ensures Subset(a, Merge(Difference(a, b), b)) <==> forall m :: m in a && a[m] == [] ==> m in b
  {
    var d := Difference(a, b);
    if forall m :: m in a && a[m] == [] ==> m in b {
      forall m, x | m in a && x in a[m] ensures m in Merge(d, b) && x in Merge(d, b)[m] {
        MergeMembers(d, b, m, x);
        MissingActionsMembers(ActionsOf(b, m), a[m], x);
      }
      forall m | m in a && a[m] != [] ensures m in Merge(d, b) {
        assert a[m][0] in a[m];
      }
    }
  }

  method IsPermissionSubset(a: Modules, b: Modules) returns (r: bool)
    ensures r <==> Subset(a, b)
  {
    var rest := a.Keys;
    while rest != {}
      invariant rest <= a.Keys
      invariant forall m :: m in a && m !in rest ==> m in b && forall x :: x in a[m] ==> x in b[m]
      decreases rest
    {
      var m :| m in rest;
      if m !in b {
        return false;
      }
      for i := 0 to |a[m]|
        invariant forall x :: x in a[m][..i] ==> x in b[m]
      {
        if a[m][i] !in b[m] {
          assert a[m][i] in a[m];
          return false;
        }
        assert a[m][..i+1] == a[m][..i] + [a[m][i]];
      }
      assert a[m][..|a[m]|] == a[m];
      rest := rest - {m};
    }
    r := true;
  }

  method MergePermissions(a: Modules, b: Modules) returns (merged: Modules)
    ensures merged == Merge(a, b)
  {
    merged := a;
    var rest := b.Keys;
    while rest != {}
      invariant rest <= b.Keys
      invariant merged.Keys == a.Keys + (b.Keys - rest)
      invariant forall m :: m in merged ==> merged[m] == if m in rest || m !in b then a[m] else Merge(a, b)[m]
      decreases rest
    {
      var m :| m in rest;
      if m in merged {
        merged := merged[m := Dedup(merged[m] + b[m])];
      } else {
        merged := merged[m := b[m]];
      }
      rest := rest - {m};
    }
  }

  ghost function Without(m: Modules, rest: set<string>): Modules {
    map k | k in m && k !in rest :: m[k]
  }

  method GetPermissionDifference(a: Modules, b: Modules) returns (d: Modules)
    ensures d == Difference(a, b)
  {
    d := map[];
    var rest := a.Keys;
    while rest != {}
      invariant rest <= a.Keys
      invariant d == Without(Difference(a, b), rest)
      decreases rest
    {
      var m :| m in rest;
      var lacking := MissingActions(ActionsOf(b, m), a[m]);
      if |lacking| > 0 {
        d := d[m := lacking];
      }
      rest := rest - {m};
    }
  }

  // ---------- required and missing ----------

  ghost predicate HasAll(held: Modules, required: seq<ModulePermission>) {
    forall p :: p in required ==> p.name in held && forall x :: x in p.actions ==> x in held[p.name]
  }

  method HasAllPermissions(held: Modules, required: seq<ModulePermission>) returns (r: bool)
    ensures r <==> HasAll(held, required)
  {
    for i := 0 to |required|
      invariant HasAll(held, required[..i])
    {
      var p := required[i];
      if p.name !in held {
        assert p in required;
        return false;
      }
      for j := 0 to |p.actions|
        invariant forall x :: x in p.actions[..j] ==> x in held[p.name]
      {
        if p.actions[j] !in held[p.name] {
          assert p in required && p.actions[j] in p.actions;
          return false;
        }
        assert p.actions[..j+1] == p.actions[..j] + [p.actions[j]];
      }
      assert p.actions[..|p.actions|] == p.actions;
      assert required[..i+1] == required[..i] + [p];
    }
    assert required[..|required|] == required;
    r := true;
  }

  // The inner loop of getMissingPermissions, for one required module.
  method LackingActions(held: Modules, p: ModulePermission) returns (lacking: seq<string>)
    ensures lacking == MissingActions(ActionsOf(held, p.name), p.actions)
  {
    lacking := [];
    for j := 0 to |p.actions|
      invariant lacking == MissingActions(ActionsOf(held, p.name), p.actions[..j])
    {
      assert p.actions[..j+1][..j] == p.actions[..j];
      if p.name !in held || p.actions[j] !in held[p.name] {
        lacking := lacking + [p.actions[j]];
      }
    }
    assert p.actions[..|p.actions|] == p.actions;
  }

  method GetMissingPermissions(held: Modules, required: seq<ModulePermission>) returns (missing: seq<ModulePermission>)
    ensures missing == Missing(held, required)
  {
    missing := [];
    for i := 0 to |required|
      invariant missing == Missing(held, required[..i])
    {
      assert required[..i+1][..i] == required[..i];
      var lacking := LackingActions(held, required[i]);
      if |lacking| > 0 {
        missing := missing + [ModulePermission(required[i].name, lacking)];
      }
    }
    assert required[..|required|] == required;
  }

  // Nothing is missing exactly when everything required is held, but for modules required
  // with no actions: they count as held only if the set has them.
  lemma NothingMissingIff(held: Modules, required: seq<ModulePermission>)
    ensures HasAll(held, required) <==> Missing(held, required) == [] && forall p :: p in required ==> p.name in held
    ensures (forall p :: p in required ==> p.actions != []) ==> (HasAll(held, required) <==> Missing(held, required) == [])
  {
    GoldenRule(held, required);
    if Missing(held, required) == [] {
      forall p, x | p in required && x in p.actions ensures x in ActionsOf(held, p.name) {
        assert Mentions(required, p.name, x);
      }
      forall p | p in required && p.actions != [] ensures p.name in held {
        assert p.actions[0] in p.actions;
      }
    }
    if HasAll(held, required) {
      forall m, x | Mentions(required, m, x) ensures x in ActionsOf(held, m) {
        var p :| p in required && p.name == m && x in p.actions;
      }
    }
  }

  // ---------- "module:action" strings ----------

  // What arrayToPermissionMap builds: an action is undefined where a string has no colon.
  type RawModules = map<string, seq<Option<string>>>

  // perm.split(':'), of which the first two parts are used.
  function SplitName(s: string): string {
    s[..FirstColon(s)]
  }

  function FirstColon(s: string): (r: nat)
    ensures r <= |s|
    ensures r == F.IndexOf(s, ':')
    ensures r < |s| ==> s[r] == ':'
    ensures ':' !in s[..r]
  {
    if s == [] || s[0] == ':' then 0
    else
      var r := 1 + FirstColon(s[1..]);
      assert s[..r] == [s[0]] + s[1..][..r-1];
      r
  }

  function SplitAction(s: string): Option<string> {
    if FirstColon(s) == |s| then None
    else
      var rest := s[FirstColon(s)+1..];
      Some(rest[..FirstColon(rest)])
  }

  function AddTo(r: RawModules, s: string): RawModules {
    var m, a := SplitName(s), SplitAction(s);
    var known := if m in r then r[m] else [];
    r[m := if a in known then known else known + [a]]
  }

  function FromArray(xs: seq<string>): RawModules
    decreases |xs|
  {
    if xs == [] then map[] else AddTo(FromArray(xs[..|xs|-1]), xs[|xs|-1])
  }

  function Lift(s: seq<string>): (r: seq<Option<string>>)
    ensures |r| == |s| && forall i :: 0 <= i < |s| ==> r[i] == Some(s[i])
  {
    if s == [] then [] else [Some(s[0])] + Lift(s[1..])
  }

  function LiftAll(m: Modules): RawModules {
    map k | k in m :: Lift(m[k])
  }

  // A colon-free name with colon-free actions, none repeated.
  ghost predicate RegularList(m: string, actions: seq<string>) {
    ':' !in m && F.Distinct(actions) && forall a :: a in actions ==> ':' !in a
  }

  // Every module is such a list, and none is without actions.
  ghost predicate Regular(m: Modules) {
    forall k :: k in m ==> RegularList(k, m[k]) && m[k] != []
  }

  ghost predicate RegularRaw(r: RawModules) {
    forall k :: k in r ==>
      ':' !in k && r[k] != [] && F.Distinct(r[k]) && forall a :: a in r[k] && a.Some? ==> ':' !in a.value
  }

  lemma {:induction false} FromArrayIsRegular(xs: seq<string>)
    ensures RegularRaw(FromArray(xs))
    decreases |xs|
  {
    if xs != [] {
      FromArrayIsRegular(xs[..|xs|-1]);
    }
  }

  lemma SplitJoined(m: string, a: string)
    requires ':' !in m && ':' !in a
    ensures SplitName(m + [':'] + a) == m && SplitAction(m + [':'] + a) == Some(a)
  {
    F.CutIndex(m, a, ':');
    var s := m + [':'] + a;
    NoColon(a);
    assert FirstColon(s) == |m| && s[..|m|] == m;
    assert s[|m|+1..] == a && FirstColon(a) == |a| && a[..|a|] == a;
  }

  lemma {:induction false} NoColon(a: string)
    requires ':' !in a
    ensures F.IndexOf(a, ':') == |a|
  {
    if a != [] { NoColon(a[1..]); }
  }

  // A string without a colon is all name and has no action; of any other, the name ends at the
  // first colon and the action at the second.
  lemma SplitMeans(m: string, a: string, rest: string)
    requires ':' !in m && ':' !in a
    ensures SplitName(m) == m && SplitAction(m) == None
    ensures SplitName(m + [':'] + a) == m && SplitAction(m + [':'] + a) == Some(a)
    ensures SplitName(m + [':'] + (a + [':'] + rest)) == m && SplitAction(m + [':'] + (a + [':'] + rest)) == Some(a)
  {
    NoColon(m);
    assert m[..|m|] == m;
    SplitJoined(m, a);
    var tail := a + [':'] + rest;
    var s := m + [':'] + tail;
    F.CutIndex(m, tail, ':');
    F.CutIndex(a, rest, ':');
    assert s[..|m|] == m && s[|m|+1..] == tail && tail[..|a|] == a;
  }

  // One step of arrayToPermissionMap.
  method AddPermission(before: RawModules, s: string) returns (r: RawModules)
    ensures r == AddTo(before, s)
  {
    r := before;
    var m, a := SplitName(s), SplitAction(s);
    if m !in r {
      r := r[m := []];
    }
    if a !in r[m] {
      r := r[m := r[m] + [a]];
    }
  }

  method ArrayToPermissionMap(xs: seq<string>) returns (r: RawModules)
    ensures r == FromArray(xs)
    ensures RegularRaw(r)
  {
    r := map[];
    for i := 0 to |xs|
      invariant r == FromArray(xs[..i])
    {
      assert xs[..i+1][..i] == xs[..i];
      r := AddPermission(r, xs[i]);
    }
    assert xs[..|xs|] == xs;
    FromArrayIsRegular(xs);
  }

  // The strings of one module.
  function Strings(m: string, actions: seq<string>): seq<string> {
    if actions == [] then [] else Strings(m, actions[..|actions|-1]) + [m + [':'] + actions[|actions|-1]]
  }

  lemma AddOne(r: RawModules, m: string, front: seq<string>, last: string)
    requires ':' !in m && ':' !in last && last !in front && m !in r
    ensures AddTo(WithModule(r, m, front), m + [':'] + last) == WithModule(r, m, front + [last])
  {
    SplitJoined(m, last);
    LiftAppend(front, last);
    assert Some(last) !in Lift(front);
  }

  lemma StringsAppend(xs: seq<string>, m: string, front: seq<string>, last: string)
    ensures xs + Strings(m, front + [last]) == xs + Strings(m, front) + [m + [':'] + last]
  {
    assert (front + [last])[..|front|] == front;
    assert Strings(m, front + [last]) == Strings(m, front) + [m + [':'] + last];
  }

  lemma FromArrayAppend(xs: seq<string>, s: string)
    ensures FromArray(xs + [s]) == AddTo(FromArray(xs), s)
  {
    assert (xs + [s])[..|xs|] == xs;
  }

  lemma RegularFront(m: string, actions: seq<string>)
    requires RegularList(m, actions) && actions != []
    ensures RegularList(m, actions[..|actions|-1])
    ensures ':' !in m && ':' !in actions[|actions|-1] && actions[|actions|-1] !in actions[..|actions|-1]
  {
    var front := actions[..|actions|-1];
    forall a | a in front ensures a in actions {
      var i :| 0 <= i < |front| && front[i] == a;
      assert actions[i] == a;
    }
  }

  // What one module's strings add to what other modules gave.
  function WithModule(r: RawModules, m: string, actions: seq<string>): RawModules {
    if actions == [] then r else r[m := Lift(actions)]
  }

  lemma AddModuleStep(xs: seq<string>, m: string, front: seq<string>, last: string)
    requires ':' !in m && ':' !in last && last !in front && m !in FromArray(xs)
    requires FromArray(xs + Strings(m, front)) == WithModule(FromArray(xs), m, front)
    ensures FromArray(xs + Strings(m, front + [last])) == WithModule(FromArray(xs), m, front + [last])
  {
    StringsAppend(xs, m, front, last);
    FromArrayAppend(xs + Strings(m, front), m + [':'] + last);
    AddOne(FromArray(xs), m, front, last);
  }

  lemma AddNothing(xs: seq<string>, m: string)
    ensures FromArray(xs + Strings(m, [])) == FromArray(xs)
  {
    assert xs + Strings(m, []) == xs;
  }

  lemma Rejoin(actions: seq<string>)
    requires actions != []
    ensures actions[..|actions|-1] + [actions[|actions|-1]] == actions
  {
  }

  lemma {:induction false} AddModule(xs: seq<string>, m: string, actions: seq<string>)
    requires RegularList(m, actions) && m !in FromArray(xs)
    ensures FromArray(xs + Strings(m, actions)) == WithModule(FromArray(xs), m, actions)
    decreases |actions|
  {
    if actions == [] {
      AddNothing(xs, m);
    } else {
      var front, last := actions[..|actions|-1], actions[|actions|-1];
      RegularFront(m, actions);
      AddModule(xs, m, front);
      AddModuleStep(xs, m, front, last);
      Rejoin(actions);
    }
  }

  lemma {:induction false} LiftAppend(front: seq<string>, last: string)
    ensures Lift(front + [last]) == Lift(front) + [Some(last)]
  {
  }

  lemma {:induction false} StringsMembers(m: string, actions: seq<string>, a: string)
    requires a in actions
    ensures m + [':'] + a in Strings(m, actions)
    decreases |actions|
  {
    if actions[|actions|-1] != a {
      StringsMembers(m, actions[..|actions|-1], a);
    }
  }

  // The inner loop of permissionMapToArray, for one module.
  method PushStrings(before: seq<string>, m: string, actions: seq<string>) returns (r: seq<string>)
    ensures r == before + Strings(m, actions)
  {
    r := before;
    for i := 0 to |actions|
      invariant r == before + Strings(m, actions[..i])
    {
      assert actions[..i+1][..i] == actions[..i];
      r := r + [m + [':'] + actions[i]];
    }
    assert actions[..|actions|] == actions;
  }

  lemma ModuleDone(m: Modules, rest: set<string>, k: string, r: seq<string>)
    requires Regular(m) && k in rest && k in m && FromArray(r) == LiftAll(Without(m, rest))
    ensures FromArray(r + Strings(k, m[k])) == LiftAll(Without(m, rest - {k}))
  {
    AddModule(r, k, m[k]);
  }

  // The strings of a whole record, and back: the round trip returns the record exactly
  // when the record is regular.
  method PermissionMapToArray(m: Modules) returns (r: seq<string>)
    ensures forall k, a :: k in m && a in m[k] ==> k + [':'] + a in r
    ensures FromArray(r) == LiftAll(m) <==> Regular(m)
  {
    r := [];
    var rest := m.Keys;
    while rest != {}
      invariant rest <= m.Keys
      invariant forall k, a :: k in m && k !in rest && a in m[k] ==> k + [':'] + a in r
      invariant Regular(m) ==> FromArray(r) == LiftAll(Without(m, rest))
      decreases rest
    {
      var k :| k in rest;
      ghost var before := r;
      r := PushStrings(r, k, m[k]);
      forall a | a in m[k] ensures k + [':'] + a in r {
        StringsMembers(k, m[k], a);
      }
      if Regular(m) {
        ModuleDone(m, rest, k, before);
      }
      rest := rest - {k};
    }
    assert Without(m, rest) == m;
    FromArrayIsRegular(r);
    LiftedRegular(m);
  }

  lemma LiftedRegular(m: Modules)
    ensures RegularRaw(LiftAll(m)) ==> Regular(m)
  {
    if RegularRaw(LiftAll(m)) {
      forall k | k in m ensures RegularList(k, m[k]) && m[k] != [] {
        var l := LiftAll(m)[k];
        assert l == Lift(m[k]);
        forall i, j | 0 <= i < j < |m[k]| ensures m[k][i] != m[k][j] { assert l[i] != l[j]; }
        forall a | a in m[k] ensures ':' !in a {
          var i :| 0 <= i < |m[k]| && m[k][i] == a;
          assert l[i] in l && l[i].Some?;
        }
      }
    }
  }
}
