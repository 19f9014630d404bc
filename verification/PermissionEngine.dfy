/**
 PermissionEngineService.checkAuthorization: four layers over the permission store and the
 rule table. Users are the rows of the user table, or None when it cannot be read; an id absent
 from it is a missing user.
 */
module PermissionEngine {
  import opened Common
  import G = Grants
  import P = PermissionService
  import B = BusinessRules

  datatype User = User(level: Level, branchId: Option<string>, departmentId: Option<string>)

  datatype Scope = Scope(branchId: Option<string>, departmentId: Option<string>)

  datatype Transaction = Transaction(transactionType: string, amount: real)

  datatype Request = Request(
    userId: string, organizationId: string, requiredLevel: Level, name: string, action: string,
    resourceScope: Option<Scope>, transaction: Option<Transaction>)

  datatype Decision = Authorized | UserNotFound | HierarchyLevel | ModulePermission | OutOfScope | SystemError | NeedsApproval(rule: Option<B.Rule>)

  predicate InScope(u: User, s: Scope) {
    && (s.branchId.Some? && s.branchId.value != "" ==> u.branchId == s.branchId)
    && (s.departmentId.Some? && s.departmentId.value != "" ==> u.departmentId == s.departmentId)
  }

  // The layers, each in terms of the request alone.
  predicate LevelPasses(u: User, q: Request) {
    Rank(u.level) >= Rank(q.requiredLevel)
  }

  ghost predicate PermissionPasses(t: G.Table, q: Request) {
    q.action in G.ActionsOf(G.View(t, q.userId), q.name)
  }

  predicate ScopePasses(u: User, q: Request) {
    u.level.OWNER? || q.resourceScope.None? || InScope(u, q.resourceScope.value)
  }

  // What the rule evaluators decide; a request without a transaction needs no approval.
  function RuleVerdict(u: User, rules: Option<seq<B.Rule>>, q: Request): B.Verdict {
    if q.transaction.None? then B.Passed
    else B.Decide(rules, q.organizationId, q.transaction.value.transactionType, u.level, q.transaction.value.amount)
  }

  predicate RulesPass(u: User, rules: Option<seq<B.Rule>>, q: Request) {
    RuleVerdict(u, rules, q).Passed?
  }

  lemma EmptyOrNamed(asked: Option<string>, own: Option<string>)
    ensures asked in {None, Some(""), own} <==> (asked.Some? && asked.value != "" ==> own == asked)
  {
    assert asked == None || asked == Some("") || (asked.Some? && asked.value != "");
  }

  // The level is reached by an owner, by one who has exactly that level, and by anybody when
  // only a worker is asked for. A scope keeps out those who are no owner and are not of the
  // branch or not of the department it names; it names none where it holds nothing or the
  // empty string.
  lemma LayersMean(u: User, rules: Option<seq<B.Rule>>, q: Request)
    ensures LevelPasses(u, q) <==> u.level == OWNER || u.level == q.requiredLevel || q.requiredLevel == WORKER
    ensures ScopePasses(u, q) <==>
              || u.level == OWNER
              || q.resourceScope == None
              || (&& q.resourceScope.value.branchId in {None, Some(""), u.branchId}
                  && q.resourceScope.value.departmentId in {None, Some(""), u.departmentId})
    ensures q.transaction == None || u.level == OWNER ==> RulesPass(u, rules, q)
    ensures rules == None && q.transaction.Some? && u.level != OWNER ==> RuleVerdict(u, rules, q) == B.Denied(None)
  {
    if q.resourceScope.Some? {
      assert InScope(u, q.resourceScope.value) <==>
          (&& q.resourceScope.value.branchId in {None, Some(""), u.branchId}
           && q.resourceScope.value.departmentId in {None, Some(""), u.departmentId}) by {
        EmptyOrNamed(q.resourceScope.value.branchId, u.branchId);
        EmptyOrNamed(q.resourceScope.value.departmentId, u.departmentId);
      }
    }
  }

  // A request whose user cannot be looked up is refused. Any other is authorized exactly when
  // its user exists and all four layers pass; a refusal names the first that fails. The answer
  // is right even when it comes from a warm cache.
  method CheckAuthorization(database: Option<map<string, User>>, permissions: P.PermissionService,
                            rules: Option<seq<B.Rule>>, q: Request) returns (d: Decision)
    requires permissions.Coherent({})
    modifies permissions
    ensures permissions.Coherent({}) && permissions.table == old(permissions.table)
    ensures d.SystemError? <==> database.None?
    ensures d.UserNotFound? <==> database.Some? && q.userId !in database.value
    ensures d.HierarchyLevel? <==>
              && database.Some? && q.userId in database.value && database.value[q.userId].level != OWNER
              && q.requiredLevel != WORKER && database.value[q.userId].level != q.requiredLevel
    ensures d.OutOfScope? || d.NeedsApproval? ==>
              database.Some? && q.userId in database.value && database.value[q.userId].level != OWNER
    ensures d.NeedsApproval? ==> q.transaction.Some?
    ensures database.Some? && q.userId in database.value ==>
              var u := database.value[q.userId];
              var level, permission, scope, rule :=
                LevelPasses(u, q), PermissionPasses(permissions.table, q), ScopePasses(u, q), RulesPass(u, rules, q);
              && (d.Authorized? <==> level && permission && scope && rule)
              && (d.HierarchyLevel? <==> !level)
              && (d.ModulePermission? <==> level && !permission)
              && (d.OutOfScope? <==> level && permission && !scope)
              && (d.NeedsApproval? <==> level && permission && scope && !rule)
              && (d.NeedsApproval? ==> RuleVerdict(u, rules, q) == B.Denied(d.rule))
  {
    if database.None? {
      return SystemError;
    }
    var users := database.value;
    if q.userId !in users {
      return UserNotFound;
    }
    var u := users[q.userId];
    if !LevelPasses(u, q) {
      return HierarchyLevel;
    }
    var held := permissions.HasPermission(q.userId, q.name, q.action);
    if !held {
      return ModulePermission;
    }
    if u.level != OWNER && q.resourceScope.Some? {
      if !InScope(u, q.resourceScope.value) {
        return OutOfScope;
      }
    }
    if q.transaction.Some? {
      var v := B.CheckBusinessRules(rules, q.organizationId, q.transaction.value.transactionType, u.level, q.transaction.value.amount);
      if v.Denied? {
        return NeedsApproval(v.rule);
      }
    }
    d := Authorized;
  }

  // From one revocation to the next authorization check: nobody who held a listed module
  // through the revoked user gets past the second layer with it.
  method RevokeThenCheck(database: Option<map<string, User>>, permissions: P.PermissionService, rules: Option<seq<B.Rule>>,
                         revoked: string, names: seq<string>, q: Request) returns (d: Decision)
    requires permissions.Coherent({})
    requires q.name in names
    requires q.userId == revoked || G.RowKey(q.userId, q.name) in G.CascadeSet(permissions.table, names, revoked)
    modifies permissions
    ensures !d.Authorized?
  {
    ghost var t0, c0 := permissions.table, permissions.clock;
    permissions.RevokePermissions(revoked, names);
    G.RevokedModulesAreGone(t0, permissions.table, names, revoked, c0, permissions.clock);
    d := CheckAuthorization(database, permissions, rules, q);
    assert !PermissionPasses(permissions.table, q);
  }
}
