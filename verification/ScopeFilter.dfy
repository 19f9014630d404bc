/**
 The scope-filter middleware, and what comes out when the soft-delete middleware runs after
 it, the order in which PrismaService installs them. Both lists of model names are
 parameters.
 */
module ScopeFilter {
  import opened Common
  import SoftDelete

  datatype UserContext = UserContext(level: Level, branchId: Option<string>, departmentId: Option<string>)

  datatype Row<P> = Row(payload: P, branchId: Option<string>, departmentId: Option<string>, deletedAt: Option<Millis>)

  // A where object: conditions on the payload, on the two scope columns and on deletedAt; or
  // { AND: [left, right] }. unique says whether it names a unique key.
  datatype Where<!P> =
    | Clause(unique: bool, matches: P -> bool, branchId: Option<string>, departmentId: Option<string>, deletedAt: SoftDelete.DeletedFilter)
    | And(left: Where<P>, right: Where<P>)

  predicate Holds<P>(w: Where<P>, r: Row<P>) {
    match w
    case And(a, b) => Holds(a, r) && Holds(b, r)
    case Clause(_, matches, branch, department, deleted) =>
      && matches(r.payload)
      && (branch.Some? ==> r.branchId == branch)
      && (department.Some? ==> r.departmentId == department)
      && match deleted
         case Unset => true
         case IsNull => r.deletedAt.None?
         case Given(holds) => holds(r.deletedAt)
  }

  predicate Selected<P>(w: Option<Where<P>>, r: Row<P>) {
    w.None? || Holds(w.value, r)
  }

  // Which of the two scope columns the model's table has.
  datatype Columns = Columns(branchId: bool, departmentId: bool)

  predicate NamesColumns<P>(w: Where<P>, c: Columns) {
    match w
    case And(a, b) => NamesColumns(a, c) && NamesColumns(b, c)
    case Clause(_, _, branch, department, _) => (branch.Some? ==> c.branchId) && (department.Some? ==> c.departmentId)
  }

  // The database layer runs a query whose conditions are on columns of the table; a findUnique
  // needs a unique key in the outermost object.
  predicate Runs<P>(w: Option<Where<P>>, action: SoftDelete.Action, c: Columns) {
    && (w.Some? ==> NamesColumns(w.value, c))
    && (action.FindUnique? ==> w.Some? && w.value.Clause? && w.value.unique)
  }

  // JavaScript takes an empty id for no id.
  function Truthy(id: Option<string>): Option<string> {
    if id.Some? && id.value == "" then None else id
  }

  predicate IsRead(a: SoftDelete.Action) {
    a.FindMany? || a.FindFirst? || a.FindUnique? || a.Count? || a.Aggregate?
  }

  ghost predicate IsWrite(a: SoftDelete.Action) {
    a.Create? || a.Update? || a.UpdateMany? || a.Delete? || a.DeleteMany?
  }

  // Whether the middleware narrows the query at all.
  predicate Applies(ctx: Option<UserContext>, action: SoftDelete.Action, model: string, scopedModels: seq<string>) {
    && ctx.Some? && !ctx.value.level.OWNER?
    && IsRead(action) && model in scopedModels
    && (Truthy(ctx.value.branchId).Some? || Truthy(ctx.value.departmentId).Some?)
  }

  ghost predicate InScope<P>(ctx: UserContext, r: Row<P>) {
    && (Truthy(ctx.branchId).Some? ==> r.branchId == Truthy(ctx.branchId))
    && (Truthy(ctx.departmentId).Some? ==> r.departmentId == Truthy(ctx.departmentId))
  }

  // A scope the table can be narrowed by.
  ghost predicate Narrowable(ctx: UserContext, action: SoftDelete.Action, c: Columns) {
    && !action.FindUnique?
    && (Truthy(ctx.branchId).Some? ==> c.branchId)
    && (Truthy(ctx.departmentId).Some? ==> c.departmentId)
  }

  function Everything<P>(): Where<P> {
    Clause(false, _ => true, None, None, SoftDelete.Unset)
  }

  lemma AndHolds<P(!new)>(a: Where<P>, b: Where<P>)
    ensures forall r: Row<P> :: Holds(And(a, b), r) <==> Holds(a, r) && Holds(b, r)
  {
  }

  lemma AndNames<P(!new)>(a: Where<P>, b: Where<P>, c: Columns)
    ensures NamesColumns(And(a, b), c) <==> NamesColumns(a, c) && NamesColumns(b, c)
  {
  }

  class Params<!P(!new)> {
    const model: string
    const action: SoftDelete.Action
    var filter: Option<Where<P>>

    constructor (model: string, action: SoftDelete.Action, filter: Option<Where<P>>)
      ensures this.model == model && this.action == action && this.filter == filter
    {
      this.model, this.action, this.filter := model, action, filter;
    }

    // The rows selected afterwards are those selected before that lie in the user's scope;
    // for owners, and wherever the middleware stands aside, exactly those selected before.
    // A query that ran still runs unless the scope is on a column the table lacks, or the query
    // is a findUnique, whose key ends up inside AND.
    method ScopeFilterMiddleware(ctx: Option<UserContext>, scopedModels: seq<string>, ghost columns: Columns)
      modifies this
      ensures Runs(old(filter), action, columns) ==>
                (Runs(filter, action, columns) <==> (Applies(ctx, action, model, scopedModels) ==> Narrowable(ctx.value, action, columns)))
      ensures forall r: Row<P> :: Selected(filter, r) <==>
                Selected(old(filter), r) && (Applies(ctx, action, model, scopedModels) ==> InScope(ctx.value, r))
      ensures Applies(ctx, action, model, scopedModels) ==> filter.Some? && filter.value.And?
      ensures !Applies(ctx, action, model, scopedModels) && !(ctx.Some? && !ctx.value.level.OWNER?) ==> filter == old(filter)
      ensures ctx == None || ctx.value.level == OWNER || model !in scopedModels || IsWrite(action) ==> filter == old(filter)
      ensures ctx.Some? && ctx.value.level != OWNER && model in scopedModels && !IsWrite(action) ==>
                forall r: Row<P> :: Selected(filter, r) <==>
                  && Selected(old(filter), r)
                  && (ctx.value.branchId !in {None, Some("")} ==> r.branchId == ctx.value.branchId)
                  && (ctx.value.departmentId !in {None, Some("")} ==> r.departmentId == ctx.value.departmentId)
      ensures !Applies(ctx, action, model, scopedModels) ==> filter == old(filter) || (old(filter).None? && filter == Some(Everything()))
    {
      if ctx.None? {
        return;
      }
      if ctx.value.level == OWNER {
        return;
      }
      if !IsRead(action) {
        return;
      }
      if model !in scopedModels {
        return;
      }
      if filter.None? {
        filter := Some(Everything());
      }
      var scope: Where<P> := Everything();
      var empty := true;
      if ctx.value.branchId.Some? && ctx.value.branchId.value != "" {
        scope := scope.(branchId := ctx.value.branchId);
        empty := false;
      }
      if ctx.value.departmentId.Some? && ctx.value.departmentId.value != "" {
        scope := scope.(departmentId := ctx.value.departmentId);
        empty := false;
      }
      if !empty {
        AndHolds(filter.value, scope);
        assert NamesColumns(scope, columns) <==>
                 (Truthy(ctx.value.branchId).Some? ==> columns.branchId) && (Truthy(ctx.value.departmentId).Some? ==> columns.departmentId);
        AndNames(filter.value, scope, columns);
        filter := Some(And(filter.value, scope));
      }
    }

    // where.deletedAt := null unless the where object itself has a deletedAt condition; the
    // conditions inside AND are not looked at.
    method SoftDeleteFilter(ghost columns: Columns)
      modifies this
      ensures Runs(filter, action, columns) ==> Runs(old(filter), action, columns)
      ensures Runs(old(filter), action, columns) ==> Runs(filter, action, columns)
      ensures forall r: Row<P> :: Selected(filter, r) <==>
                Selected(old(filter), r) && (!OwnDeletedCondition(old(filter)) ==> r.deletedAt.None?)
    {
      if filter.None? {
        filter := Some(Clause(false, _ => true, None, None, SoftDelete.IsNull));
      } else if filter.value.And? {
        var undeleted: Where<P> := Clause(false, _ => true, None, None, SoftDelete.IsNull);
        AndHolds(filter.value, undeleted);
        filter := Some(And(filter.value, undeleted));
      } else {
        filter := Some(filter.value.(deletedAt := SoftDelete.Restricted(filter.value.deletedAt)));
      }
    }

    // A read on a model that is both scoped and soft-deletable. Undeleted rows come out as
    // asked, within scope. A caller's own condition on deletedAt gets through exactly when
    // no scope was applied: otherwise deleted rows stay hidden whatever was asked.
    method ReadMiddlewares(ctx: Option<UserContext>, scopedModels: seq<string>, ghost columns: Columns)
      requires IsRead(action) && !action.Aggregate?
      modifies this
      ensures Runs(old(filter), action, columns) ==>
                (Runs(filter, action, columns) <==> (Applies(ctx, action, model, scopedModels) ==> Narrowable(ctx.value, action, columns)))
      ensures forall r: Row<P> :: Selected(filter, r) <==>
                && Selected(old(filter), r)
                && (Applies(ctx, action, model, scopedModels) ==> InScope(ctx.value, r))
                && (r.deletedAt.None? || (OwnDeletedCondition(old(filter)) && !Applies(ctx, action, model, scopedModels)))
    {
      ScopeFilterMiddleware(ctx, scopedModels, columns);
      SoftDeleteFilter(columns);
    }
  }

  ghost predicate OwnDeletedCondition<P>(w: Option<Where<P>>) {
    w.Some? && w.value.Clause? && w.value.deletedAt.Given?
  }
}
