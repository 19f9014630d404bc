/**
 The soft-delete middleware in front of a table, against a table that really deletes.
 A row is its payload of type P plus the deletedAt column; an id is its unique key, and
 `column` gives the value of another unique column, if the row has one.
 The list of soft-deletable models is a parameter.
 */
module SoftDelete {
  import opened Common

  type Id = string

  datatype Action = FindUnique | FindFirst | FindMany | Count | Aggregate | Create | Update | UpdateMany | Delete | DeleteMany

  // The deletedAt condition of a filter: not mentioned, null, or any other condition.
  datatype DeletedFilter = Unset | IsNull | Given(holds: Option<Millis> -> bool)

  // key is the unique key, when the filter names one; matches is the rest of the filter.
  datatype Where<!P> = Where(key: Option<Id>, matches: P -> bool, deletedAt: DeletedFilter)

  // What an update or a create writes; deletedAt is None when the data does not mention it.
  datatype Data<!P> = Data(change: P -> P, deletedAt: Option<Option<Millis>>)

  datatype Entry<P> = Entry(id: Id, payload: P)

  // pick is the orderBy of a findFirst; created is the row of a create.
  datatype Request<!P> = Request(
    model: string, action: Action, filter: Option<Where<P>>, data: Option<Data<P>>,
    pick: map<Id, P> -> Option<Id>, created: Option<Entry<P>>)

  datatype Row<P> = Row(payload: P, deletedAt: Option<Millis>)

  type Store<P> = map<Id, Row<P>>

  datatype Result<P> = Rows(rows: map<Id, P>) | First(which: Option<Id>) | Number(n: nat) | One(id: Id, payload: P) | NotFound | KeyTaken

  // ---------- the middleware ----------

  // deletedAt: null, unless there is a condition of the caller's own.
  function Restricted(d: DeletedFilter): DeletedFilter {
    if d.Given? then d else IsNull
  }

  // A filter that only admits undeleted rows, unless it set its own condition on deletedAt.
  function Visible<P>(w: Option<Where<P>>): Option<Where<P>> {
    match w
    case None => Some(Where(None, _ => true, IsNull))
    case Some(f) => Some(f.(deletedAt := Restricted(f.deletedAt)))
  }

  function Identity<P>(): P -> P {
    x => x
  }

  function Rewritten<P>(q: Request<P>, models: seq<string>, now: Millis): Request<P> {
    if q.model !in models then q
    else match q.action
      case Delete => q.(action := Update, filter := Visible(q.filter), data := Some(Data(Identity(), Some(Some(now)))))
      case DeleteMany =>
        q.(action := UpdateMany, filter := Visible(q.filter),
           data := Some(if q.data.Some? then q.data.value.(deletedAt := Some(Some(now))) else Data(Identity(), Some(Some(now)))))
      case Aggregate => q
      case Create => q
      case _ => q.(filter := Visible(q.filter))
  }

  // The params object the middleware edits.
  class Params<!P> {
    var model: string
    var action: Action
    var filter: Option<Where<P>>
    var data: Option<Data<P>>
    const pick: map<Id, P> -> Option<Id>
    const created: Option<Entry<P>>

    ghost function Asked(): Request<P>
      reads this
    {
      Request(model, action, filter, data, pick, created)
    }

    constructor (q: Request<P>)
      ensures Asked() == q
    {
      model, action, filter, data, pick, created := q.model, q.action, q.filter, q.data, q.pick, q.created;
    }

    // where.deletedAt := null unless the filter has its own condition.
    method OnlyUndeleted()
      modifies this`filter
      ensures filter == Visible(old(filter))
    {
      if filter.Some? {
        if !filter.value.deletedAt.Given? {
          filter := Some(filter.value.(deletedAt := IsNull));
        }
      } else {
        filter := Some(Where(None, _ => true, IsNull));
      }
    }

    // A model that is not listed is left alone. Of a listed one deletes become updates that write
    // the time of deletion, and finds, counts and updates are kept to undeleted rows unless the
    // filter has a deletedAt condition of its own.
    method SoftDeleteMiddleware(models: seq<string>, now: Millis)
      modifies this
      ensures Asked() == Rewritten(old(Asked()), models, now)
      ensures old(model) !in models ==> Asked() == old(Asked())
      ensures model == old(model)
      ensures old(model) in models ==>
                && (old(action) == Delete ==> action == Update && data.Some? && data.value.deletedAt == Some(Some(now)))
                && (old(action) == DeleteMany ==> action == UpdateMany && data.Some? && data.value.deletedAt == Some(Some(now)))
                && (old(action) != Delete && old(action) != DeleteMany ==> action == old(action) && data == old(data))
                && (old(action) == Create || old(action) == Aggregate ==> filter == old(filter))
                && (old(filter).Some? && old(filter).value.deletedAt.Given? ==> filter == old(filter))
                && (old(action) != Create && old(action) != Aggregate && !(old(filter).Some? && old(filter).value.deletedAt.Given?) ==>
                      filter.Some? && filter.value.deletedAt == IsNull)
    {
      if model !in models {
        return;
      }
      if action == Delete {
        action := Update;
        data := Some(Data(Identity(), Some(Some(now))));
      }
      if action == DeleteMany {
        action := UpdateMany;
        if data.Some? {
          data := Some(data.value.(deletedAt := Some(Some(now))));
        } else {
          data := Some(Data(Identity(), Some(Some(now))));
        }
      }
      if action == FindUnique || action == FindFirst {
        OnlyUndeleted();
      }
      if action == FindMany {
        OnlyUndeleted();
      }
      if action == Count {
        OnlyUndeleted();
      }
      if action == Update {
        OnlyUndeleted();
      }
      if action == UpdateMany {
        OnlyUndeleted();
      }
    }
  }

  // ---------- the database below the middleware ----------

  predicate Accepts<P>(w: Option<Where<P>>, id: Id, r: Row<P>) {
    w.None? ||
    (&& (w.value.key.Some? ==> w.value.key.value == id)
     && w.value.matches(r.payload)
     && match w.value.deletedAt
        case Unset => true
        case IsNull => r.deletedAt.None?
        case Given(holds) => holds(r.deletedAt))
  }

  function Matching<P>(s: Store<P>, w: Option<Where<P>>): map<Id, P> {
    map id | id in s && Accepts(w, id, s[id]) :: s[id].payload
  }

  function Written<P>(r: Row<P>, d: Data<P>): Row<P> {
    Row(d.change(r.payload), if d.deletedAt.Some? then d.deletedAt.value else r.deletedAt)
  }

  function WriteAll<P>(s: Store<P>, ids: set<Id>, d: Data<P>): Store<P> {
    map id | id in s :: if id in ids then Written(s[id], d) else s[id]
  }

  function Payload<P>(d: Option<Data<P>>): Data<P> {
    if d.Some? then d.value else Data(Identity(), None)
  }

  // A write is refused when a row it gives a new value of the unique column shares that value with
  // another row; the index does not know of deletedAt.
  predicate Shared<P>(s: Store<P>, t: Store<P>, ids: set<Id>, column: P -> Option<string>, i: Id, j: Id) {
    && i in ids && i in t && j in t && i != j
    && column(t[i].payload).Some? && column(t[i].payload) == column(t[j].payload)
    && (i in s ==> column(s[i].payload) != column(t[i].payload))
  }

  predicate Refused<P>(s: Store<P>, t: Store<P>, ids: set<Id>, column: P -> Option<string>) {
    exists i, j :: i in ids && j in t && Shared(s, t, ids, column, i, j)
  }

  // What a create, an update and an updateMany would leave behind, and the rows they write.
  function Created<P>(s: Store<P>, q: Request<P>): Store<P> {
    if q.created.None? then s else s[q.created.value.id := Row(q.created.value.payload, None)]
  }

  function Chosen<P>(s: Store<P>, q: Request<P>): set<Id> {
    var found := Matching(s, q.filter);
    if q.action == UpdateMany then found.Keys
    else if q.filter.Some? && q.filter.value.key.Some? && q.filter.value.key.value in found then {q.filter.value.key.value}
    else {}
  }

  function Exec<P>(s: Store<P>, q: Request<P>, column: P -> Option<string>): (Result<P>, Store<P>) {
    var found := Matching(s, q.filter);
    match q.action
    case FindUnique => (Rows(found), s)
    case FindFirst => (First(q.pick(found)), s)
    case FindMany => (Rows(found), s)
    case Count => (Number(|found|), s)
    case Aggregate => (Rows(found), s)
    case Create =>
      if q.created.None? then (NotFound, s)
      else if q.created.value.id in s || Refused(s, Created(s, q), {q.created.value.id}, column) then (KeyTaken, s)
      else (One(q.created.value.id, q.created.value.payload), Created(s, q))
    case Update =>
      if Chosen(s, q) == {} then (NotFound, s)
      else
        var id, t := q.filter.value.key.value, WriteAll(s, Chosen(s, q), Payload(q.data));
        if Refused(s, t, Chosen(s, q), column) then (KeyTaken, s) else (One(id, Payload(q.data).change(found[id])), t)
    case UpdateMany =>
      var t := WriteAll(s, Chosen(s, q), Payload(q.data));
      if Refused(s, t, Chosen(s, q), column) then (KeyTaken, s) else (Number(|found|), t)
    case Delete =>
      if q.filter.None? || q.filter.value.key.None? || q.filter.value.key.value !in found then (NotFound, s)
      else (One(q.filter.value.key.value, found[q.filter.value.key.value]), s - {q.filter.value.key.value})
    case DeleteMany => (Number(|found|), s - found.Keys)
  }

  // A table nothing is ever soft-deleted in.
  function Undeleted<P>(t: map<Id, P>): Store<P> {
    map id | id in t :: Row(t[id], None)
  }

  function LiveRows<P>(s: Store<P>): map<Id, P> {
    map id | id in s && s[id].deletedAt.None? :: s[id].payload
  }

  // ---------- refinement ----------

  // Only a deleted row stands in the way of this write.
  predicate HiddenRefusal<P>(s: Store<P>, q: Request<P>, column: P -> Option<string>) {
    var live := Undeleted(LiveRows(s));
    match q.action
    case Create =>
      q.created.Some? &&
      (q.created.value.id in s || Refused(s, Created(s, q), {q.created.value.id}, column)) &&
      !(q.created.value.id in live || Refused(live, Created(live, q), {q.created.value.id}, column))
    case Update => HiddenClash(s, q, column)
    case UpdateMany => HiddenClash(s, q, column)
    case _ => false
  }

  predicate HiddenClash<P>(s: Store<P>, q: Request<P>, column: P -> Option<string>) {
    var live := Undeleted(LiveRows(s));
    && Refused(s, WriteAll(s, Chosen(live, q), Payload(q.data)), Chosen(live, q), column)
    && !Refused(live, WriteAll(live, Chosen(live, q), Payload(q.data)), Chosen(live, q), column)
  }

  // Callers leave deletedAt alone.
  ghost predicate Plain<P>(q: Request<P>) {
    && (q.filter.Some? ==> !q.filter.value.deletedAt.Given?)
    && (q.data.Some? ==> q.data.value.deletedAt.None?)
    && (q.action == DeleteMany ==> q.data.None?)
    && q.action != Aggregate
  }

  // And no deleted row holds the key or the unique value they write.
  ghost predicate Ordinary<P>(s: Store<P>, q: Request<P>, column: P -> Option<string>) {
    Plain(q) && !HiddenRefusal(s, q, column)
  }

  lemma MatchingVisible<P(!new)>(s: Store<P>, w: Option<Where<P>>)
    requires w.Some? ==> !w.value.deletedAt.Given?
    ensures Matching(s, Visible(w)) == Matching(Undeleted(LiveRows(s)), w)
  {
  }

  // One request through the middleware does to the undeleted rows, and answers, what the
  // same request does and answers on a table holding just those rows.
  ghost predicate Refines<P(!new)>(s: Store<P>, q: Request<P>, models: seq<string>, now: Millis, column: P -> Option<string>) {
    var (r, s1) := Exec(s, Rewritten(q, models, now), column);
    var (r2, t1) := Exec(Undeleted(LiveRows(s)), q, column);
    r == r2 && t1 == Undeleted(LiveRows(s1))
  }

  lemma WriteAllLive<P(!new)>(s: Store<P>, ids: set<Id>, d: Data<P>)
    requires ids <= LiveRows(s).Keys && d.deletedAt.None?
    ensures WriteAll(Undeleted(LiveRows(s)), ids, d) == Undeleted(LiveRows(WriteAll(s, ids, d)))
  {
  }

  lemma MarkAllLive<P(!new)>(s: Store<P>, ids: set<Id>, now: Millis)
    requires ids <= LiveRows(s).Keys
    ensures Undeleted(LiveRows(s)) - ids == Undeleted(LiveRows(WriteAll(s, ids, Data(Identity(), Some(Some(now))))))
  {
  }

  // Marking rows gives none of them a new value.
  lemma MarkNotRefused<P(!new)>(s: Store<P>, ids: set<Id>, now: Millis, column: P -> Option<string>)
    ensures !Refused(s, WriteAll(s, ids, Data(Identity(), Some(Some(now)))), ids, column)
  {
  }

  lemma CreateRefinesIff<P(!new)>(s: Store<P>, q: Request<P>, models: seq<string>, now: Millis, column: P -> Option<string>)
    requires q.model in models && q.action == Create
    ensures Refines(s, q, models, now, column) <==> !HiddenRefusal(s, q, column)
  {
    if q.created.Some? {
      var id, p, live := q.created.value.id, q.created.value.payload, Undeleted(LiveRows(s));
      assert LiveRows(Created(s, q)) == LiveRows(s)[id := p];
      assert Undeleted(LiveRows(Created(s, q))) == Created(live, q);
      if Refused(live, Created(live, q), {id}, column) && id !in s {
        var i, j :| i in {id} && j in Created(live, q) && Shared(live, Created(live, q), {id}, column, i, j);
        assert Shared(s, Created(s, q), {id}, column, i, j);
      }
    }
  }

  lemma FoundAreLive<P(!new)>(s: Store<P>, w: Option<Where<P>>)
    requires w.Some? ==> !w.value.deletedAt.Given?
    ensures Matching(s, Visible(w)).Keys <= LiveRows(s).Keys
  {
  }

  // Whatever stands in the way on the undeleted rows does so on all.
  lemma LiveRefusal<P(!new)>(s: Store<P>, ids: set<Id>, d: Data<P>, column: P -> Option<string>)
    requires ids <= LiveRows(s).Keys && d.deletedAt.None?
    requires Refused(Undeleted(LiveRows(s)), WriteAll(Undeleted(LiveRows(s)), ids, d), ids, column)
    ensures Refused(s, WriteAll(s, ids, d), ids, column)
  {
    var live := Undeleted(LiveRows(s));
    var i, j :| i in ids && j in WriteAll(live, ids, d) && Shared(live, WriteAll(live, ids, d), ids, column, i, j);
    assert Shared(s, WriteAll(s, ids, d), ids, column, i, j);
  }

  lemma WritesRefineIff<P(!new)>(s: Store<P>, q: Request<P>, models: seq<string>, now: Millis, column: P -> Option<string>)
    requires q.model in models && Plain(q) && (q.action == Update || q.action == UpdateMany)
    ensures Refines(s, q, models, now, column) <==> !HiddenRefusal(s, q, column)
  {
    var live, d := Undeleted(LiveRows(s)), Payload(q.data);
    MatchingVisible(s, q.filter);
    FoundAreLive(s, q.filter);
    var ids := Chosen(live, q);
    assert Chosen(s, Rewritten(q, models, now)) == ids;
    WriteAllLive(s, ids, d);
    if Refused(live, WriteAll(live, ids, d), ids, column) {
      LiveRefusal(s, ids, d, column);
    }
  }

  lemma DeleteManyRefines<P(!new)>(s: Store<P>, q: Request<P>, models: seq<string>, now: Millis, column: P -> Option<string>)
    requires q.model in models && Plain(q) && q.action == DeleteMany
    ensures Refines(s, q, models, now, column)
  {
    MatchingVisible(s, q.filter);
    FoundAreLive(s, q.filter);
    MarkAllLive(s, Matching(s, Visible(q.filter)).Keys, now);
    MarkNotRefused(s, Matching(s, Visible(q.filter)).Keys, now, column);
  }

  lemma DeleteRefines<P(!new)>(s: Store<P>, q: Request<P>, models: seq<string>, now: Millis, column: P -> Option<string>)
    requires q.model in models && Plain(q) && q.action == Delete
    ensures Refines(s, q, models, now, column)
  {
    MatchingVisible(s, q.filter);
    FoundAreLive(s, q.filter);
    if q.filter.Some? && q.filter.value.key.Some? && q.filter.value.key.value in Matching(s, Visible(q.filter)) {
      MarkAllLive(s, {q.filter.value.key.value}, now);
      MarkNotRefused(s, {q.filter.value.key.value}, now, column);
    }
  }

  // A request that leaves deletedAt alone agrees with real deletion exactly when no deleted row
  // alone stands in its way.
  lemma StepRefinesIff<P(!new)>(s: Store<P>, q: Request<P>, models: seq<string>, now: Millis, column: P -> Option<string>)
    requires q.model in models && Plain(q)
    ensures Refines(s, q, models, now, column) <==> !HiddenRefusal(s, q, column)
  {
    match q.action
    case Create => CreateRefinesIff(s, q, models, now, column);
    case Update => WritesRefineIff(s, q, models, now, column);
    case UpdateMany => WritesRefineIff(s, q, models, now, column);
    case Delete => DeleteRefines(s, q, models, now, column);
    case DeleteMany => DeleteManyRefines(s, q, models, now, column);
    case _ => MatchingVisible(s, q.filter);
  }

  // A request with the time at which the middleware handles it.
  datatype Timed<!P> = Timed(request: Request<P>, now: Millis)

  function RunSoft<P>(s: Store<P>, qs: seq<Timed<P>>, models: seq<string>, column: P -> Option<string>): (seq<Result<P>>, Store<P>)
    decreases |qs|
  {
    if qs == [] then ([], s)
    else
      var (r, s1) := Exec(s, Rewritten(qs[0].request, models, qs[0].now), column);
      var (rs, s2) := RunSoft(s1, qs[1..], models, column);
      ([r] + rs, s2)
  }

  function RunReal<P>(t: Store<P>, qs: seq<Timed<P>>, column: P -> Option<string>): (seq<Result<P>>, Store<P>)
    decreases |qs|
  {
    if qs == [] then ([], t)
    else
      var (r, t1) := Exec(t, qs[0].request, column);
      var (rs, t2) := RunReal(t1, qs[1..], column);
      ([r] + rs, t2)
  }

  ghost predicate OrdinaryRun<P(!new)>(s: Store<P>, qs: seq<Timed<P>>, models: seq<string>, column: P -> Option<string>)
    decreases |qs|
  {
    qs == [] ||
    (&& qs[0].request.model in models
     && Ordinary(s, qs[0].request, column)
     && OrdinaryRun(Exec(s, Rewritten(qs[0].request, models, qs[0].now), column).1, qs[1..], models, column))
  }

  // Soft deletion refines real deletion: over any run the answers are the same, and the
  // undeleted rows at the end are the rows a really deleting table ends with.
  lemma {:induction false} SoftDeleteRefinesDelete<P(!new)>(s: Store<P>, qs: seq<Timed<P>>, models: seq<string>, column: P -> Option<string>)
    requires OrdinaryRun(s, qs, models, column)
    ensures var (rs, s1) := RunSoft(s, qs, models, column);
            RunReal(Undeleted(LiveRows(s)), qs, column) == (rs, Undeleted(LiveRows(s1)))
    decreases |qs|
  {
    if qs != [] {
      StepRefinesIff(s, qs[0].request, models, qs[0].now, column);
      SoftDeleteRefinesDelete(Exec(s, Rewritten(qs[0].request, models, qs[0].now), column).1, qs[1..], models, column);
    }
  }

  // What a delete asks for: the rows its filter admits, one by its key for a plain delete.
  ghost predicate ToDelete<P>(q: Request<P>, id: Id, r: Row<P>) {
    Accepts(q.filter, id, r) && (q.action == Delete ==> q.filter.Some? && q.filter.value.key.Some?)
  }

  // On a model that is not listed, those rows go. On a listed one nothing goes: those not yet
  // deleted are marked with the time of the request. No other row changes, and nothing else.
  lemma DeletesMean<P(!new)>(s: Store<P>, q: Request<P>, models: seq<string>, now: Millis, column: P -> Option<string>)
    requires q.action == Delete || q.action == DeleteMany
    ensures var s1 := Exec(s, Rewritten(q, models, now), column).1;
            q.model !in models ==>
              && (forall id :: id in s1 <==> id in s && !ToDelete(q, id, s[id]))
              && (forall id :: id in s1 ==> s1[id] == s[id])
    ensures var s1 := Exec(s, Rewritten(q, models, now), column).1;
            q.model in models && Plain(q) ==>
              && s1.Keys == s.Keys
              && (forall id :: id in s ==>
                    s1[id] == if s[id].deletedAt.None? && ToDelete(q, id, s[id]) then s[id].(deletedAt := Some(now)) else s[id])
  {
    if q.model in models && Plain(q) {
      var w := Visible(q.filter);
      forall id | id in s ensures Accepts(w, id, s[id]) <==> s[id].deletedAt.None? && Accepts(q.filter, id, s[id]) {}
      if q.action == DeleteMany {
        MarkNotRefused(s, Matching(s, w).Keys, now, column);
      } else if q.filter.Some? && q.filter.value.key.Some? && q.filter.value.key.value in Matching(s, w) {
        MarkNotRefused(s, {q.filter.value.key.value}, now, column);
      }
    }
  }

  // Row j holds the id, or the unique value, that a create asks for.
  predicate InTheWay<P>(s: Store<P>, q: Request<P>, column: P -> Option<string>, j: Id)
    requires q.created.Some?
  {
    var id, value := q.created.value.id, column(q.created.value.payload);
    j in s && (j == id || (value.Some? && column(s[j].payload) == value))
  }

  // A create is refused exactly by such a row.
  lemma RefusedCreate<P(!new)>(s: Store<P>, q: Request<P>, column: P -> Option<string>)
    requires q.created.Some?
    ensures q.created.value.id in s || Refused(s, Created(s, q), {q.created.value.id}, column) <==> exists j :: InTheWay(s, q, column, j)
  {
    var id := q.created.value.id;
    if id in s {
      assert InTheWay(s, q, column, id);
    } else if j :| InTheWay(s, q, column, j) {
      assert Shared(s, Created(s, q), {id}, column, id, j);
    } else if Refused(s, Created(s, q), {id}, column) {
      var i, j :| i in {id} && j in Created(s, q) && Shared(s, Created(s, q), {id}, column, i, j);
      assert InTheWay(s, q, column, j);
    }
  }

  // In particular: a create agrees exactly when no deleted row is in its way, or a live one is too.
  lemma CreateAgreesIff<P(!new)>(s: Store<P>, q: Request<P>, models: seq<string>, now: Millis, column: P -> Option<string>)
    requires q.model in models && q.action == Create && q.created.Some?
    ensures Refines(s, q, models, now, column) <==>
              ((exists j :: InTheWay(s, q, column, j) && s[j].deletedAt.Some?) ==>
               (exists j :: InTheWay(s, q, column, j) && s[j].deletedAt.None?))
  {
    var live := Undeleted(LiveRows(s));
    CreateRefinesIff(s, q, models, now, column);
    RefusedCreate(s, q, column);
    RefusedCreate(live, q, column);
    assert forall j :: InTheWay(live, q, column, j) <==> InTheWay(s, q, column, j) && s[j].deletedAt.None?;
  }

  // An aggregate is not rewritten: it agrees exactly when no deleted row matches.
  lemma AggregateAgreesIff<P(!new)>(s: Store<P>, q: Request<P>, models: seq<string>, now: Millis, column: P -> Option<string>)
    requires q.model in models && q.action == Aggregate
    ensures Refines(s, q, models, now, column) <==> forall id :: id in s && s[id].deletedAt.Some? ==> !Accepts(q.filter, id, s[id])
  {
    var all, live := Matching(s, q.filter), Matching(Undeleted(LiveRows(s)), q.filter);
    if forall id :: id in s && s[id].deletedAt.Some? ==> !Accepts(q.filter, id, s[id]) {
      assert all == live;
    } else {
      var id :| id in s && s[id].deletedAt.Some? && Accepts(q.filter, id, s[id]);
      assert id in all && id !in live;
    }
  }

  // Nothing is ever physically removed, and a deleted row stays exactly as it was.
  lemma DeletedRowsAreKept<P(!new)>(s: Store<P>, q: Request<P>, models: seq<string>, now: Millis, id: Id, column: P -> Option<string>)
    requires q.model in models && Plain(q) && id in s
    ensures var s1 := Exec(s, Rewritten(q, models, now), column).1;
            id in s1 && (s[id].deletedAt.Some? ==> s1[id] == s[id])
  {
  }
}
