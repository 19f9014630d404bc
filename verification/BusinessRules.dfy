/**
 The two business-rule evaluators: PermissionEngineService.checkBusinessRules, which asks the
 database for the rules of the user's level, and BusinessRulesService.evaluateRules, which
 asks for all levels and skips. Both ask for descending priority; the database may break
 ties as it likes but by one fixed order of the table, here the order of `table`.
 */
module BusinessRules {
  import opened Common

  datatype Rule = Rule(
    id: string, organizationId: string, transactionType: string, thresholdValue: real,
    appliesToLevel: Level, approverLevel: Level, isActive: bool, priority: int)

  // Denied of None is the fail-safe answer when the database cannot be asked.
  datatype Verdict = Passed | Denied(rule: Option<Rule>)

  datatype Query = Query(organizationId: string, transactionType: string, level: Option<Level>)

  predicate Selects(q: Query, r: Rule) {
    && r.organizationId == q.organizationId
    && r.transactionType == q.transactionType
    && r.isActive
    && (q.level.Some? ==> r.appliesToLevel == q.level.value)
  }

  // ---------- findMany with orderBy priority desc ----------

  function Filter(p: Rule -> bool, rs: seq<Rule>): seq<Rule> {
    if rs == [] then [] else (if p(rs[0]) then [rs[0]] else []) + Filter(p, rs[1..])
  }

  // Stable insertion: before the first rule of lower priority.
  function Insert(r: Rule, rs: seq<Rule>): seq<Rule> {
    if rs == [] then [r]
    else if rs[0].priority > r.priority then [rs[0]] + Insert(r, rs[1..])
    else [r] + rs
  }

  function SortByPriority(rs: seq<Rule>): seq<Rule> {
    if rs == [] then [] else Insert(rs[0], SortByPriority(rs[1..]))
  }

  function Where(q: Query): Rule -> bool {
    r => Selects(q, r)
  }

  function FindMany(table: seq<Rule>, q: Query): seq<Rule> {
    SortByPriority(Filter(Where(q), table))
  }

  lemma {:induction false} FilterMembers(p: Rule -> bool, rs: seq<Rule>, x: Rule)
    ensures x in Filter(p, rs) <==> x in rs && p(x)
  {
    if rs != [] {
      FilterMembers(p, rs[1..], x);
      assert x in rs <==> x == rs[0] || x in rs[1..];
    }
  }

  lemma {:induction false} InsertMembers(r: Rule, rs: seq<Rule>, x: Rule)
    ensures x in Insert(r, rs) <==> x == r || x in rs
  {
    if rs != [] && rs[0].priority > r.priority {
      InsertMembers(r, rs[1..], x);
      assert x in rs <==> x == rs[0] || x in rs[1..];
    }
  }

  lemma {:induction false} SortMembers(rs: seq<Rule>, x: Rule)
    ensures x in SortByPriority(rs) <==> x in rs
  {
    if rs != [] {
      SortMembers(rs[1..], x);
      InsertMembers(rs[0], SortByPriority(rs[1..]), x);
      assert x in rs <==> x == rs[0] || x in rs[1..];
    }
  }

  lemma FindManyMembers(table: seq<Rule>, q: Query, x: Rule)
    ensures x in FindMany(table, q) <==> x in table && Selects(q, x)
  {
    SortMembers(Filter(Where(q), table), x);
    FilterMembers(Where(q), table, x);
  }

  ghost predicate Descending(rs: seq<Rule>) {
    forall i, j :: 0 <= i < j < |rs| ==> rs[i].priority >= rs[j].priority
  }

  lemma DescendingHead(rs: seq<Rule>, x: Rule)
    requires Descending(rs) && x in rs
    ensures x.priority <= rs[0].priority
  {
    var k :| 0 <= k < |rs| && rs[k] == x;
  }

  lemma {:induction false} InsertKeepsDescending(r: Rule, rs: seq<Rule>)
    requires Descending(rs)
    ensures Descending(Insert(r, rs))
  {
    if rs != [] && rs[0].priority > r.priority {
      InsertKeepsDescending(r, rs[1..]);
      var t := Insert(r, rs[1..]);
      forall j | 0 <= j < |t| ensures rs[0].priority >= t[j].priority {
        InsertMembers(r, rs[1..], t[j]);
        if t[j] in rs { DescendingHead(rs, t[j]); }
      }
    }
  }

  lemma {:induction false} SortIsDescending(rs: seq<Rule>)
    ensures Descending(SortByPriority(rs))
  {
    if rs != [] {
      SortIsDescending(rs[1..]);
      InsertKeepsDescending(rs[0], SortByPriority(rs[1..]));
    }
  }

  lemma FilterCons(p: Rule -> bool, r: Rule, rs: seq<Rule>)
    ensures Filter(p, [r] + rs) == (if p(r) then [r] else []) + Filter(p, rs)
  {
    assert ([r] + rs)[1..] == rs;
  }

  lemma InsertCons(r: Rule, x: Rule, rs: seq<Rule>)
    ensures Insert(r, [x] + rs) == if x.priority > r.priority then [x] + Insert(r, rs) else [r] + ([x] + rs)
  {
    assert ([x] + rs)[1..] == rs;
  }

  lemma InsertFirst(r: Rule, rs: seq<Rule>)
    requires forall x :: x in rs ==> x.priority <= r.priority
    ensures Insert(r, rs) == [r] + rs
  {
    assert rs != [] ==> rs[0] in rs;
  }

  lemma {:induction false} FilterInsert(p: Rule -> bool, r: Rule, rs: seq<Rule>)
    requires Descending(rs)
    ensures Filter(p, Insert(r, rs)) == if p(r) then Insert(r, Filter(p, rs)) else Filter(p, rs)
  {
    if rs != [] && rs[0].priority > r.priority {
      var tail := rs[1..];
      FilterInsert(p, r, tail);
      FilterCons(p, rs[0], Insert(r, tail));
      FilterCons(p, rs[0], tail);
      assert rs == [rs[0]] + tail && Insert(r, rs) == [rs[0]] + Insert(r, tail);
      if p(rs[0]) {
        assert Filter(p, rs) == [rs[0]] + Filter(p, tail);
        InsertCons(r, rs[0], Filter(p, tail));
      } else {
        assert Filter(p, rs) == Filter(p, tail);
      }
    } else {
      FilterCons(p, r, rs);
      forall x | x in Filter(p, rs) ensures x.priority <= r.priority {
        FilterMembers(p, rs, x);
        DescendingHead(rs, x);
      }
      InsertFirst(r, Filter(p, rs));
    }
  }

  // Filtering commutes with the stable sort: asking for fewer rules does not reorder them.
  lemma {:induction false} FilterSort(p: Rule -> bool, rs: seq<Rule>)
    ensures Filter(p, SortByPriority(rs)) == SortByPriority(Filter(p, rs))
  {
    if rs != [] {
      FilterSort(p, rs[1..]);
      SortIsDescending(rs[1..]);
      FilterInsert(p, rs[0], SortByPriority(rs[1..]));
      if p(rs[0]) {
        assert Filter(p, rs)[1..] == Filter(p, rs[1..]);
      } else {
        assert Filter(p, rs) == Filter(p, rs[1..]);
      }
    }
  }

  // ---------- the decision ----------

  // The first rule of the list that applies to the level and whose threshold is exceeded.
  function FirstTriggered(rs: seq<Rule>, level: Level, amount: real): Option<Rule> {
    if rs == [] then None
    else if rs[0].appliesToLevel == level && amount > rs[0].thresholdValue then Some(rs[0])
    else FirstTriggered(rs[1..], level, amount)
  }

  lemma ScanStep(rs: seq<Rule>, i: nat, level: Level, amount: real)
    requires i < |rs|
    ensures FirstTriggered(rs[i..], level, amount) ==
              if rs[i].appliesToLevel == level && amount > rs[i].thresholdValue then Some(rs[i]) else FirstTriggered(rs[i+1..], level, amount)
  {
    assert rs[i..][1..] == rs[i+1..];
  }

  // What either evaluator is to answer; database of None is a failing database.
  function Decide(database: Option<seq<Rule>>, organizationId: string, transactionType: string, level: Level, amount: real): Verdict {
    if level == OWNER then Passed
    else if database.None? then Denied(None)
    else
      match FirstTriggered(FindMany(database.value, Query(organizationId, transactionType, None)), level, amount)
      case None => Passed
      case Some(r) => Denied(Some(r))
  }

  // ---------- what the answer means ----------

  ghost predicate Applicable(table: seq<Rule>, r: Rule, organizationId: string, transactionType: string, level: Level) {
    && r in table && r.isActive && r.organizationId == organizationId && r.transactionType == transactionType && r.appliesToLevel == level
  }

  lemma {:induction false} FirstIsHighest(rs: seq<Rule>, level: Level, amount: real)
    requires Descending(rs)
    ensures var f := FirstTriggered(rs, level, amount);
            (f.None? <==> forall r :: r in rs && r.appliesToLevel == level ==> amount <= r.thresholdValue) &&
            (f.Some? ==>
               && f.value in rs && f.value.appliesToLevel == level && amount > f.value.thresholdValue
               && forall r :: r in rs && r.appliesToLevel == level && amount > r.thresholdValue ==> r.priority <= f.value.priority)
  {
    if rs != [] {
      assert rs == [rs[0]] + rs[1..];
      if rs[0].appliesToLevel == level && amount > rs[0].thresholdValue {
        forall r | r in rs ensures r.priority <= rs[0].priority { DescendingHead(rs, r); }
      } else {
        FirstIsHighest(rs[1..], level, amount);
      }
    }
  }

  // A pass says that no applicable threshold is exceeded, a denial names a rule of the highest
  // priority among those exceeded.
  ghost predicate Meant(v: Verdict, table: seq<Rule>, organizationId: string, transactionType: string, level: Level, amount: real) {
    && (v.Passed? <==> forall r :: Applicable(table, r, organizationId, transactionType, level) ==> amount <= r.thresholdValue)
    && (v.Denied? ==>
          && v.rule.Some? && Applicable(table, v.rule.value, organizationId, transactionType, level)
          && amount > v.rule.value.thresholdValue
          && forall r :: Applicable(table, r, organizationId, transactionType, level) && amount > r.thresholdValue
                         ==> r.priority <= v.rule.value.priority)
  }

  // What the evaluators answer a non-owner when the database works.
  lemma DecisionMeaning(table: seq<Rule>, organizationId: string, transactionType: string, level: Level, amount: real)
    requires level != OWNER
    ensures Meant(Decide(Some(table), organizationId, transactionType, level, amount), table, organizationId, transactionType, level, amount)
  {
    var rs := FindMany(table, Query(organizationId, transactionType, None));
    SortIsDescending(Filter(Where(Query(organizationId, transactionType, None)), table));
    FirstIsHighest(rs, level, amount);
    forall r ensures Applicable(table, r, organizationId, transactionType, level) <==> r in rs && r.appliesToLevel == level {
      FindManyMembers(table, Query(organizationId, transactionType, None), r);
    }
  }

  // ---------- the evaluators ----------

  method EvaluateRules(database: Option<seq<Rule>>, organizationId: string, transactionType: string, level: Level, amount: real)
    returns (v: Verdict)
    ensures v == Decide(database, organizationId, transactionType, level, amount)
    ensures level == OWNER ==> v == Passed
    ensures level != OWNER && database.None? ==> v == Denied(None)
    ensures level != OWNER && database.Some? ==> Meant(v, database.value, organizationId, transactionType, level, amount)
  {
    if level == OWNER {
      return Passed;
    }
    if database.None? {
      return Denied(None);
    }
    DecisionMeaning(database.value, organizationId, transactionType, level, amount);
    var rules := FindMany(database.value, Query(organizationId, transactionType, None));
    if |rules| == 0 {
      return Passed;
    }
    for i := 0 to |rules|
      invariant FirstTriggered(rules, level, amount) == FirstTriggered(rules[i..], level, amount)
    {
      ScanStep(rules, i, level, amount);
      if rules[i].appliesToLevel != level {
        continue;
      }
      if amount > rules[i].thresholdValue {
        return Denied(Some(rules[i]));
      }
    }
    v := Passed;
  }

  lemma {:induction false} OneLevelIsEnough(q: Query, rs: seq<Rule>, level: Level, amount: real)
    requires q.level == Some(level) && forall r :: r in rs ==> Selects(q.(level := None), r)
    ensures FirstTriggered(Filter(Where(q), rs), level, amount) == FirstTriggered(rs, level, amount)
  {
    if rs != [] {
      OneLevelIsEnough(q, rs[1..], level, amount);
      assert rs[0] in rs;
      if rs[0].appliesToLevel == level {
        assert Filter(Where(q), rs)[1..] == Filter(Where(q), rs[1..]);
      } else {
        assert Filter(Where(q), rs) == Filter(Where(q), rs[1..]);
      }
    }
  }

  lemma {:induction false} FilterTwice(q: Query, rs: seq<Rule>)
    ensures Filter(Where(q), Filter(Where(q.(level := None)), rs)) == Filter(Where(q), rs)
  {
    if rs != [] {
      FilterTwice(q, rs[1..]);
      if Selects(q.(level := None), rs[0]) {
        assert Filter(Where(q.(level := None)), rs)[1..] == Filter(Where(q.(level := None)), rs[1..]);
      } else {
        assert Filter(Where(q.(level := None)), rs) == Filter(Where(q.(level := None)), rs[1..]);
      }
    }
  }

  // The rules of one level, sorted, are the sorted rules of all levels with the rest left out.
  lemma QueriesAgree(table: seq<Rule>, organizationId: string, transactionType: string, level: Level, amount: real)
    ensures FirstTriggered(FindMany(table, Query(organizationId, transactionType, Some(level))), level, amount)
         == FirstTriggered(FindMany(table, Query(organizationId, transactionType, None)), level, amount)
  {
    var one, all := Query(organizationId, transactionType, Some(level)), Query(organizationId, transactionType, None);
    FilterTwice(one, table);
    FilterSort(Where(one), Filter(Where(all), table));
    forall r | r in FindMany(table, all) ensures Selects(all, r) { FindManyMembers(table, all, r); }
    OneLevelIsEnough(one, FindMany(table, all), level, amount);
  }

  // Filter-then-scan gives the answer of scan-with-skip.
  method CheckBusinessRules(database: Option<seq<Rule>>, organizationId: string, transactionType: string, level: Level, amount: real)
    returns (v: Verdict)
    ensures v == Decide(database, organizationId, transactionType, level, amount)
    ensures level == OWNER ==> v == Passed
    ensures level != OWNER && database.None? ==> v == Denied(None)
    ensures level != OWNER && database.Some? ==> Meant(v, database.value, organizationId, transactionType, level, amount)
  {
    if level == OWNER {
      return Passed;
    }
    if database.None? {
      return Denied(None);
    }
    DecisionMeaning(database.value, organizationId, transactionType, level, amount);
    var rules := FindMany(database.value, Query(organizationId, transactionType, Some(level)));
    QueriesAgree(database.value, organizationId, transactionType, level, amount);
    if |rules| == 0 {
      return Passed;
    }
    for i := 0 to |rules|
      invariant FirstTriggered(rules, level, amount) == FirstTriggered(rules[i..], level, amount)
    {
      ScanStep(rules, i, level, amount);
      FindManyMembers(database.value, Query(organizationId, transactionType, Some(level)), rules[i]);
      if amount > rules[i].thresholdValue {
        return Denied(Some(rules[i]));
      }
    }
    v := Passed;
  }

  // A larger amount is denied whenever a smaller one is.
  lemma DenialIsMonotone(table: seq<Rule>, organizationId: string, transactionType: string, level: Level, less: real, more: real)
    requires less <= more && Decide(Some(table), organizationId, transactionType, level, less).Denied?
    ensures Decide(Some(table), organizationId, transactionType, level, more).Denied?
  {
    DecisionMeaning(table, organizationId, transactionType, level, less);
    DecisionMeaning(table, organizationId, transactionType, level, more);
  }
}
