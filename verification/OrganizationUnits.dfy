/**
 BranchService and DepartmentService over the branch, department and user tables, and the
 user creation rules of UserService. Generated ids are new; codes are non-empty, as the
 request types demand.
 */
module OrganizationUnits {
  import opened Common

  type Id = string

  datatype Branch = Branch(organizationId: Id, name: string, code: string, managerId: Option<Id>)

  datatype Department = Department(organizationId: Id, branchId: Option<Id>, code: string, managerId: Option<Id>)

  datatype User = User(organizationId: Id, level: Level, createdBy: Option<Id>, branchId: Option<Id>, departmentId: Option<Id>)

  datatype State = State(branches: map<Id, Branch>, departments: map<Id, Department>, users: map<Id, User>)

  datatype Result = Done | NotFound | CodeTaken | NotAManager | AlreadyAssigned | WrongOrganization | NotAllowed | Unassigned

  // ---------- what every operation keeps ----------

  ghost predicate BranchManagersPointBack(s: State) {
    forall b :: b in s.branches && s.branches[b].managerId.Some? ==>
      var m := s.branches[b].managerId.value;
      m in s.users && s.users[m].level.MANAGER? && s.users[m].branchId == Some(b)
  }

  ghost predicate DepartmentManagersPointBack(s: State) {
    forall d :: d in s.departments && s.departments[d].managerId.Some? ==>
      var m := s.departments[d].managerId.value;
      m in s.users && s.users[m].level.MANAGER? && s.users[m].departmentId == Some(d)
  }

  predicate BranchCodeTaken(s: State, organizationId: Id, code: string) {
    exists b :: b in s.branches && s.branches[b].organizationId == organizationId && s.branches[b].code == code
  }

  predicate DepartmentCodeTaken(s: State, organizationId: Id, code: string) {
    exists d :: d in s.departments && s.departments[d].organizationId == organizationId && s.departments[d].code == code
  }

  ghost predicate SameBranchCode(b: Branch, c: Branch) {
    b.organizationId == c.organizationId && b.code == c.code
  }

  ghost predicate SameDepartmentCode(b: Department, c: Department) {
    b.organizationId == c.organizationId && b.code == c.code
  }

  ghost predicate BranchCodesUnique(s: State) {
    forall b, c :: b in s.branches && c in s.branches && SameBranchCode(s.branches[b], s.branches[c]) ==> b == c
  }

  ghost predicate DepartmentCodesUnique(s: State) {
    forall b, c :: b in s.departments && c in s.departments && SameDepartmentCode(s.departments[b], s.departments[c]) ==> b == c
  }

  ghost predicate CodesUnique(s: State) {
    BranchCodesUnique(s) && DepartmentCodesUnique(s)
  }

  ghost predicate DepartmentsInOrganization(s: State) {
    forall d :: d in s.departments && s.departments[d].branchId.Some? ==>
      var b := s.departments[d].branchId.value;
      b in s.branches && s.branches[b].organizationId == s.departments[d].organizationId
  }

  // Every user but an owner was created by a user exactly one level up.
  ghost predicate OneBelow(us: map<Id, User>, u: User) {
    u.level.OWNER? || (u.createdBy.Some? && u.createdBy.value in us && Rank(us[u.createdBy.value].level) == Rank(u.level) + 1)
  }

  ghost predicate CreatorsDescend(s: State) {
    forall u :: u in s.users ==> OneBelow(s.users, s.users[u])
  }

  ghost predicate ManagersAssigned(s: State) {
    forall u :: u in s.users && s.users[u].level.MANAGER? ==> s.users[u].branchId.Some? || s.users[u].departmentId.Some?
  }

  // A worker's branch and department, where set, are those of the manager who created them.
  ghost predicate WorkersShareScope(s: State) {
    forall u :: u in s.users && s.users[u].level.WORKER? ==>
      && s.users[u].createdBy.Some? && s.users[u].createdBy.value in s.users
      && var w, m := s.users[u], s.users[s.users[u].createdBy.value];
         && m.level.MANAGER?
         && (w.branchId.Some? ==> m.branchId == w.branchId)
         && (w.departmentId.Some? ==> m.departmentId == w.departmentId)
  }

  ghost predicate Consistent(s: State) {
    && BranchManagersPointBack(s) && DepartmentManagersPointBack(s)
    && CodesUnique(s) && DepartmentsInOrganization(s) && CreatorsDescend(s)
    && ManagersAssigned(s) && WorkersShareScope(s)
  }

  // ---------- the operations ----------

  function CreateBranch(s: State, id: Id, organizationId: Id, name: string, code: string): (Result, State) {
    if BranchCodeTaken(s, organizationId, code) then (CodeTaken, s)
    else (Done, s.(branches := s.branches[id := Branch(organizationId, name, code, None)]))
  }

  function UpdateBranch(s: State, id: Id, name: Option<string>, code: Option<string>): (Result, State) {
    if id !in s.branches then (NotFound, s)
    else
      var b := s.branches[id];
      if code.Some? && code.value != b.code && BranchCodeTaken(s, b.organizationId, code.value) then (CodeTaken, s)
      else
        (Done, s.(branches := s.branches[id := b.(name := if name.Some? then name.value else b.name,
                                                  code := if code.Some? then code.value else b.code)]))
  }

  function AssignBranchManager(s: State, id: Id, managerId: Id): (Result, State) {
    if id !in s.branches || managerId !in s.users then (NotFound, s)
    else
      var u := s.users[managerId];
      if !u.level.MANAGER? then (NotAManager, s)
      else if u.branchId.Some? && u.branchId.value != id then (AlreadyAssigned, s)
      else (Done, s.(branches := s.branches[id := s.branches[id].(managerId := Some(managerId))],
                     users := s.users[managerId := u.(branchId := Some(id))]))
  }

  function CreateDepartment(s: State, id: Id, organizationId: Id, branchId: Option<Id>, code: string): (Result, State) {
    if DepartmentCodeTaken(s, organizationId, code) then (CodeTaken, s)
    else if branchId.Some? && branchId.value !in s.branches then (NotFound, s)
    else if branchId.Some? && s.branches[branchId.value].organizationId != organizationId then (WrongOrganization, s)
    else (Done, s.(departments := s.departments[id := Department(organizationId, branchId, code, None)]))
  }

  // branchId of None leaves the branch alone; Some(None) clears it.
  function UpdateDepartment(s: State, id: Id, code: Option<string>, branchId: Option<Option<Id>>): (Result, State) {
    if id !in s.departments then (NotFound, s)
    else
      var d := s.departments[id];
      if code.Some? && code.value != d.code && DepartmentCodeTaken(s, d.organizationId, code.value) then (CodeTaken, s)
      else if branchId.Some? && branchId.value.Some? && branchId.value.value !in s.branches then (NotFound, s)
      else if branchId.Some? && branchId.value.Some?
        && s.branches[branchId.value.value].organizationId != d.organizationId then (WrongOrganization, s)
      else
        (Done, s.(departments := s.departments[id := d.(code := if code.Some? then code.value else d.code,
                                                        branchId := if branchId.Some? then branchId.value else d.branchId)]))
  }

  function AssignDepartmentManager(s: State, id: Id, managerId: Id): (Result, State) {
    if id !in s.departments || managerId !in s.users then (NotFound, s)
    else
      var u := s.users[managerId];
      if !u.level.MANAGER? then (NotAManager, s)
      else if u.departmentId.Some? && u.departmentId.value != id then (AlreadyAssigned, s)
      else (Done, s.(departments := s.departments[id := s.departments[id].(managerId := Some(managerId))],
                     users := s.users[managerId := u.(departmentId := Some(id))]))
  }

  // validateUserCreation: whether creation may go on.
  predicate MayCreate(creator: Level, target: Level) {
    (creator.OWNER? && target.MANAGER?) || (creator.MANAGER? && target.WORKER?)
  }

  function CreateManager(s: State, id: Id, organizationId: Id, creatorId: Id, branchId: Option<Id>, departmentId: Option<Id>): (Result, State) {
    if creatorId !in s.users then (NotFound, s)
    else if !MayCreate(s.users[creatorId].level, MANAGER) then (NotAllowed, s)
    else if branchId.None? && departmentId.None? then (Unassigned, s)
    else (Done, s.(users := s.users[id := User(organizationId, MANAGER, Some(creatorId), branchId, departmentId)]))
  }

  function CreateWorker(s: State, id: Id, organizationId: Id, creatorId: Id): (Result, State) {
    if creatorId !in s.users then (NotFound, s)
    else
      var creator := s.users[creatorId];
      if !MayCreate(creator.level, WORKER) then (NotAllowed, s)
      else (Done, s.(users := s.users[id := User(organizationId, WORKER, Some(creatorId), creator.branchId, creator.departmentId)]))
  }

  datatype Event =
    | RegisterOwner(id: Id, organizationId: Id)
    | NewBranch(id: Id, organizationId: Id, name: string, code: string)
    | EditBranch(id: Id, newName: Option<string>, newCode: Option<string>)
    | ManageBranch(id: Id, managerId: Id)
    | NewDepartment(id: Id, organizationId: Id, branchId: Option<Id>, code: string)
    | EditDepartment(id: Id, newCode: Option<string>, newBranch: Option<Option<Id>>)
    | ManageDepartment(id: Id, managerId: Id)
    | NewManager(id: Id, organizationId: Id, creatorId: Id, branchId: Option<Id>, departmentId: Option<Id>)
    | NewWorker(id: Id, organizationId: Id, creatorId: Id)

  // Generated ids are new.
  ghost predicate Enabled(s: State, e: Event) {
    && (e.NewBranch? ==> e.id !in s.branches)
    && (e.NewDepartment? ==> e.id !in s.departments)
    && (e.NewManager? || e.NewWorker? || e.RegisterOwner? ==> e.id !in s.users)
  }

  function Apply(s: State, e: Event): State {
    match e
    case RegisterOwner(id, o) => s.(users := s.users[id := User(o, OWNER, None, None, None)])
    case NewBranch(id, o, n, c) => CreateBranch(s, id, o, n, c).1
    case EditBranch(id, n, c) => UpdateBranch(s, id, n, c).1
    case ManageBranch(id, m) => AssignBranchManager(s, id, m).1
    case NewDepartment(id, o, b, c) => CreateDepartment(s, id, o, b, c).1
    case EditDepartment(id, c, b) => UpdateDepartment(s, id, c, b).1
    case ManageDepartment(id, m) => AssignDepartmentManager(s, id, m).1
    case NewManager(id, o, c, b, d) => CreateManager(s, id, o, c, b, d).1
    case NewWorker(id, o, c) => CreateWorker(s, id, o, c).1
  }

  lemma StepKeepsBranchManagers(s: State, e: Event)
    requires Enabled(s, e) && BranchManagersPointBack(s)
    ensures BranchManagersPointBack(Apply(s, e))
  {
  }

  lemma StepKeepsDepartmentManagers(s: State, e: Event)
    requires Enabled(s, e) && DepartmentManagersPointBack(s)
    ensures DepartmentManagersPointBack(Apply(s, e))
  {
  }

  lemma StepKeepsBranchCodes(s: State, e: Event)
    requires Enabled(s, e) && BranchCodesUnique(s)
    ensures BranchCodesUnique(Apply(s, e))
  {
  }

  lemma StepKeepsDepartmentCodes(s: State, e: Event)
    requires Enabled(s, e) && DepartmentCodesUnique(s)
    ensures DepartmentCodesUnique(Apply(s, e))
  {
  }

  lemma StepKeepsOrganization(s: State, e: Event)
    requires Enabled(s, e) && DepartmentsInOrganization(s)
    ensures DepartmentsInOrganization(Apply(s, e))
  {
  }

  // A new user one below their creator, or the same user with another branch or department.
  lemma OneMoreUser(s: State, t: State, id: Id)
    requires CreatorsDescend(s) && id in t.users && t.users.Keys == s.users.Keys + {id}
    requires forall u :: u in s.users && u != id ==> t.users[u] == s.users[u]
    requires id in s.users ==> t.users[id].level == s.users[id].level && t.users[id].createdBy == s.users[id].createdBy
    requires id !in s.users ==> OneBelow(s.users, t.users[id])
    ensures CreatorsDescend(t)
  {
    forall u | u in t.users ensures OneBelow(t.users, t.users[u]) {
      assert u in s.users ==> OneBelow(s.users, s.users[u]);
    }
  }

  lemma NewUsersKeepCreators(s: State, e: Event)
    requires Enabled(s, e) && CreatorsDescend(s) && (e.RegisterOwner? || e.NewManager? || e.NewWorker?)
    ensures CreatorsDescend(Apply(s, e))
  {
    if Apply(s, e).users != s.users {
      OneMoreUser(s, Apply(s, e), e.id);
    }
  }

  lemma AssignmentsKeepCreators(s: State, e: Event)
    requires Enabled(s, e) && CreatorsDescend(s) && (e.ManageBranch? || e.ManageDepartment?)
    ensures CreatorsDescend(Apply(s, e))
  {
    if Apply(s, e).users != s.users {
      OneMoreUser(s, Apply(s, e), e.managerId);
    }
  }

  lemma StepKeepsCreators(s: State, e: Event)
    requires Enabled(s, e) && CreatorsDescend(s)
    ensures CreatorsDescend(Apply(s, e))
  {
    if e.RegisterOwner? || e.NewManager? || e.NewWorker? {
      NewUsersKeepCreators(s, e);
    } else if e.ManageBranch? || e.ManageDepartment? {
      AssignmentsKeepCreators(s, e);
    } else {
      assert Apply(s, e).users == s.users;
    }
  }

  lemma StepKeepsAssignments(s: State, e: Event)
    requires Enabled(s, e) && ManagersAssigned(s)
    ensures ManagersAssigned(Apply(s, e))
  {
  }

  lemma StepKeepsScope(s: State, e: Event)
    requires Enabled(s, e) && WorkersShareScope(s)
    ensures WorkersShareScope(Apply(s, e))
  {
  }

  lemma StepConsistent(s: State, e: Event)
    requires Enabled(s, e) && Consistent(s)
    ensures Consistent(Apply(s, e))
  {
    StepKeepsBranchManagers(s, e);
    StepKeepsDepartmentManagers(s, e);
    StepKeepsBranchCodes(s, e);
    StepKeepsDepartmentCodes(s, e);
    StepKeepsOrganization(s, e);
    StepKeepsCreators(s, e);
    StepKeepsAssignments(s, e);
    StepKeepsScope(s, e);
  }

  // ---------- what is not checked ----------

  ghost predicate BranchManagersInOrganization(s: State) {
    forall b :: b in s.branches && s.branches[b].managerId.Some? && s.branches[b].managerId.value in s.users ==>
      s.users[s.branches[b].managerId.value].organizationId == s.branches[b].organizationId
  }

  ghost predicate DepartmentManagersInOrganization(s: State) {
    forall d :: d in s.departments && s.departments[d].managerId.Some? && s.departments[d].managerId.value in s.users ==>
      s.users[s.departments[d].managerId.value].organizationId == s.departments[d].organizationId
  }

  // Assigning a manager does not compare organizations. A branch's manager stays in the
  // branch's organization exactly through the steps that do not assign one from another.
  lemma BranchManagersStayIff(s: State, e: Event)
    requires Enabled(s, e) && BranchManagersPointBack(s) && BranchManagersInOrganization(s)
    ensures BranchManagersInOrganization(Apply(s, e)) <==>
              !(e.ManageBranch? && AssignBranchManager(s, e.id, e.managerId).0.Done?
                && s.users[e.managerId].organizationId != s.branches[e.id].organizationId)
  {
    if e.ManageBranch? && AssignBranchManager(s, e.id, e.managerId).0.Done? {
      var t := Apply(s, e);
      assert e.id in t.branches && t.branches[e.id].managerId == Some(e.managerId) && e.managerId in t.users;
    }
  }

  lemma DepartmentManagersStayIff(s: State, e: Event)
    requires Enabled(s, e) && DepartmentManagersPointBack(s) && DepartmentManagersInOrganization(s)
    ensures DepartmentManagersInOrganization(Apply(s, e)) <==>
              !(e.ManageDepartment? && AssignDepartmentManager(s, e.id, e.managerId).0.Done?
                && s.users[e.managerId].organizationId != s.departments[e.id].organizationId)
  {
    if e.ManageDepartment? && AssignDepartmentManager(s, e.id, e.managerId).0.Done? {
      var t := Apply(s, e);
      assert e.id in t.departments && t.departments[e.id].managerId == Some(e.managerId) && e.managerId in t.users;
    }
  }

  // ---------- runs ----------

  ghost predicate Run(r: seq<State>, es: seq<Event>) {
    && |r| == |es| + 1
    && r[0] == State(map[], map[], map[])
    && forall i :: 0 <= i < |es| ==> Enabled(r[i], es[i]) && r[i+1] == Apply(r[i], es[i])
  }

  lemma ConsistentOverRuns(r: seq<State>, es: seq<Event>)
    requires Run(r, es)
    ensures forall i :: 0 <= i < |r| ==> Consistent(r[i])
  {
    for i := 0 to |es|
      invariant forall j :: 0 <= j <= i ==> Consistent(r[j])
    {
      StepConsistent(r[i], es[i]);
    }
  }

  // Nobody manages two branches.
  lemma OneBranchPerManager(r: seq<State>, es: seq<Event>, i: nat)
    requires Run(r, es) && i < |r|
    ensures var bs := r[i].branches;
            forall b, c :: b in bs && c in bs && bs[b].managerId.Some? && bs[b].managerId == bs[c].managerId ==> b == c
  {
    ConsistentOverRuns(r, es);
  }

  // Following creators from any user ends at an owner, within two steps.
  lemma CreatorsLeadToOwner(r: seq<State>, es: seq<Event>, i: nat)
    requires Run(r, es) && i < |r|
    ensures var us := r[i].users;
            forall u :: u in us ==>
              us[u].level.OWNER? ||
              (us[u].createdBy.Some? && us[u].createdBy.value in us &&
               var c := us[us[u].createdBy.value];
               c.level.OWNER? || (c.createdBy.Some? && c.createdBy.value in us && us[c.createdBy.value].level.OWNER?))
  {
    ConsistentOverRuns(r, es);
  }

  // ---------- what each operation promises ----------

  // Done for a manager not yet in another branch: the branch and the user change together,
  // nobody comes to manage two branches, and assigning the same manager again changes nothing.
  // A refusal changes nothing.
  ghost predicate BranchAssigned(s: State, id: Id, managerId: Id, r: Result, t: State) {
    && (id !in s.branches || managerId !in s.users ==> r == NotFound)
    && (id in s.branches && managerId in s.users ==>
          var u := s.users[managerId];
          r == if u.level != MANAGER then NotAManager else if u.branchId == None || u.branchId == Some(id) then Done else AlreadyAssigned)
    && (r.Done? ==>
          && id in s.branches && managerId in s.users
          && t.branches == s.branches[id := s.branches[id].(managerId := Some(managerId))]
          && t.users == s.users[managerId := s.users[managerId].(branchId := Some(id))] && t.departments == s.departments
          && (forall b :: b in t.branches && t.branches[b].managerId == Some(managerId) ==> b == id)
          && (s.branches[id].managerId == Some(managerId) ==> t == s))
    && (!r.Done? ==> t == s)
  }

  lemma AssignBranchManagerMeans(s: State, id: Id, managerId: Id)
    requires BranchManagersPointBack(s)
    ensures var (r, t) := AssignBranchManager(s, id, managerId); BranchAssigned(s, id, managerId, r, t)
  {
    StepKeepsBranchManagers(s, ManageBranch(id, managerId));
    var (r, t) := AssignBranchManager(s, id, managerId);
    if r.Done? && s.branches[id].managerId == Some(managerId) {
      assert t.branches == s.branches && t.users == s.users;
    }
  }

  ghost predicate DepartmentAssigned(s: State, id: Id, managerId: Id, r: Result, t: State) {
    && (id !in s.departments || managerId !in s.users ==> r == NotFound)
    && (id in s.departments && managerId in s.users ==>
          var u := s.users[managerId];
          r == if u.level != MANAGER then NotAManager else if u.departmentId == None || u.departmentId == Some(id) then Done else AlreadyAssigned)
    && (r.Done? ==>
          && id in s.departments && managerId in s.users
          && t.departments == s.departments[id := s.departments[id].(managerId := Some(managerId))]
          && t.users == s.users[managerId := s.users[managerId].(departmentId := Some(id))] && t.branches == s.branches
          && (forall d :: d in t.departments && t.departments[d].managerId == Some(managerId) ==> d == id)
          && (s.departments[id].managerId == Some(managerId) ==> t == s))
    && (!r.Done? ==> t == s)
  }

  lemma AssignDepartmentManagerMeans(s: State, id: Id, managerId: Id)
    requires DepartmentManagersPointBack(s)
    ensures var (r, t) := AssignDepartmentManager(s, id, managerId); DepartmentAssigned(s, id, managerId, r, t)
  {
    StepKeepsDepartmentManagers(s, ManageDepartment(id, managerId));
    var (r, t) := AssignDepartmentManager(s, id, managerId);
    if r.Done? && s.departments[id].managerId == Some(managerId) {
      assert t.departments == s.departments && t.users == s.users;
    }
  }

  // An owner creates managers with a branch or a department; a new one manages nothing yet.
  ghost predicate ManagerCreated(s: State, id: Id, organizationId: Id, creatorId: Id, branchId: Option<Id>, departmentId: Option<Id>, r: Result, t: State) {
    && (creatorId !in s.users ==> r == NotFound)
    && (creatorId in s.users ==>
          r == if s.users[creatorId].level != OWNER then NotAllowed
               else if branchId == None && departmentId == None then Unassigned
               else Done)
    && (r.Done? ==>
          && t.users == s.users[id := User(organizationId, MANAGER, Some(creatorId), branchId, departmentId)]
          && t.branches == s.branches && t.departments == s.departments
          && (forall b :: b in t.branches ==> t.branches[b].managerId != Some(id))
          && (forall d :: d in t.departments ==> t.departments[d].managerId != Some(id)))
    && (!r.Done? ==> t == s)
  }

  lemma CreateManagerMeans(s: State, id: Id, organizationId: Id, creatorId: Id, branchId: Option<Id>, departmentId: Option<Id>)
    requires BranchManagersPointBack(s) && DepartmentManagersPointBack(s) && id !in s.users
    ensures var (r, t) := CreateManager(s, id, organizationId, creatorId, branchId, departmentId);
            ManagerCreated(s, id, organizationId, creatorId, branchId, departmentId, r, t)
  {
    var (r, t) := CreateManager(s, id, organizationId, creatorId, branchId, departmentId);
    assert r.Done? ==> id in t.users && t.users[id].level.MANAGER?;
  }

  // A worker has the scope of a manager whom an owner created, so never an empty one.
  ghost predicate WorkerCreated(s: State, id: Id, organizationId: Id, creatorId: Id, r: Result, t: State) {
    && (creatorId !in s.users ==> r == NotFound)
    && (creatorId in s.users ==> r == if s.users[creatorId].level == MANAGER then Done else NotAllowed)
    && (r.Done? ==>
          && t.users - {id} == s.users && id in t.users && t.users[id].organizationId == organizationId
          && t.users[id].level.WORKER? && t.users[id].createdBy == Some(creatorId)
          && t.users[id].branchId == s.users[creatorId].branchId && t.users[id].departmentId == s.users[creatorId].departmentId
          && (t.users[id].branchId.Some? || t.users[id].departmentId.Some?)
          && s.users[creatorId].createdBy.Some? && s.users[creatorId].createdBy.value in s.users
          && s.users[s.users[creatorId].createdBy.value].level.OWNER?
          && t.branches == s.branches && t.departments == s.departments)
    && (!r.Done? ==> t == s)
  }

  lemma CreateWorkerMeans(s: State, id: Id, organizationId: Id, creatorId: Id)
    requires CreatorsDescend(s) && ManagersAssigned(s) && id !in s.users
    ensures var (r, t) := CreateWorker(s, id, organizationId, creatorId); WorkerCreated(s, id, organizationId, creatorId, r, t)
  {
    var (r, t) := CreateWorker(s, id, organizationId, creatorId);
    assert r.Done? ==> t.users - {id} == s.users;
  }

  // A branch or department is created exactly when its code is free, and, for a department in
  // a branch, that branch is one of its organization.
  ghost predicate BranchCreated(s: State, id: Id, organizationId: Id, name: string, code: string, r: Result, t: State) {
    && (r.Done? <==> forall b :: b in s.branches ==> !(s.branches[b].organizationId == organizationId && s.branches[b].code == code))
    && (r.Done? ==> t == s.(branches := s.branches[id := Branch(organizationId, name, code, None)]))
    && (!r.Done? ==> r == CodeTaken && t == s)
  }

  ghost predicate DepartmentCreated(s: State, id: Id, organizationId: Id, branchId: Option<Id>, code: string, r: Result, t: State) {
    && (r.Done? <==>
          && (forall d :: d in s.departments ==> !(s.departments[d].organizationId == organizationId && s.departments[d].code == code))
          && (branchId.Some? ==> branchId.value in s.branches && s.branches[branchId.value].organizationId == organizationId))
    && (r.Done? ==> t == s.(departments := s.departments[id := Department(organizationId, branchId, code, None)]))
    && (!r.Done? ==> t == s && r in {CodeTaken, NotFound, WrongOrganization})
    && (r.NotFound? ==> branchId.Some? && branchId.value !in s.branches)
    && (r.WrongOrganization? ==> branchId.Some? && branchId.value in s.branches)
  }

  lemma CreateBranchMeans(s: State, id: Id, organizationId: Id, name: string, code: string)
    ensures var (r, t) := CreateBranch(s, id, organizationId, name, code); BranchCreated(s, id, organizationId, name, code, r, t)
  {
  }

  lemma CreateDepartmentMeans(s: State, id: Id, organizationId: Id, branchId: Option<Id>, code: string)
    ensures var (r, t) := CreateDepartment(s, id, organizationId, branchId, code);
            DepartmentCreated(s, id, organizationId, branchId, code, r, t)
  {
  }

  // An edit goes through exactly when the code it asks for, if another one, is free, and the
  // branch, if one is asked for, is of the same organization; organization and manager stay.
  ghost predicate BranchEdited(s: State, id: Id, name: Option<string>, code: Option<string>, r: Result, t: State) {
    && (r.Done? <==>
          && id in s.branches
          && (code.Some? ==> forall b :: b in s.branches && b != id ==>
                !(s.branches[b].organizationId == s.branches[id].organizationId && s.branches[b].code == code.value)))
    && (r.Done? ==>
          && t.users == s.users && t.departments == s.departments
          && t.branches.Keys == s.branches.Keys && t.branches - {id} == s.branches - {id}
          && t.branches[id].organizationId == s.branches[id].organizationId && t.branches[id].managerId == s.branches[id].managerId
          && t.branches[id].name == (if name.Some? then name.value else s.branches[id].name)
          && t.branches[id].code == (if code.Some? then code.value else s.branches[id].code))
    && (!r.Done? ==> t == s && r == if id in s.branches then CodeTaken else NotFound)
  }

  lemma UpdateBranchMeans(s: State, id: Id, name: Option<string>, code: Option<string>)
    requires CodesUnique(s)
    ensures var (r, t) := UpdateBranch(s, id, name, code); BranchEdited(s, id, name, code, r, t)
  {
    var (r, t) := UpdateBranch(s, id, name, code);
    assert r.Done? ==> t.branches - {id} == s.branches - {id};
    if id in s.branches && code.Some? && code.value == s.branches[id].code {
      forall b | b in s.branches && b != id
        ensures !(s.branches[b].organizationId == s.branches[id].organizationId && s.branches[b].code == code.value)
      {
        assert SameBranchCode(s.branches[b], s.branches[id]) ==> b == id;
      }
    }
  }

  ghost predicate DepartmentEdited(s: State, id: Id, code: Option<string>, branchId: Option<Option<Id>>, r: Result, t: State) {
    && (r.Done? <==>
          && id in s.departments
          && (code.Some? ==> forall d :: d in s.departments && d != id ==>
                !(s.departments[d].organizationId == s.departments[id].organizationId && s.departments[d].code == code.value))
          && (branchId.Some? && branchId.value.Some? ==>
                branchId.value.value in s.branches && s.branches[branchId.value.value].organizationId == s.departments[id].organizationId))
    && (r.Done? ==>
          && t.users == s.users && t.branches == s.branches
          && t.departments.Keys == s.departments.Keys && t.departments - {id} == s.departments - {id}
          && t.departments[id].organizationId == s.departments[id].organizationId && t.departments[id].managerId == s.departments[id].managerId
          && t.departments[id].code == (if code.Some? then code.value else s.departments[id].code)
          && t.departments[id].branchId == (if branchId.Some? then branchId.value else s.departments[id].branchId))
    && (!r.Done? ==> t == s && r in {NotFound, CodeTaken, WrongOrganization})
    && (id !in s.departments ==> r == NotFound)
  }

  lemma UpdateDepartmentMeans(s: State, id: Id, code: Option<string>, branchId: Option<Option<Id>>)
    requires CodesUnique(s)
    ensures var (r, t) := UpdateDepartment(s, id, code, branchId); DepartmentEdited(s, id, code, branchId, r, t)
  {
    var (r, t) := UpdateDepartment(s, id, code, branchId);
    assert r.Done? ==> t.departments - {id} == s.departments - {id};
    if id in s.departments && code.Some? && code.value == s.departments[id].code {
      forall d | d in s.departments && d != id
        ensures !(s.departments[d].organizationId == s.departments[id].organizationId && s.departments[d].code == code.value)
      {
        assert SameDepartmentCode(s.departments[d], s.departments[id]) ==> d == id;
      }
    }
  }

  // ---------- each operation on consistent tables ----------

  lemma CreateBranchKeeps(s: State, id: Id, organizationId: Id, name: string, code: string)
    requires Consistent(s) && id !in s.branches
    ensures var (r, t) := CreateBranch(s, id, organizationId, name, code);
            Consistent(t) && BranchCreated(s, id, organizationId, name, code, r, t)
  {
    var (r, t) := CreateBranch(s, id, organizationId, name, code);
    assert BranchCreated(s, id, organizationId, name, code, r, t) by {
      CreateBranchMeans(s, id, organizationId, name, code);
    }
    assert Consistent(t) by {
      assert t == Apply(s, NewBranch(id, organizationId, name, code));
      StepConsistent(s, NewBranch(id, organizationId, name, code));
    }
  }

  lemma UpdateBranchKeeps(s: State, id: Id, name: Option<string>, code: Option<string>)
    requires Consistent(s)
    ensures var (r, t) := UpdateBranch(s, id, name, code); Consistent(t) && BranchEdited(s, id, name, code, r, t)
  {
    var (r, t) := UpdateBranch(s, id, name, code);
    assert BranchEdited(s, id, name, code, r, t) by {
      UpdateBranchMeans(s, id, name, code);
    }
    assert Consistent(t) by {
      assert t == Apply(s, EditBranch(id, name, code));
      StepConsistent(s, EditBranch(id, name, code));
    }
  }

  lemma AssignBranchManagerKeeps(s: State, id: Id, managerId: Id)
    requires Consistent(s)
    ensures var (r, t) := AssignBranchManager(s, id, managerId); Consistent(t) && BranchAssigned(s, id, managerId, r, t)
  {
    var (r, t) := AssignBranchManager(s, id, managerId);
    assert BranchAssigned(s, id, managerId, r, t) by {
      AssignBranchManagerMeans(s, id, managerId);
    }
    assert Consistent(t) by {
      assert t == Apply(s, ManageBranch(id, managerId));
      StepConsistent(s, ManageBranch(id, managerId));
    }
  }

  lemma CreateDepartmentKeeps(s: State, id: Id, organizationId: Id, branchId: Option<Id>, code: string)
    requires Consistent(s) && id !in s.departments
    ensures var (r, t) := CreateDepartment(s, id, organizationId, branchId, code);
            Consistent(t) && DepartmentCreated(s, id, organizationId, branchId, code, r, t)
  {
    var (r, t) := CreateDepartment(s, id, organizationId, branchId, code);
    assert DepartmentCreated(s, id, organizationId, branchId, code, r, t) by {
      CreateDepartmentMeans(s, id, organizationId, branchId, code);
    }
    assert Consistent(t) by {
      assert t == Apply(s, NewDepartment(id, organizationId, branchId, code));
      StepConsistent(s, NewDepartment(id, organizationId, branchId, code));
    }
  }

  lemma UpdateDepartmentKeeps(s: State, id: Id, code: Option<string>, branchId: Option<Option<Id>>)
    requires Consistent(s)
    ensures var (r, t) := UpdateDepartment(s, id, code, branchId); Consistent(t) && DepartmentEdited(s, id, code, branchId, r, t)
  {
    var (r, t) := UpdateDepartment(s, id, code, branchId);
    assert DepartmentEdited(s, id, code, branchId, r, t) by {
      UpdateDepartmentMeans(s, id, code, branchId);
    }
    assert Consistent(t) by {
      assert t == Apply(s, EditDepartment(id, code, branchId));
      StepConsistent(s, EditDepartment(id, code, branchId));
    }
  }

  lemma AssignDepartmentManagerKeeps(s: State, id: Id, managerId: Id)
    requires Consistent(s)
    ensures var (r, t) := AssignDepartmentManager(s, id, managerId); Consistent(t) && DepartmentAssigned(s, id, managerId, r, t)
  {
    var (r, t) := AssignDepartmentManager(s, id, managerId);
    assert DepartmentAssigned(s, id, managerId, r, t) by {
      AssignDepartmentManagerMeans(s, id, managerId);
    }
    assert Consistent(t) by {
      assert t == Apply(s, ManageDepartment(id, managerId));
      StepConsistent(s, ManageDepartment(id, managerId));
    }
  }

  lemma CreateManagerKeeps(s: State, id: Id, organizationId: Id, creatorId: Id, branchId: Option<Id>, departmentId: Option<Id>)
    requires Consistent(s) && id !in s.users
    ensures var (r, t) := CreateManager(s, id, organizationId, creatorId, branchId, departmentId);
            Consistent(t) && ManagerCreated(s, id, organizationId, creatorId, branchId, departmentId, r, t)
  {
    var (r, t) := CreateManager(s, id, organizationId, creatorId, branchId, departmentId);
    assert ManagerCreated(s, id, organizationId, creatorId, branchId, departmentId, r, t) by {
      CreateManagerMeans(s, id, organizationId, creatorId, branchId, departmentId);
    }
    assert Consistent(t) by {
      assert t == Apply(s, NewManager(id, organizationId, creatorId, branchId, departmentId));
      StepConsistent(s, NewManager(id, organizationId, creatorId, branchId, departmentId));
    }
  }

  lemma CreateWorkerKeeps(s: State, id: Id, organizationId: Id, creatorId: Id)
    requires Consistent(s) && id !in s.users
    ensures var (r, t) := CreateWorker(s, id, organizationId, creatorId); Consistent(t) && WorkerCreated(s, id, organizationId, creatorId, r, t)
  {
    var (r, t) := CreateWorker(s, id, organizationId, creatorId);
    assert WorkerCreated(s, id, organizationId, creatorId, r, t) by {
      CreateWorkerMeans(s, id, organizationId, creatorId);
    }
    assert Consistent(t) by {
      assert t == Apply(s, NewWorker(id, organizationId, creatorId));
      StepConsistent(s, NewWorker(id, organizationId, creatorId));
    }
  }

  // ---------- the services ----------

  class OrganizationServices {
    var branches: map<Id, Branch>
    var departments: map<Id, Department>
    var users: map<Id, User>

    ghost function Now(): State
      reads this
    {
      State(branches, departments, users)
    }

    constructor ()
      ensures Now() == State(map[], map[], map[])
    {
      branches, departments, users := map[], map[], map[];
    }

    method BranchWithCode(organizationId: Id, code: string) returns (found: bool)
      ensures found == BranchCodeTaken(Now(), organizationId, code)
    {
      var rows := AnyOrder(branches.Keys);
      found := false;
      for i := 0 to |rows|
        invariant forall b :: b in rows <==> b in branches
        invariant !found && forall h :: 0 <= h < i ==>
                    rows[h] in branches && !(branches[rows[h]].organizationId == organizationId && branches[rows[h]].code == code)
      {
        assert rows[i] in rows;
        if branches[rows[i]].organizationId == organizationId && branches[rows[i]].code == code {
          return true;
        }
      }
    }

    method DepartmentWithCode(organizationId: Id, code: string) returns (found: bool)
      ensures found == DepartmentCodeTaken(Now(), organizationId, code)
    {
      var rows := AnyOrder(departments.Keys);
      found := false;
      for i := 0 to |rows|
        invariant forall d :: d in rows <==> d in departments
        invariant !found && forall h :: 0 <= h < i ==>
                    rows[h] in departments && !(departments[rows[h]].organizationId == organizationId && departments[rows[h]].code == code)
      {
        assert rows[i] in rows;
        if departments[rows[i]].organizationId == organizationId && departments[rows[i]].code == code {
          return true;
        }
      }
    }

    method CreateBranchRow(id: Id, organizationId: Id, name: string, code: string) returns (r: Result)
      requires Consistent(Now()) && id !in branches
      modifies this
      ensures Consistent(Now())
      ensures (r, Now()) == CreateBranch(old(Now()), id, organizationId, name, code)
      ensures BranchCreated(old(Now()), id, organizationId, name, code, r, Now())
    {
      CreateBranchKeeps(Now(), id, organizationId, name, code);
      var taken := BranchWithCode(organizationId, code);
      if taken {
        return CodeTaken;
      }
      branches := branches[id := Branch(organizationId, name, code, None)];
      r := Done;
    }

    method UpdateBranchRow(id: Id, name: Option<string>, code: Option<string>) returns (r: Result)
      requires Consistent(Now())
      modifies this
      ensures Consistent(Now())
      ensures (r, Now()) == UpdateBranch(old(Now()), id, name, code) && BranchEdited(old(Now()), id, name, code, r, Now())
    {
      UpdateBranchKeeps(Now(), id, name, code);
      if id !in branches {
        return NotFound;
      }
      var b := branches[id];
      if code.Some? && code.value != b.code {
        var taken := BranchWithCode(b.organizationId, code.value);
        if taken {
          return CodeTaken;
        }
      }
      if name.Some? { b := b.(name := name.value); }
      if code.Some? { b := b.(code := code.value); }
      branches := branches[id := b];
      r := Done;
    }

    // The branch and the user change together, nobody comes to manage two branches, and
    // assigning the same manager again changes nothing.
    method AssignManagerToBranch(id: Id, managerId: Id) returns (r: Result)
      requires Consistent(Now())
      modifies this
      ensures Consistent(Now())
      ensures (r, Now()) == AssignBranchManager(old(Now()), id, managerId) && BranchAssigned(old(Now()), id, managerId, r, Now())
    {
      AssignBranchManagerKeeps(Now(), id, managerId);
      if id !in branches {
        return NotFound;
      }
      if managerId !in users {
        return NotFound;
      }
      var u := users[managerId];
      if u.level != MANAGER {
        return NotAManager;
      }
      if u.branchId.Some? && u.branchId.value != id {
        return AlreadyAssigned;
      }
      branches := branches[id := branches[id].(managerId := Some(managerId))];
      users := users[managerId := u.(branchId := Some(id))];
      r := Done;
    }

    method CreateDepartmentRow(id: Id, organizationId: Id, branchId: Option<Id>, code: string) returns (r: Result)
      requires Consistent(Now()) && id !in departments
      modifies this
      ensures Consistent(Now())
      ensures (r, Now()) == CreateDepartment(old(Now()), id, organizationId, branchId, code)
      ensures DepartmentCreated(old(Now()), id, organizationId, branchId, code, r, Now())
    {
      CreateDepartmentKeeps(Now(), id, organizationId, branchId, code);
      var taken := DepartmentWithCode(organizationId, code);
      if taken {
        return CodeTaken;
      }
      if branchId.Some? {
        if branchId.value !in branches {
          return NotFound;
        }
        if branches[branchId.value].organizationId != organizationId {
          return WrongOrganization;
        }
      }
      departments := departments[id := Department(organizationId, branchId, code, None)];
      r := Done;
    }

    method UpdateDepartmentRow(id: Id, code: Option<string>, branchId: Option<Option<Id>>) returns (r: Result)
      requires Consistent(Now())
      modifies this
      ensures Consistent(Now())
      ensures (r, Now()) == UpdateDepartment(old(Now()), id, code, branchId)
      ensures DepartmentEdited(old(Now()), id, code, branchId, r, Now())
    {
      UpdateDepartmentKeeps(Now(), id, code, branchId);
      if id !in departments {
        return NotFound;
      }
      var d := departments[id];
      if code.Some? && code.value != d.code {
        var taken := DepartmentWithCode(d.organizationId, code.value);
        if taken {
          return CodeTaken;
        }
      }
      if branchId.Some? && branchId.value.Some? {
        if branchId.value.value !in branches {
          return NotFound;
        }
        if branches[branchId.value.value].organizationId != d.organizationId {
          return WrongOrganization;
        }
      }
      if code.Some? { d := d.(code := code.value); }
      if branchId.Some? { d := d.(branchId := branchId.value); }
      departments := departments[id := d];
      r := Done;
    }

    // As for branches.
    method AssignManagerToDepartment(id: Id, managerId: Id) returns (r: Result)
      requires Consistent(Now())
      modifies this
      ensures Consistent(Now())
      ensures (r, Now()) == AssignDepartmentManager(old(Now()), id, managerId)
      ensures DepartmentAssigned(old(Now()), id, managerId, r, Now())
    {
      AssignDepartmentManagerKeeps(Now(), id, managerId);
      if id !in departments {
        return NotFound;
      }
      if managerId !in users {
        return NotFound;
      }
      var u := users[managerId];
      if u.level != MANAGER {
        return NotAManager;
      }
      if u.departmentId.Some? && u.departmentId.value != id {
        return AlreadyAssigned;
      }
      departments := departments[id := departments[id].(managerId := Some(managerId))];
      users := users[managerId := u.(departmentId := Some(id))];
      r := Done;
    }

    // Either error of the source reads as not allowed.
    method ValidateUserCreation(creator: Level, target: Level) returns (allowed: bool)
      ensures allowed == MayCreate(creator, target)
      ensures allowed <==> (creator, target) in {(OWNER, MANAGER), (MANAGER, WORKER)}
    {
      if creator == WORKER {
        return false;
      }
      if creator == MANAGER && target != WORKER {
        return false;
      }
      if creator == OWNER && target == MANAGER {
        return true;
      }
      if creator == OWNER && target != MANAGER {
        return false;
      }
      allowed := true;
    }

    // A new manager belongs to a branch or a department, and manages none yet.
    method CreateManagerRow(id: Id, organizationId: Id, creatorId: Id, branchId: Option<Id>, departmentId: Option<Id>) returns (r: Result)
      requires Consistent(Now()) && id !in users
      modifies this
      ensures Consistent(Now())
      ensures (r, Now()) == CreateManager(old(Now()), id, organizationId, creatorId, branchId, departmentId)
      ensures ManagerCreated(old(Now()), id, organizationId, creatorId, branchId, departmentId, r, Now())
    {
      CreateManagerKeeps(Now(), id, organizationId, creatorId, branchId, departmentId);
      if creatorId !in users {
        return NotFound;
      }
      var allowed := ValidateUserCreation(users[creatorId].level, MANAGER);
      if !allowed {
        return NotAllowed;
      }
      if branchId.None? && departmentId.None? {
        return Unassigned;
      }
      users := users[id := User(organizationId, MANAGER, Some(creatorId), branchId, departmentId)];
      r := Done;
    }

    // The worker has the scope of a manager whom an owner created, so never an empty one.
    method CreateWorkerRow(id: Id, organizationId: Id, creatorId: Id) returns (r: Result)
      requires Consistent(Now()) && id !in users
      modifies this
      ensures Consistent(Now())
      ensures (r, Now()) == CreateWorker(old(Now()), id, organizationId, creatorId)
      ensures WorkerCreated(old(Now()), id, organizationId, creatorId, r, Now())
    {
      CreateWorkerKeeps(Now(), id, organizationId, creatorId);
      if creatorId !in users {
        return NotFound;
      }
      var creator := users[creatorId];
      var allowed := ValidateUserCreation(creator.level, WORKER);
      if !allowed {
        return NotAllowed;
      }
      users := users[id := User(organizationId, WORKER, Some(creatorId), creator.branchId, creator.departmentId)];
      r := Done;
    }
  }
}
