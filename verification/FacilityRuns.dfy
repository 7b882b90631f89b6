/**
 Runs of creates and deletes on the tables of users, collections, memberships and roles, and what holds
 in every state that one can lead to.
 */
module FacilityRuns {
  import opened Wrappers
  import opened Facilities

  datatype Op =
    | CreateCollection(id: int, kind: Kind, parent: Option<int>, newDataset: int)
    | CreateUser(id: int, facility: int, superuser: bool)
    | AddMember(m: Membership)
    | RemoveMembers(doomed: set<Membership>)
    | AddRole(r: Role)
    | RemoveRole(r: Role)
    | BulkRemoveRoles(gone: set<Role>)
    | RemoveUser(id: int)
    | RemoveCollection(id: int)

  function Kept(s: State, r: Result<State, Error>): State {
    if r.Success? then r.value else s
  }

  /** One operation; one that raises, or that names what does not exist or what exists already, changes nothing. */
  function Step(s: State, op: Op): State {
    match op
    case CreateCollection(id, kind, parent, newDataset) =>
      if id in s.colls || (parent.Some? && parent.value !in s.colls) then s
      else if kind.Facility? && exists c :: c in s.colls && s.colls[c].dataset == newDataset then s
      else Kept(s, SaveCollection(s, id, kind, parent, newDataset))
    case CreateUser(id, facility, superuser) =>
      if id in s.users || facility !in s.colls || !s.colls[facility].kind.Facility? then s
      else s.(users := s.users[id := User(facility, s.colls[facility].dataset, superuser)])
    case AddMember(m) => if m.user in s.users && m.coll in s.colls then Kept(s, SaveMembership(s, m)) else s
    case RemoveMembers(doomed) => DeleteMemberships(s, doomed * s.members)
    case AddRole(r) => if r.user in s.users && r.coll in s.colls && !r.kind.Other? then Kept(s, SaveRole(s, r)) else s
    case RemoveRole(r) => if r in s.roles then DeleteRole(s, r) else s
    case BulkRemoveRoles(gone) => s.(roles := s.roles - gone)
    case RemoveUser(id) => DeleteUser(s, id)
    case RemoveCollection(id) => DeleteCollection(s, id)
  }

  function Run(s: State, ops: seq<Op>): State
    decreases |ops|
  {
    if ops == [] then s else Run(Step(s, ops[0]), ops[1..])
  }

  const EMPTY := State(map[], map[], {}, {})

  // ---- the structural invariants ----------------------------------------------------------------

  lemma {:induction false} NewCollectionKeepsValid(s: State, id: int, c: Collection)
    requires Valid(s) && id !in s.colls && ValidCollection(s, c)
    requires c.kind.Facility? ==> forall d <- s.colls :: s.colls[d].dataset != c.dataset
    ensures Valid(s.(colls := s.colls[id := c]))
  {
    var t := s.(colls := s.colls[id := c]);
    forall d <- t.colls ensures ValidCollection(t, t.colls[d]) {
      if d != id {
        assert ValidCollection(s, s.colls[d]);
      }
    }
    forall u <- t.users ensures ValidUser(t, t.users[u]) {
      assert ValidUser(s, s.users[u]);
    }
    forall m <- t.members ensures ValidMembership(t, m) {
      assert ValidMembership(s, m);
    }
    forall r <- t.roles ensures ValidRole(t, r) {
      assert ValidRole(s, r);
    }
  }

  lemma {:induction false} NewUserKeepsValid(s: State, id: int, u: User)
    requires Valid(s) && id !in s.users && ValidUser(s, u)
    ensures Valid(s.(users := s.users[id := u]))
  {
    var t := s.(users := s.users[id := u]);
    forall c <- t.colls ensures ValidCollection(t, t.colls[c]) {
      assert ValidCollection(s, s.colls[c]);
    }
    forall v <- t.users ensures ValidUser(t, t.users[v]) {
      assert v == id || ValidUser(s, s.users[v]);
    }
    forall m <- t.members ensures ValidMembership(t, m) {
      assert ValidMembership(s, m);
    }
    forall r <- t.roles ensures ValidRole(t, r) {
      assert ValidRole(s, r);
    }
  }

  /** Changing memberships and roles alone leaves users and collections valid. */
  lemma {:induction false} TablesKeepValid(s: State, t: State)
    requires Valid(s) && t.users == s.users && t.colls == s.colls
    requires forall m <- t.members :: ValidMembership(t, m)
    requires forall r <- t.roles :: ValidRole(t, r)
    ensures Valid(t)
  {
    forall c <- t.colls ensures ValidCollection(t, t.colls[c]) {
      assert ValidCollection(s, s.colls[c]);
    }
    forall u <- t.users ensures ValidUser(t, t.users[u]) {
      assert ValidUser(s, s.users[u]);
    }
  }

  lemma {:induction false} SaveMembershipKeepsValid(s: State, m: Membership)
    requires Valid(s) && m.user in s.users && m.coll in s.colls
    ensures Valid(Kept(s, SaveMembership(s, m)))
  {
    var t := Kept(s, SaveMembership(s, m));
    forall n <- t.members ensures ValidMembership(t, n) {
      assert n in s.members ==> ValidMembership(s, n);
    }
    forall r <- t.roles ensures ValidRole(t, r) {
      assert ValidRole(s, r);
    }
    TablesKeepValid(s, t);
  }

  lemma {:induction false} DeleteMembershipsKeepsValid(s: State, doomed: set<Membership>)
    requires Valid(s) && doomed <= s.members
    ensures Valid(DeleteMemberships(s, doomed))
  {
    var t := DeleteMemberships(s, doomed);
    forall n <- t.members ensures ValidMembership(t, n) {
      assert ValidMembership(s, n);
      var c := s.colls[n.coll];
      if IsGroup(c) {
        assert ValidCollection(s, c);
        var up := Membership(n.user, c.parent.value);
        assert ValidMembership(s, up);
        assert up in doomed ==> ChildMembership(s, n, up);
        forall d <- doomed ensures !ChildMembership(s, up, d) {
          assert ValidMembership(s, d) && ValidCollection(s, s.colls[up.coll]);
        }
      }
    }
    forall r <- t.roles ensures ValidRole(t, r) {
      assert ValidRole(s, r);
    }
    TablesKeepValid(s, t);
  }

  lemma {:induction false} SaveRoleKeepsValid(s: State, r: Role)
    requires Valid(s) && r.user in s.users && r.coll in s.colls && !r.kind.Other?
    ensures Valid(Kept(s, SaveRole(s, r)))
  {
    var t := Kept(s, SaveRole(s, r));
    assert ValidCollection(s, s.colls[r.coll]);
    forall q <- t.roles ensures ValidRole(t, q) {
      assert q in s.roles ==> ValidRole(s, q);
    }
    forall m <- t.members ensures ValidMembership(t, m) {
      assert ValidMembership(s, m);
    }
    TablesKeepValid(s, t);
  }

  lemma {:induction false} FewerRolesKeepValid(s: State, roles: set<Role>)
    requires Valid(s) && roles <= s.roles
    ensures Valid(s.(roles := roles))
  {
    var t := s.(roles := roles);
    forall q <- t.roles ensures ValidRole(t, q) {
      assert ValidRole(s, q);
    }
    forall m <- t.members ensures ValidMembership(t, m) {
      assert ValidMembership(s, m);
    }
    TablesKeepValid(s, t);
  }

  lemma {:induction false} DeleteUserKeepsValid(s: State, u: int)
    requires Valid(s)
    ensures Valid(DeleteUser(s, u))
  {
    var t := DeleteUser(s, u);
    forall c <- t.colls ensures ValidCollection(t, t.colls[c]) {
      assert ValidCollection(s, s.colls[c]);
    }
    forall v <- t.users ensures ValidUser(t, t.users[v]) {
      assert ValidUser(s, s.users[v]);
    }
    forall m <- t.members ensures ValidMembership(t, m) {
      assert ValidMembership(s, m);
    }
    forall r <- t.roles ensures ValidRole(t, r) {
      assert ValidRole(s, r);
    }
  }

  /** What is deleted with a collection is closed: nothing that stays has its parent deleted. */
  lemma {:induction false} ParentStays(s: State, c: int, root: int)
    requires Valid(s) && c in s.colls && !AtOrAbove(s, root, c) && s.colls[c].parent.Some?
    ensures s.colls[c].parent.value in s.colls && !AtOrAbove(s, root, s.colls[c].parent.value)
  {
    assert ValidCollection(s, s.colls[c]);
    var p := s.colls[c].parent.value;
    assert p in s.colls && ValidCollection(s, s.colls[p]);
    if s.colls[p].parent.Some? {
      var g := s.colls[p].parent.value;
      assert g in s.colls && ValidCollection(s, s.colls[g]);
    }
  }

  /** On the rows: what goes with a collection is what stands at or below it, with its users, and nothing else goes. */
  lemma {:induction false} DeletedWithCollection(s: State, root: int)
    requires Valid(s)
    ensures var t := Step(s, RemoveCollection(root));
            && (forall c :: c in t.colls <==> c in s.colls && !AtOrAbove(s, root, c))
            && (forall c <- t.colls :: t.colls[c] == s.colls[c])
            && (forall u :: u in t.users <==> u in s.users && s.users[u].facility != root)
            && (forall u <- t.users :: t.users[u] == s.users[u])
            && (forall m :: m in t.members <==> m in s.members && !AtOrAbove(s, root, m.coll) && s.users[m.user].facility != root)
            && (forall r :: r in t.roles <==> r in s.roles && !AtOrAbove(s, root, r.coll) && s.users[r.user].facility != root)
  {
    forall u <- s.users ensures AtOrAbove(s, root, s.users[u].facility) <==> s.users[u].facility == root {
      assert ValidUser(s, s.users[u]);
      var facility := s.users[u].facility;
      assert facility in s.colls && ValidCollection(s, s.colls[facility]);
    }
    forall m <- s.members ensures m.user in s.users && m.coll in s.colls { assert ValidMembership(s, m); }
    forall r <- s.roles ensures r.user in s.users && r.coll in s.colls { assert ValidRole(s, r); }
  }

  /** On the rows: a user goes with the memberships and roles that are the user's, and nothing else goes. */
  lemma {:induction false} DeletedWithUser(s: State, id: int)
    ensures var t := Step(s, RemoveUser(id));
            && t.colls == s.colls && (forall u :: u in t.users <==> u in s.users && u != id)
            && (forall u <- t.users :: t.users[u] == s.users[u])
            && (forall m :: m in t.members <==> m in s.members && m.user != id)
            && (forall r :: r in t.roles <==> r in s.roles && r.user != id)
  {
  }

  /** A facility has a dataset of its own; any other collection is below one of the right kind, in its dataset. */
  lemma {:induction false} CreatedCollection(s: State, id: int, kind: Kind, parent: Option<int>, newDataset: int)
    requires parent.Some? ==> parent.value in s.colls
    ensures var r := SaveCollection(s, id, kind, parent, newDataset);
            && (r.Success? <==> match kind
                                case Facility => parent.None?
                                case Classroom => parent.Some? && s.colls[parent.value].kind.Facility?
                                case _ => parent.Some? && s.colls[parent.value].kind.Classroom?)
            && (r.Success? ==>
                  && r.value.users == s.users && r.value.members == s.members && r.value.roles == s.roles
                  && (forall c :: c in r.value.colls <==> c in s.colls || c == id)
                  && (forall c <- s.colls :: c != id ==> r.value.colls[c] == s.colls[c])
                  && r.value.colls[id].kind == kind && r.value.colls[id].parent == parent
                  && r.value.colls[id].dataset == if kind.Facility? then newDataset else s.colls[parent.value].dataset)
  {
  }

  lemma {:induction false} DeleteCollectionKeepsValid(s: State, root: int)
    requires Valid(s)
    ensures Valid(DeleteCollection(s, root))
  {
    var t := DeleteCollection(s, root);
    forall c <- t.colls ensures ValidCollection(t, t.colls[c]) {
      assert ValidCollection(s, s.colls[c]);
      if s.colls[c].parent.Some? {
        ParentStays(s, c, root);
      }
    }
    forall v <- t.users ensures ValidUser(t, t.users[v]) {
      assert ValidUser(s, s.users[v]);
    }
    forall m <- t.members ensures ValidMembership(t, m) {
      assert ValidMembership(s, m);
      if s.colls[m.coll].parent.Some? {
        ParentStays(s, m.coll, root);
      }
    }
    forall r <- t.roles ensures ValidRole(t, r) {
      assert ValidRole(s, r);
    }
  }

  /** Every operation keeps the invariants. */
  lemma {:induction false} StepKeepsValid(s: State, op: Op)
    requires Valid(s)
    ensures Valid(Step(s, op))
  {
    match op {
      case CreateCollection(id, kind, parent, newDataset) =>
        if Step(s, op) != s {
          NewCollectionKeepsValid(s, id, Step(s, op).colls[id]);
        }
      case CreateUser(id, facility, superuser) =>
        if Step(s, op) != s {
          NewUserKeepsValid(s, id, User(facility, s.colls[facility].dataset, superuser));
        }
      case AddMember(m) =>
        if m.user in s.users && m.coll in s.colls {
          SaveMembershipKeepsValid(s, m);
        }
      case RemoveMembers(doomed) => DeleteMembershipsKeepsValid(s, doomed * s.members);
      case AddRole(r) =>
        if r.user in s.users && r.coll in s.colls && !r.kind.Other? {
          SaveRoleKeepsValid(s, r);
        }
      case RemoveRole(r) => FewerRolesKeepValid(s, DeleteRole(s, r).roles);
      case BulkRemoveRoles(gone) => FewerRolesKeepValid(s, s.roles - gone);
      case RemoveUser(id) => DeleteUserKeepsValid(s, id);
      case RemoveCollection(id) => DeleteCollectionKeepsValid(s, id);
    }
  }

  lemma {:induction false} RunKeepsValid(s: State, ops: seq<Op>)
    requires Valid(s)
    ensures Valid(Run(s, ops))
    decreases |ops|
  {
    if ops != [] {
      StepKeepsValid(s, ops[0]);
      RunKeepsValid(Step(s, ops[0]), ops[1..]);
    }
  }

  /**
   After any run from empty tables: members of a group are members of its classroom, nobody has a membership
   of a facility or a role for a group, and the roles for classrooms are those of coaches.
   */
  lemma {:induction false} ReachableStates(ops: seq<Op>, u: int, c: int)
    requires var s := Run(EMPTY, ops); c in s.colls
    ensures var s := Run(EMPTY, ops); var coll := s.colls[c];
            && (IsGroup(coll) && Membership(u, c) in s.members ==>
                coll.parent.Some? && coll.parent.value in s.colls && s.colls[coll.parent.value].kind.Classroom?
                && Membership(u, coll.parent.value) in s.members)
            && (coll.kind.Facility? ==> Membership(u, c) !in s.members)
            && (forall k :: Role(u, c, k) in s.roles ==> !IsGroup(coll) && (coll.kind.Classroom? ==> k == Coach))
  {
    var s := Run(EMPTY, ops);
    RunKeepsValid(EMPTY, ops);
    assert ValidCollection(s, s.colls[c]);
    assert Membership(u, c) in s.members ==> ValidMembership(s, Membership(u, c));
    forall k | Role(u, c, k) in s.roles ensures !IsGroup(s.colls[c]) && (s.colls[c].kind.Classroom? ==> k == Coach) {
      assert ValidRole(s, Role(u, c, k));
    }
  }

  /** In every reachable state, a role for a user is a role for one of the user's collections. */
  lemma {:induction false} RolesInReachableStates(ops: seq<Op>, u: int, kinds: set<RoleKind>, v: int)
    requires var s := Run(EMPTY, ops); u in s.users && v in s.users && KnownKinds(kinds)
    ensures var s := Run(EMPTY, ops);
            && (forall c <- s.colls :: IsGroup(s.colls[c]) ==> s.colls[c].parent.Some?)
            && (HasRoleForUser(s, u, kinds, v) == Success(true)
                <==> exists c :: c in s.colls && IsMemberOf(s, v, c) && HasRoleForCollection(s, u, kinds, c) == Success(true))
            && (HasRoleForUser(s, u, kinds, v) == Success(true)
                <==> if s.users[u].superuser then Admin in kinds
                     else exists q :: q in s.roles && q.user == u && q.kind in kinds
                                      && (q.coll == s.users[v].facility || Membership(v, q.coll) in s.members))
            && (forall c <- s.colls ::
                  HasRoleForCollection(s, u, kinds, c) == Success(true)
                  <==> if s.users[u].superuser then Admin in kinds
                       else exists q :: q in s.roles && q.user == u && q.kind in kinds && AtOrAbove(s, q.coll, c))
  {
    RunKeepsValid(EMPTY, ops);
    RoleForUserByRows(Run(EMPTY, ops), u, kinds, v);
    forall c <- Run(EMPTY, ops).colls {
      RoleForCollectionByRows(Run(EMPTY, ops), u, kinds, c);
    }
    RoleForUserIffForSomeCollection(Run(EMPTY, ops), u, kinds, v);
  }

  // ---- the coaches of classrooms ---------------------------------------------------------------

  predicate CoachesClassroomOf(s: State, u: int, facility: int) {
    exists r :: r in s.roles && r.user == u && IsClassroomRole(s, r) && s.colls[r.coll].parent.value == facility
  }

  /** Without these roles, a user who had one of them for a facility has none for it left, and still coaches a classroom of it. */
  predicate TakesLastRole(s: State, gone: set<Role>) {
    var t := s.(roles := s.roles - gone);
    exists q :: q in gone && q in s.roles && !HasFacilityRole(t, q.user, q.coll) && CoachesClassroomOf(t, q.user, q.coll)
  }

  /** A deletion of roles, other than of the assignable-coach role, that takes somebody's last role for a facility so. */
  predicate LeavesUnassigned(s: State, op: Op) {
    match op
    case RemoveRole(r) => r.kind != AssignableCoach && TakesLastRole(s, {r})
    case BulkRemoveRoles(gone) => TakesLastRole(s, gone)
    case _ => false
  }

  predicate NeverLeavesUnassigned(s: State, ops: seq<Op>)
    decreases |ops|
  {
    ops == [] || (!LeavesUnassigned(s, ops[0]) && NeverLeavesUnassigned(Step(s, ops[0]), ops[1..]))
  }

  /** Roles that stay, and collections that stay as they were, keep the coaches assigned. */
  lemma {:induction false} CoachesStay(s: State, t: State)
    requires Valid(s) && Valid(t) && CoachesAssigned(s)
    requires t.roles <= s.roles
    requires forall c <- t.colls :: c in s.colls && t.colls[c] == s.colls[c]
    requires forall r :: r in t.roles && IsClassroomRole(t, r) ==>
      forall q :: q in s.roles && q.user == r.user && q.coll == t.colls[r.coll].parent.value ==> q in t.roles
    ensures CoachesAssigned(t)
  {
    forall r <- t.roles | IsClassroomRole(t, r) ensures HasFacilityRole(t, r.user, t.colls[r.coll].parent.value) {
      assert IsClassroomRole(s, r);
      var q :| q in s.roles && q.user == r.user && q.coll == s.colls[r.coll].parent.value;
      assert q in t.roles;
    }
  }

  lemma {:induction false} SaveRoleKeepsCoaches(s: State, r: Role)
    requires Valid(s) && CoachesAssigned(s) && r.user in s.users && r.coll in s.colls && !r.kind.Other?
    ensures CoachesAssigned(Kept(s, SaveRole(s, r)))
  {
    var t := Kept(s, SaveRole(s, r));
    assert ValidCollection(s, s.colls[r.coll]);
    forall q <- t.roles | IsClassroomRole(t, q) ensures HasFacilityRole(t, q.user, t.colls[q.coll].parent.value) {
      var facility := t.colls[q.coll].parent.value;
      if q in s.roles || HasFacilityRole(s, q.user, facility) {
        assert IsClassroomRole(s, q);
        var p :| p in s.roles && p.user == q.user && p.coll == facility;
        assert p in t.roles;
      } else {
        assert Role(q.user, facility, AssignableCoach) in t.roles;
      }
    }
  }

  lemma {:induction false} DeleteRoleKeepsCoaches(s: State, r: Role)
    requires Valid(s) && CoachesAssigned(s) && r in s.roles
    requires s.colls[r.coll].kind.Facility? ==> r.kind == AssignableCoach
    ensures CoachesAssigned(DeleteRole(s, r))
  {
    var t := DeleteRole(s, r);
    FewerRolesKeepValid(s, t.roles);
    forall q | q in t.roles && IsClassroomRole(t, q)
      ensures forall p :: p in s.roles && p.user == q.user && p.coll == t.colls[q.coll].parent.value ==> p in t.roles
    {
      assert ValidRole(s, q) && ValidCollection(s, s.colls[q.coll]) && ValidRole(s, r);
    }
    CoachesStay(s, t);
  }

  /** Deleting any set of roles, with nothing else, keeps the coaches assigned exactly if it takes no such last role. */
  lemma {:induction false} RemovingRoles(s: State, gone: set<Role>)
    requires Valid(s) && CoachesAssigned(s)
    ensures CoachesAssigned(s.(roles := s.roles - gone)) <==> !TakesLastRole(s, gone)
  {
    var t := s.(roles := s.roles - gone);
    if CoachesAssigned(t) {
      forall q | q in gone && q in s.roles && CoachesClassroomOf(t, q.user, q.coll) ensures HasFacilityRole(t, q.user, q.coll) {
        var r :| r in t.roles && r.user == q.user && IsClassroomRole(t, r) && t.colls[r.coll].parent.value == q.coll;
        assert HasFacilityRole(t, r.user, t.colls[r.coll].parent.value);
      }
    }
    if !TakesLastRole(s, gone) {
      forall r <- t.roles | IsClassroomRole(t, r) ensures HasFacilityRole(t, r.user, t.colls[r.coll].parent.value) {
        assert IsClassroomRole(s, r);
        var q :| q in s.roles && q.user == r.user && q.coll == s.colls[r.coll].parent.value;
        assert q !in gone ==> q in t.roles;
        assert CoachesClassroomOf(t, q.user, q.coll);
      }
    }
  }

  lemma {:induction false} DeletesKeepCoaches(s: State, t: State)
    requires Valid(s) && Valid(t) && CoachesAssigned(s)
    requires forall c <- t.colls :: c in s.colls && t.colls[c] == s.colls[c]
    requires forall q :: q in t.roles <==> q in s.roles && q.coll in t.colls && q.user in t.users
    ensures CoachesAssigned(t)
  {
    forall r | r in t.roles && IsClassroomRole(t, r)
      ensures forall q :: q in s.roles && q.user == r.user && q.coll == t.colls[r.coll].parent.value ==> q in t.roles
    {
      assert ValidRole(t, r) && ValidCollection(t, t.colls[r.coll]);
    }
    CoachesStay(s, t);
  }

  /** An operation keeps the coaches of classrooms assigned to the facility exactly if it is not such a deletion. */
  lemma {:induction false} StepKeepsCoaches(s: State, op: Op)
    requires Valid(s) && CoachesAssigned(s)
    ensures CoachesAssigned(Step(s, op)) <==> !LeavesUnassigned(s, op)
  {
    hide Valid, CoachesAssigned, TakesLastRole;
    var t := Step(s, op);
    StepKeepsValid(s, op);
    match op {
      case AddRole(r) =>
        if r.user in s.users && r.coll in s.colls && !r.kind.Other? {
          SaveRoleKeepsCoaches(s, r);
        }
      case RemoveRole(r) => RemoveRoleKeepsCoaches(s, r);
      case BulkRemoveRoles(gone) => RemovingRoles(s, gone);
      case RemoveUser(id) =>
        RolesAreOfUsers(s);
        DeletesKeepCoaches(s, t);
      case RemoveCollection(id) => DeletesKeepCoaches(s, t);
      case CreateCollection(_, _, _, _) => SameRolesKeepCoaches(s, t);
      case CreateUser(_, _, _) => SameRolesKeepCoaches(s, t);
      case AddMember(_) => SameRolesKeepCoaches(s, t);
      case RemoveMembers(_) => SameRolesKeepCoaches(s, t);
    }
  }

  lemma {:induction false} RolesAreOfUsers(s: State)
    requires Valid(s)
    ensures forall q <- s.roles :: q.user in s.users && q.coll in s.colls
  {
    forall q <- s.roles ensures q.user in s.users && q.coll in s.colls {
      assert ValidRole(s, q);
    }
  }

  lemma {:induction false} RemoveRoleKeepsCoaches(s: State, r: Role)
    requires Valid(s) && CoachesAssigned(s)
    ensures CoachesAssigned(Step(s, RemoveRole(r))) <==> !(r.kind != AssignableCoach && TakesLastRole(s, {r}))
  {
    if r in s.roles {
      assert ValidRole(s, r);
      if r.kind == AssignableCoach {
        DeleteRoleKeepsCoaches(s, r);
      } else {
        RemovingRoles(s, {r});
      }
    }
  }

  lemma {:induction false} SameRolesKeepCoaches(s: State, t: State)
    requires Valid(s) && CoachesAssigned(s)
    requires t.roles == s.roles && forall c <- s.colls :: c in t.colls && t.colls[c] == s.colls[c]
    ensures CoachesAssigned(t)
  {
    forall r <- t.roles | IsClassroomRole(t, r) ensures HasFacilityRole(t, r.user, t.colls[r.coll].parent.value) {
      assert ValidRole(s, r) && IsClassroomRole(s, r);
      assert HasFacilityRole(s, r.user, s.colls[r.coll].parent.value);
    }
  }

  /** A coach of a classroom has a role for the facility all through a run exactly if the run has no such deletion. */
  lemma {:induction false} RunKeepsCoaches(s: State, ops: seq<Op>)
    requires Valid(s) && CoachesAssigned(s)
    ensures NeverLeavesUnassigned(s, ops) <==> forall k :: 0 <= k <= |ops| ==> CoachesAssigned(Run(s, ops[..k]))
    decreases |ops|
  {
    hide Valid, CoachesAssigned, Step, LeavesUnassigned;
    if ops == [] {
      assert Run(s, ops[..0]) == s;
    } else {
      var t, rest := Step(s, ops[0]), ops[1..];
      StepKeepsValid(s, ops[0]);
      StepKeepsCoaches(s, ops[0]);
      assert Run(s, ops[..0]) == s;
      forall k | 0 < k <= |ops| ensures Run(s, ops[..k]) == Run(t, rest[..k - 1]) {
        assert ops[..k][1..] == rest[..k - 1];
      }
      assert Run(s, ops[..1]) == Run(t, rest[..0]) == t;
      if !LeavesUnassigned(s, ops[0]) {
        RunKeepsCoaches(t, rest);
        forall j | 0 <= j <= |rest| ensures Run(t, rest[..j]) == Run(s, ops[..j + 1]) {
        }
      }
    }
  }

  /**
   Removing an admin or coach role for a facility keeps the coaches assigned exactly if the user has another
   role for that facility or coaches none of its classrooms: nothing is deleted along with such a role.
   */
  lemma {:induction false} RemovingFacilityRole(s: State, r: Role)
    requires Valid(s) && CoachesAssigned(s) && r in s.roles
    requires r.coll in s.colls && s.colls[r.coll].kind.Facility? && r.kind != AssignableCoach
    ensures CoachesAssigned(Step(s, RemoveRole(r)))
       <==> (exists q :: q in s.roles && q != r && q.user == r.user && q.coll == r.coll) || !CoachesClassroomOf(s, r.user, r.coll)
  {
    var t := s.(roles := s.roles - {r});
    StepKeepsCoaches(s, RemoveRole(r));
    forall q ensures q in t.roles <==> q in s.roles && q != r {}
    forall p ensures p in t.roles && IsClassroomRole(t, p) <==> p in s.roles && IsClassroomRole(s, p) {}
    assert CoachesClassroomOf(t, r.user, r.coll) <==> CoachesClassroomOf(s, r.user, r.coll);
    assert TakesLastRole(s, {r}) <==> !HasFacilityRole(t, r.user, r.coll) && CoachesClassroomOf(t, r.user, r.coll);
  }

  /** A facility admin made coach of a classroom and then no longer admin: a coach without a facility role. */
  lemma {:induction false} CoachLeftUnassigned()
    ensures !CoachesAssigned(Run(EMPTY, [CreateCollection(1, Facility, None, 7), CreateCollection(2, Classroom, Some(1), 8), CreateUser(3, 1, false),
                                         AddRole(Role(3, 1, Admin)), AddRole(Role(3, 2, Coach)), RemoveRole(Role(3, 1, Admin))]))
  {
    var ops := [CreateCollection(1, Facility, None, 7), CreateCollection(2, Classroom, Some(1), 8), CreateUser(3, 1, false),
                AddRole(Role(3, 1, Admin)), AddRole(Role(3, 2, Coach)), RemoveRole(Role(3, 1, Admin))];
    var a := Step(EMPTY, ops[0]);
    var b := Step(a, ops[1]);
    var c := Step(b, ops[2]);
    var d := Step(c, ops[3]);
    assert Role(3, 1, Admin) in d.roles && HasFacilityRole(d, 3, 1);
    var e := Step(d, ops[4]);
    var f := Step(e, ops[5]);
    assert f.roles == {Role(3, 2, Coach)};
    assert IsClassroomRole(f, Role(3, 2, Coach)) && !HasFacilityRole(f, 3, 1);
    assert Run(EMPTY, ops) == f by {
      assert ops[1..][1..] == ops[2..] && ops[2..][1..] == ops[3..] && ops[3..][1..] == ops[4..] && ops[4..][1..] == ops[5..] && ops[5..][1..] == [];
      assert Run(e, ops[5..]) == f;
      assert Run(d, ops[4..]) == Run(e, ops[5..]);
      assert Run(c, ops[3..]) == Run(d, ops[4..]);
      assert Run(b, ops[2..]) == Run(c, ops[3..]);
      assert Run(a, ops[1..]) == Run(b, ops[2..]);
    }
  }
}
