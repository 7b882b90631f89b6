/**
 Users, the three-level hierarchy of collections, memberships and roles: what creating and deleting do to
 them (`kolibri/core/auth/models.py`, `signals.py`), as functions on the state of the tables.
 */
module Facilities {
  import opened Wrappers

  datatype RoleKind = Admin | Coach | AssignableCoach | Other(name: string)
  datatype Kind = Facility | Classroom | LearnerGroup | AdHocGroup
  datatype Collection = Collection(kind: Kind, parent: Option<int>, dataset: int)
  datatype User = User(facility: int, dataset: int, superuser: bool)
  datatype Membership = Membership(user: int, coll: int)
  datatype Role = Role(user: int, coll: int, kind: RoleKind)

  datatype Error =
    | IntegrityError
    | InvalidCollectionHierarchy
    | InvalidMembershipError
    | InvalidRoleKind
    | UserDoesNotHaveRoleError
    | UserIsNotMemberError

  datatype State = State(users: map<int, User>, colls: map<int, Collection>, members: set<Membership>, roles: set<Role>)

  predicate IsGroup(c: Collection) {
    c.kind.LearnerGroup? || c.kind.AdHocGroup?
  }

  // ---- invariants ----------------------------------------------------------------------------

  predicate ParentIs(s: State, c: Collection, kind: Kind) {
    c.parent.Some? && c.parent.value in s.colls && s.colls[c.parent.value].kind == kind && s.colls[c.parent.value].dataset == c.dataset
  }

  /** Facilities are roots, classrooms stand below facilities and groups below classrooms, each in its parent's dataset. */
  predicate ValidCollection(s: State, c: Collection) {
    match c.kind
    case Facility => c.parent.None?
    case Classroom => ParentIs(s, c, Facility)
    case LearnerGroup => ParentIs(s, c, Classroom)
    case AdHocGroup => ParentIs(s, c, Classroom)
  }

  predicate ValidUser(s: State, u: User) {
    u.facility in s.colls && s.colls[u.facility].kind.Facility? && s.colls[u.facility].dataset == u.dataset
  }

  /** No membership of a facility; a member of a group is a member of its classroom. */
  predicate ValidMembership(s: State, m: Membership) {
    && m.user in s.users && m.coll in s.colls
    && s.users[m.user].dataset == s.colls[m.coll].dataset
    && !s.colls[m.coll].kind.Facility?
    && (IsGroup(s.colls[m.coll]) ==> s.colls[m.coll].parent.Some? && Membership(m.user, s.colls[m.coll].parent.value) in s.members)
  }

  /** No role for a group; the only roles for a classroom are those of coaches. */
  predicate ValidRole(s: State, r: Role) {
    && r.user in s.users && r.coll in s.colls
    && s.users[r.user].dataset == s.colls[r.coll].dataset
    && !IsGroup(s.colls[r.coll])
    && (s.colls[r.coll].kind.Classroom? ==> r.kind == Coach)
    && !r.kind.Other?
  }

  predicate OneFacilityPerDataset(s: State) {
    forall c, d :: c in s.colls && d in s.colls && s.colls[c].kind.Facility? && s.colls[d].kind.Facility? ==>
      s.colls[c].dataset == s.colls[d].dataset ==> c == d
  }

  predicate Valid(s: State) {
    && (forall c <- s.colls :: ValidCollection(s, s.colls[c]))
    && (forall u <- s.users :: ValidUser(s, s.users[u]))
    && (forall m <- s.members :: ValidMembership(s, m))
    && (forall r <- s.roles :: ValidRole(s, r))
    && OneFacilityPerDataset(s)
  }

  predicate HasFacilityRole(s: State, u: int, facility: int) {
    exists r :: r in s.roles && r.user == u && r.coll == facility
  }

  predicate IsClassroomRole(s: State, r: Role) {
    r.coll in s.colls && s.colls[r.coll].kind.Classroom? && s.colls[r.coll].parent.Some?
  }

  /** Whoever is a coach of a classroom has some role for its facility. */
  predicate CoachesAssigned(s: State) {
    forall r <- s.roles :: IsClassroomRole(s, r) ==> HasFacilityRole(s, r.user, s.colls[r.coll].parent.value)
  }

  // ---- queries -------------------------------------------------------------------------------

  predicate KnownKinds(kinds: set<RoleKind>) {
    forall k <- kinds :: !k.Other?
  }

  predicate IsMemberOf(s: State, u: int, c: int)
    requires u in s.users && c in s.colls
  {
    if s.users[u].dataset != s.colls[c].dataset then false
    else if s.colls[c].kind.Facility? then s.users[u].facility == c
    else Membership(u, c) in s.members
  }

  predicate HasRole(s: State, u: int, c: int, kinds: set<RoleKind>) {
    exists k :: k in kinds && Role(u, c, k) in s.roles
  }

  function HasRoleForUser(s: State, u: int, kinds: set<RoleKind>, v: int): Result<bool, Error>
    requires u in s.users && v in s.users
  {
    if !KnownKinds(kinds) then Failure(InvalidRoleKind)
    else if s.users[u].superuser then Success(Admin in kinds)
    else if kinds == {} then Success(false)
    else if s.users[u].dataset != s.users[v].dataset then Success(false)
    else Success(HasRole(s, u, s.users[v].facility, kinds)
                 || exists m :: m in s.members && m.user == v && HasRole(s, u, m.coll, kinds))
  }

  function HasRoleForCollection(s: State, u: int, kinds: set<RoleKind>, c: int): Result<bool, Error>
    requires u in s.users && c in s.colls && (IsGroup(s.colls[c]) ==> s.colls[c].parent.Some?)
  {
    if !KnownKinds(kinds) then Failure(InvalidRoleKind)
    else if s.users[u].superuser then Success(Admin in kinds)
    else if kinds == {} then Success(false)
    else if s.users[u].dataset != s.colls[c].dataset then Success(false)
    else
      var collId := if IsGroup(s.colls[c]) then s.colls[c].parent.value else c;
      Success(HasRole(s, u, s.users[u].facility, kinds) || HasRole(s, u, collId, kinds))
  }

  /**
   A user has a role for another exactly if there is a collection that the other is a member of and that
   the first has the role for: true because of the invariants, and for superusers too.
   */
  lemma {:induction false} RoleForUserIffForSomeCollection(s: State, u: int, kinds: set<RoleKind>, v: int)
    requires Valid(s) && u in s.users && v in s.users
    ensures HasRoleForUser(s, u, kinds, v).Failure? <==> !KnownKinds(kinds)
    ensures KnownKinds(kinds) ==>
      (HasRoleForUser(s, u, kinds, v) == Success(true)
       <==> exists c :: c in s.colls && IsMemberOf(s, v, c) && HasRoleForCollection(s, u, kinds, c) == Success(true))
  {
    if KnownKinds(kinds) {
      var facility := s.users[v].facility;
      assert ValidUser(s, s.users[v]) && IsMemberOf(s, v, facility);
      if HasRoleForUser(s, u, kinds, v) == Success(true) {
        RoleForSomeCollection(s, u, kinds, v);
      }
      forall c | c in s.colls && IsMemberOf(s, v, c) && HasRoleForCollection(s, u, kinds, c) == Success(true)
        ensures HasRoleForUser(s, u, kinds, v) == Success(true)
      {
        RoleThroughCollection(s, u, kinds, v, c);
      }
    }
  }

  /** The collection itself, its parent or its parent's parent. */
  predicate AtOrAbove(s: State, a: int, c: int) {
    c in s.colls &&
    (a == c || s.colls[c].parent == Some(a)
     || (s.colls[c].parent.Some? && s.colls[c].parent.value in s.colls && s.colls[s.colls[c].parent.value].parent == Some(a)))
  }

  /**
   On the rows: a superuser has the admin role for everybody and no other; anybody else has a role for a user
   by a row of one of these kinds for the user's facility or for a collection with a membership of the user.
   */
  lemma {:induction false} RoleForUserByRows(s: State, u: int, kinds: set<RoleKind>, v: int)
    requires Valid(s) && u in s.users && v in s.users
    ensures HasRoleForUser(s, u, kinds, v) == Failure(InvalidRoleKind) <==> exists k :: k in kinds && k.Other?
    ensures HasRoleForUser(s, u, kinds, v) == Success(true) <==>
      && (forall k <- kinds :: !k.Other?)
      && if s.users[u].superuser then Admin in kinds
         else exists q :: q in s.roles && q.user == u && q.kind in kinds && (q.coll == s.users[v].facility || Membership(v, q.coll) in s.members)
  {
    assert ValidUser(s, s.users[v]);
    if KnownKinds(kinds) && !s.users[u].superuser {
      forall q | q in s.roles && q.user == u && q.kind in kinds && (q.coll == s.users[v].facility || Membership(v, q.coll) in s.members)
        ensures HasRoleForUser(s, u, kinds, v) == Success(true)
      {
        assert ValidRole(s, q) && (Membership(v, q.coll) in s.members ==> ValidMembership(s, Membership(v, q.coll)));
        assert q == Role(u, q.coll, q.kind) && HasRole(s, u, q.coll, kinds);
        if q.coll != s.users[v].facility {
          assert Membership(v, q.coll).user == v;
        }
      }
      if HasRoleForUser(s, u, kinds, v) == Success(true) {
        if HasRole(s, u, s.users[v].facility, kinds) {
          var k :| k in kinds && Role(u, s.users[v].facility, k) in s.roles;
          assert Role(u, s.users[v].facility, k).kind in kinds;
        } else {
          var m :| m in s.members && m.user == v && HasRole(s, u, m.coll, kinds);
          var k :| k in kinds && Role(u, m.coll, k) in s.roles;
          assert m == Membership(v, m.coll) && Role(u, m.coll, k).kind in kinds;
        }
      }
    }
  }

  /** The like for a collection: by a row of one of these kinds for the collection or one that it stands below. */
  lemma {:induction false} RoleForCollectionByRows(s: State, u: int, kinds: set<RoleKind>, c: int)
    requires Valid(s) && u in s.users && c in s.colls
    ensures IsGroup(s.colls[c]) ==> s.colls[c].parent.Some?
    ensures HasRoleForCollection(s, u, kinds, c) == Failure(InvalidRoleKind) <==> exists k :: k in kinds && k.Other?
    ensures HasRoleForCollection(s, u, kinds, c) == Success(true) <==>
      && (forall k <- kinds :: !k.Other?)
      && if s.users[u].superuser then Admin in kinds
         else exists q :: q in s.roles && q.user == u && q.kind in kinds && AtOrAbove(s, q.coll, c)
  {
    assert ValidCollection(s, s.colls[c]) && ValidUser(s, s.users[u]);
    if KnownKinds(kinds) && !s.users[u].superuser {
      forall q | q in s.roles && q.user == u && q.kind in kinds && AtOrAbove(s, q.coll, c)
        ensures HasRoleForCollection(s, u, kinds, c) == Success(true)
      {
        AboveInDataset(s, q.coll, c);
        assert ValidRole(s, q) && q == Role(u, q.coll, q.kind) && HasRole(s, u, q.coll, kinds);
      }
      if HasRoleForCollection(s, u, kinds, c) == Success(true) {
        var facility, collId := s.users[u].facility, if IsGroup(s.colls[c]) then s.colls[c].parent.value else c;
        var coll := if HasRole(s, u, facility, kinds) then facility else collId;
        var k :| k in kinds && Role(u, coll, k) in s.roles;
        FacilityAbove(s, facility, c);
        assert Role(u, coll, k).kind in kinds && AtOrAbove(s, coll, c);
      }
    }
  }

  lemma {:induction false} AboveInDataset(s: State, a: int, c: int)
    requires Valid(s) && AtOrAbove(s, a, c)
    ensures a in s.colls && s.colls[a].dataset == s.colls[c].dataset
    ensures a == c || s.colls[a].kind.Facility? || s.colls[c].parent == Some(a)
    ensures s.colls[c].parent == Some(a) && !s.colls[a].kind.Facility? ==> IsGroup(s.colls[c])
  {
    assert ValidCollection(s, s.colls[c]);
    if a != c && s.colls[c].parent != Some(a) {
      var parent := s.colls[c].parent.value;
      assert parent in s.colls && ValidCollection(s, s.colls[parent]);
    }
  }

  lemma {:induction false} FacilityAbove(s: State, facility: int, c: int)
    requires Valid(s) && facility in s.colls && c in s.colls
    requires s.colls[facility].kind.Facility? && s.colls[facility].dataset == s.colls[c].dataset
    ensures AtOrAbove(s, facility, c)
  {
    assert ValidCollection(s, s.colls[c]);
    if s.colls[c].kind.Facility? {
      assert facility == c;
    } else {
      var parent := s.colls[c].parent.value;
      assert parent in s.colls && ValidCollection(s, s.colls[parent]);
      if s.colls[c].kind.Classroom? {
        assert facility == parent;
      } else {
        assert facility == s.colls[parent].parent.value;
      }
    }
  }

  lemma {:induction false} RoleForSomeCollection(s: State, u: int, kinds: set<RoleKind>, v: int)
    requires Valid(s) && u in s.users && v in s.users && HasRoleForUser(s, u, kinds, v) == Success(true)
    ensures exists c :: c in s.colls && IsMemberOf(s, v, c) && HasRoleForCollection(s, u, kinds, c) == Success(true)
  {
    var facility := s.users[v].facility;
    assert ValidUser(s, s.users[v]) && IsMemberOf(s, v, facility);
    if s.users[u].superuser || HasRole(s, u, facility, kinds) {
      assert HasRoleForCollection(s, u, kinds, facility) == Success(true);
    } else {
      var m :| m in s.members && m.user == v && HasRole(s, u, m.coll, kinds);
      var k :| k in kinds && Role(u, m.coll, k) in s.roles;
      assert ValidMembership(s, m) && ValidRole(s, Role(u, m.coll, k));
      assert IsMemberOf(s, v, m.coll) && HasRoleForCollection(s, u, kinds, m.coll) == Success(true);
    }
  }

  lemma {:induction false} RoleThroughCollection(s: State, u: int, kinds: set<RoleKind>, v: int, c: int)
    requires Valid(s) && u in s.users && v in s.users && c in s.colls
    requires IsMemberOf(s, v, c) && ValidCollection(s, s.colls[c]) && HasRoleForCollection(s, u, kinds, c) == Success(true)
    ensures HasRoleForUser(s, u, kinds, v) == Success(true)
  {
    if !s.users[u].superuser {
      assert ValidUser(s, s.users[u]) && ValidUser(s, s.users[v]);
      assert s.users[u].facility == s.users[v].facility;
      if !HasRole(s, u, s.users[u].facility, kinds) && !s.colls[c].kind.Facility? {
        assert ValidMembership(s, Membership(v, c));
        if IsGroup(s.colls[c]) {
          assert Membership(v, s.colls[c].parent.value) in s.members;
        }
      }
    }
  }

  function GetMembers(s: State, c: int): set<int>
    requires c in s.colls
  {
    if s.colls[c].kind.Facility? then set u | u in s.users && s.users[u].dataset == s.colls[c].dataset
    else set u | u in s.users && Membership(u, c) in s.members
  }

  /** The members of a collection are the users that are members of it, for facilities too. */
  lemma {:induction false} MembersAreMembers(s: State, c: int, u: int)
    requires Valid(s) && c in s.colls && u in s.users
    ensures u in GetMembers(s, c) <==> IsMemberOf(s, u, c)
    ensures IsMemberOf(s, u, c) <==> if s.colls[c].kind.Facility? then s.users[u].facility == c else Membership(u, c) in s.members
  {
    assert ValidUser(s, s.users[u]);
    if Membership(u, c) in s.members {
      assert ValidMembership(s, Membership(u, c));
    }
  }

  // ---- creating and deleting -----------------------------------------------------------------

  /** The `save` of the four kinds of collection; a facility gets a dataset of its own, others their parent's. */
  function SaveCollection(s: State, id: int, kind: Kind, parent: Option<int>, newDataset: int): Result<State, Error>
    requires parent.Some? ==> parent.value in s.colls
  {
    if kind.Facility? then
      if parent.Some? then Failure(IntegrityError)
      else Success(s.(colls := s.colls[id := Collection(kind, None, newDataset)]))
    else if parent.None? then Failure(IntegrityError)
    else if s.colls[parent.value].kind != (if kind.Classroom? then Facility else Classroom) then Failure(InvalidCollectionHierarchy)
    else Success(s.(colls := s.colls[id := Collection(kind, parent, s.colls[parent.value].dataset)]))
  }

  function SaveMembership(s: State, m: Membership): Result<State, Error>
    requires m.user in s.users && m.coll in s.colls
  {
    var c := s.colls[m.coll];
    if c.kind.Facility? then Failure(InvalidMembershipError)
    else if IsGroup(c) && (c.parent.None? || Membership(m.user, c.parent.value) !in s.members) then Failure(InvalidMembershipError)
    else if s.users[m.user].dataset != c.dataset then Failure(IntegrityError)
    else Success(s.(members := s.members + {m}))
  }

  function SaveRole(s: State, r: Role): Result<State, Error>
    requires r.user in s.users && r.coll in s.colls
  {
    var c := s.colls[r.coll];
    if IsGroup(c) then Failure(InvalidRoleKind)
    else if c.kind.Classroom? && r.kind != Coach then Failure(InvalidRoleKind)
    else if s.users[r.user].dataset != c.dataset then Failure(IntegrityError)
    else if c.kind.Classroom? && c.parent.Some? && !HasFacilityRole(s, r.user, c.parent.value) then
      Success(s.(roles := s.roles + {Role(r.user, c.parent.value, AssignableCoach), r}))
    else Success(s.(roles := s.roles + {r}))
  }

  /** Membership `m` is one of the same user in a child of the collection of `d`. */
  predicate ChildMembership(s: State, m: Membership, d: Membership) {
    m.user == d.user && m.coll in s.colls && s.colls[m.coll].parent == Some(d.coll)
  }

  /** Deleting memberships, one or many, also deletes those in children of their collections. */
  function DeleteMemberships(s: State, doomed: set<Membership>): State {
    s.(members := set m | m in s.members && m !in doomed && forall d <- doomed :: !ChildMembership(s, m, d))
  }

  /** Deleting the assignable-coach role of a facility also deletes the coach roles in its classrooms. */
  function DeleteRole(s: State, r: Role): State {
    if r.kind == AssignableCoach && r.coll in s.colls && s.colls[r.coll].kind.Facility? then
      s.(roles := set q | q in s.roles && q != r
           && !(q.user == r.user && q.kind == Coach && q.coll in s.colls && s.colls[q.coll].parent == Some(r.coll)))
    else s.(roles := s.roles - {r})
  }

  /** A deleted collection takes its children and theirs with it, and the users, memberships and roles of all these. */
  function DeleteCollection(s: State, root: int): State {
    var colls := map c | c in s.colls && !AtOrAbove(s, root, c) :: s.colls[c];
    var users := map u | u in s.users && !AtOrAbove(s, root, s.users[u].facility) :: s.users[u];
    var members := set m | m in s.members && m.coll in colls && m.user in users;
    var roles := set r | r in s.roles && r.coll in colls && r.user in users;
    State(users, colls, members, roles)
  }

  function DeleteUser(s: State, u: int): State {
    s.(users := s.users - {u}, members := (set m | m in s.members && m.user != u), roles := (set r | r in s.roles && r.user != u))
  }
}
