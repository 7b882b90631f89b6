/**
 The methods that save and delete memberships and roles, changing the tables in place with their checks and
 cascades, against the functions on states (`Membership`, `Role`, `Collection`, `cascade_delete_membership`).
 */
module FacilityTables {
  import opened Wrappers
  import opened Facilities
  import opened FacilityRuns

  class Tables {
    var users: map<int, User>
    var colls: map<int, Collection>
    var members: set<Membership>
    var roles: set<Role>

    function Now(): State
      reads this
    {
      State(users, colls, members, roles)
    }

    /**
     Nobody is made a member of a facility, or of a collection of another dataset, and a member of a group
     is one of its classroom already; where that is so, the user is a member afterwards.
     */
    method SaveMembership(m: Membership) returns (r: Result<(), Error>)
      requires m.user in users && m.coll in colls
      requires IsGroup(colls[m.coll]) ==> colls[m.coll].parent.Some?
      modifies this`members
      ensures r.Success? <==>
        && !colls[m.coll].kind.Facility? && users[m.user].dataset == colls[m.coll].dataset
        && (IsGroup(colls[m.coll]) ==> Membership(m.user, colls[m.coll].parent.value) in old(members))
      ensures r == Failure(IntegrityError) ==> users[m.user].dataset != colls[m.coll].dataset
      ensures members == old(members) + (if r.Success? then {m} else {})
      ensures r.Success? ==> IsMemberOf(Now(), m.user, m.coll)
      ensures Valid(old(Now())) ==> Valid(Now())
      ensures Did(Facilities.SaveMembership(old(Now()), m), r, old(Now()), Now())
    {
      var c := colls[m.coll];
      if Valid(Now()) {
        SaveMembershipKeepsValid(Now(), m);
      }
      if c.kind.Facility? {
        return Failure(InvalidMembershipError);
      }
      if c.kind.LearnerGroup? || c.kind.AdHocGroup? {
        if Membership(m.user, c.parent.value) !in members {
          return Failure(InvalidMembershipError);
        }
      }
      if users[m.user].dataset != c.dataset {
        return Failure(IntegrityError);
      }
      members := members + {m};
      r := Success(());
    }

    /** Gets the membership, or creates it if there is none. */
    method AddMember(user: int, coll: int) returns (r: Result<(), Error>)
      requires Valid(Now()) && user in users && coll in colls
      modifies this`members
      ensures Did(Facilities.SaveMembership(old(Now()), Membership(user, coll)), r, old(Now()), Now())
      ensures Valid(Now()) && (r.Success? ==> IsMemberOf(Now(), user, coll))
    {
      var m := Membership(user, coll);
      assert ValidCollection(Now(), colls[coll]);
      if m in members {
        assert ValidMembership(Now(), m);
        assert members == members + {m};
        return Success(());
      }
      r := SaveMembership(m);
    }

    /** The signal that precedes the deletion of a membership: those in children of its collection are deleted. */
    method CascadeDeleteMembership(m: Membership, ghost height: nat)
      requires Shaped(Now()) && NotFacility(Now(), m) && Height(colls[m.coll].kind) <= height
      modifies this`members
      ensures members == old(members) - Children(old(Now()), {m})
      decreases height, 0
    {
      var children := set n | n in members && n.user == m.user && n.coll in colls && colls[n.coll].parent == Some(m.coll);
      assert children == Children(Now(), {m});
      if children != {} {
        forall n <- children ensures IsGroup(colls[n.coll]) && 0 < height {
          ChildIsGroup(Now(), n, m);
        }
        assert exists n :: n in children;
        BulkDelete(children, height - 1);
        NoGrandchildren(old(Now()), children);
        DeletedSet(old(Now()), children);
      }
    }

    /** Deleting memberships by a query: the signal for each of them, then all of them. */
    method BulkDelete(doomed: set<Membership>, ghost height: nat)
      requires Shaped(Now())
      requires forall m <- doomed :: NotFacility(Now(), m) && Height(colls[m.coll].kind) <= height
      modifies this`members
      ensures Now() == DeleteMemberships(old(Now()), doomed)
      ensures forall n :: n in members <==>
                && n in old(members) && n !in doomed
                && !exists d :: d in doomed && d.user == n.user && n.coll in colls && colls[n.coll].parent == Some(d.coll)
      decreases height, 1
    {
      ghost var before := Now();
      var todo := doomed;
      while todo != {}
        invariant todo <= doomed
        invariant members == before.members - Children(before, doomed - todo)
        decreases |todo|
      {
        var m :| m in todo;
        Signalled(before, Now(), doomed - todo, m);
        CascadeDeleteMembership(m, height);
        assert doomed - (todo - {m}) == (doomed - todo) + {m};
        todo := todo - {m};
      }
      members := members - doomed;
      assert doomed - {} == doomed;
      DeletedSet(before, doomed);
    }

    /** `Membership.delete`: those in child collections first, then itself, with its signal. */
    method DeleteMembership(m: Membership)
      requires Shaped(Now()) && m in members
      modifies this`members
      ensures Now() == DeleteMemberships(old(Now()), {m})
      ensures forall n: Membership :: n.user != m.user ==> (n in members <==> n in old(members))
      ensures forall n: Membership :: n.user == m.user ==>
                (n in members <==> n in old(members) && n.coll != m.coll && !(n.coll in colls && colls[n.coll].parent == Some(m.coll)))
    {
      ghost var before := Now();
      if colls[m.coll].kind.Classroom? {
        var children := set n | n in members && n.user == m.user && n.coll in colls && colls[n.coll].parent == Some(m.coll);
        assert children == Children(before, {m});
        forall n <- children ensures NotFacility(before, n) && Height(colls[n.coll].kind) <= 2 {}
        BulkDelete(children, 2);
        forall n <- children ensures IsGroup(colls[n.coll]) {
          ChildIsGroup(before, n, m);
        }
        NoGrandchildren(before, children);
        DeletedSet(before, children);
      }
      ghost var between := Now();
      BulkDelete({m}, 2);
      DeletedSet(between, {m});
      DeletedSet(before, {m});
    }

    /** Removes a member; only those who are members, and of a facility nothing, as there is no membership to remove. */
    method RemoveMember(user: int, coll: int) returns (r: Result<(), Error>)
      requires Valid(Now()) && user in users && coll in colls
      modifies this`members
      ensures r == (if IsMemberOf(old(Now()), user, coll) then Success(()) else Failure(UserIsNotMemberError))
      ensures Now() == DeleteMemberships(old(Now()), {Membership(user, coll)} * old(members))
      ensures Valid(Now()) && !(Membership(user, coll) in members)
      ensures Membership(user, coll) !in old(members) ==> members == old(members)
      ensures forall n: Membership :: n.user != user ==> (n in members <==> n in old(members))
      ensures Membership(user, coll) in old(members) ==> forall n: Membership :: n.user == user ==>
                (n in members <==> n in old(members) && n.coll != coll && !(n.coll in colls && colls[n.coll].parent == Some(coll)))
    {
      ValidIsShaped(Now());
      var m := Membership(user, coll);
      DeleteMembershipsKeepsValid(Now(), {m} * members);
      DeletedSet(Now(), {m} * members);
      if !IsMemberOf(Now(), user, coll) {
        assert m in members ==> ValidMembership(Now(), m);
        assert {m} * members == {};
        return Failure(UserIsNotMemberError);
      }
      BulkDelete({m} * members, 2);
      r := Success(());
    }

    /**
     `Role.save`, as one transaction: the first role in a classroom for somebody without a role for its
     facility brings the assignable-coach role with it.
     */
    method SaveRole(role: Role) returns (r: Result<(), Error>)
      requires role.user in users && role.coll in colls && forall c <- colls :: ValidCollection(Now(), colls[c])
      modifies this`roles
      ensures Did(Facilities.SaveRole(old(Now()), role), r, old(Now()), Now())
      ensures r.Success? <==>
        && !IsGroup(colls[role.coll]) && (colls[role.coll].kind.Classroom? ==> role.kind == Coach)
        && users[role.user].dataset == colls[role.coll].dataset
      ensures r.Failure? ==> roles == old(roles)
      ensures r.Success? ==> forall q :: q in roles <==>
                || q in old(roles) || q == role
                || (colls[role.coll].kind.Classroom? && q.user == role.user && q.kind == AssignableCoach && Some(q.coll) == colls[role.coll].parent
                    && !exists p :: p in old(roles) && p.user == role.user && p.coll == q.coll)
      decreases if colls[role.coll].kind.Classroom? then 1 else 0
    {
      var c := colls[role.coll];
      assert ValidCollection(Now(), c);
      if c.kind.LearnerGroup? || c.kind.AdHocGroup? {
        return Failure(InvalidRoleKind);
      }
      if c.kind.Classroom? {
        if role.kind != Coach {
          return Failure(InvalidRoleKind);
        }
        if !exists q :: q in roles && q.user == role.user && q.coll == c.parent.value {
          var granted := SaveRole(Role(role.user, c.parent.value, AssignableCoach));
          if granted.Failure? {
            return granted;
          }
        }
      }
      if users[role.user].dataset != c.dataset {
        return Failure(IntegrityError);
      }
      roles := roles + {role};
      r := Success(());
    }

    /** Gets the role, or creates it if there is none; of a kind that is known. */
    method AddRole(user: int, coll: int, kind: RoleKind) returns (r: Result<(), Error>)
      requires Valid(Now()) && CoachesAssigned(Now()) && user in users && coll in colls
      modifies this`roles
      ensures kind.Other? ==> r == Failure(InvalidRoleKind) && Now() == old(Now())
      ensures !kind.Other? ==> Did(Facilities.SaveRole(old(Now()), Role(user, coll, kind)), r, old(Now()), Now())
      ensures Valid(Now()) && CoachesAssigned(Now())
    {
      var role := Role(user, coll, kind);
      assert ValidCollection(Now(), colls[coll]);
      if kind.Other? {
        return Failure(InvalidRoleKind);
      }
      SaveRoleKeepsValid(Now(), role);
      SaveRoleKeepsCoaches(Now(), role);
      if role in roles {
        assert ValidRole(Now(), role);
        assert IsClassroomRole(Now(), role) ==> HasFacilityRole(Now(), user, colls[coll].parent.value);
        assert roles == roles + {role};
        return Success(());
      }
      r := SaveRole(role);
    }

    /** `Role.delete`: without the assignable-coach role of a facility there are no coach roles in its classrooms. */
    method DeleteRole(role: Role)
      requires role in roles && role.coll in colls
      modifies this`roles
      ensures Now() == Facilities.DeleteRole(old(Now()), role)
      ensures forall q :: q in roles <==>
                && q in old(roles) && q != role
                && !(role.kind == AssignableCoach && colls[role.coll].kind.Facility?
                     && q.user == role.user && q.kind == Coach && q.coll in colls && colls[q.coll].parent == Some(role.coll))
    {
      if colls[role.coll].kind.Facility? && role.kind == AssignableCoach {
        roles := set q | q in roles && !(q.user == role.user && q.kind == Coach && q.coll in colls && colls[q.coll].parent == Some(role.coll));
      }
      roles := roles - {role};
    }

    method RemoveRole(user: int, coll: int, kind: RoleKind) returns (r: Result<(), Error>)
      requires Valid(Now()) && user in users && coll in colls
      modifies this`roles
      ensures r == (if kind.Other? then Failure(InvalidRoleKind)
                    else if Role(user, coll, kind) !in old(roles) then Failure(UserDoesNotHaveRoleError) else Success(()))
      ensures Now() == if r.Success? then Facilities.DeleteRole(old(Now()), Role(user, coll, kind)) else old(Now())
      ensures Valid(Now()) && Role(user, coll, kind) !in roles
      ensures forall q: Role :: q.user != user ==> (q in roles <==> q in old(roles))
      ensures Role(user, coll, kind) in old(roles) ==> forall q: Role :: q.user == user ==>
                (q in roles <==> q in old(roles) && q != Role(user, coll, kind)
                                 && !(kind == AssignableCoach && q.kind == Coach && q.coll in colls && colls[q.coll].parent == Some(coll)))
    {
      if kind.Other? {
        assert Role(user, coll, kind) in roles ==> ValidRole(Now(), Role(user, coll, kind));
        return Failure(InvalidRoleKind);
      }
      if Role(user, coll, kind) !in roles {
        return Failure(UserDoesNotHaveRoleError);
      }
      FewerRolesKeepValid(Now(), Facilities.DeleteRole(Now(), Role(user, coll, kind)).roles);
      DeleteRole(Role(user, coll, kind));
      r := Success(());
    }
  }

  /** What a saving call returned and did is what the function on states says: on an error, nothing. */
  predicate Did(outcome: Result<State, Error>, r: Result<(), Error>, before: State, after: State) {
    match outcome
    case Success(t) => r == Success(()) && after == t
    case Failure(e) => r == Failure(e) && after == before
  }

  /** How many levels of collections with memberships there can be below one of this kind. */
  function Height(kind: Kind): nat {
    match kind
    case Facility => 2
    case Classroom => 1
    case _ => 0
  }

  predicate NotFacility(s: State, m: Membership) {
    m.coll in s.colls && !s.colls[m.coll].kind.Facility?
  }

  /** What the cascades rely on: the hierarchy, and that no membership is of a facility. */
  predicate Shaped(s: State) {
    && (forall c <- s.colls :: ValidCollection(s, s.colls[c]))
    && (forall m <- s.members :: NotFacility(s, m))
  }

  lemma {:induction false} ValidIsShaped(s: State)
    requires Valid(s)
    ensures Shaped(s)
  {
    forall m <- s.members ensures NotFacility(s, m) {
      assert ValidMembership(s, m);
    }
  }

  function Children(s: State, doomed: set<Membership>): set<Membership> {
    set m | m in s.members && exists d :: d in doomed && ChildMembership(s, m, d)
  }

  lemma {:induction false} ChildIsGroup(s: State, n: Membership, d: Membership)
    requires Shaped(s) && n in s.members && ChildMembership(s, n, d) && NotFacility(s, d)
    ensures IsGroup(s.colls[n.coll]) && s.colls[d.coll].kind.Classroom?
  {
    assert ValidCollection(s, s.colls[n.coll]);
  }

  lemma {:induction false} NoGrandchildren(s: State, children: set<Membership>)
    requires Shaped(s) && forall n <- children :: n.coll in s.colls && IsGroup(s.colls[n.coll])
    ensures Children(s, children) == {}
  {
    forall q, n | q in s.members && n in children ensures !ChildMembership(s, q, n) {
      assert q.coll in s.colls ==> ValidCollection(s, s.colls[q.coll]);
    }
  }

  lemma {:induction false} DeletedSet(s: State, doomed: set<Membership>)
    ensures DeleteMemberships(s, doomed).members == s.members - doomed - Children(s, doomed)
  {
  }

  lemma {:induction false} Signalled(before: State, now: State, done: set<Membership>, m: Membership)
    requires now.colls == before.colls && now.members == before.members - Children(before, done)
    ensures now.members - Children(now, {m}) == before.members - Children(before, done + {m})
  {
    forall n ensures n in now.members - Children(now, {m}) <==> n in before.members - Children(before, done + {m}) {
      assert ChildMembership(now, n, m) == ChildMembership(before, n, m);
    }
  }
}
