/** What holds of memberships and roles after every run, and when a community keeps an owner. */
module Ownership {
  import opened Wrappers
  import opened Collections
  import opened Membership

  datatype Step =
    | Found(who: Person, id: string, slug: Option<string>, approved: bool, open: bool)
    | Join(who: Person, id: string)
    | Leave(who: Person, id: string)
    | SetRole(who: Person, id: string, user: string, role: Role, grant: bool)
    | Change(id: string, approved: bool, open: bool, archived: bool, deleted: bool)

  const NOBODY := Society(map[], map[], {})

  /** A step that is refused, or that names no community, does nothing. The last is the administrators' and the owners' settings. */
  function Stepped(s: Society, step: Step): Society {
    match step
    case Found(who, id, slug, approved, open) =>
      if id in s.communities || CreateRefusal(s, who, slug).Some? then s
      else Created(s, who, id, slug.value, approved, open)
    case Join(who, id) =>
      if JoinRefusal(s, who, id).Some? then s else Joined(s, who, id)
    case Leave(who, id) =>
      if id !in s.communities || LeaveRefused(s, who, id) then s else Left(s, who, id)
    case SetRole(who, id, user, role, grant) =>
      if RoleRefusal(s, who, id, user, role, grant).Some? then s else RoleSet(s, id, user, role, grant)
    case Change(id, approved, open, archived, deleted) =>
      if id !in s.communities then s
      else s.(communities := s.communities[id :=
        s.communities[id].(approved := approved, open := open, archived := archived, deleted := deleted)])
  }

  function After(run: seq<Step>): Society {
    if run == [] then NOBODY else Stepped(After(run[..|run| - 1]), run[|run| - 1])
  }

  /** Members are counted, memberships are of communities, and roles are held by members. */
  predicate Sound(s: Society) {
    && (forall c :: c in s.communities ==> s.communities[c].members == |Members(s, c)|)
    && (forall seat :: seat in s.seats ==> seat.community in s.communities)
    && (forall r :: r in s.roles ==> Seated(s, r.seat))
  }

  lemma InMembers(s: Society, c: string, u: string)
    ensures u in Members(s, c) <==> Seated(s, Seat(c, u))
  {
    assert Seated(s, Seat(c, u)) ==> Seat(c, u).user == u;
  }

  /** Members once one seat is taken or given up. */
  lemma MembersWith(s: Society, t: Society, seat: Seat, c: string)
    requires t.seats == s.seats[seat := true] || t.seats == s.seats[seat := false]
    ensures |Members(t, c)| == |Members(s, c)| + (if seat.community != c then 0
      else (if Seated(t, seat) then 1 else 0) - (if Seated(s, seat) then 1 else 0))
  {
    hide Members;
    var us := if seat.community != c then Members(s, c)
      else if Seated(t, seat) then Members(s, c) + {seat.user} else Members(s, c) - {seat.user};
    forall u ensures u in Members(t, c) <==> u in us {
      InMembers(s, c, u);
      InMembers(t, c, u);
    }
    assert Members(t, c) == us;
    InMembers(s, c, seat.user);
    Sizes(Members(s, c), seat.user);
  }

  lemma SameSeats(s: Society, t: Society, c: string)
    requires s.seats == t.seats
    ensures Members(s, c) == Members(t, c)
  {
  }

  lemma FoundSound(s: Society, who: Person, id: string, slug: string, approved: bool, open: bool)
    requires Sound(s) && id !in s.communities
    ensures Sound(Created(s, who, id, slug, approved, open))
  {
    hide Members;
    var t := Created(s, who, id, slug, approved, open);
    NobodyYet(s, id);
    forall c | c in t.communities ensures t.communities[c].members == |Members(t, c)| {
      MembersWith(s, t, Seat(id, who.userId), c);
    }
  }

  lemma NobodyYet(s: Society, id: string)
    requires Sound(s) && id !in s.communities
    ensures Members(s, id) == {}
  {
    hide Members;
    forall u ensures u !in Members(s, id) {
      InMembers(s, id, u);
    }
  }

  lemma JoinSound(s: Society, who: Person, id: string)
    requires Sound(s) && id in s.communities
    ensures Sound(Joined(s, who, id))
  {
    hide Members;
    var t := Joined(s, who, id);
    forall c | c in t.communities ensures t.communities[c].members == |Members(t, c)| {
      if t.seats == s.seats {
        SameSeats(s, t, c);
      } else {
        MembersWith(s, t, Seat(id, who.userId), c);
      }
    }
  }

  /** A member leaving is one of those counted, so the clip at zero never acts. */
  lemma LeaveNeverClips(s: Society, who: Person, id: string)
    requires Sound(s) && Seated(s, Seat(id, who.userId))
    ensures id in s.communities && s.communities[id].members >= 1
    ensures Left(s, who, id).communities[id].members == s.communities[id].members - 1
  {
    hide Members;
    InMembers(s, id, who.userId);
    assert Members(s, id) != {};
  }

  lemma LeaveSound(s: Society, who: Person, id: string)
    requires Sound(s) && id in s.communities
    ensures Sound(Left(s, who, id))
  {
    hide Members;
    var t := Left(s, who, id);
    if Seated(s, Seat(id, who.userId)) {
      LeaveNeverClips(s, who, id);
      forall c | c in t.communities ensures t.communities[c].members == |Members(t, c)| {
        MembersWith(s, t, Seat(id, who.userId), c);
      }
    }
  }

  lemma SetRoleSound(s: Society, id: string, user: string, role: Role, grant: bool)
    requires Sound(s) && Seated(s, Seat(id, user))
    ensures Sound(RoleSet(s, id, user, role, grant))
  {
    hide Members;
    var t := RoleSet(s, id, user, role, grant);
    forall c | c in t.communities ensures t.communities[c].members == |Members(t, c)| {
      SameSeats(s, t, c);
    }
  }

  lemma ChangeSound(s: Society, id: string, c: Community)
    requires Sound(s) && id in s.communities && c.members == s.communities[id].members
    ensures Sound(s.(communities := s.communities[id := c]))
  {
    hide Members;
    var t := s.(communities := s.communities[id := c]);
    forall c | c in t.communities ensures t.communities[c].members == |Members(t, c)| {
      SameSeats(s, t, c);
    }
  }

  lemma StepSound(s: Society, step: Step)
    requires Sound(s)
    ensures Sound(Stepped(s, step))
  {
    hide Sound, Members, Owners, May, Created, Joined, Left, RoleSet;
    match step
    case Found(who, id, slug, approved, open) =>
      if id !in s.communities && CreateRefusal(s, who, slug).None? { FoundSound(s, who, id, slug.value, approved, open); }
    case Join(who, id) =>
      if JoinRefusal(s, who, id).None? { JoinSound(s, who, id); }
    case Leave(who, id) =>
      if id in s.communities { LeaveSound(s, who, id); }
    case SetRole(who, id, user, role, grant) =>
      if RoleRefusal(s, who, id, user, role, grant).None? { SetRoleSound(s, id, user, role, grant); }
    case Change(id, approved, open, archived, deleted) =>
      if id in s.communities {
        ChangeSound(s, id, s.communities[id].(approved := approved, open := open, archived := archived, deleted := deleted));
      }
  }

  /** After every run the counts are right, and nobody holds a role where they are not a member. */
  lemma {:induction false} RunSound(run: seq<Step>)
    ensures Sound(After(run))
  {
    hide Stepped, Members;
    if run != [] {
      RunSound(run[..|run| - 1]);
      StepSound(After(run[..|run| - 1]), run[|run| - 1]);
    }
  }

  // ----- owners -----

  lemma InOwners(s: Society, c: string, u: string)
    ensures u in Owners(s, c) <==> Holds(s, c, u, Owner)
  {
    hide Members;
    InMembers(s, c, u);
  }

  /** The one way a community loses its last owner: they leave while nothing says they may transfer it. */
  predicate SlipsOut(s: Society, step: Step) {
    step.Leave? && step.id in s.communities && Owners(s, step.id) == {step.who.userId} &&
    (step.who.banned || (!step.who.active && Transfer !in step.who.permissions))
  }

  lemma OwnerMayTransfer(s: Society, who: Person, id: string)
    requires Holds(s, id, who.userId, Owner)
    ensures May(s, who, id, Transfer) <==> !who.banned && (who.active || Transfer in who.permissions)
  {
    assert Transfer in Grants(Owner);
  }

  lemma OwnersLeft(s: Society, who: Person, id: string, c: string)
    requires id in s.communities
    ensures Owners(Left(s, who, id), c) == if c == id then Owners(s, c) - {who.userId} else Owners(s, c)
  {
    hide Owners, Members;
    var t := Left(s, who, id);
    forall u ensures u in Owners(t, c) <==> u in Owners(s, c) && !(c == id && u == who.userId) {
      InOwners(t, c, u);
      InOwners(s, c, u);
    }
  }

  /** A leave leaves a community without an owner exactly when its only owner slips out. */
  lemma LeaveKeepsAnOwner(s: Society, who: Person, id: string, c: string)
    requires id in s.communities && !LeaveRefused(s, who, id) && Owners(s, c) != {}
    ensures Owners(Left(s, who, id), c) == {} <==> c == id && SlipsOut(s, Leave(who, id))
  {
    hide Owners, May, Left;
    OwnersLeft(s, who, id, c);
    InOwners(s, id, who.userId);
    if c == id && Owners(s, id) - {who.userId} == {} {
      OnlyOne(Owners(s, id), who.userId);
      OwnerMayTransfer(s, who, id);
    }
  }

  lemma OnlyOne(s: set<string>, x: string)
    requires s != {} && s - {x} == {}
    ensures s == {x} && |s| == 1
  {
    var y :| y in s;
    assert forall z :: z in s && z != x ==> z in s - {x};
  }

  lemma OwnersWith(s: Society, id: string, user: string, role: Role, grant: bool, c: string)
    requires Seated(s, Seat(id, user))
    ensures Owners(RoleSet(s, id, user, role, grant), c) ==
      if c != id || role != Owner then Owners(s, c)
      else if grant then Owners(s, c) + {user} else Owners(s, c) - {user}
  {
    hide Owners, Members;
    var t := RoleSet(s, id, user, role, grant);
    var us := if c != id || role != Owner then Owners(s, c)
      else if grant then Owners(s, c) + {user} else Owners(s, c) - {user};
    forall u ensures u in Owners(t, c) <==> u in us {
      InOwners(t, c, u);
      InOwners(s, c, u);
    }
  }

  lemma RevokeKeepsAnOwner(s: Society, who: Person, id: string, user: string, role: Role, grant: bool, c: string)
    requires RoleRefusal(s, who, id, user, role, grant).None? && Owners(s, c) != {}
    ensures Owners(RoleSet(s, id, user, role, grant), c) != {}
  {
    hide Owners, May, RoleSet;
    OwnersWith(s, id, user, role, grant, c);
    Sizes(Owners(s, c), user);
  }

  /** Joining and settings touch nobody's ownership; founding makes one owner. */
  lemma OtherStepOwners(s: Society, step: Step, c: string, u: string)
    requires step.Found? || step.Join? || step.Change?
    ensures Holds(s, c, u, Owner) ==> Holds(Stepped(s, step), c, u, Owner)
    ensures step.Found? && c !in s.communities && c in Stepped(s, step).communities ==>
      Holds(Stepped(s, step), c, step.who.userId, Owner)
  {
  }

  lemma StepKeepsAnOwner(s: Society, step: Step, c: string)
    requires !SlipsOut(s, step) && c in Stepped(s, step).communities
    requires c in s.communities ==> Owners(s, c) != {}
    ensures Owners(Stepped(s, step), c) != {}
  {
    hide Owners, May, Left, RoleSet, SlipsOut, LeaveRefused, RoleRefusal;
    match step {
      case Leave(who, id) => {
        if id in s.communities && !LeaveRefused(s, who, id) {
          LeaveCommunities(s, who, id);
          LeaveKeepsAnOwner(s, who, id, c);
        }
      }
      case SetRole(who, id, user, role, grant) => {
        RoleCommunities(s, id, user, role, grant);
        if RoleRefusal(s, who, id, user, role, grant).None? {
          RevokeKeepsAnOwner(s, who, id, user, role, grant, c);
        }
      }
      case _ => { OtherStepKeepsAnOwner(s, step, c); }
    }
  }

  lemma LeaveCommunities(s: Society, who: Person, id: string)
    requires id in s.communities
    ensures Left(s, who, id).communities.Keys == s.communities.Keys
  {
  }

  lemma RoleCommunities(s: Society, id: string, user: string, role: Role, grant: bool)
    ensures RoleSet(s, id, user, role, grant).communities == s.communities
  {
  }

  lemma OtherStepKeepsAnOwner(s: Society, step: Step, c: string)
    requires step.Found? || step.Join? || step.Change?
    requires c in Stepped(s, step).communities && (c in s.communities ==> Owners(s, c) != {})
    ensures Owners(Stepped(s, step), c) != {}
  {
    hide Owners, Members, May;
    var u: string := if c in s.communities then (var x :| x in Owners(s, c); x) else if step.Found? then step.who.userId else "";
    assert c !in s.communities ==> step.Found?;
    InOwners(s, c, u);
    InOwners(Stepped(s, step), c, u);
    OtherStepOwners(s, step, c, u);
  }

  /** Over every run in which no only owner slips out, every community has an owner. */
  lemma {:induction false} EveryCommunityHasAnOwner(run: seq<Step>, c: string)
    requires forall i :: 0 <= i < |run| ==> !SlipsOut(After(run[..i]), run[i])
    requires c in After(run).communities
    ensures Owners(After(run), c) != {}
  {
    hide Stepped, Owners, SlipsOut;
    if run != [] {
      var front := run[..|run| - 1];
      forall i | 0 <= i < |front| ensures !SlipsOut(After(front[..i]), front[i]) {
        assert front[..i] == run[..i];
      }
      if c in After(front).communities {
        EveryCommunityHasAnOwner(front, c);
      }
      StepKeepsAnOwner(After(front), run[|run| - 1], c);
    }
  }

  /** And one slip is enough: a founder who is banned and leaves leaves nobody behind. */
  lemma BannedFounderLeavesNobody(who: Person, id: string, slug: string)
    requires CreateRefusal(NOBODY, who, Some(slug)).None?
    ensures var founded := After([Found(who, id, Some(slug), true, true)]);
      var left := After([Found(who, id, Some(slug), true, true), Leave(who.(banned := true), id)]);
      Owners(founded, id) == {who.userId} && id in left.communities && Owners(left, id) == {}
  {
    hide Owners, May, Left;
    var found, leave := Found(who, id, Some(slug), true, true), Leave(who.(banned := true), id);
    assert [found][..0] == [] && [found, leave][..1] == [found];
    var founded := After([found]);
    assert After([]) == NOBODY && founded == Stepped(NOBODY, found);
    assert id !in NOBODY.communities;
    assert founded == Created(NOBODY, who, id, slug, true, true);
    forall u ensures u in Owners(founded, id) <==> u == who.userId { InOwners(founded, id, u); }
    assert Owners(founded, id) == {who.userId};
    NotWhileBanned(founded, who.(banned := true), id);
    LeaveCommunities(founded, who.(banned := true), id);
    OwnersLeft(founded, who.(banned := true), id, id);
  }

  lemma NotWhileBanned(s: Society, who: Person, id: string)
    requires who.banned
    ensures !May(s, who, id, Transfer)
  {
  }

  /** Leaving and joining again restores the count and the seat, but of the roles only the member's. */
  lemma RejoinIsAPlainMember(s: Society, who: Person, id: string, c: string)
    requires Sound(s) && Seated(s, Seat(id, who.userId)) && id in s.communities
    ensures id in Left(s, who, id).communities
    ensures var back := Joined(Left(s, who, id), who, id);
      && back.communities == s.communities && back.seats == s.seats
      && forall role :: RoleRow(Seat(id, who.userId), role) in back.roles <==> role == Member
  {
    LeaveNeverClips(s, who, id);
  }
}
