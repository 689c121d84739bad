/** Communities, who is a member of them, and the roles members hold there. */
module Membership {
  import opened Wrappers
  import opened Access

  datatype Role = Member | Moderator | Owner
  datatype Permission = Create | Manage | Transfer | Oversee

  datatype Community = Community(slug: string, members: int, approved: bool, open: bool, archived: bool, deleted: bool)

  /** A membership's unique key, and a role row's. */
  datatype Seat = Seat(community: string, user: string)
  datatype RoleRow = RoleRow(seat: Seat, role: Role)

  /** `seats` says of each membership row whether it is active, that is, has no `leftAt`. */
  datatype Society = Society(communities: map<string, Community>, seats: map<Seat, bool>, roles: set<RoleRow>)

  /** The caller as the identity tables know them: `active` is their standing in the tenant. */
  datatype Person = Person(
    userId: string, verified: bool, active: bool, banned: bool, permissions: set<Permission>,
    gate: Option<Refusal>, recent: nat)

  const COMMUNITIES_PER_DAY := 2

  /** What a role grants of the permissions asked about here. */
  function Grants(role: Role): set<Permission> {
    match role
    case Owner => {Manage, Transfer}
    case Moderator => {}
    case Member => {}
  }

  predicate Seated(s: Society, seat: Seat) {
    seat in s.seats && s.seats[seat]
  }

  predicate Holds(s: Society, community: string, user: string, role: Role) {
    Seated(s, Seat(community, user)) && RoleRow(Seat(community, user), role) in s.roles
  }

  /** Tenant wide permissions and, in good standing, those of the roles held here; none at all while banned. */
  predicate May(s: Society, who: Person, community: string, p: Permission) {
    !who.banned &&
    (p in who.permissions || (who.active && exists role :: Holds(s, community, who.userId, role) && p in Grants(role)))
  }

  function Members(s: Society, community: string): set<string> {
    set seat | seat in s.seats && s.seats[seat] && seat.community == community :: seat.user
  }

  function Owners(s: Society, community: string): set<string> {
    set u | u in Members(s, community) && RoleRow(Seat(community, u), Owner) in s.roles
  }

  function CreateRefusal(s: Society, who: Person, slug: Option<string>): Option<Refusal> {
    if slug.None? then Some(Invalid)
    else if !who.verified then Some(NotVerified)
    else if who.banned then Some(BannedHere)
    else if Create !in who.permissions then Some(NotAllowed)
    else if who.recent >= COMMUNITIES_PER_DAY then Some(RateLimited)
    else if exists c :: c in s.communities && s.communities[c].slug == slug.value then Some(Exists)
    else None
  }

  /** The creator joins and becomes its owner. */
  function Created(s: Society, who: Person, id: string, slug: string, approved: bool, open: bool): Society {
    var seat := Seat(id, who.userId);
    Society(s.communities[id := Community(slug, 1, approved, open, false, false)],
            s.seats[seat := true], s.roles + {RoleRow(seat, Owner)})
  }

  function JoinRefusal(s: Society, who: Person, id: string): Option<Refusal> {
    if id !in s.communities || s.communities[id].deleted || !s.communities[id].approved then Some(NotFound)
    else if s.communities[id].archived then Some(Archived)
    else if !s.communities[id].open then Some(NotAllowed)
    else if !who.verified then Some(NotVerified)
    else if who.banned then Some(BannedHere)
    else who.gate
  }

  function Joined(s: Society, who: Person, id: string): Society
    requires id in s.communities
  {
    var seat := Seat(id, who.userId);
    var roles := s.roles + {RoleRow(seat, Member)};
    if Seated(s, seat) then s.(roles := roles)
    else
      var c := s.communities[id];
      Society(s.communities[id := c.(members := c.members + 1)], s.seats[seat := true], roles)
  }

  /** Only someone who may transfer the community is kept from leaving it as its only owner. */
  predicate LeaveRefused(s: Society, who: Person, id: string) {
    Seated(s, Seat(id, who.userId)) && May(s, who, id, Transfer) && |Owners(s, id)| <= 1
  }

  /** Roles go with the membership; the count is clipped at zero. */
  function Left(s: Society, who: Person, id: string): Society
    requires id in s.communities
  {
    var seat := Seat(id, who.userId);
    if !Seated(s, seat) then s
    else
      var c := s.communities[id];
      Society(s.communities[id := c.(members := if c.members - 1 > 0 then c.members - 1 else 0)],
              s.seats[seat := false], set r | r in s.roles && r.seat != seat)
  }

  function RoleRefusal(s: Society, who: Person, id: string, user: string, role: Role, grant: bool): Option<Refusal> {
    if !May(s, who, id, Manage) && !May(s, who, id, Oversee) then Some(NotAllowed)
    else if role == Owner && !May(s, who, id, Transfer) && !May(s, who, id, Oversee) then Some(NotAllowed)
    else if !Seated(s, Seat(id, user)) then Some(NotFound)
    else if !grant && role == Owner && |Owners(s, id)| <= 1 then Some(LastOwner)
    else None
  }

  function RoleSet(s: Society, id: string, user: string, role: Role, grant: bool): Society {
    var row := RoleRow(Seat(id, user), role);
    s.(roles := if grant then s.roles + {row} else s.roles - {row})
  }

  class Register {
    var communities: map<string, Community>
    var seats: map<Seat, bool>
    var roles: set<RoleRow>

    constructor ()
      ensures Now() == Society(map[], map[], {})
    {
      communities, seats, roles := map[], map[], {};
    }

    function Now(): Society
      reads this
    {
      Society(communities, seats, roles)
    }

    /** Create a community under a fresh id. */
    method CreateCommunity(who: Person, id: string, slug: Option<string>, approved: bool, open: bool)
      returns (r: Result<Community, Refusal>)
      requires id !in communities
      modifies this
      ensures r.Err? ==> Some(r.error) == CreateRefusal(old(Now()), who, slug) && Now() == old(Now())
      ensures r.Ok? ==> slug.Some? && CreateRefusal(old(Now()), who, slug).None?
      ensures r.Ok? ==> Now() == Created(old(Now()), who, id, slug.value, approved, open) && r.value == communities[id]
    {
      var refusal := CreateRefusal(Now(), who, slug);
      if refusal.Some? {
        return Err(refusal.value);
      }
      communities := communities[id := Community(slug.value, 1, approved, open, false, false)];
      var seat := Seat(id, who.userId);
      seats := seats[seat := true];
      var _ := Attach(seat, Owner);
      return Ok(communities[id]);
    }

    /** Insert a role row; false when it was there. */
    method Attach(seat: Seat, role: Role) returns (inserted: bool)
      modifies this`roles
      ensures roles == old(roles) + {RoleRow(seat, role)}
      ensures inserted <==> RoleRow(seat, role) !in old(roles)
    {
      inserted := RoleRow(seat, role) !in roles;
      roles := roles + {RoleRow(seat, role)};
    }

    /** Join, or join again; true when the person was not a member. */
    method JoinCommunity(who: Person, id: string) returns (r: Result<bool, Refusal>)
      modifies this
      ensures r.Err? ==> Some(r.error) == JoinRefusal(old(Now()), who, id) && Now() == old(Now())
      ensures r.Ok? ==> JoinRefusal(old(Now()), who, id).None? && id in old(communities)
      ensures r.Ok? ==> Now() == Joined(old(Now()), who, id) && r.value == !Seated(old(Now()), Seat(id, who.userId))
    {
      var refusal := JoinRefusal(Now(), who, id);
      if refusal.Some? {
        return Err(refusal.value);
      }
      var seat := Seat(id, who.userId);
      var joined := false;
      if seat !in seats {
        seats := seats[seat := true];
        joined := true;
      } else if !seats[seat] {
        seats := seats[seat := true];
        joined := true;
      }
      var _ := Attach(seat, Member);
      if joined {
        communities := communities[id := communities[id].(members := communities[id].members + 1)];
      }
      return Ok(joined);
    }

    /** Leave; false when there was nothing to leave. */
    method LeaveCommunity(who: Person, id: string) returns (r: Result<bool, Refusal>)
      requires Seated(Now(), Seat(id, who.userId)) ==> id in communities
      modifies this
      ensures r.Err? <==> LeaveRefused(old(Now()), who, id)
      ensures r.Err? ==> r.error == LastOwner && Now() == old(Now())
      ensures r.Ok? ==> r.value == Seated(old(Now()), Seat(id, who.userId))
      ensures r.Ok? ==> Now() == if r.value then Left(old(Now()), who, id) else old(Now())
    {
      var seat := Seat(id, who.userId);
      if !Seated(Now(), seat) {
        return Ok(false);
      }
      if May(Now(), who, id, Transfer) && |Owners(Now(), id)| <= 1 {
        return Err(LastOwner);
      }
      roles := set r | r in roles && r.seat != seat;
      seats := seats[seat := false];
      var c := communities[id];
      communities := communities[id := c.(members := if c.members - 1 > 0 then c.members - 1 else 0)];
      return Ok(true);
    }

    /** Grant or revoke a member's role; true when that changed anything. */
    method SetCommunityRole(who: Person, id: string, user: string, role: Role, grant: bool)
      returns (r: Result<bool, Refusal>)
      modifies this
      ensures r.Err? ==> Some(r.error) == RoleRefusal(old(Now()), who, id, user, role, grant) && Now() == old(Now())
      ensures r.Ok? ==> RoleRefusal(old(Now()), who, id, user, role, grant).None?
      ensures r.Ok? ==> Now() == RoleSet(old(Now()), id, user, role, grant) && r.value == (roles != old(roles))
    {
      var refusal := RoleRefusal(Now(), who, id, user, role, grant);
      if refusal.Some? {
        return Err(refusal.value);
      }
      var seat := Seat(id, user);
      if grant {
        var changed := Attach(seat, role);
        assert !changed ==> roles == old(roles);
        return Ok(changed);
      }
      var changed := RoleRow(seat, role) in roles;
      roles := roles - {RoleRow(seat, role)};
      return Ok(changed);
    }
  }
}
