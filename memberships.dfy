/** backEnd/src/controllers/communityMember.controller.js: joining and
    leaving a community, changing a member's role, removing a member, the
    membership check and the member listing, with the `membersCount`
    updates. The unique index of backEnd/src/models/communityMember.model.js
    on (community, user) is the invariant `OnePerUser`. */
module Memberships {
  import opened Wrappers
  import opened TweetModel
  import opened Store
  import opened Collections
  import opened Paging

  // ------------------------------------------------------------ lookups

  /** `findOne` over the membership records: the lowest id whose record
      satisfies `p`, if there is one. */
  function FirstWhere(members: map<MemberId, Membership>, p: Membership -> bool): (r: Option<MemberId>)
    ensures r.Some? ==> r.value in members && p(members[r.value])
    ensures r.None? <==> forall k :: k in members ==> !p(members[k])
  {
    var ks := set k | k in members && p(members[k]);
    assert forall k :: k in members && p(members[k]) ==> k in ks;
    if ks == {} then None
    else
      var k := Min(ks);
      assert k in ks;
      Some(k)
  }

  /** `CommunityMember.findOne({ community, user })`. */
  function FindMember(members: map<MemberId, Membership>, c: CommunityId, u: UserId): (r: Option<MemberId>)
    ensures r.Some? ==> r.value in members && members[r.value].community == c && members[r.value].user == u
    ensures r.None? <==> forall k :: k in members ==> members[k].community != c || members[k].user != u
  {
    FirstWhere(members, (m: Membership) => m.community == c && m.user == u)
  }

  /** `CommunityMember.findOne({ community, user, role: 'admin' })`. */
  function FindAdmin(members: map<MemberId, Membership>, c: CommunityId, u: UserId): (r: Option<MemberId>)
    ensures r.Some? ==> r.value in members && members[r.value].community == c && members[r.value].user == u
                        && members[r.value].role == Admin
    ensures r.None? <==>
      forall k :: k in members ==> members[k].community != c || members[k].user != u || members[k].role != Admin
  {
    FirstWhere(members, (m: Membership) => m.community == c && m.user == u && m.role == Admin)
  }

  /** The role `u` holds in c, as the handlers read it from the record
      `FindMember` returns. */
  function RoleIn(members: map<MemberId, Membership>, c: CommunityId, u: UserId): (r: Option<Role>)
    ensures r.Some? <==> FindMember(members, c, u).Some?
    ensures r.Some? ==> r.value == members[FindMember(members, c, u).value].role
  {
    match FindMember(members, c, u)
    case None => None
    case Some(k) => Some(members[k].role)
  }

  // --------------------------------------------------------- invariants

  /** At most one membership record per (community, user). */
  predicate OnePerUser(members: map<MemberId, Membership>) {
    forall a, b ::
      (a in members && b in members && members[a].community == members[b].community && members[a].user == members[b].user)
      ==> a == b
  }

  /** With one record per user, the admin lookup finds something exactly
      when the member lookup finds an admin. */
  lemma FindAdminIsAdminMember(members: map<MemberId, Membership>, c: CommunityId, u: UserId)
    requires OnePerUser(members)
    ensures FindAdmin(members, c, u).Some? <==> RoleIn(members, c, u) == Some(Admin)
  {
    if FindAdmin(members, c, u).Some? {
      var k := FindAdmin(members, c, u).value;
      assert FindMember(members, c, u).Some?;
      assert FindMember(members, c, u).value == k;
    }
  }

  /** The records of community c. */
  function MembersOf(members: map<MemberId, Membership>, c: CommunityId): (r: set<MemberId>)
    ensures forall k :: k in r <==> k in members && members[k].community == c
  {
    set k | k in members && members[k].community == c
  }

  /** The counter of c agrees with its records. */
  predicate CountAt(communities: map<CommunityId, Community>, members: map<MemberId, Membership>, c: CommunityId) {
    c in communities ==> communities[c].membersCount == |MembersOf(members, c)|
  }

  predicate MembersCountOk(communities: map<CommunityId, Community>, members: map<MemberId, Membership>) {
    forall c :: c in communities ==> CountAt(communities, members, c)
  }

  /** Every record belongs to a community that exists. */
  predicate Attached(communities: map<CommunityId, Community>, members: map<MemberId, Membership>) {
    forall k :: k in members ==> members[k].community in communities
  }

  /** The communities and their membership records. */
  datatype Directory = Directory(communities: map<CommunityId, Community>, members: map<MemberId, Membership>)

  /** The invariants the membership handlers keep. */
  predicate Consistent(s: Directory) {
    MembersCountOk(s.communities, s.members) && OnePerUser(s.members) && Attached(s.communities, s.members)
  }

  /** `Community.findByIdAndUpdate(c, { $inc: { membersCount: d } })`: no
      effect when the community does not exist. */
  function IncMembers(communities: map<CommunityId, Community>, c: CommunityId, d: int): (r: map<CommunityId, Community>)
    ensures r.Keys == communities.Keys
    ensures forall k :: k in communities && k != c ==> r[k] == communities[k]
    ensures c in communities ==> r[c] == communities[c].(membersCount := communities[c].membersCount + d)
  {
    if c in communities then communities[c := communities[c].(membersCount := communities[c].membersCount + d)]
    else communities
  }

  /** A new record joins the records of its community only. */
  lemma MembersOfAfterAdd(members: map<MemberId, Membership>, id: MemberId, m: Membership, c: CommunityId)
    requires id !in members
    ensures MembersOf(members[id := m], c) == if m.community == c then MembersOf(members, c) + {id} else MembersOf(members, c)
  {
  }

  /** A deleted record leaves the records of its community only. */
  lemma MembersOfAfterRemove(members: map<MemberId, Membership>, id: MemberId, c: CommunityId)
    requires id in members
    ensures MembersOf(members - {id}, c) == if members[id].community == c then MembersOf(members, c) - {id} else MembersOf(members, c)
  {
  }

  /** Moving c's counter by d together with its records keeps every
      counter in agreement. */
  lemma CountsAfterChange(communities: map<CommunityId, Community>, members: map<MemberId, Membership>,
                          after: map<MemberId, Membership>, c: CommunityId, d: int)
    requires MembersCountOk(communities, members)
    requires forall k :: k != c ==> MembersOf(after, k) == MembersOf(members, k)
    requires |MembersOf(after, c)| == |MembersOf(members, c)| + d
    ensures MembersCountOk(IncMembers(communities, c, d), after)
  {
    var moved := IncMembers(communities, c, d);
    forall k ensures CountAt(moved, after, k) {
      assert CountAt(communities, members, k);
    }
  }

  // ----------------------------------------------------------- handlers

  /** `joinCommunity`: 500 for an id that does not parse, 404 for a
      missing community, 400 for a second membership; otherwise a 'member'
      record with the fresh id `id` is created and `membersCount` rises by
      one. */
  function JoinStep(s: Directory, user: UserId, community: IdParam, id: MemberId, now: nat): (r: (Directory, nat))
    requires id !in s.members
    ensures r.1 == SERVER_ERROR <==> community.Malformed?
    ensures r.1 == NOT_FOUND <==> community.ObjectId? && community.id !in s.communities
    ensures r.1 == BAD_REQUEST <==>
      community.ObjectId? && community.id in s.communities && FindMember(s.members, community.id, user).Some?
    ensures r.1 in {CREATED, BAD_REQUEST, NOT_FOUND, SERVER_ERROR}
    ensures r.1 != CREATED ==> r.0 == s
    ensures r.1 == CREATED ==>
      && community.ObjectId?
      && r.0.members == s.members[id := Membership(community.id, user, Member, now)]
      && r.0.communities == IncMembers(s.communities, community.id, 1)
  {
    match community
    case Malformed => (s, SERVER_ERROR)
    case ObjectId(c) =>
      if c !in s.communities then (s, NOT_FOUND)
      else if FindMember(s.members, c, user).Some? then (s, BAD_REQUEST)
      else (Directory(IncMembers(s.communities, c, 1), s.members[id := Membership(c, user, Member, now)]), CREATED)
  }

  /** `leaveCommunity`: 500 for an id that does not parse, 404 for a
      non-member, 400 for an admin; otherwise the caller's record is
      deleted and `membersCount` drops by one. */
  function LeaveStep(s: Directory, user: UserId, community: IdParam): (r: (Directory, nat))
    ensures r.1 == SERVER_ERROR <==> community.Malformed?
    ensures r.1 == NOT_FOUND <==> community.ObjectId? && FindMember(s.members, community.id, user).None?
    ensures r.1 == BAD_REQUEST <==> community.ObjectId? && RoleIn(s.members, community.id, user) == Some(Admin)
    ensures r.1 in {OK, BAD_REQUEST, NOT_FOUND, SERVER_ERROR}
    ensures r.1 != OK ==> r.0 == s
    ensures r.1 == OK ==>
      && community.ObjectId?
      && var k := FindMember(s.members, community.id, user).value;
      && s.members[k].role != Admin
      && r.0.members == s.members - {k}
      && r.0.communities == IncMembers(s.communities, community.id, -1)
  {
    match community
    case Malformed => (s, SERVER_ERROR)
    case ObjectId(c) =>
      match FindMember(s.members, c, user)
      case None => (s, NOT_FOUND)
      case Some(k) =>
        if s.members[k].role == Admin then (s, BAD_REQUEST)
        else (Directory(IncMembers(s.communities, c, -1), s.members - {k}), OK)
  }

  /** The name of a role as stored. */
  function RoleName(r: Role): (name: string)
    ensures |name| >= 5
  {
    match r
    case Member => "member"
    case Moderator => "moderator"
    case Admin => "admin"
  }

  /** The role check of `updateMemberRole`: one of the three names, or
      nothing. */
  function ParseRole(name: Option<string>): (r: Option<Role>)
    ensures r.Some? <==> name.Some? && name.value in {"member", "moderator", "admin"}
    ensures r.Some? ==> RoleName(r.value) == name.value
  {
    if name == Some("member") then Some(Member)
    else if name == Some("moderator") then Some(Moderator)
    else if name == Some("admin") then Some(Admin)
    else None
  }

  /** Every role's name is accepted and names that role. */
  lemma ParseRoleName(r: Role)
    ensures ParseRole(Some(RoleName(r))) == Some(r)
  {
    match r
    case Member =>
    case Moderator =>
      assert RoleName(r) != "member";
    case Admin =>
      assert RoleName(r) != "member" && RoleName(r) != "moderator";
  }

  /** `updateMemberRole`: 400 for a role outside the enum, 500 for an id
      that does not parse, 403 unless the caller is an admin of the
      community, 404 unless the record `memberId` belongs to the community;
      otherwise that record's role is replaced and nothing else changes.
      An admin may demote anyone, the last admin and themselves included. */
  function UpdateRoleStep(members: map<MemberId, Membership>, user: UserId, community: IdParam, memberId: IdParam,
                          role: Option<string>): (r: (map<MemberId, Membership>, nat))
    ensures r.1 == BAD_REQUEST <==> ParseRole(role).None?
    ensures r.1 == SERVER_ERROR <==>
      ParseRole(role).Some?
      && (community.Malformed? || (RoleIn(members, community.id, user) == Some(Admin) && memberId.Malformed?))
    ensures r.1 == FORBIDDEN <==>
      ParseRole(role).Some? && community.ObjectId? && RoleIn(members, community.id, user) != Some(Admin)
    ensures r.1 == NOT_FOUND <==>
      ParseRole(role).Some? && community.ObjectId? && RoleIn(members, community.id, user) == Some(Admin)
      && memberId.ObjectId? && (memberId.id !in members || members[memberId.id].community != community.id)
    ensures r.1 in {OK, BAD_REQUEST, FORBIDDEN, NOT_FOUND, SERVER_ERROR}
    ensures r.1 != OK ==> r.0 == members
    ensures r.1 == OK ==>
      && memberId.ObjectId? && memberId.id in members
      && r.0 == members[memberId.id := members[memberId.id].(role := ParseRole(role).value)]
  {
    match ParseRole(role)
    case None => (members, BAD_REQUEST)
    case Some(newRole) =>
      match community
      case Malformed => (members, SERVER_ERROR)
      case ObjectId(c) =>
        if RoleIn(members, c, user) != Some(Admin) then (members, FORBIDDEN)
        else
          match memberId
          case Malformed => (members, SERVER_ERROR)
          case ObjectId(m) =>
            if m !in members || members[m].community != c then (members, NOT_FOUND)
            else (members[m := members[m].(role := newRole)], OK)
  }

  /** `removeMember`: 500 for an id that does not parse, 403 unless the
      caller is an admin or moderator of the route's community, 500 when
      the record `memberId` does not exist (its role is read without a null
      check), 403 when a moderator targets an admin, 400 when an admin
      targets their own record. Otherwise the record is deleted and the
      route community's `membersCount` drops by one; the record is not
      required to belong to that community. */
  function RemoveStep(s: Directory, user: UserId, community: IdParam, memberId: IdParam): (r: (Directory, nat))
    ensures community.Malformed? ==> r.1 == SERVER_ERROR
    ensures community.ObjectId? ==>
      var requester := RoleIn(s.members, community.id, user);
      && (r.1 == FORBIDDEN <==>
            requester !in {Some(Admin), Some(Moderator)}
            || (memberId.ObjectId? && memberId.id in s.members && s.members[memberId.id].role == Admin
                && requester != Some(Admin)))
      && (r.1 == SERVER_ERROR <==>
            requester in {Some(Admin), Some(Moderator)} && (memberId.Malformed? || memberId.id !in s.members))
    ensures r.1 in {OK, BAD_REQUEST, FORBIDDEN, SERVER_ERROR}
    ensures r.1 != OK ==> r.0 == s
    ensures r.1 == BAD_REQUEST ==>
      memberId.ObjectId? && memberId.id in s.members
      && s.members[memberId.id].user == user && s.members[memberId.id].role == Admin
    ensures r.1 == OK ==>
      && community.ObjectId? && memberId.ObjectId? && memberId.id in s.members
      && var target := s.members[memberId.id];
      && (target.role == Admin ==> RoleIn(s.members, community.id, user) == Some(Admin) && target.user != user)
      && r.0.members == s.members - {memberId.id}
      && r.0.communities == IncMembers(s.communities, community.id, -1)
  {
    match community
    case Malformed => (s, SERVER_ERROR)
    case ObjectId(c) =>
      var requester := RoleIn(s.members, c, user);
      if requester != Some(Admin) && requester != Some(Moderator) then (s, FORBIDDEN)
      else
        match memberId
        case Malformed => (s, SERVER_ERROR)
        case ObjectId(m) =>
          if m !in s.members then (s, SERVER_ERROR)
          else if s.members[m].role == Admin && requester != Some(Admin) then (s, FORBIDDEN)
          else if s.members[m].user == user && s.members[m].role == Admin then (s, BAD_REQUEST)
          else (Directory(IncMembers(s.communities, c, -1), s.members - {m}), OK)
  }

  // ------------------------------------------------ what the steps keep

  /** Joining keeps the counters, one record per user, and every record
      attached to its community. */
  lemma JoinKeepsConsistent(s: Directory, user: UserId, community: IdParam, id: MemberId, now: nat)
    requires id !in s.members && Consistent(s)
    ensures Consistent(JoinStep(s, user, community, id, now).0)
  {
    var (s2, status) := JoinStep(s, user, community, id, now);
    if status == CREATED {
      var c := community.id;
      var m := Membership(c, user, Member, now);
      AddKeepsCounts(s.communities, s.members, id, m);
      AddKeepsOnePerUser(s.members, id, m);
    }
  }

  /** A new record with its community's counter raised by one keeps the
      counters. */
  lemma AddKeepsCounts(communities: map<CommunityId, Community>, members: map<MemberId, Membership>,
                       id: MemberId, m: Membership)
    requires id !in members && MembersCountOk(communities, members)
    ensures MembersCountOk(IncMembers(communities, m.community, 1), members[id := m])
  {
    var c := m.community;
    var after := members[id := m];
    forall k ensures MembersOf(after, k) == if k == c then MembersOf(members, k) + {id} else MembersOf(members, k) {
      MembersOfAfterAdd(members, id, m, k);
    }
    assert id !in MembersOf(members, c);
    CountsAfterChange(communities, members, after, c, 1);
  }

  /** A deleted record with its community's counter lowered by one keeps
      the counters. */
  lemma RemoveKeepsCounts(communities: map<CommunityId, Community>, members: map<MemberId, Membership>, id: MemberId)
    requires id in members && MembersCountOk(communities, members)
    ensures MembersCountOk(IncMembers(communities, members[id].community, -1), members - {id})
  {
    var c := members[id].community;
    var after := members - {id};
    forall x ensures MembersOf(after, x) == if x == c then MembersOf(members, x) - {id} else MembersOf(members, x) {
      MembersOfAfterRemove(members, id, x);
    }
    assert id in MembersOf(members, c);
    CountsAfterChange(communities, members, after, c, -1);
  }

  /** A record for a pair that has none keeps one record per pair. */
  lemma AddKeepsOnePerUser(members: map<MemberId, Membership>, id: MemberId, m: Membership)
    requires id !in members && OnePerUser(members)
    requires FindMember(members, m.community, m.user).None?
    ensures OnePerUser(members[id := m])
  {
  }

  /** Leaving keeps them too. */
  lemma LeaveKeepsConsistent(s: Directory, user: UserId, community: IdParam)
    requires Consistent(s)
    ensures Consistent(LeaveStep(s, user, community).0)
  {
    var (s2, status) := LeaveStep(s, user, community);
    if status == OK {
      var c := community.id;
      RemoveKeepsCounts(s.communities, s.members, FindMember(s.members, c, user).value);
    }
  }

  /** Changing a role touches no counter and no (community, user) pair. */
  lemma UpdateRoleKeepsConsistent(s: Directory, user: UserId, community: IdParam, memberId: IdParam, role: Option<string>)
    requires Consistent(s)
    ensures Consistent(Directory(s.communities, UpdateRoleStep(s.members, user, community, memberId, role).0))
  {
    var (after, status) := UpdateRoleStep(s.members, user, community, memberId, role);
    if status == OK {
      forall c ensures CountAt(s.communities, after, c) {
        assert MembersOf(after, c) == MembersOf(s.members, c);
        assert CountAt(s.communities, s.members, c);
      }
    }
  }

  /** Removing a record of the route's own community keeps the invariants. */
  lemma RemoveKeepsConsistent(s: Directory, user: UserId, community: IdParam, memberId: IdParam)
    requires Consistent(s)
    requires community.ObjectId? && memberId.ObjectId? && memberId.id in s.members
    requires s.members[memberId.id].community == community.id
    ensures Consistent(RemoveStep(s, user, community, memberId).0)
  {
    var (s2, status) := RemoveStep(s, user, community, memberId);
    if status == OK {
      var c := community.id;
      RemoveKeepsCounts(s.communities, s.members, memberId.id);
    }
  }

  /** Removing through another community's route deletes the record but
      lowers the wrong counter: afterwards both communities' counters
      disagree with their records. */
  lemma RemoveElsewhereBreaksCounts(s: Directory, user: UserId, c: CommunityId, m: MemberId)
    requires Consistent(s)
    requires m in s.members && s.members[m].community != c && c in s.communities
    requires RemoveStep(s, user, ObjectId(c), ObjectId(m)).1 == OK
    ensures var s2 := RemoveStep(s, user, ObjectId(c), ObjectId(m)).0;
      !CountAt(s2.communities, s2.members, c) && !CountAt(s2.communities, s2.members, s.members[m].community)
  {
    var s2 := RemoveStep(s, user, ObjectId(c), ObjectId(m)).0;
    var other := s.members[m].community;
    MembersOfAfterRemove(s.members, m, c);
    MembersOfAfterRemove(s.members, m, other);
    assert CountAt(s.communities, s.members, c);
    assert CountAt(s.communities, s.members, other);
    assert m in MembersOf(s.members, other);
  }

  /** `removeMember` as `updateMemberRole` scopes its target: the record is
      looked up within the route's community, and one that is missing or
      belongs elsewhere is a 404. The other checks and the effect are those
      of `RemoveStep`. */
  function ScopedRemoveStep(s: Directory, user: UserId, community: IdParam, memberId: IdParam): (r: (Directory, nat))
    ensures r.1 == NOT_FOUND <==>
      && community.ObjectId? && RoleIn(s.members, community.id, user) in {Some(Admin), Some(Moderator)}
      && memberId.ObjectId? && (memberId.id !in s.members || s.members[memberId.id].community != community.id)
    ensures r.1 == OK ==> community.ObjectId? && memberId.ObjectId? && memberId.id in s.members && s.members[memberId.id].community == community.id
    ensures r.1 != NOT_FOUND ==> r == RemoveStep(s, user, community, memberId)
  {
    if community.ObjectId? && memberId.ObjectId?
       && RoleIn(s.members, community.id, user) in {Some(Admin), Some(Moderator)}
       && (memberId.id !in s.members || s.members[memberId.id].community != community.id)
    then (s, NOT_FOUND)
    else RemoveStep(s, user, community, memberId)
  }

  /** Scoped to its community, every removal keeps the directory
      consistent, whichever record it names. */
  lemma ScopedRemoveKeepsConsistent(s: Directory, user: UserId, community: IdParam, memberId: IdParam)
    requires Consistent(s)
    ensures Consistent(ScopedRemoveStep(s, user, community, memberId).0)
  {
    if ScopedRemoveStep(s, user, community, memberId).1 == OK {
      RemoveKeepsConsistent(s, user, community, memberId);
    }
  }

  /** The record of another community that the route as written deletes is
      refused by the scoped step, which changes nothing. */
  lemma ScopedRemoveRefusesElsewhere(s: Directory, user: UserId, c: CommunityId, m: MemberId)
    requires m in s.members && s.members[m].community != c
    requires RemoveStep(s, user, ObjectId(c), ObjectId(m)).1 == OK
    ensures ScopedRemoveStep(s, user, ObjectId(c), ObjectId(m)) == (s, NOT_FOUND)
  {
  }

  /** After a first join the member lookup finds the new record. */
  lemma FindAfterJoin(members: map<MemberId, Membership>, c: CommunityId, user: UserId, id: MemberId, m: Membership)
    requires id !in members && FindMember(members, c, user).None?
    requires m.community == c && m.user == user
    ensures FindMember(members[id := m], c, user) == Some(id)
  {
    var after := members[id := m];
    var ks := set k | k in after && after[k].community == c && after[k].user == user;
    assert ks == {id};
  }

  /** Joining and then leaving gives back the records and the counter. */
  lemma JoinThenLeave(s: Directory, user: UserId, c: CommunityId, id: MemberId, now: nat)
    requires id !in s.members
    requires JoinStep(s, user, ObjectId(c), id, now).1 == CREATED
    ensures LeaveStep(JoinStep(s, user, ObjectId(c), id, now).0, user, ObjectId(c)) == (s, OK)
  {
    var s2 := JoinStep(s, user, ObjectId(c), id, now).0;
    FindAfterJoin(s.members, c, user, id, s2.members[id]);
    var s3 := LeaveStep(s2, user, ObjectId(c)).0;
    assert s3.members == s.members;
    assert s3.communities[c] == s.communities[c];
    assert s3.communities == s.communities;
  }

  /** A second join is refused with 400 and changes nothing. */
  lemma JoinTwiceRefused(s: Directory, user: UserId, c: CommunityId, id: MemberId, id2: MemberId, now: nat)
    requires id !in s.members && id2 != id && id2 !in s.members
    requires JoinStep(s, user, ObjectId(c), id, now).1 == CREATED
    ensures var s2 := JoinStep(s, user, ObjectId(c), id, now).0;
      JoinStep(s2, user, ObjectId(c), id2, now) == (s2, BAD_REQUEST)
  {
    var s2 := JoinStep(s, user, ObjectId(c), id, now).0;
    assert s2.members[id].community == c && s2.members[id].user == user;
  }

  // --------------------------------------------------- membership check

  /** The answer of `checkMembership`. */
  datatype MembershipStatus = MembershipStatus(isMember: bool, role: Option<Role>, joinedAt: Option<nat>)

  /** `checkMembership`: 500 for an id that does not parse; otherwise
      whether the caller has a record, and its role and creation time, both
      null without one. */
  function CheckMembership(members: map<MemberId, Membership>, user: UserId, community: IdParam)
    : (r: Result<MembershipStatus>)
    ensures r.Fail? <==> community.Malformed?
    ensures r.Fail? ==> r.status == SERVER_ERROR
    ensures r.Ok? ==>
      && r.status == OK
      && (r.value.isMember <==>
            exists k :: k in members && members[k].community == community.id && members[k].user == user)
      && (r.value.role.Some? <==> r.value.isMember)
      && (r.value.joinedAt.Some? <==> r.value.isMember)
      && (r.value.isMember ==>
            exists k :: k in members && members[k].community == community.id && members[k].user == user
              && r.value.role == Some(members[k].role) && r.value.joinedAt == Some(members[k].joinedAt))
  {
    match community
    case Malformed => Fail(SERVER_ERROR)
    case ObjectId(c) =>
      match FindMember(members, c, user)
      case None => Ok(OK, MembershipStatus(false, None, None))
      case Some(k) => Ok(OK, MembershipStatus(true, Some(members[k].role), Some(members[k].joinedAt)))
  }

  /** Right after joining, the check reports a 'member' record created at
      the join time. */
  lemma CheckAfterJoin(s: Directory, user: UserId, c: CommunityId, id: MemberId, now: nat)
    requires id !in s.members
    requires JoinStep(s, user, ObjectId(c), id, now).1 == CREATED
    ensures CheckMembership(JoinStep(s, user, ObjectId(c), id, now).0.members, user, ObjectId(c))
         == Ok(OK, MembershipStatus(true, Some(Member), Some(now)))
  {
    var s2 := JoinStep(s, user, ObjectId(c), id, now).0;
    FindAfterJoin(s.members, c, user, id, s2.members[id]);
  }

  // ------------------------------------------------------ member listing

  /** MongoDB's ascending order on strings: code unit by code unit, a
      proper prefix first. */
  predicate StringBefore(a: string, b: string) {
    if a == [] then b != []
    else b != [] && (a[0] < b[0] || (a[0] == b[0] && StringBefore(a[1..], b[1..])))
  }

  /** The position of a role when the names are sorted as strings. */
  function RoleRank(r: Role): (n: nat)
    ensures n <= 2
  {
    match r
    case Admin => 0
    case Member => 1
    case Moderator => 2
  }

  /** Sorting by the role name puts 'admin' before 'member' before
      'moderator'. */
  lemma RoleNamesOrder(a: Role, b: Role)
    ensures StringBefore(RoleName(a), RoleName(b)) <==> RoleRank(a) < RoleRank(b)
  {
    assert StringBefore("admin", "member");
    assert StringBefore("member", "moderator") by {
      assert "member"[1..] == "ember" && "moderator"[1..] == "oderator";
    }
    assert StringBefore("admin", "moderator");
    assert !StringBefore("member", "admin");
    assert !StringBefore("moderator", "admin");
    assert !StringBefore("moderator", "member") by {
      assert "moderator"[1..] == "oderator" && "member"[1..] == "ember";
    }
    assert !StringBefore("admin", "admin") by {
      assert "admin"[1..] == "dmin" && "dmin"[1..] == "min" && "min"[1..] == "in" && "in"[1..] == "n";
    }
    assert !StringBefore("member", "member") by {
      assert "member"[1..] == "ember" && "ember"[1..] == "mber" && "mber"[1..] == "ber" && "ber"[1..] == "er"
        && "er"[1..] == "r";
    }
    assert !StringBefore("moderator", "moderator") by {
      assert "moderator"[1..] == "oderator" && "oderator"[1..] == "derator" && "derator"[1..] == "erator"
        && "erator"[1..] == "rator" && "rator"[1..] == "ator" && "ator"[1..] == "tor" && "tor"[1..] == "or"
        && "or"[1..] == "r";
    }
  }

  /** `$sort: { role: 1, joinedAt: 1 }`. */
  function MemberOrder(a: (MemberId, Membership), b: (MemberId, Membership)): bool {
    StringBefore(RoleName(a.1.role), RoleName(b.1.role))
    || (a.1.role == b.1.role && a.1.joinedAt <= b.1.joinedAt)
  }

  lemma MemberOrderIsPreorder()
    ensures Total(MemberOrder) && Transitive(MemberOrder)
  {
    forall a: Role, b: Role ensures StringBefore(RoleName(a), RoleName(b)) <==> RoleRank(a) < RoleRank(b) {
      RoleNamesOrder(a, b);
    }
  }

  /** The `$match` of `getCommunityMembers`: the community's records, of
      the given role when a non-empty role is given. */
  function InCommunity(c: CommunityId, role: Option<string>): ((MemberId, Membership)) -> bool {
    (rec: (MemberId, Membership)) =>
      rec.1.community == c && (role.None? || role.value == "" || RoleName(rec.1.role) == role.value)
  }

  /** The matched records whose user exists (the `$unwind` of the user
      lookup drops the others), sorted. */
  function ListedMembers(members: map<MemberId, Membership>, users: map<UserId, Profile>, c: CommunityId,
                         role: Option<string>): (r: seq<(MemberId, Membership)>)
    ensures SortedBy(r, MemberOrder)
    ensures forall rec :: rec in r <==>
      rec.0 in members && members[rec.0] == rec.1 && InCommunity(c, role)(rec) && rec.1.user in users
  {
    MemberOrderIsPreorder();
    var p := (rec: (MemberId, Membership)) => InCommunity(c, role)(rec) && rec.1.user in users;
    SortedMatches(members, p, MemberOrder)
  }

  /** A page of the member listing; `total` counts the match without the
      user lookup. */
  datatype MemberPage = MemberPage(items: seq<(MemberId, Membership)>, total: nat, page: nat, totalPages: nat)

  /** `getCommunityMembers`: 500 for an id that does not parse; otherwise
      one page of the sorted listing. */
  function GetCommunityMembers(members: map<MemberId, Membership>, users: map<UserId, Profile>, community: IdParam,
                               role: Option<string>, page: nat, limit: nat): (r: Result<MemberPage>)
    requires page >= 1 && limit >= 1
    ensures r.Fail? <==> community.Malformed?
    ensures r.Fail? ==> r.status == SERVER_ERROR
    ensures r.Ok? ==>
      && r.status == OK
      && |r.value.items| <= limit
      && SortedBy(r.value.items, MemberOrder)
      && (forall rec :: rec in r.value.items ==>
            && rec.0 in members && members[rec.0] == rec.1 && rec.1.community == community.id
            && rec.1.user in users
            && (role.Some? && role.value != "" ==> RoleName(rec.1.role) == role.value))
      && r.value.total == Count(Records(members), InCommunity(community.id, role))
      && r.value.totalPages == CeilDiv(r.value.total, limit)
  {
    match community
    case Malformed => Fail(SERVER_ERROR)
    case ObjectId(c) =>
      var all := ListedMembers(members, users, c, role);
      PageSliceSorted(all, page, limit, MemberOrder);
      var total := Count(Records(members), InCommunity(c, role));
      Ok(OK, MemberPage(PageSlice(all, page, limit), total, page, CeilDiv(total, limit)))
  }

  /** Every listed record is on a page: the one that holds its position. */
  lemma EveryMemberOnAPage(members: map<MemberId, Membership>, users: map<UserId, Profile>, c: CommunityId,
                           role: Option<string>, limit: nat, j: nat)
    requires limit >= 1 && j < |ListedMembers(members, users, c, role)|
    ensures GetCommunityMembers(members, users, ObjectId(c), role, PageOf(j, limit), limit).Ok?
    ensures ListedMembers(members, users, c, role)[j]
         in GetCommunityMembers(members, users, ObjectId(c), role, PageOf(j, limit), limit).value.items
  {
    var all := ListedMembers(members, users, c, role);
    EveryElementOnItsPage(all, j, limit);
    var items := GetCommunityMembers(members, users, ObjectId(c), role, PageOf(j, limit), limit).value.items;
    assert items == PageSlice(all, PageOf(j, limit), limit);
    assert items[j - Skip(PageOf(j, limit), limit)] in items;
  }

  /** The order the listing really has: no moderator is listed before a
      plain member, although moderators rank above members. */
  lemma ModeratorsAfterMembers(items: seq<(MemberId, Membership)>, i: nat, j: nat)
    requires SortedBy(items, MemberOrder)
    requires i < |items| && j < |items|
    requires items[i].1.role == Member && items[j].1.role == Moderator
    ensures i < j
  {
    if j <= i {
      if j < i {
        assert MemberOrder(items[j], items[i]);
        RoleNamesOrder(Moderator, Member);
      }
    }
  }

  // ------------------------------------------------------------- methods

  method JoinCommunity(db: Db, user: UserId, community: IdParam, id: MemberId, now: nat) returns (status: nat)
    requires id !in db.members
    modifies db`communities, db`members
    ensures (Directory(db.communities, db.members), status)
         == JoinStep(Directory(old(db.communities), old(db.members)), user, community, id, now)
  {
    if community.Malformed? {
      return SERVER_ERROR;
    }
    var c := community.id;
    if c !in db.communities {
      return NOT_FOUND;
    }
    if FindMember(db.members, c, user).Some? {
      return BAD_REQUEST;
    }
    db.members := db.members[id := Membership(c, user, Member, now)];
    db.communities := IncMembers(db.communities, c, 1);
    return CREATED;
  }

  method LeaveCommunity(db: Db, user: UserId, community: IdParam) returns (status: nat)
    modifies db`communities, db`members
    ensures (Directory(db.communities, db.members), status)
         == LeaveStep(Directory(old(db.communities), old(db.members)), user, community)
  {
    if community.Malformed? {
      return SERVER_ERROR;
    }
    var c := community.id;
    var found := FindMember(db.members, c, user);
    if found.None? {
      return NOT_FOUND;
    }
    if db.members[found.value].role == Admin {
      return BAD_REQUEST;
    }
    db.members := db.members - {found.value};
    db.communities := IncMembers(db.communities, c, -1);
    return OK;
  }

  method UpdateMemberRole(db: Db, user: UserId, community: IdParam, memberId: IdParam, role: Option<string>)
    returns (status: nat)
    modifies db`members
    ensures (db.members, status) == UpdateRoleStep(old(db.members), user, community, memberId, role)
  {
    var newRole := ParseRole(role);
    if newRole.None? {
      return BAD_REQUEST;
    }
    if community.Malformed? {
      return SERVER_ERROR;
    }
    var c := community.id;
    if RoleIn(db.members, c, user) != Some(Admin) {
      return FORBIDDEN;
    }
    if memberId.Malformed? {
      return SERVER_ERROR;
    }
    var m := memberId.id;
    if m !in db.members || db.members[m].community != c {
      return NOT_FOUND;
    }
    db.members := db.members[m := db.members[m].(role := newRole.value)];
    return OK;
  }

  method RemoveMember(db: Db, user: UserId, community: IdParam, memberId: IdParam) returns (status: nat)
    modifies db`communities, db`members
    ensures (Directory(db.communities, db.members), status)
         == RemoveStep(Directory(old(db.communities), old(db.members)), user, community, memberId)
  {
    if community.Malformed? {
      return SERVER_ERROR;
    }
    var c := community.id;
    var requester := RoleIn(db.members, c, user);
    if requester != Some(Admin) && requester != Some(Moderator) {
      return FORBIDDEN;
    }
    if memberId.Malformed? {
      return SERVER_ERROR;
    }
    var m := memberId.id;
    if m !in db.members {
      return SERVER_ERROR;
    }
    var target := db.members[m];
    if target.role == Admin && requester != Some(Admin) {
      return FORBIDDEN;
    }
    if target.user == user && target.role == Admin {
      return BAD_REQUEST;
    }
    db.members := db.members - {m};
    db.communities := IncMembers(db.communities, c, -1);
    return OK;
  }
}
