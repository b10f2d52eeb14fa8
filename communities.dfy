/** The community records of backEnd/src/controllers/community.controller.js:
    `createCommunity`, `getCommunity`, `updateCommunity` and
    `deleteCommunity`, with the admin checks and the unique `name` and
    `slug` indexes of backEnd/src/models/community.model.js. */
module Communities {
  import opened Wrappers
  import opened TweetModel
  import opened Store
  import opened Text
  import opened Collections
  import opened Slugs
  import opened Memberships

  // ----------------------------------------------------------- indexes

  /** The unique index on `name`. */
  predicate DistinctNames(communities: map<CommunityId, Community>) {
    forall a, b :: a in communities && b in communities && communities[a].name == communities[b].name ==> a == b
  }

  /** The unique index on `slug`. */
  predicate DistinctSlugs(communities: map<CommunityId, Community>) {
    forall a, b :: a in communities && b in communities && communities[a].slug == communities[b].slug ==> a == b
  }

  /** Some community other than `except` already uses this name or slug, so
      writing them would break a unique index (MongoDB error E11000). */
  predicate Taken(communities: map<CommunityId, Community>, except: Option<CommunityId>, name: string, slug: string) {
    exists k :: k in communities && Some(k) != except && (communities[k].name == name || communities[k].slug == slug)
  }

  /** The membership invariants and both unique indexes. */
  predicate Valid(s: Directory) {
    Consistent(s) && DistinctNames(s.communities) && DistinctSlugs(s.communities)
  }

  // ------------------------------------------------------------ create

  /** `createCommunity` by `creator`, the community taking the fresh id
      `cid` and the creator's membership the fresh id `mid`: 400 without a
      name. The model's validators and indexes reject with 500 a name that
      is blank once trimmed, an empty slug, and a name or slug already in
      use. Otherwise the community is stored with its trimmed name and slug,
      the creator becomes its 'admin', and `membersCount` goes from 0 to 1. */
  function CreateCommunityStep(s: Directory, creator: UserId, name: Option<string>, description: Option<string>,
                               isPrivate: Option<bool>, cid: CommunityId, mid: MemberId, now: nat): (r: (Directory, nat))
    requires cid !in s.communities && mid !in s.members
    ensures r.1 == BAD_REQUEST <==> name.None? || name.value == ""
    ensures r.1 == SERVER_ERROR <==>
      name.Some? && name.value != ""
      && (Trim(name.value) == "" || Slug(name.value) == "" || Taken(s.communities, None, Trim(name.value), Slug(name.value)))
    ensures r.1 in {CREATED, BAD_REQUEST, SERVER_ERROR}
    ensures r.1 != CREATED ==> r.0 == s
    ensures r.1 == CREATED ==>
      && name.Some?
      && r.0.communities.Keys == s.communities.Keys + {cid}
      && (forall k :: k in s.communities ==> r.0.communities[k] == s.communities[k])
      && var created := r.0.communities[cid];
      && created.name == Trim(name.value) && created.slug == Slug(name.value)
      && created.description == description && created.creator == creator
      && created.isPrivate == (isPrivate.Some? && isPrivate.value)
      && created.membersCount == 1
      && r.0.members == s.members[mid := Membership(cid, creator, Admin, now)]
  {
    if name.None? || name.value == "" then (s, BAD_REQUEST)
    else
      var n := Trim(name.value);
      var slug := Slug(name.value);
      if n == "" || slug == "" || Taken(s.communities, None, n, slug) then (s, SERVER_ERROR)
      else
        var community := Community(n, slug, description, creator, isPrivate.Some? && isPrivate.value, 0);
        (Directory(Founded(s.communities, cid, community), s.members[mid := Membership(cid, creator, Admin, now)]),
         CREATED)
  }

  /** `Community.create` of a new community followed by the `$inc` of its
      `membersCount`. */
  function Founded(communities: map<CommunityId, Community>, cid: CommunityId, community: Community)
    : (r: map<CommunityId, Community>)
    requires cid !in communities
    ensures r.Keys == communities.Keys + {cid}
    ensures forall k :: k in communities ==> r[k] == communities[k]
    ensures r[cid] == community.(membersCount := community.membersCount + 1)
  {
    IncMembers(communities[cid := community], cid, 1)
  }

  /** Storing one community c whose name and slug no other community uses,
      the others unchanged, keeps both indexes. */
  lemma ReplaceKeepsDistinct(communities: map<CommunityId, Community>, after: map<CommunityId, Community>, c: CommunityId)
    requires DistinctNames(communities) && DistinctSlugs(communities)
    requires after.Keys == communities.Keys + {c}
    requires forall k :: k in communities && k != c ==> after[k] == communities[k]
    requires forall k :: k in communities && k != c ==> communities[k].name != after[c].name && communities[k].slug != after[c].slug
    ensures DistinctNames(after) && DistinctSlugs(after)
  {
  }

  /** Creating a community keeps the counters, one record per user, every
      record attached, and both indexes. */
  lemma CreateKeepsValid(s: Directory, creator: UserId, name: Option<string>, description: Option<string>,
                         isPrivate: Option<bool>, cid: CommunityId, mid: MemberId, now: nat)
    requires cid !in s.communities && mid !in s.members && Valid(s)
    ensures Valid(CreateCommunityStep(s, creator, name, description, isPrivate, cid, mid, now).0)
  {
    var (s2, status) := CreateCommunityStep(s, creator, name, description, isPrivate, cid, mid, now);
    if status == CREATED {
      var v := s2.communities[cid].(membersCount := 0);
      FoundedKeepsConsistent(s, cid, v, mid, Membership(cid, creator, Admin, now));
      assert Founded(s.communities, cid, v) == s2.communities;
      ReplaceKeepsDistinct(s.communities, s2.communities, cid);
    }
  }

  /** A new community with no records, and its first record, keep the
      membership invariants. */
  lemma FoundedKeepsConsistent(s: Directory, cid: CommunityId, v: Community, mid: MemberId, m: Membership)
    requires Consistent(s) && cid !in s.communities && mid !in s.members
    requires v.membersCount == 0 && m.community == cid
    ensures Consistent(Directory(Founded(s.communities, cid, v), s.members[mid := m]))
  {
    var stored := s.communities[cid := v];
    assert MembersOf(s.members, cid) == {};
    assert MembersCountOk(stored, s.members) by {
      forall c | c in stored ensures CountAt(stored, s.members, c) {
        assert c != cid ==> CountAt(s.communities, s.members, c);
      }
    }
    assert FindMember(s.members, cid, m.user).None?;
    AddKeepsCounts(stored, s.members, mid, m);
    AddKeepsOnePerUser(s.members, mid, m);
  }

  /** The created community's slug has the shape of a slug and is its own
      slug. */
  lemma CreatedSlugShape(s: Directory, creator: UserId, name: string, description: Option<string>,
                         isPrivate: Option<bool>, cid: CommunityId, mid: MemberId, now: nat)
    requires cid !in s.communities && mid !in s.members
    requires CreateCommunityStep(s, creator, Some(name), description, isPrivate, cid, mid, now).1 == CREATED
    ensures var c := CreateCommunityStep(s, creator, Some(name), description, isPrivate, cid, mid, now).0.communities[cid];
      IsSlug(c.slug) && c.slug != "" && Slug(c.slug) == c.slug
  {
    SlugIsSlug(name);
    SlugIdempotent(name);
  }

  // --------------------------------------------------------------- get

  predicate IsHexDigit(c: char) {
    '0' <= c <= '9' || 'a' <= c <= 'f' || 'A' <= c <= 'F'
  }

  /** `mongoose.Types.ObjectId.isValid` on a string: 24 hexadecimal
      digits. */
  predicate LooksLikeId(s: string) {
    |s| == 24 && forall i :: 0 <= i < |s| ==> IsHexDigit(s[i])
  }

  function HexDigitValue(c: char): (n: nat)
    requires IsHexDigit(c)
    ensures n < 16
  {
    if '0' <= c <= '9' then c as int - '0' as int
    else if 'a' <= c <= 'f' then c as int - 'a' as int + 10
    else c as int - 'A' as int + 10
  }

  /** The id a string of hexadecimal digits denotes. */
  function HexValue(s: string): (n: nat)
    requires forall i :: 0 <= i < |s| ==> IsHexDigit(s[i])
  {
    if s == [] then 0 else HexValue(s[..|s| - 1]) * 16 + HexDigitValue(s[|s| - 1])
  }

  /** A member as `getCommunity` lists it. */
  datatype MemberSummary = MemberSummary(id: MemberId, role: Role, joinedAt: nat)

  datatype CommunityDetail = CommunityDetail(id: CommunityId, community: Community, members: seq<MemberSummary>)

  /** The records of community c in id order, summarised. */
  function Summaries(members: map<MemberId, Membership>, c: CommunityId): (r: seq<MemberSummary>)
    ensures |r| == |MembersOf(members, c)|
    ensures forall v :: v in r <==>
      (v.id in members && members[v.id].community == c && v.role == members[v.id].role
       && v.joinedAt == members[v.id].joinedAt)
  {
    var ks := Keys(MembersOf(members, c));
    SummariesOf(members, ks)
  }

  function SummariesOf(members: map<MemberId, Membership>, ks: seq<MemberId>): (r: seq<MemberSummary>)
    requires forall k :: k in ks ==> k in members
    ensures |r| == |ks|
    ensures forall v :: v in r <==> v.id in ks && v.role == members[v.id].role && v.joinedAt == members[v.id].joinedAt
  {
    if ks == [] then []
    else
      var rest := SummariesOf(members, ks[1..]);
      assert forall k :: k in ks <==> k == ks[0] || k in ks[1..];
      [MemberSummary(ks[0], members[ks[0]].role, members[ks[0]].joinedAt)] + rest
  }

  /** The ids the `$match` of `getCommunity` selects: by `_id` when the
      identifier looks like an id, by slug otherwise. */
  function Selected(communities: map<CommunityId, Community>, identifier: string): (ks: set<CommunityId>)
    ensures forall k :: k in ks <==>
      k in communities
      && (if LooksLikeId(identifier) then k == HexValue(identifier) else communities[k].slug == identifier)
  {
    if LooksLikeId(identifier) then
      (if HexValue(identifier) in communities then {HexValue(identifier)} else {})
    else set k | k in communities && communities[k].slug == identifier
  }

  /** `getCommunity`: 404 when nothing matches; otherwise the first match
      with its members. */
  function GetCommunity(communities: map<CommunityId, Community>, members: map<MemberId, Membership>,
                        identifier: string): (r: Result<CommunityDetail>)
    ensures r.Fail? <==> Selected(communities, identifier) == {}
    ensures r.Fail? ==> r.status == NOT_FOUND
    ensures r.Ok? ==>
      && r.status == OK
      && r.value.id in communities && r.value.community == communities[r.value.id]
      && (LooksLikeId(identifier) ==> r.value.id == HexValue(identifier))
      && (!LooksLikeId(identifier) ==> r.value.community.slug == identifier)
      && |r.value.members| == |MembersOf(members, r.value.id)|
      && (forall v :: v in r.value.members <==>
            v.id in members && members[v.id].community == r.value.id
            && v.role == members[v.id].role && v.joinedAt == members[v.id].joinedAt)
  {
    var ks := Selected(communities, identifier);
    if ks == {} then Fail(NOT_FOUND)
    else
      var k := Min(ks);
      Ok(OK, CommunityDetail(k, communities[k], Summaries(members, k)))
  }

  /** With distinct slugs, a community whose slug does not look like an id
      is found by its slug, and no other. */
  lemma FoundBySlug(communities: map<CommunityId, Community>, members: map<MemberId, Membership>, c: CommunityId)
    requires DistinctSlugs(communities) && c in communities
    requires !LooksLikeId(communities[c].slug)
    ensures GetCommunity(communities, members, communities[c].slug).Ok?
    ensures GetCommunity(communities, members, communities[c].slug).value.id == c
  {
    assert Selected(communities, communities[c].slug) == {c};
  }

  // ------------------------------------------------------------ update

  /** The document after the update: a non-empty name replaces the name
      (trimmed) and regenerates the slug; a description or privacy flag
      replaces the stored one when given (a given null clears the
      description). */
  function Edited(c: Community, name: Option<string>, description: Option<Option<string>>, isPrivate: Option<bool>)
    : (r: Community)
    ensures name.Some? && name.value != "" ==> r.name == Trim(name.value) && r.slug == Slug(name.value)
    ensures !(name.Some? && name.value != "") ==> r.name == c.name && r.slug == c.slug
    ensures r.description == if description.Some? then description.value else c.description
    ensures r.isPrivate == if isPrivate.Some? then isPrivate.value else c.isPrivate
    ensures r.creator == c.creator && r.membersCount == c.membersCount
  {
    var named := if name.Some? && name.value != "" then c.(name := Trim(name.value), slug := Slug(name.value)) else c;
    var described := if description.Some? then named.(description := description.value) else named;
    if isPrivate.Some? then described.(isPrivate := isPrivate.value) else described
  }

  /** `updateCommunity`: 500 for an id that does not parse, 403 unless the
      caller is an admin of the community, 404 for a missing community,
      500 when the new name or slug is used by another community;
      otherwise only that community changes, and only in the fields given.
      No validator runs, so a name that trims to nothing is stored. */
  function UpdateCommunityStep(communities: map<CommunityId, Community>, members: map<MemberId, Membership>,
                               user: UserId, community: IdParam, name: Option<string>,
                               description: Option<Option<string>>, isPrivate: Option<bool>)
    : (r: (map<CommunityId, Community>, nat))
    ensures community.Malformed? ==> r.1 == SERVER_ERROR
    ensures community.ObjectId? ==>
      && (r.1 == FORBIDDEN <==> FindAdmin(members, community.id, user).None?)
      && (r.1 == NOT_FOUND <==> FindAdmin(members, community.id, user).Some? && community.id !in communities)
      && (r.1 == SERVER_ERROR <==>
            FindAdmin(members, community.id, user).Some? && community.id in communities
            && name.Some? && name.value != ""
            && Taken(communities, Some(community.id), Trim(name.value), Slug(name.value)))
    ensures r.1 in {OK, FORBIDDEN, NOT_FOUND, SERVER_ERROR}
    ensures r.1 != OK ==> r.0 == communities
    ensures r.1 == OK ==>
      && community.ObjectId? && community.id in communities
      && r.0 == communities[community.id := Edited(communities[community.id], name, description, isPrivate)]
  {
    match community
    case Malformed => (communities, SERVER_ERROR)
    case ObjectId(c) =>
      if FindAdmin(members, c, user).None? then (communities, FORBIDDEN)
      else if c !in communities then (communities, NOT_FOUND)
      else if name.Some? && name.value != "" && Taken(communities, Some(c), Trim(name.value), Slug(name.value)) then
        (communities, SERVER_ERROR)
      else (communities[c := Edited(communities[c], name, description, isPrivate)], OK)
  }

  /** An update keeps the counters, the records and both indexes. */
  lemma UpdateKeepsValid(s: Directory, user: UserId, community: IdParam, name: Option<string>,
                         description: Option<Option<string>>, isPrivate: Option<bool>)
    requires Valid(s)
    ensures Valid(Directory(UpdateCommunityStep(s.communities, s.members, user, community, name, description, isPrivate).0,
                            s.members))
  {
    var (after, status) := UpdateCommunityStep(s.communities, s.members, user, community, name, description, isPrivate);
    if status == OK {
      var c := community.id;
      EditKeepsValid(s, c, Edited(s.communities[c], name, description, isPrivate));
    }
  }

  /** Storing community c with its counter unchanged and a name and slug no
      other community uses keeps the directory valid. */
  lemma EditKeepsValid(s: Directory, c: CommunityId, edited: Community)
    requires Valid(s) && c in s.communities
    requires edited.membersCount == s.communities[c].membersCount
    requires !Taken(s.communities, Some(c), edited.name, edited.slug)
    ensures Valid(Directory(s.communities[c := edited], s.members))
  {
    var after := s.communities[c := edited];
    forall k | k in after ensures CountAt(after, s.members, k) {
      assert CountAt(s.communities, s.members, k);
    }
    ReplaceKeepsDistinct(s.communities, after, c);
  }

  /** An update that gives nothing leaves the community as it was. */
  lemma EmptyUpdateChangesNothing(communities: map<CommunityId, Community>, members: map<MemberId, Membership>,
                                  user: UserId, c: CommunityId)
    requires c in communities && FindAdmin(members, c, user).Some?
    ensures UpdateCommunityStep(communities, members, user, ObjectId(c), None, None, None) == (communities, OK)
  {
    assert Edited(communities[c], None, None, None) == communities[c];
    assert communities[c := communities[c]] == communities;
  }

  // ------------------------------------------------------------ delete

  /** `CommunityMember.deleteMany({ community: c })`. */
  function WithoutCommunity(members: map<MemberId, Membership>, c: CommunityId): (r: map<MemberId, Membership>)
    ensures forall k :: k in r <==> k in members && members[k].community != c
    ensures forall k :: k in r ==> r[k] == members[k]
  {
    map k | k in members && members[k].community != c :: members[k]
  }

  /** `deleteCommunity`: 500 for an id that does not parse, 403 unless the
      caller is an admin. Otherwise every membership record of the
      community is deleted first, and then the community: 404 when it is
      missing, with the records already gone. */
  function DeleteCommunityStep(s: Directory, user: UserId, community: IdParam): (r: (Directory, nat))
    ensures community.Malformed? ==> r.1 == SERVER_ERROR
    ensures community.ObjectId? ==>
      && (r.1 == FORBIDDEN <==> FindAdmin(s.members, community.id, user).None?)
      && (r.1 == NOT_FOUND <==> FindAdmin(s.members, community.id, user).Some? && community.id !in s.communities)
    ensures r.1 in {OK, FORBIDDEN, NOT_FOUND, SERVER_ERROR}
    ensures r.1 in {FORBIDDEN, SERVER_ERROR} ==> r.0 == s
    ensures r.1 in {OK, NOT_FOUND} ==>
      && community.ObjectId?
      && r.0.members == WithoutCommunity(s.members, community.id)
      && r.0.communities == s.communities - {community.id}
  {
    match community
    case Malformed => (s, SERVER_ERROR)
    case ObjectId(c) =>
      if FindAdmin(s.members, c, user).None? then (s, FORBIDDEN)
      else
        var remaining := WithoutCommunity(s.members, c);
        if c !in s.communities then (Directory(s.communities, remaining), NOT_FOUND)
        else (Directory(s.communities - {c}, remaining), OK)
  }

  /** While every record is attached, an admin's community exists, so the
      404 of `deleteCommunity` cannot happen. */
  lemma DeleteNeverMissing(s: Directory, user: UserId, c: CommunityId)
    requires Attached(s.communities, s.members)
    ensures DeleteCommunityStep(s, user, ObjectId(c)).1 != NOT_FOUND
  {
    if FindAdmin(s.members, c, user).Some? {
      assert s.members[FindAdmin(s.members, c, user).value].community in s.communities;
    }
  }

  /** Deleting keeps the invariants. */
  lemma DeleteKeepsValid(s: Directory, user: UserId, community: IdParam)
    requires Valid(s)
    ensures Valid(DeleteCommunityStep(s, user, community).0)
  {
    var (s2, status) := DeleteCommunityStep(s, user, community);
    if status in {OK, NOT_FOUND} {
      assert s2.communities == s.communities - {community.id};
      DropKeepsConsistent(s, community.id);
    }
  }

  /** A community gone with all its records leaves the others' counters
      and records as they were. */
  lemma DropKeepsConsistent(s: Directory, c: CommunityId)
    requires Consistent(s)
    ensures Consistent(Directory(s.communities - {c}, WithoutCommunity(s.members, c)))
  {
    var after := Directory(s.communities - {c}, WithoutCommunity(s.members, c));
    forall k | k in after.communities ensures CountAt(after.communities, after.members, k) {
      assert CountAt(s.communities, s.members, k);
      assert MembersOf(after.members, k) == MembersOf(s.members, k);
    }
  }

  // ----------------------------------------------------------- methods

  method CreateCommunity(db: Db, creator: UserId, name: Option<string>, description: Option<string>,
                         isPrivate: Option<bool>, cid: CommunityId, mid: MemberId, now: nat) returns (status: nat)
    requires cid !in db.communities && mid !in db.members
    modifies db`communities, db`members
    ensures (Directory(db.communities, db.members), status)
         == CreateCommunityStep(Directory(old(db.communities), old(db.members)), creator, name, description,
                                isPrivate, cid, mid, now)
  {
    if name.None? || name.value == "" {
      return BAD_REQUEST;
    }
    var n := Trim(name.value);
    var slug := Slug(name.value);
    if n == "" || slug == "" || Taken(db.communities, None, n, slug) {
      return SERVER_ERROR;
    }
    db.communities := db.communities[cid := Community(n, slug, description, creator, isPrivate.Some? && isPrivate.value, 0)];
    db.members := db.members[mid := Membership(cid, creator, Admin, now)];
    db.communities := IncMembers(db.communities, cid, 1);
    return CREATED;
  }

  method UpdateCommunity(db: Db, user: UserId, community: IdParam, name: Option<string>,
                         description: Option<Option<string>>, isPrivate: Option<bool>) returns (status: nat)
    modifies db`communities
    ensures (db.communities, status)
         == UpdateCommunityStep(old(db.communities), db.members, user, community, name, description, isPrivate)
  {
    if community.Malformed? {
      return SERVER_ERROR;
    }
    var c := community.id;
    if FindAdmin(db.members, c, user).None? {
      return FORBIDDEN;
    }
    if c !in db.communities {
      return NOT_FOUND;
    }
    if name.Some? && name.value != "" && Taken(db.communities, Some(c), Trim(name.value), Slug(name.value)) {
      return SERVER_ERROR;
    }
    db.communities := db.communities[c := Edited(db.communities[c], name, description, isPrivate)];
    return OK;
  }

  method DeleteCommunity(db: Db, user: UserId, community: IdParam) returns (status: nat)
    modifies db`communities, db`members
    ensures (Directory(db.communities, db.members), status)
         == DeleteCommunityStep(Directory(old(db.communities), old(db.members)), user, community)
  {
    if community.Malformed? {
      return SERVER_ERROR;
    }
    var c := community.id;
    if FindAdmin(db.members, c, user).None? {
      return FORBIDDEN;
    }
    db.members := WithoutCommunity(db.members, c);
    if c !in db.communities {
      return NOT_FOUND;
    }
    db.communities := db.communities - {c};
    return OK;
  }
}
