/** The document store the controllers share, as one object whose fields are
    the MongoDB collections. A collection the handlers look up by `_id` is a
    map from id to document; a collection whose unique index is a pair of ids
    (likes, follows, bookmarks) is a set of pairs, which keeps at most one
    record per pair. The user documents appear here only through the counters
    the social handlers update; the account fields are in module Accounts. */
module Store {
  import opened Wrappers
  import opened TweetModel
  import Media

  type CommunityId = nat
  type MemberId = nat
  type RetweetId = nat
  type MessageId = nat
  type ThreadId = nat
  type EntryId = nat

  /** The counters of a user document. */
  datatype Profile = Profile(followersCount: int, followingCount: int, tweetsCount: int)

  const FOLLOW: string := "follow"

  /** A Notification document: who receives it, its `type` and who caused it. */
  datatype Notification = Notification(user: UserId, kind: string, fromUser: UserId)

  /** A Retweet document; a quote retweet has a comment. */
  datatype Retweet = Retweet(user: UserId, tweet: TweetId, comment: Option<string>, createdAt: nat)

  /** The `role` enum of a community membership. */
  datatype Role = Member | Moderator | Admin

  datatype Community = Community(
    name: string,
    slug: string,
    description: Option<string>,
    creator: UserId,
    isPrivate: bool,
    membersCount: int)

  /** A CommunityMember document; `joinedAt` is its `createdAt`. */
  datatype Membership = Membership(community: CommunityId, user: UserId, role: Role, joinedAt: nat)

  /** A direct Message document. */
  datatype Message = Message(
    from: UserId,
    to: UserId,
    text: Option<string>,
    media: seq<Media.Medium>,
    read: bool,
    createdAt: nat)

  /** A GrockMessage document: a named AI chat thread and the ids of its
      entries, in the order they were pushed. */
  datatype Thread = Thread(name: string, user: UserId, messages: seq<EntryId>)

  /** A GrockConversation document: one entry of a thread, written by the user
      or by the AI (`isGrock`). */
  datatype Entry = Entry(user: UserId, message: string, isGrock: bool, messageRef: ThreadId, createdAt: nat)

  class Db {
    var users: map<UserId, Profile>
    var tweets: map<TweetId, Tweet>
    /** Like documents as (user, tweet). */
    var likes: set<(UserId, TweetId)>
    /** Follow documents as (follower, following). */
    var follows: set<(UserId, UserId)>
    var notifications: multiset<Notification>
    /** Bookmark documents as (user, tweet). */
    var bookmarks: set<(UserId, TweetId)>
    var retweets: map<RetweetId, Retweet>
    var communities: map<CommunityId, Community>
    var members: map<MemberId, Membership>
    var messages: map<MessageId, Message>
    var threads: map<ThreadId, Thread>
    var entries: map<EntryId, Entry>

    /** An empty database. */
    constructor ()
      ensures users == map[] && tweets == map[] && likes == {} && follows == {}
      ensures notifications == multiset{} && bookmarks == {} && retweets == map[]
      ensures communities == map[] && members == map[] && messages == map[]
      ensures threads == map[] && entries == map[]
    {
      users := map[];
      tweets := map[];
      likes := {};
      follows := {};
      notifications := multiset{};
      bookmarks := {};
      retweets := map[];
      communities := map[];
      members := map[];
      messages := map[];
      threads := map[];
      entries := map[];
    }
  }
}
