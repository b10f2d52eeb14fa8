/** The community feeds of backEnd/src/controllers/community.controller.js:
    `getCommunityPosts` (every community of the caller) and
    `getCommunitySpecificPosts` (one community). Each runs two queries, one
    over tweets and one over retweets, pages each of them separately, and
    merges the two pages newest first. */
module CommunityPosts {
  import opened Wrappers
  import opened TweetModel
  import opened Store
  import opened Collections
  import opened Paging
  import opened Views
  import opened Retweets
  import opened Memberships

  /** The `type` every retweet post carries: the projection tests the
      string literal "$comment", which is always truthy. */
  const QUOTE_RETWEET: string := "quote_retweet"

  /** An entry of a feed: a tweet, or a retweet with the tweet it repeats. */
  datatype Post =
    | TweetPost(id: TweetId, tweet: Tweet)
    | RepostPost(id: RetweetId, retweet: Retweet, original: Tweet, kind: string)

  function PostedAt(p: Post): nat {
    match p
    case TweetPost(_, t) => t.createdAt
    case RepostPost(_, rt, _, _) => rt.createdAt
  }

  /** The merge's comparator, `new Date(b.createdAt) - new Date(a.createdAt)`. */
  function NewerPost(a: Post, b: Post): bool {
    PostedAt(a) >= PostedAt(b)
  }

  lemma NewerPostIsPreorder()
    ensures Total(NewerPost) && Transitive(NewerPost)
  {
  }

  // ------------------------------------------------------------- merge

  /** `r` is what cutting the merge of `a` and `b` to `limit` keeps: as
      many of their elements as fit, and none of those left out comes
      before a kept one under `le`. */
  ghost predicate CutOfMerge<T(!new)>(r: seq<T>, a: seq<T>, b: seq<T>, le: (T, T) -> bool, limit: nat) {
    && |r| == (if limit < |a| + |b| then limit else |a| + |b|)
    && multiset(r) <= multiset(a + b)
    && forall i, x :: 0 <= i < |r| && x in multiset(a + b) - multiset(r) ==> le(r[i], x)
  }

  /** The merge as written: the two pages concatenated, sorted by `le` (the
      sort is stable), and cut to `limit`. */
  function MergePage<T(!new)>(a: seq<T>, b: seq<T>, le: (T, T) -> bool, limit: nat): (r: seq<T>)
    requires Total(le) && Transitive(le)
    ensures |r| <= limit && |r| <= |a| + |b|
    ensures SortedBy(r, le)
    ensures CutOfMerge(r, a, b, le, limit)
  {
    var sorted := SortBy(a + b, le);
    var r := Take(sorted, limit);
    var rest := sorted[|r|..];
    assert sorted == r + rest;
    assert multiset(sorted) == multiset(r) + multiset(rest);
    assert SortedBy(r, le) by {
      forall i, j | 0 <= i < j < |r| ensures le(r[i], r[j]) {
        assert r[i] == sorted[i] && r[j] == sorted[j];
      }
    }
    assert multiset(a + b) - multiset(r) == multiset(rest);
    forall i, x | 0 <= i < |r| && x in multiset(a + b) - multiset(r) ensures le(r[i], x) {
      assert x in rest;
      var k :| 0 <= k < |rest| && rest[k] == x;
      assert r[i] == sorted[i] && x == sorted[|r| + k];
    }
    r
  }

  /** Page `page` of the feed as the handlers build it: page `page` of each
      source, merged. */
  function PagedMerge<T(!new)>(a: seq<T>, b: seq<T>, le: (T, T) -> bool, page: nat, limit: nat): (r: seq<T>)
    requires Total(le) && Transitive(le)
    requires page >= 1 && limit >= 1
    ensures |r| <= limit
    ensures SortedBy(r, le)
    ensures forall x :: x in r ==> x in a || x in b
    ensures CutOfMerge(r, PageSlice(a, page, limit), PageSlice(b, page, limit), le, limit)
  {
    var pa := PageSlice(a, page, limit);
    var pb := PageSlice(b, page, limit);
    var r := MergePage(pa, pb, le, limit);
    forall x | x in r ensures x in a || x in b {
      assert x in multiset(r);
      assert x in multiset(pa + pb);
      assert x in pa + pb;
      PageSliceSorted(a, page, limit, (x: T, y: T) => true);
      PageSliceSorted(b, page, limit, (x: T, y: T) => true);
    }
    r
  }

  /** Later first, on plain timestamps. */
  function Later(a: int, b: int): bool {
    a >= b
  }

  lemma LaterIsPreorder()
    ensures Total(Later) && Transitive(Later)
  {
  }

  lemma SortOneLater(x: int)
    ensures SortBy([x], Later) == [x]
  {
    assert [x][1..] == [];
  }

  lemma SortTwoLater(x: int, y: int)
    ensures SortBy([x, y], Later) == if x >= y then [x, y] else [y, x]
  {
    SortOneLater(y);
    assert [x, y][1..] == [y];
    assert [y][1..] == [];
  }

  /** The pages of the example's two sources, one post per page. */
  lemma ExamplePages(page: nat)
    requires page >= 1
    ensures PageSlice([10, 5], page, 1) + PageSlice([9], page, 1)
         == if page == 1 then [10, 9] else if page == 2 then [5] else []
  {
    if page > 2 {
      assert Skip(page, 1) >= 2;
    }
  }

  /** The merge loses posts after the first page. With a limit of 1, tweets
      posted at 10 and 5 and a retweet posted at 9, the retweet is on no
      page: page 1 shows 10, page 2 shows 5 (each source skips one post of
      its own), and later pages are empty. */
  lemma PagedMergeSkipsPost(page: nat)
    requires page >= 1
    ensures 9 !in PagedMerge([10, 5], [9], Later, page, 1)
  {
    ExamplePages(page);
    if page == 1 {
      SortTwoLater(10, 9);
    } else if page == 2 {
      SortOneLater(5);
    }
  }

  /** The evidently intended merge: both sources merged in full, sorted,
      and then paged. */
  function MergedPage<T(!new)>(a: seq<T>, b: seq<T>, le: (T, T) -> bool, page: nat, limit: nat): (r: seq<T>)
    requires Total(le) && Transitive(le)
    requires page >= 1 && limit >= 1
    ensures |r| <= limit
    ensures SortedBy(r, le)
  {
    var sorted := SortBy(a + b, le);
    PageSliceSorted(sorted, page, limit, le);
    PageSlice(sorted, page, limit)
  }

  /** The position of an element of a sequence. */
  ghost function PositionOf<T>(s: seq<T>, x: T): (j: nat)
    requires x in s
    ensures j < |s| && s[j] == x
  {
    if s[0] == x then 0 else PositionOf(s[1..], x) + 1
  }

  /** With the intended merge, every post of either source is on a page:
      the one that holds its position in the merged order. */
  lemma MergedPageCoversAll<T(!new)>(a: seq<T>, b: seq<T>, le: (T, T) -> bool, limit: nat, x: T)
    requires Total(le) && Transitive(le) && limit >= 1
    requires x in a || x in b
    ensures x in SortBy(a + b, le)
    ensures x in MergedPage(a, b, le, PageOf(PositionOf(SortBy(a + b, le), x), limit), limit)
  {
    var sorted := SortBy(a + b, le);
    assert x in multiset(a + b);
    assert x in multiset(sorted);
    var j := PositionOf(sorted, x);
    EveryElementOnItsPage(sorted, j, limit);
    var slice := PageSlice(sorted, PageOf(j, limit), limit);
    assert slice[j - Skip(PageOf(j, limit), limit)] in slice;
  }

  lemma SortThreeLater()
    ensures SortBy([10, 5, 9], Later) == [10, 9, 5]
  {
    SortTwoLater(5, 9);
    assert [10, 5, 9][1..] == [5, 9];
  }

  lemma SecondOfThree()
    ensures PageSlice([10, 9, 5], 2, 1) == [9]
  {
    assert Skip(2, 1) == 1;
  }

  /** On the example the merge as written loses, the intended merge shows
      the retweet on page 2. */
  lemma MergedPageShowsSkippedPost()
    ensures MergedPage([10, 5], [9], Later, 2, 1) == [9]
  {
    LaterIsPreorder();
    assert [10, 5] + [9] == [10, 5, 9];
    SortThreeLater();
    SecondOfThree();
    assert MergedPage([10, 5], [9], Later, 2, 1) == PageSlice(SortBy([10, 5, 9], Later), 2, 1);
  }

  // ----------------------------------------------------------- sources

  /** The tweet query: non-replies by the given authors, whose author
      exists (the `$unwind` of the author lookup runs before `$sort`). */
  function ByAuthors(users: map<UserId, Profile>, authors: set<UserId>): ((TweetId, Tweet)) -> bool {
    (rec: (TweetId, Tweet)) => rec.1.author in authors && !rec.1.isReply && rec.1.author in users
  }

  /** The retweet query: retweets by the given authors whose retweeter, tweet
      and tweet author all exist (three `$unwind`s before `$sort`). */
  function RepostedBy(tweets: map<TweetId, Tweet>, users: map<UserId, Profile>, authors: set<UserId>)
    : ((RetweetId, Retweet)) -> bool
  {
    (rec: (RetweetId, Retweet)) =>
      rec.1.user in authors && rec.1.user in users && rec.1.tweet in tweets && tweets[rec.1.tweet].author in users
  }

  /** A tweet of the collection by one of `authors` that is not a reply. */
  predicate AuthoredTweet(tweets: map<TweetId, Tweet>, authors: set<UserId>, id: TweetId, t: Tweet) {
    id in tweets && tweets[id] == t && t.author in authors && !t.isReply
  }

  /** A retweet of the collection by one of `authors`, shown with the tweet
      it repeats. */
  predicate AuthoredRepost(tweets: map<TweetId, Tweet>, retweets: map<RetweetId, Retweet>, authors: set<UserId>,
                           id: RetweetId, rt: Retweet, original: Tweet, kind: string) {
    && id in retweets && retweets[id] == rt && rt.user in authors
    && rt.tweet in tweets && tweets[rt.tweet] == original && kind == QUOTE_RETWEET
  }

  /** A post the feed may hold: a tweet or retweet of the collections by
      one of `authors`. */
  predicate FromAuthors(tweets: map<TweetId, Tweet>, retweets: map<RetweetId, Retweet>, authors: set<UserId>, p: Post) {
    match p
    case TweetPost(id, t) => AuthoredTweet(tweets, authors, id, t)
    case RepostPost(id, rt, original, kind) => AuthoredRepost(tweets, retweets, authors, id, rt, original, kind)
  }

  function TweetPosts(recs: seq<(TweetId, Tweet)>): (r: seq<Post>)
    ensures |r| == |recs|
    ensures forall i :: 0 <= i < |r| ==> r[i] == TweetPost(recs[i].0, recs[i].1)
  {
    if recs == [] then [] else [TweetPost(recs[0].0, recs[0].1)] + TweetPosts(recs[1..])
  }

  function RepostPosts(tweets: map<TweetId, Tweet>, recs: seq<(RetweetId, Retweet)>): (r: seq<Post>)
    requires forall i :: 0 <= i < |recs| ==> recs[i].1.tweet in tweets
    ensures |r| == |recs|
    ensures forall i :: 0 <= i < |r| ==> r[i] == RepostPost(recs[i].0, recs[i].1, tweets[recs[i].1.tweet], QUOTE_RETWEET)
  {
    if recs == [] then []
    else [RepostPost(recs[0].0, recs[0].1, tweets[recs[0].1.tweet], QUOTE_RETWEET)] + RepostPosts(tweets, recs[1..])
  }

  lemma TweetPostsSorted(recs: seq<(TweetId, Tweet)>)
    requires SortedBy(recs, NewestFirst)
    ensures SortedBy(TweetPosts(recs), NewerPost)
  {
    var r := TweetPosts(recs);
    forall i, j | 0 <= i < j < |r| ensures NewerPost(r[i], r[j]) {
      assert NewestFirst(recs[i], recs[j]);
    }
  }

  lemma RepostPostsSorted(tweets: map<TweetId, Tweet>, recs: seq<(RetweetId, Retweet)>)
    requires forall i :: 0 <= i < |recs| ==> recs[i].1.tweet in tweets
    requires SortedBy(recs, NewerRetweet)
    ensures SortedBy(RepostPosts(tweets, recs), NewerPost)
  {
    var r := RepostPosts(tweets, recs);
    forall i, j | 0 <= i < j < |r| ensures NewerPost(r[i], r[j]) {
      assert NewerRetweet(recs[i], recs[j]);
    }
  }

  lemma TweetPostsAuthored(tweets: map<TweetId, Tweet>, authors: set<UserId>, recs: seq<(TweetId, Tweet)>)
    requires forall i :: 0 <= i < |recs| ==> AuthoredTweet(tweets, authors, recs[i].0, recs[i].1)
    ensures var r := TweetPosts(recs);
      forall i :: 0 <= i < |r| ==> r[i].TweetPost? && AuthoredTweet(tweets, authors, r[i].id, r[i].tweet)
  {
  }

  lemma TweetQueryAuthored(tweets: map<TweetId, Tweet>, users: map<UserId, Profile>, authors: set<UserId>)
    ensures var recs := Newest(tweets, ByAuthors(users, authors));
      forall i :: 0 <= i < |recs| ==> AuthoredTweet(tweets, authors, recs[i].0, recs[i].1)
  {
    MatchedAt(tweets, ByAuthors(users, authors), Newest(tweets, ByAuthors(users, authors)));
  }

  lemma RepostPostsAuthored(tweets: map<TweetId, Tweet>, retweets: map<RetweetId, Retweet>, authors: set<UserId>,
                            recs: seq<(RetweetId, Retweet)>)
    requires forall i :: 0 <= i < |recs| ==>
      recs[i].0 in retweets && retweets[recs[i].0] == recs[i].1 && recs[i].1.user in authors && recs[i].1.tweet in tweets
    ensures var r := RepostPosts(tweets, recs);
      forall i :: 0 <= i < |r| ==>
        r[i].RepostPost? && AuthoredRepost(tweets, retweets, authors, r[i].id, r[i].retweet, r[i].original, r[i].kind)
  {
  }

  lemma RepostQueryAuthored(tweets: map<TweetId, Tweet>, users: map<UserId, Profile>, retweets: map<RetweetId, Retweet>,
                            authors: set<UserId>)
    ensures var recs := Matching(retweets, RepostedBy(tweets, users, authors));
      forall i :: 0 <= i < |recs| ==>
        recs[i].0 in retweets && retweets[recs[i].0] == recs[i].1 && recs[i].1.user in authors && recs[i].1.tweet in tweets
  {
    var recs := Matching(retweets, RepostedBy(tweets, users, authors));
    MatchedAt(retweets, RepostedBy(tweets, users, authors), recs);
    forall i | 0 <= i < |recs| ensures recs[i].1.user in authors && recs[i].1.tweet in tweets {
      assert RepostedBy(tweets, users, authors)(recs[i]);
    }
  }

  /** Every post of the tweet query, newest first. */
  function TweetSource(tweets: map<TweetId, Tweet>, users: map<UserId, Profile>, authors: set<UserId>)
    : (r: seq<Post>)
    ensures SortedBy(r, NewerPost)
    ensures forall i :: 0 <= i < |r| ==> r[i].TweetPost? && AuthoredTweet(tweets, authors, r[i].id, r[i].tweet)
  {
    var recs := Newest(tweets, ByAuthors(users, authors));
    TweetQueryAuthored(tweets, users, authors);
    TweetPostsAuthored(tweets, authors, recs);
    TweetPostsSorted(recs);
    TweetPosts(recs)
  }

  /** Every post of the retweet query, newest first. */
  function RepostSource(tweets: map<TweetId, Tweet>, users: map<UserId, Profile>, retweets: map<RetweetId, Retweet>,
                        authors: set<UserId>): (r: seq<Post>)
    ensures SortedBy(r, NewerPost)
  {
    var recs := Matching(retweets, RepostedBy(tweets, users, authors));
    RepostQueryAuthored(tweets, users, retweets, authors);
    RepostPostsSorted(tweets, recs);
    RepostPosts(tweets, recs)
  }

  /** Every post of the retweet query is a retweet of `authors`. */
  lemma RepostSourceAuthored(tweets: map<TweetId, Tweet>, users: map<UserId, Profile>, retweets: map<RetweetId, Retweet>,
                             authors: set<UserId>)
    ensures var r := RepostSource(tweets, users, retweets, authors);
      forall i :: 0 <= i < |r| ==>
        r[i].RepostPost? && AuthoredRepost(tweets, retweets, authors, r[i].id, r[i].retweet, r[i].original, r[i].kind)
  {
    var recs := Matching(retweets, RepostedBy(tweets, users, authors));
    RepostQueryAuthored(tweets, users, retweets, authors);
    assert RepostSource(tweets, users, retweets, authors) == RepostPosts(tweets, recs);
    RepostPostsAuthored(tweets, retweets, authors, recs);
  }

  /** A merge of posts from the two sources holds posts of `authors` only. */
  lemma MergedFromAuthors(tweets: map<TweetId, Tweet>, retweets: map<RetweetId, Retweet>, authors: set<UserId>,
                          ts: seq<Post>, rs: seq<Post>, posts: seq<Post>)
    requires forall i :: 0 <= i < |ts| ==> ts[i].TweetPost? && AuthoredTweet(tweets, authors, ts[i].id, ts[i].tweet)
    requires forall i :: 0 <= i < |rs| ==>
      rs[i].RepostPost? && AuthoredRepost(tweets, retweets, authors, rs[i].id, rs[i].retweet, rs[i].original, rs[i].kind)
    requires forall p :: p in posts ==> p in ts || p in rs
    ensures forall p :: p in posts ==> FromAuthors(tweets, retweets, authors, p)
  {
    forall p | p in posts ensures FromAuthors(tweets, retweets, authors, p) {
      if p in ts {
        var i :| 0 <= i < |ts| && ts[i] == p;
      } else {
        var i :| 0 <= i < |rs| && rs[i] == p;
      }
    }
  }

  // ------------------------------------------------------------- feeds

  datatype Feed = Feed(posts: seq<Post>, total: nat, page: nat, totalPages: nat)

  /** The merge of the two sources, on posts. */
  function MergePosts(ts: seq<Post>, rs: seq<Post>, page: nat, limit: nat): (r: seq<Post>)
    requires page >= 1 && limit >= 1
    ensures |r| <= limit
    ensures SortedBy(r, NewerPost)
    ensures forall p :: p in r ==> p in ts || p in rs
    ensures CutOfMerge(r, PageSlice(ts, page, limit), PageSlice(rs, page, limit), NewerPost, limit)
  {
    NewerPostIsPreorder();
    PagedMerge(ts, rs, NewerPost, page, limit)
  }

  /** The count queries, which look up no author or tweet. */
  function FeedTotal(tweets: map<TweetId, Tweet>, retweets: map<RetweetId, Retweet>, authors: set<UserId>): nat {
    Count(Records(tweets), (rec: (TweetId, Tweet)) => rec.1.author in authors && !rec.1.isReply)
    + Count(Records(retweets), (rec: (RetweetId, Retweet)) => rec.1.user in authors)
  }

  /** One page of the posts of `authors`, merged as written. */
  function FeedOf(tweets: map<TweetId, Tweet>, users: map<UserId, Profile>, retweets: map<RetweetId, Retweet>,
                  authors: set<UserId>, page: nat, limit: nat): (r: Feed)
    requires page >= 1 && limit >= 1
    ensures |r.posts| <= limit
    ensures SortedBy(r.posts, NewerPost)
    ensures forall p :: p in r.posts ==> FromAuthors(tweets, retweets, authors, p)
    ensures r.total == FeedTotal(tweets, retweets, authors) && r.page == page
    ensures r.totalPages == CeilDiv(r.total, limit)
    ensures CutOfMerge(r.posts, PageSlice(TweetSource(tweets, users, authors), page, limit),
                       PageSlice(RepostSource(tweets, users, retweets, authors), page, limit), NewerPost, limit)
  {
    var total := FeedTotal(tweets, retweets, authors);
    Feed(FeedPosts(tweets, users, retweets, authors, page, limit), total, page, CeilDiv(total, limit))
  }

  /** The posts of one page of the feed of `authors`. */
  function FeedPosts(tweets: map<TweetId, Tweet>, users: map<UserId, Profile>, retweets: map<RetweetId, Retweet>,
                     authors: set<UserId>, page: nat, limit: nat): (r: seq<Post>)
    requires page >= 1 && limit >= 1
    ensures |r| <= limit
    ensures SortedBy(r, NewerPost)
    ensures forall p :: p in r ==> FromAuthors(tweets, retweets, authors, p)
    ensures CutOfMerge(r, PageSlice(TweetSource(tweets, users, authors), page, limit),
                       PageSlice(RepostSource(tweets, users, retweets, authors), page, limit), NewerPost, limit)
  {
    var posts := MergePosts(TweetSource(tweets, users, authors), RepostSource(tweets, users, retweets, authors), page, limit);
    SourcesAuthored(tweets, users, retweets, authors, posts);
    posts
  }

  /** Posts drawn from the two sources of the feed of `authors` are posts
      of `authors`. */
  lemma SourcesAuthored(tweets: map<TweetId, Tweet>, users: map<UserId, Profile>, retweets: map<RetweetId, Retweet>,
                        authors: set<UserId>, posts: seq<Post>)
    requires forall p :: p in posts ==> p in TweetSource(tweets, users, authors) || p in RepostSource(tweets, users, retweets, authors)
    ensures forall p :: p in posts ==> FromAuthors(tweets, retweets, authors, p)
  {
    RepostSourceAuthored(tweets, users, retweets, authors);
    MergedFromAuthors(tweets, retweets, authors, TweetSource(tweets, users, authors),
                      RepostSource(tweets, users, retweets, authors), posts);
  }

  /** The communities `user` belongs to. */
  function CommunitiesOf(members: map<MemberId, Membership>, user: UserId): (r: set<CommunityId>)
    ensures forall c :: c in r <==> exists k :: k in members && members[k].user == user && members[k].community == c
  {
    set k | k in members && members[k].user == user :: members[k].community
  }

  /** The users with a record in one of `communities`, each once. */
  function UsersIn(members: map<MemberId, Membership>, communities: set<CommunityId>): (r: set<UserId>)
    ensures forall u :: u in r <==> exists k :: k in members && members[k].user == u && members[k].community in communities
  {
    set k | k in members && members[k].community in communities :: members[k].user
  }

  /** `getCommunityPosts`: for a caller with no membership an empty page
      with total 0 and no pages; otherwise one page of the posts of
      everyone who shares a community with the caller. */
  function GetCommunityPosts(members: map<MemberId, Membership>, tweets: map<TweetId, Tweet>,
                             users: map<UserId, Profile>, retweets: map<RetweetId, Retweet>,
                             user: UserId, page: nat, limit: nat): (r: Feed)
    requires page >= 1 && limit >= 1
    ensures CommunitiesOf(members, user) == {} ==> r == Feed([], 0, page, 0)
    ensures CommunitiesOf(members, user) != {} ==>
      r == FeedOf(tweets, users, retweets, UsersIn(members, CommunitiesOf(members, user)), page, limit)
    ensures |r.posts| <= limit && SortedBy(r.posts, NewerPost)
    ensures forall p :: p in r.posts ==> FromAuthors(tweets, retweets, UsersIn(members, CommunitiesOf(members, user)), p)
  {
    var mine := CommunitiesOf(members, user);
    if mine == {} then Feed([], 0, page, 0)
    else FeedOf(tweets, users, retweets, UsersIn(members, mine), page, limit)
  }

  /** `getCommunitySpecificPosts`: 500 for an id that does not parse, 403
      for a caller who is not a member; otherwise one page of the posts of
      the community's members. */
  function GetCommunitySpecificPosts(members: map<MemberId, Membership>, tweets: map<TweetId, Tweet>,
                                     users: map<UserId, Profile>, retweets: map<RetweetId, Retweet>,
                                     user: UserId, community: IdParam, page: nat, limit: nat): (r: Result<Feed>)
    requires page >= 1 && limit >= 1
    ensures r == Fail(SERVER_ERROR) <==> community.Malformed?
    ensures r == Fail(FORBIDDEN) <==> community.ObjectId? && FindMember(members, community.id, user).None?
    ensures r.Ok? ==>
      && r.status == OK && community.ObjectId?
      && r.value == FeedOf(tweets, users, retweets, UsersIn(members, {community.id}), page, limit)
  {
    match community
    case Malformed => Fail(SERVER_ERROR)
    case ObjectId(c) =>
      if FindMember(members, c, user).None? then Fail(FORBIDDEN)
      else Ok(OK, FeedOf(tweets, users, retweets, UsersIn(members, {c}), page, limit))
  }

  /** A caller whose only community is c sees the same feed from both
      endpoints. */
  lemma OneCommunityFeedsAgree(members: map<MemberId, Membership>, tweets: map<TweetId, Tweet>,
                               users: map<UserId, Profile>, retweets: map<RetweetId, Retweet>,
                               user: UserId, c: CommunityId, page: nat, limit: nat)
    requires page >= 1 && limit >= 1
    requires CommunitiesOf(members, user) == {c}
    ensures GetCommunitySpecificPosts(members, tweets, users, retweets, user, ObjectId(c), page, limit)
         == Ok(OK, GetCommunityPosts(members, tweets, users, retweets, user, page, limit))
  {
    assert c in CommunitiesOf(members, user);
    var k :| k in members && members[k].user == user && members[k].community == c;
    assert FindMember(members, c, user).Some?;
  }
}
